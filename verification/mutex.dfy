/** The blocking mutex of `src/os/mutex.rs`.

    A mutex is an owner slot and an intrusive list of waiting tasks; a
    task appears in the list through one stack-allocated node, so the list
    is a sequence of task identities without repetition. `lock` is split
    in two steps: the entry, which either claims the free mutex or parks
    the caller at the end of the list, and the resumption, which the
    scheduler performs once `unlock` made the parked task runnable. */
module Mutexes {
  import opened Common
  import LinkedLists

  type Tasks = map<TaskId, Status>

  datatype Mutex = Mutex(owner: Option<TaskId>, waiting: seq<TaskId>)

  /** What the entry half of `lock` leaves behind; `parked` says whether the
      caller blocked and still has to be resumed. */
  datatype Entered = Entered(m: Mutex, tasks: Tasks, parked: bool)

  /** The state `MutexLock` and a statically initialised mutex start from. */
  function Unlocked(): (m: Mutex)
    ensures m.owner == None && |m.waiting| == 0
  {
    Mutex(None, LinkedLists.New())
  }

  /** Entry half of `Mutex::lock`: a free mutex is claimed at once; a held
      one gets the caller appended to its waiting list, marked blocked. */
  function LockEnter(m: Mutex, tasks: Tasks, t: TaskId): (r: Entered)
    requires NoDup(m.waiting) && t !in m.waiting
    ensures m.owner.None? ==> !r.parked && r.m == Mutex(Some(t), m.waiting) && r.tasks == tasks
    ensures m.owner.Some? ==>
      && r.parked && r.m.owner == m.owner
      && r.m.waiting == m.waiting + [t]
      && r.tasks == tasks[t := Blocked]
    ensures NoDup(r.m.waiting)
  {
    match m.owner
    case None => Entered(LockResume(m, t), tasks, false)
    case Some(_) => Entered(Mutex(m.owner, LinkedLists.Append(m.waiting, t)), tasks[t := Blocked], true)
  }

  /** The entry half of `lock` with the list's `append` as written. */
  function LockEnterAsWritten(m: Mutex, tasks: Tasks, t: TaskId): (r: Entered)
    requires NoDup(m.waiting) && t !in m.waiting
    ensures m.owner.None? ==> !r.parked && r.m == Mutex(Some(t), m.waiting) && r.tasks == tasks
    ensures m.owner.Some? ==>
      && r.parked && r.m.owner == m.owner
      && r.tasks == tasks[t := Blocked]
      && r.m.waiting == (if |m.waiting| == 0 then [t] else m.waiting[..|m.waiting| - 1] + [t])
  {
    match m.owner
    case None => Entered(LockResume(m, t), tasks, false)
    case Some(_) => Entered(Mutex(m.owner, LinkedLists.AppendAsWritten(m.waiting, t)), tasks[t := Blocked], true)
  }

  /** Resumption half of `Mutex::lock`: the caller claims the mutex without
      looking at the owner slot again. Nothing but the owner changes. */
  function LockResume(m: Mutex, t: TaskId): (r: Mutex)
    ensures r.owner == Some(t) && r.waiting == m.waiting
  {
    m.(owner := Some(t))
  }

  /** `Mutex::unlock`: clear the owner and make the first waiter runnable;
      the other waiters keep their order. */
  function Unlock(m: Mutex, tasks: Tasks): (r: (Mutex, Tasks))
    ensures r.0.owner == None
    ensures |m.waiting| == 0 ==> r.0.waiting == m.waiting && r.1 == tasks
    ensures |m.waiting| > 0 ==> r.0.waiting == m.waiting[1..] && r.1 == tasks[m.waiting[0] := Runnable]
  {
    match LinkedLists.Pop(m.waiting)
    case (rest, None) => (Mutex(None, rest), tasks)
    case (rest, Some(next)) => (Mutex(None, rest), tasks[next := Runnable])
  }

  /** `unlock` that hands the mutex straight to the first waiter, so that
      no other task can claim it before that waiter resumes. */
  function UnlockHandoff(m: Mutex, tasks: Tasks): (r: (Mutex, Tasks))
    ensures |m.waiting| == 0 ==> r.0 == Mutex(None, m.waiting) && r.1 == tasks
    ensures |m.waiting| > 0 ==>
      r.0 == Mutex(Some(m.waiting[0]), m.waiting[1..]) && r.1 == tasks[m.waiting[0] := Runnable]
  {
    match LinkedLists.Pop(m.waiting)
    case (rest, None) => (Mutex(None, rest), tasks)
    case (rest, Some(next)) => (Mutex(Some(next), rest), tasks[next := Runnable])
  }

  /** `MutexLock::new` on a free mutex followed by its `drop` gives back the
      mutex and the task states it started from. */
  lemma GuardRoundTrip(m: Mutex, tasks: Tasks, t: TaskId)
    requires m.owner.None? && |m.waiting| == 0
    ensures var e := LockEnter(m, tasks, t);
      !e.parked && e.m.owner == Some(t) && Unlock(e.m, e.tasks) == (m, tasks)
  {
  }

  /** A contended `MutexLock::new` followed by the holder's `drop` makes the
      new task the first to run again, and its resumption makes it the owner. */
  lemma GuardWaitsForHolder(m: Mutex, tasks: Tasks, holder: TaskId, t: TaskId)
    requires m == Mutex(Some(holder), []) && t != holder
    ensures var e := LockEnter(m, tasks, t);
      var u := Unlock(e.m, e.tasks);
      && e.parked && e.tasks[t] == Blocked
      && u.1[t] == Runnable && u.0 == Mutex(None, [])
      && LockResume(u.0, t) == Mutex(Some(t), [])
  {
  }

  // ---------------------------------------------------------------------------
  // Tasks using one mutex

  /** Where a task stands with respect to the mutex. */
  datatype Pc = Idle | Parked | Holding

  datatype Sys = Sys(m: Mutex, tasks: Tasks, pc: map<TaskId, Pc>)

  /** The tasks between a returned `lock` and their `unlock`. */
  function Holders(s: Sys): (h: set<TaskId>)
    ensures forall t | t in h :: t in s.pc && s.pc[t] == Holding
  {
    set t | t in s.pc && s.pc[t] == Holding
  }

  /** A running, idle task calls `lock`. */
  function Lock(s: Sys, t: TaskId): (r: Sys)
    requires t in s.pc && s.pc[t] == Idle
    requires t in s.tasks && s.tasks[t] == Runnable
    requires NoDup(s.m.waiting) && t !in s.m.waiting
    ensures r.pc.Keys == s.pc.Keys
    ensures r.pc[t] == (if s.m.owner.None? then Holding else Parked)
    ensures forall u | u in s.pc && u != t :: r.pc[u] == s.pc[u]
    ensures s.m.owner.None? ==> r.m == Mutex(Some(t), s.m.waiting) && r.tasks == s.tasks
    ensures s.m.owner.Some? ==>
      r.m == Mutex(s.m.owner, s.m.waiting + [t]) && r.tasks == s.tasks[t := Blocked]
  {
    var e := LockEnter(s.m, s.tasks, t);
    Sys(e.m, e.tasks, s.pc[t := if e.parked then Parked else Holding])
  }

  /** The scheduler runs a parked task that `unlock` made runnable. */
  function Resume(s: Sys, t: TaskId): (r: Sys)
    requires t in s.pc && s.pc[t] == Parked
    requires t in s.tasks && s.tasks[t] == Runnable
    ensures r.pc.Keys == s.pc.Keys
    ensures r.m.owner == Some(t) && r.pc[t] == Holding
    ensures forall u | u in s.pc && u != t :: r.pc[u] == s.pc[u]
    ensures r.m.waiting == s.m.waiting && r.tasks == s.tasks
  {
    Sys(LockResume(s.m, t), s.tasks, s.pc[t := Holding])
  }

  /** The holder calls `unlock` as written. */
  function ReleaseAsWritten(s: Sys, t: TaskId): (r: Sys)
    requires t in s.pc && s.pc[t] == Holding
    ensures r.pc.Keys == s.pc.Keys
    ensures r.m.owner == None && r.pc[t] == Idle
    ensures forall u | u in s.pc && u != t :: r.pc[u] == s.pc[u]
    ensures |s.m.waiting| == 0 ==> r.m.waiting == [] && r.tasks == s.tasks
    ensures |s.m.waiting| > 0 ==>
      r.m.waiting == s.m.waiting[1..] && r.tasks == s.tasks[s.m.waiting[0] := Runnable]
  {
    var (m, tasks) := Unlock(s.m, s.tasks);
    Sys(m, tasks, s.pc[t := Idle])
  }

  /** The holder calls the handing-off `unlock`. */
  function Release(s: Sys, t: TaskId): (r: Sys)
    requires t in s.pc && s.pc[t] == Holding
    ensures r.pc.Keys == s.pc.Keys
    ensures r.pc[t] == Idle
    ensures forall u | u in s.pc && u != t :: r.pc[u] == s.pc[u]
  {
    var (m, tasks) := UnlockHandoff(s.m, s.tasks);
    Sys(m, tasks, s.pc[t := Idle])
  }

  /** Task `a` holds, `b` parks behind it; `a` unlocks and, before `b` is
      scheduled, locks again and finds the mutex free; then `b` resumes and
      claims it as well. Both tasks are past `lock` at once. */
  lemma TwoHoldersAsWritten(a: TaskId, b: TaskId, s0: Sys, s1: Sys, s2: Sys, s3: Sys, s4: Sys, s5: Sys)
    requires a != b
    requires s0 == Sys(Unlocked(), map[a := Runnable, b := Runnable], map[a := Idle, b := Idle])
    requires s1 == Lock(s0, a)
    requires s2 == Lock(s1, b)
    requires s3 == ReleaseAsWritten(s2, a)
    requires s4 == Lock(s3, a)
    requires s5 == Resume(s4, b)
    ensures s3.tasks[b] == Runnable && s3.pc[b] == Parked
    ensures Holders(s5) == {a, b}
  {
    assert s2.m.waiting == [b] && s3.m.waiting == [];
    assert s5.pc.Keys == {a, b};
  }

  /** With `append` as written, a second task parking behind the holder
      replaces the first in the waiting list: `unlock` then wakes only the
      second, and the first stays blocked with nobody left to wake it. */
  lemma LostWaiterAsWritten(owner: TaskId, a: TaskId, b: TaskId, tasks: Tasks)
    requires owner != a && owner != b && a != b
    ensures var e1 := LockEnterAsWritten(Mutex(Some(owner), []), tasks, a);
      var e2 := LockEnterAsWritten(e1.m, e1.tasks, b);
      var u := Unlock(e2.m, e2.tasks);
      && e2.m.waiting == [b]
      && u.0.waiting == [] && u.1[a] == Blocked && u.1[b] == Runnable
  {
    LinkedLists.AppendAsWrittenDropsLast(owner, a, b);
  }

  /** The bookkeeping the handing-off mutex keeps: the owner is the one
      holder, or a parked task already made runnable; every other parked
      task is blocked in the waiting list, exactly once. */
  ghost predicate Inv(s: Sys)
  {
    && NoDup(s.m.waiting)
    && (forall t | t in s.pc :: t in s.tasks)
    && (forall i | 0 <= i < |s.m.waiting| ::
          s.m.waiting[i] in s.pc && s.pc[s.m.waiting[i]] == Parked && s.tasks[s.m.waiting[i]] == Blocked)
    && (forall t | t in s.pc && s.pc[t] == Holding :: s.m.owner == Some(t))
    && (forall t | t in s.pc && s.pc[t] == Parked :: t in s.m.waiting || s.m.owner == Some(t))
    && (s.m.owner.Some? ==>
          && s.m.owner.value in s.pc
          && s.m.owner.value !in s.m.waiting
          && (s.pc[s.m.owner.value] == Holding
              || (s.pc[s.m.owner.value] == Parked && s.tasks[s.m.owner.value] == Runnable)))
  }

  /** Idle tasks, nobody waiting, nobody owning. */
  lemma InvInitial(tasks: Tasks, pc: map<TaskId, Pc>)
    requires pc.Keys <= tasks.Keys
    requires forall t | t in pc :: pc[t] == Idle
    ensures Inv(Sys(Unlocked(), tasks, pc))
  {
  }

  /** Mutual exclusion: under the invariant at most one task holds the mutex. */
  lemma MutualExclusion(s: Sys, t: TaskId, u: TaskId)
    requires Inv(s)
    requires t in s.pc && u in s.pc && s.pc[t] == Holding && s.pc[u] == Holding
    ensures t == u
  {
  }

  /** `lock` keeps the invariant. */
  lemma LockKeepsInv(s: Sys, t: TaskId)
    requires Inv(s) && t in s.pc && s.pc[t] == Idle && s.tasks[t] == Runnable
    ensures t !in s.m.waiting
    ensures Inv(Lock(s, t))
  {
    assert t !in s.m.waiting by {
      forall i | 0 <= i < |s.m.waiting| ensures s.m.waiting[i] != t {
        assert s.pc[s.m.waiting[i]] == Parked;
      }
    }
    var r := Lock(s, t);
    if s.m.owner.Some? {
      assert r.m.waiting == s.m.waiting + [t];
      forall i | 0 <= i < |r.m.waiting|
        ensures r.m.waiting[i] in r.pc && r.pc[r.m.waiting[i]] == Parked && r.tasks[r.m.waiting[i]] == Blocked
      {
        if i < |s.m.waiting| {
          assert r.m.waiting[i] == s.m.waiting[i];
        }
      }
    }
  }

  /** Resuming a runnable parked task keeps the invariant: only the owner
      can be runnable while parked. */
  lemma ResumeKeepsInv(s: Sys, t: TaskId)
    requires Inv(s) && t in s.pc && s.pc[t] == Parked && s.tasks[t] == Runnable
    ensures s.m.owner == Some(t)
    ensures Inv(Resume(s, t))
  {
    forall i | 0 <= i < |s.m.waiting| ensures s.m.waiting[i] != t {
      assert s.tasks[s.m.waiting[i]] == Blocked;
    }
  }

  /** The handing-off `unlock` keeps the invariant and passes the mutex to
      the longest-waiting task. */
  lemma ReleaseKeepsInv(s: Sys, t: TaskId)
    requires Inv(s) && t in s.pc && s.pc[t] == Holding
    ensures Inv(Release(s, t))
    ensures |s.m.waiting| > 0 ==> Release(s, t).m.owner == Some(s.m.waiting[0])
    ensures |s.m.waiting| == 0 ==> Release(s, t).m.owner == None
  {
    var r := Release(s, t);
    var w := s.m.waiting;
    if |w| > 0 {
      assert r.m.waiting == w[1..];
      assert w[0] != t by { assert s.pc[w[0]] == Parked; }
      assert w[0] !in w[1..] by {
        forall i | 0 <= i < |w[1..]| ensures w[1..][i] != w[0] {
          assert w[1..][i] == w[i + 1];
        }
      }
      forall i | 0 <= i < |r.m.waiting|
        ensures r.m.waiting[i] in r.pc && r.pc[r.m.waiting[i]] == Parked && r.tasks[r.m.waiting[i]] == Blocked
      {
        assert r.m.waiting[i] == w[i + 1];
        assert w[i + 1] != w[0];
      }
      forall u | u in r.pc && r.pc[u] == Parked ensures u in r.m.waiting || r.m.owner == Some(u)
      {
        if u != w[0] {
          assert u in w;
          var k := IndexOf(w, u);
          assert k > 0;
          assert r.m.waiting[k - 1] == u;
        }
      }
    }
  }
}
