/** The condition variable of `src/os/cond_var.rs`.

    A condition variable is its identity (its address in the source) and a
    queue of wait entries. Each entry names a blocked task and a
    "signalled" slot; the slots live in the waiting tasks' stack frames and
    are modelled as one map from slot to the identity of the condition
    variable that signalled it (`None` while unsignalled). The external
    scheduler's task states are a map from task to `Status`; `block` and
    `unblock` are updates of that map. */
module CondVars {
  import opened Common
  import Queues

  type CondId = nat
  type SlotId = nat

  /** `WaitEntry`: a blocked task and the slot it shares with its other entries. */
  datatype WaitEntry = WaitEntry(task: TaskId, slot: SlotId)

  datatype CondVar = CondVar(id: CondId, waiting: Queues.Queue<WaitEntry>)

  type Slots = map<SlotId, Option<CondId>>
  type Tasks = map<TaskId, Status>

  /** What `signal` leaves behind, and the task it unblocked, if any. */
  datatype Signalled = Signalled(cv: CondVar, slots: Slots, tasks: Tasks, woken: Option<TaskId>)

  /** Every queued entry points at a live slot and a known task. */
  predicate EntriesValid(items: seq<WaitEntry>, slots: Slots, tasks: Tasks)
  {
    forall i | 0 <= i < |items| :: items[i].slot in slots && items[i].task in tasks
  }

  /** Entries share a slot exactly when they belong to the same task, as
      `wait` and `wait_many` arrange: one slot per blocking call, and a
      blocked task makes no further call. */
  predicate SlotOwner(items: seq<WaitEntry>)
  {
    forall i, j | 0 <= i < |items| && 0 <= j < |items| ::
      (items[i].slot == items[j].slot) == (items[i].task == items[j].task)
  }

  /** `CondVar::new` / `COND_VAR_INIT`: nobody waiting. */
  function New(id: CondId): (cv: CondVar)
    ensures cv.id == id && |cv.waiting.items| == 0 && Queues.Wf(cv.waiting)
  {
    CondVar(id, Queues.New())
  }

  /** `CondVar::wait`: push one entry with a fresh, empty slot at the tail of
      this queue and block the caller. */
  function Wait(cv: CondVar, task: TaskId, slot: SlotId, slots: Slots, tasks: Tasks): (r: (CondVar, Slots, Tasks))
    requires slot !in slots
    ensures r.0.id == cv.id
    ensures r.0.waiting.items == cv.waiting.items + [WaitEntry(task, slot)]
    ensures r.1.Keys == slots.Keys + {slot} && r.1[slot] == None
    ensures forall s | s in slots :: r.1[s] == slots[s]
    ensures r.2.Keys == tasks.Keys + {task} && r.2[task] == Blocked
    ensures forall t | t in tasks && t != task :: r.2[t] == tasks[t]
  {
    (CondVar(cv.id, Queues.Push(cv.waiting, WaitEntry(task, slot))), slots[slot := None], tasks[task := Blocked])
  }

  /** Reference definition: the position of the first entry whose slot is
      still empty. */
  function FirstUnsignalled(items: seq<WaitEntry>, slots: Slots): (k: Option<nat>)
    requires forall i | 0 <= i < |items| :: items[i].slot in slots
    ensures k.Some? ==> k.value < |items| && slots[items[k.value].slot] == None
    ensures k.Some? ==> forall j | 0 <= j < k.value :: slots[items[j].slot] != None
    ensures k.None? ==> forall j | 0 <= j < |items| :: slots[items[j].slot] != None
  {
    if |items| == 0 then None
    else if slots[items[0].slot] == None then Some(0)
    else match FirstUnsignalled(items[1..], slots)
      case None => None
      case Some(k) => Some(k + 1)
  }

  /** `CondVar::signal`: pop entries until one has an empty slot; claim that
      slot for this condition variable, unblock its task and stop. Entries
      popped on the way (already signalled by another condition variable in
      a `wait_many`) are dropped without waking anybody. */
  function Signal(cv: CondVar, slots: Slots, tasks: Tasks): (r: Signalled)
    requires EntriesValid(cv.waiting.items, slots, tasks)
    ensures r.cv.id == cv.id
    ensures Queues.Wf(cv.waiting) ==> Queues.Wf(r.cv.waiting)
    ensures var items := cv.waiting.items;
      match FirstUnsignalled(items, slots)
      case None =>
        r.cv.waiting.items == [] && r.slots == slots && r.tasks == tasks && r.woken == None
      case Some(k) =>
        && r.cv.waiting.items == items[k + 1..]
        && r.slots == slots[items[k].slot := Some(cv.id)]
        && r.tasks == tasks[items[k].task := Runnable]
        && r.woken == Some(items[k].task)
    decreases |cv.waiting.items|
  {
    match Queues.Pop(cv.waiting)
    case (_, None) => Signalled(cv, slots, tasks, None)
    case (q, Some(e)) =>
      if slots[e.slot] == None then
        Signalled(CondVar(cv.id, q), slots[e.slot := Some(cv.id)], tasks[e.task := Runnable], Some(e.task))
      else
        assert q.items == cv.waiting.items[1..];
        Signal(CondVar(cv.id, q), slots, tasks)
  }

  /** What an as-written `signal` or `broadcast` ends in: it returns, or it
      dereferences the null pointer `pop` hands back when it removes the
      last queued node. */
  datatype AsWritten = Finished(s: Signalled) | NullDeref

  /** `CondVar::signal` over `pop` as written, which returns the successor of
      the node it removes: the entry examined is always the one behind the
      removed head, and it stays queued. */
  function SignalAsWritten(cv: CondVar, slots: Slots, tasks: Tasks): (r: AsWritten)
    requires EntriesValid(cv.waiting.items, slots, tasks)
    ensures var items := cv.waiting.items;
      |items| == 0 ==> r == Finished(Signalled(cv, slots, tasks, None))
    ensures var items := cv.waiting.items;
      |items| > 0 ==>
        match FirstUnsignalled(items[1..], slots)
        case None => r == NullDeref
        case Some(k) =>
          && r.Finished?
          && r.s.cv.waiting.items == items[k + 1..]
          && r.s.slots == slots[items[k + 1].slot := Some(cv.id)]
          && r.s.tasks == tasks[items[k + 1].task := Runnable]
          && r.s.woken == Some(items[k + 1].task)
    decreases |cv.waiting.items|
  {
    var items := cv.waiting.items;
    match Queues.PopAsWritten(cv.waiting)
    case (_, Empty) => Finished(Signalled(cv, slots, tasks, None))
    case (_, Returned(None)) => NullDeref
    case (q, Returned(Some(e))) =>
      assert e == items[1] && q.items == items[1..];
      if slots[e.slot] == None then
        Finished(Signalled(CondVar(cv.id, q), slots[e.slot := Some(cv.id)], tasks[e.task := Runnable], Some(e.task)))
      else
        var r := SignalAsWritten(CondVar(cv.id, q), slots, tasks);
        assert items[1..][1..] == items[2..];
        assert forall i | 0 <= i < |items[2..]| :: items[2..][i] == items[1..][i + 1];
        r
  }

  /** As written, `signal` on three plain waiters `a, b, c` wakes `b`, then
      `c`, and the third `signal` dereferences a null pointer: `a` is never
      woken. The corrected `Signal` wakes `a`, `b`, `c` in turn. */
  lemma SignalAsWrittenSkipsHead(id: CondId, a: TaskId, b: TaskId, c: TaskId, tasks: Tasks)
    requires a in tasks && b in tasks && c in tasks
    ensures var cv := CondVar(id, Queues.Queue([WaitEntry(a, 0), WaitEntry(b, 1), WaitEntry(c, 2)], Some(WaitEntry(c, 2))));
      var slots: Slots := map[0 := None, 1 := None, 2 := None];
      var r1 := SignalAsWritten(cv, slots, tasks);
      && r1.Finished? && r1.s.woken == Some(b) && r1.s.slots[0] == None
      && var r2 := SignalAsWritten(r1.s.cv, r1.s.slots, r1.s.tasks);
      && r2.Finished? && r2.s.woken == Some(c) && r2.s.slots[0] == None
      && SignalAsWritten(r2.s.cv, r2.s.slots, r2.s.tasks) == NullDeref
  {
    var items := [WaitEntry(a, 0), WaitEntry(b, 1), WaitEntry(c, 2)];
    var slots: Slots := map[0 := None, 1 := None, 2 := None];
    assert items[1..] == [WaitEntry(b, 1), WaitEntry(c, 2)];
    assert FirstUnsignalled(items[1..], slots) == Some(0);
    var s1 := slots[1 := Some(id)];
    assert items[1..][1..] == [WaitEntry(c, 2)];
    assert FirstUnsignalled(items[1..][1..], s1) == Some(0);
    assert FirstUnsignalled(items[1..], s1) == Some(1);
    var s2 := s1[2 := Some(id)];
    assert items[2..][1..] == [];
  }

  /** `CondVar::broadcast` over `pop` as written: every node `pop` hands back
      is examined and claimed if its slot is empty, but removing the last
      node hands back a null pointer, which is dereferenced. */
  function BroadcastAsWritten(cv: CondVar, slots: Slots, tasks: Tasks): (r: AsWritten)
    requires EntriesValid(cv.waiting.items, slots, tasks)
    ensures r.Finished? <==> |cv.waiting.items| == 0
    ensures r.Finished? ==> r.s == Signalled(cv, slots, tasks, None)
    decreases |cv.waiting.items|
  {
    var items := cv.waiting.items;
    match Queues.PopAsWritten(cv.waiting)
    case (_, Empty) => Finished(Signalled(cv, slots, tasks, None))
    case (_, Returned(None)) => NullDeref
    case (q, Returned(Some(e))) =>
      assert e == items[1] && q.items == items[1..];
      var slots', tasks' := if slots[e.slot] == None then slots[e.slot := Some(cv.id)] else slots,
                            if slots[e.slot] == None then tasks[e.task := Runnable] else tasks;
      assert EntriesValid(q.items, slots', tasks') by {
        assert forall i | 0 <= i < |q.items| :: q.items[i] == items[i + 1];
      }
      BroadcastAsWritten(CondVar(cv.id, q), slots', tasks')
  }

  /** `signal` fills only empty slots: a slot, once set, is never overwritten,
      so a task in `wait_many` learns one waker. It also unblocks at most one task. */
  lemma SignalWritesOnlyEmptySlots(cv: CondVar, slots: Slots, tasks: Tasks)
    requires EntriesValid(cv.waiting.items, slots, tasks)
    ensures var r := Signal(cv, slots, tasks);
      && r.slots.Keys == slots.Keys
      && (forall s | s in slots && slots[s].Some? :: r.slots[s] == slots[s])
      && (forall s | s in slots && r.slots[s] != slots[s] :: r.slots[s] == Some(cv.id))
      && r.tasks.Keys == tasks.Keys
      && (forall t | t in tasks && r.tasks[t] != tasks[t] :: r.woken == Some(t))
  {
  }

  /** Signalling a condition variable nobody waits on changes nothing. */
  lemma SignalEmptyIsNoop(cv: CondVar, slots: Slots, tasks: Tasks)
    requires |cv.waiting.items| == 0
    ensures Signal(cv, slots, tasks) == Signalled(cv, slots, tasks, None)
  {
  }

  /** Every queued entry has its own slot and none is signalled yet: the
      state of a condition variable that only plain `wait` calls reached. */
  predicate Fresh(items: seq<WaitEntry>, slots: Slots)
  {
    && (forall i | 0 <= i < |items| :: items[i].slot in slots && slots[items[i].slot] == None)
    && (forall i, j | 0 <= i < j < |items| :: items[i].slot != items[j].slot)
  }

  /** The tasks woken by `n` successive `signal` calls. */
  function SignalRepeatedly(cv: CondVar, slots: Slots, tasks: Tasks, n: nat): (woken: seq<Option<TaskId>>)
    requires EntriesValid(cv.waiting.items, slots, tasks)
    ensures |woken| == n
    decreases n
  {
    if n == 0 then []
    else
      var r := Signal(cv, slots, tasks);
      SignalValidAfter(cv, slots, tasks);
      [r.woken] + SignalRepeatedly(r.cv, r.slots, r.tasks, n - 1)
  }

  /** `signal` keeps every remaining entry pointing at a live slot and task. */
  lemma SignalValidAfter(cv: CondVar, slots: Slots, tasks: Tasks)
    requires EntriesValid(cv.waiting.items, slots, tasks)
    ensures var r := Signal(cv, slots, tasks); EntriesValid(r.cv.waiting.items, r.slots, r.tasks)
  {
    var items := cv.waiting.items;
    match FirstUnsignalled(items, slots)
    case None =>
    case Some(k) =>
      var rest := items[k + 1..];
      assert forall i | 0 <= i < |rest| :: rest[i] == items[k + 1 + i];
  }

  /** On a fresh queue `signal` wakes the head and leaves a fresh queue. */
  lemma SignalKeepsFresh(cv: CondVar, slots: Slots, tasks: Tasks)
    requires EntriesValid(cv.waiting.items, slots, tasks) && Fresh(cv.waiting.items, slots)
    requires |cv.waiting.items| > 0
    ensures var r := Signal(cv, slots, tasks);
      && r.woken == Some(cv.waiting.items[0].task)
      && r.cv.waiting.items == cv.waiting.items[1..]
      && Fresh(r.cv.waiting.items, r.slots)
  {
    var items := cv.waiting.items;
    SignalHead(cv, slots, tasks);
    var slots' := slots[items[0].slot := Some(cv.id)];
    forall i | 0 <= i < |items[1..]|
      ensures items[1..][i].slot in slots' && slots'[items[1..][i].slot] == None
    {
      assert items[1..][i] == items[i + 1];
    }
    forall i, j | 0 <= i < j < |items[1..]| ensures items[1..][i].slot != items[1..][j].slot
    {
      assert items[1..][i] == items[i + 1] && items[1..][j] == items[j + 1];
    }
  }

  /** The tasks of `items`, in order, each as woken. */
  function InOrder(items: seq<WaitEntry>): (ws: seq<Option<TaskId>>)
    ensures |ws| == |items| && forall i | 0 <= i < |items| :: ws[i] == Some(items[i].task)
  {
    seq(|items|, i requires 0 <= i < |items| => Some(items[i].task))
  }

  /** Tasks that waited with plain `wait` are woken one per `signal`, in the
      order in which they waited. */
  lemma SignalsWakeInArrivalOrder(cv: CondVar, slots: Slots, tasks: Tasks, n: nat)
    requires EntriesValid(cv.waiting.items, slots, tasks) && Fresh(cv.waiting.items, slots)
    requires n <= |cv.waiting.items|
    ensures SignalRepeatedly(cv, slots, tasks, n) == InOrder(cv.waiting.items[..n])
    ensures forall i | 0 <= i < n :: SignalRepeatedly(cv, slots, tasks, n)[i] == Some(cv.waiting.items[i].task)
  {
    SignalsInOrder(cv, slots, tasks);
    SignalPrefix(cv, slots, tasks, n, |cv.waiting.items|);
    assert InOrder(cv.waiting.items)[..n] == InOrder(cv.waiting.items[..n]);
  }

  /** The induction behind `SignalsWakeInArrivalOrder`, over the whole queue.
      The step lives in `SignalFreshStep`, so that no slice of the queue is in
      scope here. */
  lemma {:induction false} SignalsInOrder(cv: CondVar, slots: Slots, tasks: Tasks)
    requires EntriesValid(cv.waiting.items, slots, tasks) && Fresh(cv.waiting.items, slots)
    ensures SignalRepeatedly(cv, slots, tasks, |cv.waiting.items|) == InOrder(cv.waiting.items)
    decreases |cv.waiting.items|
  {
    if |cv.waiting.items| > 0 {
      var cv', slots', tasks' := SignalFreshStep(cv, slots, tasks);
      SignalsInOrder(cv', slots', tasks');
    } else {
      assert InOrder(cv.waiting.items) == [];
    }
  }

  /** The first signal on a fresh, non-empty queue wakes the head and leaves
      the rest of the queue fresh. */
  lemma SignalFreshStep(cv: CondVar, slots: Slots, tasks: Tasks)
    returns (cv': CondVar, slots': Slots, tasks': Tasks)
    requires EntriesValid(cv.waiting.items, slots, tasks) && Fresh(cv.waiting.items, slots)
    requires |cv.waiting.items| > 0
    ensures |cv'.waiting.items| == |cv.waiting.items| - 1
    ensures EntriesValid(cv'.waiting.items, slots', tasks') && Fresh(cv'.waiting.items, slots')
    ensures SignalRepeatedly(cv, slots, tasks, |cv.waiting.items|)
      == [Some(cv.waiting.items[0].task)] + SignalRepeatedly(cv', slots', tasks', |cv'.waiting.items|)
    ensures InOrder(cv.waiting.items) == [Some(cv.waiting.items[0].task)] + InOrder(cv'.waiting.items)
  {
    var r := Signal(cv, slots, tasks);
    SignalKeepsFresh(cv, slots, tasks);
    SignalValidAfter(cv, slots, tasks);
    InOrderCons(cv.waiting.items);
    cv', slots', tasks' := r.cv, r.slots, r.tasks;
  }

  /** Splitting the head off the arrival order. */
  lemma InOrderCons(items: seq<WaitEntry>)
    requires |items| > 0
    ensures InOrder(items) == [Some(items[0].task)] + InOrder(items[1..])
  {
    assert InOrder(items)[1..] == InOrder(items[1..]);
  }

  /** Fewer signals wake a prefix of what more signals wake. */
  lemma {:induction false} SignalPrefix(cv: CondVar, slots: Slots, tasks: Tasks, n: nat, m: nat)
    requires EntriesValid(cv.waiting.items, slots, tasks) && n <= m
    ensures SignalRepeatedly(cv, slots, tasks, n) == SignalRepeatedly(cv, slots, tasks, m)[..n]
    decreases n
  {
    if n > 0 {
      var r := Signal(cv, slots, tasks);
      SignalValidAfter(cv, slots, tasks);
      SignalPrefix(r.cv, r.slots, r.tasks, n - 1, m - 1);
    }
  }

  /** `signal` with an unsignalled entry at the head wakes that entry. */
  lemma SignalHead(cv: CondVar, slots: Slots, tasks: Tasks)
    requires EntriesValid(cv.waiting.items, slots, tasks)
    requires |cv.waiting.items| > 0 && slots[cv.waiting.items[0].slot] == None
    ensures var e := cv.waiting.items[0];
      Signal(cv, slots, tasks).woken == Some(e.task)
      && Signal(cv, slots, tasks).cv.waiting.items == cv.waiting.items[1..]
      && Signal(cv, slots, tasks).slots == slots[e.slot := Some(cv.id)]
      && Signal(cv, slots, tasks).tasks == tasks[e.task := Runnable]
  {
    assert FirstUnsignalled(cv.waiting.items, slots) == Some(0);
  }

  /** `wait` with a slot not in use keeps a fresh queue fresh: the new entry
      has its own empty slot, so the arrival-order lemmas above apply to any
      queue built by `wait` calls. */
  lemma WaitKeepsFresh(cv: CondVar, task: TaskId, slot: SlotId, slots: Slots, tasks: Tasks)
    requires slot !in slots
    requires EntriesValid(cv.waiting.items, slots, tasks) && Fresh(cv.waiting.items, slots)
    ensures var r := Wait(cv, task, slot, slots, tasks);
      EntriesValid(r.0.waiting.items, r.1, r.2) && Fresh(r.0.waiting.items, r.1)
  {
    var r := Wait(cv, task, slot, slots, tasks);
    var items, items' := cv.waiting.items, r.0.waiting.items;
    forall i, j | 0 <= i < j < |items'| ensures items'[i].slot != items'[j].slot {
      if j == |items| {
        assert items'[i] == items[i] && items[i].slot in slots;
      } else {
        assert items'[i] == items[i] && items'[j] == items[j];
      }
    }
    forall i | 0 <= i < |items'| ensures items'[i].slot in r.1 && r.1[items'[i].slot] == None && items'[i].task in r.2 {
      if i < |items| { assert items'[i] == items[i]; }
    }
  }

  /** `wait` on three tasks in turn produces the queue the lemma above starts from. */
  lemma WaitQueuesInArrivalOrder(id: CondId, a: TaskId, b: TaskId, c: TaskId, tasks: Tasks)
    ensures var (cv1, s1, t1) := Wait(New(id), a, 0, map[], tasks);
      var (cv2, s2, t2) := Wait(cv1, b, 1, s1, t1);
      var (cv3, s3, t3) := Wait(cv2, c, 2, s2, t2);
      && cv3.waiting.items == [WaitEntry(a, 0), WaitEntry(b, 1), WaitEntry(c, 2)]
      && s3 == map[0 := None, 1 := None, 2 := None]
      && t3[a] == Blocked && t3[b] == Blocked && t3[c] == Blocked
  {
  }

  /** The slots used by the entries of `items`. */
  function SlotsOf(items: seq<WaitEntry>): set<SlotId>
  {
    set i | 0 <= i < |items| :: items[i].slot
  }

  /** The tasks of the entries of `items` whose slot is empty in `slots`. */
  function UnsignalledTasks(items: seq<WaitEntry>, slots: Slots): set<TaskId>
    requires forall i | 0 <= i < |items| :: items[i].slot in slots
  {
    set i | 0 <= i < |items| && slots[items[i].slot] == None :: items[i].task
  }

  /** Extending the processed prefix by one entry. */
  lemma PrefixStep(items: seq<WaitEntry>, n: nat, slots: Slots)
    requires n < |items|
    requires forall i | 0 <= i < |items| :: items[i].slot in slots
    ensures SlotsOf(items[..n + 1]) == SlotsOf(items[..n]) + {items[n].slot}
    ensures UnsignalledTasks(items[..n + 1], slots)
         == UnsignalledTasks(items[..n], slots) + (if slots[items[n].slot] == None then {items[n].task} else {})
  {
    var a, b := items[..n], items[..n + 1];
    assert forall i | 0 <= i < n :: b[i] == a[i];
    assert b[n] == items[n];
    assert SlotsOf(b) == SlotsOf(a) + {items[n].slot} by {
      forall x | x in SlotsOf(b) ensures x in SlotsOf(a) + {items[n].slot} {
        var i :| 0 <= i < |b| && b[i].slot == x;
        if i < n { assert a[i].slot == x; }
      }
      forall x | x in SlotsOf(a) ensures x in SlotsOf(b) {
        var i :| 0 <= i < |a| && a[i].slot == x;
        assert b[i].slot == x;
      }
    }
    var extra: set<TaskId> := if slots[items[n].slot] == None then {items[n].task} else {};
    assert UnsignalledTasks(b, slots) == UnsignalledTasks(a, slots) + extra by {
      forall t | t in UnsignalledTasks(b, slots) ensures t in UnsignalledTasks(a, slots) + extra {
        var i :| 0 <= i < |b| && slots[b[i].slot] == None && b[i].task == t;
        if i < n { assert slots[a[i].slot] == None && a[i].task == t; }
      }
      forall t | t in UnsignalledTasks(a, slots) ensures t in UnsignalledTasks(b, slots) {
        var i :| 0 <= i < |a| && slots[a[i].slot] == None && a[i].task == t;
        assert slots[b[i].slot] == None && b[i].task == t;
      }
    }
  }

  /** Under `SlotOwner`, the task of entry `n` is among the earlier tasks
      exactly when its slot is among the earlier slots. */
  lemma OwnerOfSeenSlot(items: seq<WaitEntry>, n: nat, slots: Slots)
    requires n < |items| && SlotOwner(items)
    requires forall i | 0 <= i < |items| :: items[i].slot in slots
    ensures items[n].slot in SlotsOf(items[..n]) && slots[items[n].slot] == None ==>
      items[n].task in UnsignalledTasks(items[..n], slots)
    ensures items[n].slot !in SlotsOf(items[..n]) ==> items[n].task !in UnsignalledTasks(items[..n], slots)
  {
    var a := items[..n];
    if items[n].slot in SlotsOf(a) && slots[items[n].slot] == None {
      var j :| 0 <= j < |a| && a[j].slot == items[n].slot;
      assert items[j].slot == items[n].slot;
      assert items[j].task == items[n].task;
      assert slots[a[j].slot] == None && a[j].task == items[n].task;
    }
    forall j | 0 <= j < n && items[j].task == items[n].task
      ensures items[n].slot in SlotsOf(a)
    {
      assert a[j].slot == items[n].slot;
    }
  }

  /** After `n` steps of `broadcast`, the slots of those entries that were
      empty are set to `id` and no other slot has changed. */
  predicate SlotsInv(items: seq<WaitEntry>, n: nat, id: CondId, slots: Slots, sl: Slots)
    requires n <= |items|
  {
    && sl.Keys == slots.Keys
    && forall s | s in slots ::
      sl[s] == (if slots[s] == None && s in SlotsOf(items[..n]) then Some(id) else slots[s])
  }

  /** After `n` steps of `broadcast`, `w` holds tasks of entries that were
      unsignalled and, under `SlotOwner`, each such task exactly once. */
  predicate WokenInv(items: seq<WaitEntry>, n: nat, slots: Slots, w: seq<TaskId>)
    requires n <= |items| && forall i | 0 <= i < |items| :: items[i].slot in slots
  {
    && (forall k | 0 <= k < |w| :: w[k] in UnsignalledTasks(items[..n], slots))
    && (SlotOwner(items) ==> forall t | t in UnsignalledTasks(items[..n], slots) :: t in w)
    && (SlotOwner(items) ==> NoDup(w))
  }

  /** Exactly the tasks in `w` have been made runnable. */
  predicate TasksInv(tasks: Tasks, ts: Tasks, w: seq<TaskId>)
  {
    && ts.Keys == tasks.Keys
    && forall t | t in tasks :: ts[t] == (if t in w then Runnable else tasks[t])
  }

  /** One step of `broadcast` on the slots: entry `n` claims its slot
      exactly when nobody, neither an earlier entry nor another condition
      variable, has set it. */
  lemma BroadcastSlotsStep(items: seq<WaitEntry>, n: nat, id: CondId, slots: Slots, sl: Slots)
    requires n < |items|
    requires forall i | 0 <= i < |items| :: items[i].slot in slots
    requires SlotsInv(items, n, id, slots, sl)
    ensures var e := items[n];
      && (sl[e.slot] == None <==> slots[e.slot] == None && e.slot !in SlotsOf(items[..n]))
      && SlotsInv(items, n + 1, id, slots, if sl[e.slot] == None then sl[e.slot := Some(id)] else sl)
  {
    PrefixStep(items, n, slots);
  }

  /** One step of `broadcast` on the woken tasks: the task of entry `n` is
      added exactly when its slot was still free. */
  lemma BroadcastWokenStep(items: seq<WaitEntry>, n: nat, slots: Slots, w: seq<TaskId>, unclaimed: bool)
    requires n < |items|
    requires forall i | 0 <= i < |items| :: items[i].slot in slots
    requires unclaimed <==> slots[items[n].slot] == None && items[n].slot !in SlotsOf(items[..n])
    requires WokenInv(items, n, slots, w)
    ensures WokenInv(items, n + 1, slots, if unclaimed then w + [items[n].task] else w)
  {
    PrefixStep(items, n, slots);
    if SlotOwner(items) {
      OwnerOfSeenSlot(items, n, slots);
    }
  }

  /** Popping a queue that holds the suffix `items[n..]` yields `items[n]`
      and leaves the next suffix. */
  lemma PopSuffix<T>(q: Queues.Queue<T>, items: seq<T>, n: nat)
    requires n < |items| && q.items == items[n..]
    ensures Queues.Pop(q).1 == Some(items[n]) && Queues.Pop(q).0.items == items[n + 1..]
    ensures Queues.Wf(q) ==> Queues.Wf(Queues.Pop(q).0)
  {
    assert q.items[1..] == items[n + 1..];
  }

  /** One step of `broadcast` on the task statuses: the task is made
      runnable exactly when it is added to the woken tasks. */
  lemma BroadcastTasksStep(tasks: Tasks, ts: Tasks, w: seq<TaskId>, task: TaskId, unclaimed: bool)
    requires task in tasks && TasksInv(tasks, ts, w)
    ensures TasksInv(tasks, if unclaimed then ts[task := Runnable] else ts, if unclaimed then w + [task] else w)
  {
  }

  /** What the first `n` steps of `broadcast` have done: the slots of those
      entries that were empty are set to `id`, the tasks of the entries that
      claimed their slot are woken, and exactly those tasks are runnable. */
  predicate BroadcastInv(items: seq<WaitEntry>, n: nat, id: CondId, slots: Slots, tasks: Tasks,
                         sl: Slots, ts: Tasks, w: seq<TaskId>)
    requires n <= |items| && EntriesValid(items, slots, tasks)
  {
    SlotsInv(items, n, id, slots, sl) && WokenInv(items, n, slots, w) && TasksInv(tasks, ts, w)
  }

  /** One step of `broadcast`: entry `n` claims its slot when it is still
      empty, and its task is then woken. */
  lemma BroadcastStep(items: seq<WaitEntry>, n: nat, id: CondId, slots: Slots, tasks: Tasks,
                      sl: Slots, ts: Tasks, w: seq<TaskId>)
    requires n < |items| && EntriesValid(items, slots, tasks)
    requires BroadcastInv(items, n, id, slots, tasks, sl, ts, w)
    ensures var e := items[n];
      var unclaimed := sl[e.slot] == None;
      BroadcastInv(items, n + 1, id, slots, tasks,
        if unclaimed then sl[e.slot := Some(id)] else sl,
        if unclaimed then ts[e.task := Runnable] else ts,
        if unclaimed then w + [e.task] else w)
  {
    var e := items[n];
    var unclaimed := sl[e.slot] == None;
    BroadcastSlotsStep(items, n, id, slots, sl);
    BroadcastWokenStep(items, n, slots, w, unclaimed);
    BroadcastTasksStep(tasks, ts, w, e.task, unclaimed);
  }

  /** `CondVar::broadcast`: drain the whole queue; every popped entry whose
      slot is still empty gets this condition variable in its slot and its
      task unblocked. */
  method Broadcast(cv: CondVar, slots: Slots, tasks: Tasks)
    returns (cv': CondVar, slots': Slots, tasks': Tasks, woken: seq<TaskId>)
    requires EntriesValid(cv.waiting.items, slots, tasks)
    ensures cv'.id == cv.id && cv'.waiting.items == []
    ensures Queues.Wf(cv.waiting) ==> Queues.Wf(cv'.waiting)
    ensures slots'.Keys == slots.Keys
    ensures forall s | s in slots ::
      slots'[s] == (if slots[s] == None && s in SlotsOf(cv.waiting.items) then Some(cv.id) else slots[s])
    ensures forall k | 0 <= k < |woken| :: woken[k] in UnsignalledTasks(cv.waiting.items, slots)
    ensures SlotOwner(cv.waiting.items) ==>
      forall t | t in UnsignalledTasks(cv.waiting.items, slots) :: t in woken
    ensures SlotOwner(cv.waiting.items) ==> NoDup(woken)
    ensures tasks'.Keys == tasks.Keys
    ensures forall t | t in tasks :: tasks'[t] == (if t in woken then Runnable else tasks[t])
  {
    var items := cv.waiting.items;
    var q := cv.waiting;
    var n := 0;
    slots', tasks', woken := slots, tasks, [];
    assert items[..0] == [];
    while |q.items| > 0
      invariant 0 <= n <= |items| && q.items == items[n..]
      invariant Queues.Wf(cv.waiting) ==> Queues.Wf(q)
      invariant BroadcastInv(items, n, cv.id, slots, tasks, slots', tasks', woken)
      decreases |q.items|
    {
      var (q', e) := Queues.Pop(q);
      PopSuffix(q, items, n);
      var entry := items[n];
      var unclaimed := slots'[entry.slot] == None;
      BroadcastStep(items, n, cv.id, slots, tasks, slots', tasks', woken);
      slots' := if unclaimed then slots'[entry.slot := Some(cv.id)] else slots';
      tasks' := if unclaimed then tasks'[entry.task := Runnable] else tasks';
      woken := if unclaimed then woken + [entry.task] else woken;
      q := q';
      n := n + 1;
    }
    assert items[..n] == items;
    cv' := CondVar(cv.id, q);
  }

  // ---------------------------------------------------------------------------
  // wait_many

  /** `WaitMany`: one condition variable to wait on and the value reported
      when it is the one that fires. */
  datatype WaitMany<V> = WaitMany(cv: CondId, value: V)

  /** What the woken `wait_many` does: return the value of the matching
      registration, or abort when none matches. */
  datatype Wake<V> = Woke(value: V) | Abort

  /** Number of registrations on condition variable `c`. */
  function Count<V>(waits: seq<WaitMany<V>>, c: CondId): nat
  {
    if |waits| == 0 then 0 else (if waits[0].cv == c then 1 else 0) + Count(waits[1..], c)
  }

  function Repeat<T>(x: T, n: nat): (r: seq<T>)
    ensures |r| == n && forall i | 0 <= i < n :: r[i] == x
  {
    if n == 0 then [] else [x] + Repeat(x, n - 1)
  }

  /** The registration loop of `CondVar::wait_many`: push one entry per
      registration, all sharing `slot`. */
  function PushEach<V>(cvs: map<CondId, CondVar>, waits: seq<WaitMany<V>>, e: WaitEntry): (r: map<CondId, CondVar>)
    requires forall i | 0 <= i < |waits| :: waits[i].cv in cvs
    ensures r.Keys == cvs.Keys
    ensures forall c | c in cvs :: r[c].id == cvs[c].id
    decreases |waits|
  {
    if |waits| == 0 then cvs
    else
      var c := waits[0].cv;
      PushEach(cvs[c := CondVar(cvs[c].id, Queues.Push(cvs[c].waiting, e))], waits[1..], e)
  }

  /** After the registration loop, the queue of each condition variable has
      gained one entry per registration on it, and nothing else. */
  lemma {:induction false} PushEachItems<V>(cvs: map<CondId, CondVar>, waits: seq<WaitMany<V>>, e: WaitEntry, c: CondId)
    requires forall i | 0 <= i < |waits| :: waits[i].cv in cvs
    requires c in cvs
    ensures PushEach(cvs, waits, e)[c].waiting.items == cvs[c].waiting.items + Repeat(e, Count(waits, c))
    decreases |waits|
  {
    if |waits| > 0 {
      var d := waits[0].cv;
      var cvs' := cvs[d := CondVar(cvs[d].id, Queues.Push(cvs[d].waiting, e))];
      PushEachItems(cvs', waits[1..], e, c);
      var k := Count(waits[1..], c);
      if d == c {
        assert Count(waits, c) == k + 1;
        assert Repeat(e, k + 1) == [e] + Repeat(e, k);
        assert cvs'[c].waiting.items == cvs[c].waiting.items + [e];
        assert cvs[c].waiting.items + [e] + Repeat(e, k) == cvs[c].waiting.items + ([e] + Repeat(e, k));
      } else {
        assert Count(waits, c) == k;
      }
    }
  }

  /** The blocking half of `CondVar::wait_many`: one entry per registration
      with a single shared, empty slot; the caller blocks once. */
  function WaitManyEnter<V>(cvs: map<CondId, CondVar>, waits: seq<WaitMany<V>>, task: TaskId,
                            slot: SlotId, slots: Slots, tasks: Tasks): (r: (map<CondId, CondVar>, Slots, Tasks))
    requires forall i | 0 <= i < |waits| :: waits[i].cv in cvs
    requires slot !in slots
    ensures r.0.Keys == cvs.Keys
    ensures forall c | c in cvs :: r.0[c].id == cvs[c].id
    ensures forall c | c in cvs ::
      r.0[c].waiting.items == cvs[c].waiting.items + Repeat(WaitEntry(task, slot), Count(waits, c))
    ensures r.1 == slots[slot := None]
    ensures r.2 == tasks[task := Blocked]
  {
    assert forall c | c in cvs ::
      PushEach(cvs, waits, WaitEntry(task, slot))[c].waiting.items
        == cvs[c].waiting.items + Repeat(WaitEntry(task, slot), Count(waits, c)) by {
      forall c | c in cvs
        ensures PushEach(cvs, waits, WaitEntry(task, slot))[c].waiting.items
             == cvs[c].waiting.items + Repeat(WaitEntry(task, slot), Count(waits, c))
      {
        PushEachItems(cvs, waits, WaitEntry(task, slot), c);
      }
    }
    (PushEach(cvs, waits, WaitEntry(task, slot)), slots[slot := None], tasks[task := Blocked])
  }

  /** The waking half of `CondVar::wait_many`: scan the registrations for the
      condition variable recorded in the shared slot. */
  function WaitManyWake<V>(waits: seq<WaitMany<V>>, signalled: Option<CondId>): (r: Wake<V>)
    ensures r.Abort? <==> signalled.None? || forall i | 0 <= i < |waits| :: waits[i].cv != signalled.value
    ensures forall i | 0 <= i < |waits| && signalled == Some(waits[i].cv)
                       && (forall j | 0 <= j < i :: waits[j].cv != waits[i].cv) ::
      r == Woke(waits[i].value)
  {
    if signalled.None? || |waits| == 0 then Abort
    else if waits[0].cv == signalled.value then Woke(waits[0].value)
    else
      var r := WaitManyWake(waits[1..], signalled);
      assert forall i | 1 <= i < |waits| :: waits[i] == waits[1..][i - 1];
      r
  }

  /** A task registered on `A` then `B` and woken by a `signal` on `B`
      reports `B`'s value; a later `signal` on `A` finds the shared slot set
      and does not wake it a second time. */
  /** Registering on `a` then `b` counts one registration on each. */
  lemma CountEachOnce<V>(a: CondId, b: CondId, va: V, vb: V)
    requires a != b
    ensures Count([WaitMany(a, va), WaitMany(b, vb)], a) == 1
    ensures Count([WaitMany(a, va), WaitMany(b, vb)], b) == 1
  {
    var waits := [WaitMany(a, va), WaitMany(b, vb)];
    assert waits[1..] == [WaitMany(b, vb)] && waits[1..][1..] == [];
    assert Count(waits[1..][1..], a) == 0 && Count(waits[1..][1..], b) == 0;
    assert Count(waits[1..], a) == 0 && Count(waits[1..], b) == 1;
  }

  lemma WaitManyReportsTheSignaller<V>(a: CondId, b: CondId, va: V, vb: V, task: TaskId, slot: SlotId, tasks: Tasks)
    requires a != b
    ensures var waits := [WaitMany(a, va), WaitMany(b, vb)];
      var (cvs, s1, t1) := WaitManyEnter(map[a := New(a), b := New(b)], waits, task, slot, map[], tasks);
      var r := Signal(cvs[b], s1, t1);
      var r' := Signal(cvs[a], r.slots, r.tasks);
      && r.woken == Some(task) && r.tasks[task] == Runnable
      && WaitManyWake(waits, r.slots[slot]) == Woke(vb)
      && r'.woken == None && r'.slots[slot] == Some(b)
  {
    var waits := [WaitMany(a, va), WaitMany(b, vb)];
    var (cvs, s1, t1) := WaitManyEnter(map[a := New(a), b := New(b)], waits, task, slot, map[], tasks);
    WaitManyEntersBoth(a, b, va, vb, task, slot, tasks);
    SignalHead(cvs[b], s1, t1);
    var r := Signal(cvs[b], s1, t1);
    assert WaitManyWake(waits, Some(b)) == Woke(vb);
    SignalAllSignalled(cvs[a], r.slots, r.tasks);
  }

  /** `wait_many` on two distinct condition variables queues the caller once
      on each, with an empty slot. */
  lemma WaitManyEntersBoth<V>(a: CondId, b: CondId, va: V, vb: V, task: TaskId, slot: SlotId, tasks: Tasks)
    requires a != b
    ensures var (cvs, s1, t1) :=
        WaitManyEnter(map[a := New(a), b := New(b)], [WaitMany(a, va), WaitMany(b, vb)], task, slot, map[], tasks);
      && a in cvs && b in cvs && cvs[a].id == a && cvs[b].id == b
      && cvs[a].waiting.items == [WaitEntry(task, slot)] && cvs[b].waiting.items == [WaitEntry(task, slot)]
      && s1 == map[slot := None] && t1 == tasks[task := Blocked]
  {
    CountEachOnce(a, b, va, vb);
    assert Repeat(WaitEntry(task, slot), 1) == [WaitEntry(task, slot)];
  }

  /** `signal` on a queue whose every entry was already signalled wakes
      nobody and leaves the slots alone. */
  lemma SignalAllSignalled(cv: CondVar, slots: Slots, tasks: Tasks)
    requires EntriesValid(cv.waiting.items, slots, tasks)
    requires forall i | 0 <= i < |cv.waiting.items| :: slots[cv.waiting.items[i].slot] != None
    ensures Signal(cv, slots, tasks).woken == None && Signal(cv, slots, tasks).slots == slots
  {
    assert FirstUnsignalled(cv.waiting.items, slots) == None;
  }
}
