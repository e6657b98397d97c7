/** The low-power-timer timebase of `src/hal/k20/lptmr.rs`.

    A 16-bit hardware counter ticks once per millisecond; software extends
    it to 32 bits by keeping the last observed time (`lazy_cur_time`) and
    counting an epoch each time the counter is seen to have wrapped. Tasks
    that `delay` queue a timeout, ordered by deadline, and block on its
    condition variable; the timer interrupt signals every timeout that is
    due and programs the compare register for the next one.

    Times are 32-bit unsigned integers (`u32`). The source's bit operations
    are written as their arithmetic meaning: `t & 0xffff` is `t % 0x10000`,
    `(t >> 16) & 0xffff` is `t / 0x10000`, and `(e << 16) | n` for a 16-bit
    `n` is `(e * 0x10000) % 2^32 + n`. Register accesses are parameters:
    every read of the counter register is an input `Count16`, and a write
    of the compare register is an output. */
module Lptmr {
  import opened Common
  import Queues
  import CondVars

  const PERIOD: int := 0x10000

  /** A reading of the 16-bit counter register. */
  type Count16 = x: int | 0 <= x < PERIOD

  /** `Time`: milliseconds since the timebase started, modulo 2^32. */
  datatype Time = Time(raw: u32)

  /** `TimeDelta`: a span in milliseconds. */
  datatype TimeDelta = TimeDelta(ms: u32)

  /** The counter half of a time. */
  function Low(t: Time): Count16
  {
    t.raw % PERIOD
  }

  /** The epoch half of a time. */
  function Epoch(t: Time): (e: nat)
    ensures e < PERIOD && t.raw == e * PERIOD + Low(t)
  {
    t.raw / PERIOD
  }

  /** `Time + TimeDelta`: the raw values added with 32-bit wrap-around. */
  function Add(t: Time, d: TimeDelta): (r: Time)
    ensures t.raw + d.ms < U32_LIMIT ==> r.raw == t.raw + d.ms
    ensures t.raw + d.ms >= U32_LIMIT ==> r.raw == t.raw + d.ms - U32_LIMIT
  {
    Time((t.raw + d.ms) % U32_LIMIT)
  }

  /** The derived `Ord` of `Time`: compare the raw values. */
  predicate Before(a: Time, b: Time)
  {
    a.raw < b.raw
  }

  /** `Time` is totally ordered by `Before`. */
  lemma BeforeIsTotalOrder(a: Time, b: Time, c: Time)
    ensures !Before(a, a)
    ensures Before(a, b) || a == b || Before(b, a)
    ensures Before(a, b) && Before(b, c) ==> Before(a, c)
  {
  }

  /** A pending timeout: the condition variable its task waits on and its
      deadline. */
  datatype Timeout = Timeout(cond: CondVars.CondId, time: Time)

  /** `PartialEq for Timeout`: only the deadlines are compared. */
  predicate TimeoutEq(a: Timeout, b: Timeout)
  {
    a.time == b.time
  }

  /** `PartialOrd for Timeout`: only the deadlines are compared. */
  predicate TimeoutLt(a: Timeout, b: Timeout)
  {
    Before(a.time, b.time)
  }

  /** The key the deadline queue is ordered by. */
  function Key(t: Timeout): int
  {
    t.time.raw
  }

  /** The `<=` the queue's insert uses on timeouts (derived from `lt` and
      `eq`) is `<=` on `Key`, so the queue's ordering lemmas apply; two
      timeouts with different condition variables compare equal when their
      deadlines agree. */
  lemma TimeoutOrderIsKeyOrder(a: Timeout, b: Timeout)
    ensures (TimeoutLt(a, b) || TimeoutEq(a, b)) <==> Key(a) <= Key(b)
    ensures TimeoutEq(a, b) <==> Key(a) == Key(b)
    ensures TimeoutLt(a, b) <==> Key(a) < Key(b)
  {
  }

  datatype TimeoutState = TimeoutState(queue: Queues.Queue<Timeout>, lazy: Time, refCount: u32)

  /** The static initial state: no timeouts, time zero, no references. */
  function Initial(): (s: TimeoutState)
    ensures |s.queue.items| == 0 && Queues.Wf(s.queue) && s.lazy.raw == 0 && s.refCount == 0
  {
    TimeoutState(Queues.New(), Time(0), 0)
  }

  // ---------------------------------------------------------------------------
  // update_cur_time

  /** `update_cur_time`: splice the counter reading `now` under the stored
      epoch, one epoch later if the counter is below the stored counter half
      (it wrapped). The caller stores the result as the new `lazy_cur_time`. */
  function UpdateCurTime(lazy: Time, now: Count16): (r: Time)
    ensures Low(r) == now
    ensures Low(lazy) <= now ==> Epoch(r) == Epoch(lazy)
    ensures Low(lazy) > now ==> Epoch(r) == (Epoch(lazy) + 1) % PERIOD
  {
    var epoch := if Low(lazy) > now then Epoch(lazy) + 1 else Epoch(lazy);
    Time((epoch * PERIOD) % U32_LIMIT + now)
  }

  /** Reading the counter again at the same value changes nothing. */
  lemma UpdateCurTimeIdempotent(lazy: Time, now: Count16)
    ensures UpdateCurTime(UpdateCurTime(lazy, now), now) == UpdateCurTime(lazy, now)
    ensures UpdateCurTime(lazy, Low(lazy)) == lazy
  {
    var r := UpdateCurTime(lazy, now);
    assert r.raw == Epoch(r) * PERIOD + now;
  }

  /** Time never runs backwards while the epoch has room, and it strictly
      advances when the counter is seen to have wrapped. */
  lemma UpdateCurTimeMonotone(lazy: Time, now: Count16)
    requires Epoch(lazy) < PERIOD - 1
    ensures lazy.raw <= UpdateCurTime(lazy, now).raw
    ensures Low(lazy) > now ==> lazy.raw < UpdateCurTime(lazy, now).raw
  {
    var r := UpdateCurTime(lazy, now);
    assert r.raw == Epoch(r) * PERIOD + now;
  }

  /** When fewer than 0x10000 ticks elapsed since the stored time, the new
      time is the stored one plus exactly the ticks elapsed (barring 32-bit
      overflow): the software clock follows the hardware counter. */
  lemma UpdateCurTimeTracksElapsed(lazy: Time, now: Count16, elapsed: nat)
    requires elapsed < PERIOD && lazy.raw + elapsed < U32_LIMIT
    requires now == (Low(lazy) + elapsed) % PERIOD
    ensures UpdateCurTime(lazy, now).raw == lazy.raw + elapsed
  {
    var r := UpdateCurTime(lazy, now);
    assert lazy.raw == Epoch(lazy) * PERIOD + Low(lazy);
    assert r.raw == Epoch(r) * PERIOD + now;
    if Low(lazy) + elapsed < PERIOD {
      assert now == Low(lazy) + elapsed;
    } else {
      assert now == Low(lazy) + elapsed - PERIOD;
      assert Epoch(lazy) + 1 < PERIOD by {
        assert (Epoch(lazy) + 1) * PERIOD <= lazy.raw + elapsed;
      }
    }
  }

  // ---------------------------------------------------------------------------
  // reschedule

  /** `reschedule`: the value written to the compare register, if any. With
      nothing queued and nobody holding the timebase nothing is written;
      with nothing queued, or a head more than one counter period away, the
      compare register is set to the current counter half so that the next
      wrap is observed; otherwise it is set to the head's counter half. */
  function Reschedule(s: TimeoutState): (cmr: Option<Count16>)
    ensures cmr.None? <==> |s.queue.items| == 0 && s.refCount == 0
    ensures |s.queue.items| == 0 && s.refCount != 0 ==> cmr == Some(Low(s.lazy))
    ensures |s.queue.items| > 0 ==>
      cmr == Some(if s.queue.items[0].time.raw > Add(s.lazy, TimeDelta(PERIOD)).raw
                  then Low(s.lazy) else Low(s.queue.items[0].time))
  {
    match Queues.Peek(s.queue)
    case None => if s.refCount == 0 then None else Some(Low(s.lazy))
    case Some(head) =>
      if Before(Add(s.lazy, TimeDelta(PERIOD)), head.time) then Some(Low(s.lazy)) else Some(Low(head.time))
  }

  /** Ticks from counter value `from` until the counter next equals `c`: a
      full period when they are already equal. */
  function TicksUntil(from: Count16, c: Count16): (n: int)
    ensures 1 <= n <= PERIOD && (from + n) % PERIOD == c
  {
    if c > from then c - from else c - from + PERIOD
  }

  /** With the counter at the stored time, the compare match `reschedule`
      programs comes no later than the head's deadline, and exactly at it
      when the deadline is at most one counter period away. */
  lemma RescheduleFiresByDeadline(s: TimeoutState)
    requires |s.queue.items| > 0
    requires s.lazy.raw < s.queue.items[0].time.raw
    requires s.lazy.raw + PERIOD < U32_LIMIT
    ensures var t := s.lazy.raw + TicksUntil(Low(s.lazy), Reschedule(s).value);
      var deadline := s.queue.items[0].time.raw;
      && t <= deadline
      && (deadline <= s.lazy.raw + PERIOD ==> t == deadline)
  {
    var deadline := s.queue.items[0].time.raw;
    var c := Reschedule(s).value;
    var n := TicksUntil(Low(s.lazy), c);
    if deadline <= s.lazy.raw + PERIOD {
      assert c == deadline % PERIOD;
      var d := deadline - s.lazy.raw;
      assert 0 < d <= PERIOD;
      assert s.lazy.raw == Epoch(s.lazy) * PERIOD + Low(s.lazy);
      assert (Low(s.lazy) + d) % PERIOD == c by {
        assert deadline == Epoch(s.lazy) * PERIOD + (Low(s.lazy) + d);
        ModShift(Low(s.lazy) + d, Epoch(s.lazy));
      }
      TicksUnique(Low(s.lazy), c, d);
    } else {
      assert c == Low(s.lazy);
    }
  }

  /** Adding whole periods does not change the counter half. */
  lemma ModShift(x: nat, k: nat)
    ensures (k * PERIOD + x) % PERIOD == x % PERIOD
  {
  }

  /** The only tick count in 1..PERIOD that reaches `c` is `TicksUntil`. */
  lemma TicksUnique(from: Count16, c: Count16, d: int)
    requires 1 <= d <= PERIOD && (from + d) % PERIOD == c
    ensures d == TicksUntil(from, c)
  {
  }

  // ---------------------------------------------------------------------------
  // delay

  /** What `delay` leaves behind before its caller blocks: the new state,
      the queued timeout whose condition variable the caller waits on, and
      the compare-register write, if `reschedule` ran. */
  datatype Delayed = Delayed(state: TimeoutState, timeout: Timeout, cmr: Option<Count16>)

  /** `delay`: stamp a new timeout with the current time plus `delta`, insert
      it in deadline order behind every timeout due no later, and reprogram
      the compare register if the queue's head is now due at that deadline.
      The caller then blocks with `CondVars.Wait` on `cond`. */
  function Delay(s: TimeoutState, delta: TimeDelta, now: Count16, cond: CondVars.CondId): (r: Delayed)
    ensures r.timeout.cond == cond
    ensures r.timeout.time == Add(UpdateCurTime(s.lazy, now), delta)
    ensures r.state.lazy == UpdateCurTime(s.lazy, now) && r.state.refCount == s.refCount
    ensures multiset(r.state.queue.items) == multiset(s.queue.items) + multiset{r.timeout}
    ensures Queues.Sorted(s.queue.items, Key) ==> Queues.Sorted(r.state.queue.items, Key)
    ensures Queues.Wf(s.queue) ==> Queues.Wf(r.state.queue)
    ensures r.state.queue == Queues.Insert(s.queue, r.timeout, Key)
    ensures r.cmr.Some? <==> TimeoutEq(r.state.queue.items[0], r.timeout)
    ensures r.cmr.Some? ==> r.cmr == Reschedule(r.state)
  {
    var cur := UpdateCurTime(s.lazy, now);
    var t := Timeout(cond, Add(cur, delta));
    var q := Queues.Insert(s.queue, t, Key);
    var s' := TimeoutState(q, cur, s.refCount);
    match Queues.Peek(q)
    case Some(front) => Delayed(s', t, if TimeoutEq(front, t) then Reschedule(s') else None)
    case None => Delayed(s', t, None)
  }

  /** On a sorted queue `delay` reprograms the compare register exactly when
      no earlier timeout was pending: every queued deadline is at or after
      the new one. */
  lemma DelayReschedulesIffEarliest(s: TimeoutState, delta: TimeDelta, now: Count16, cond: CondVars.CondId)
    requires Queues.Sorted(s.queue.items, Key)
    ensures var r := Delay(s, delta, now, cond);
      r.cmr.Some? <==> forall i | 0 <= i < |s.queue.items| :: Key(r.timeout) <= Key(s.queue.items[i])
  {
    var r := Delay(s, delta, now, cond);
    var t := r.timeout;
    var xs := s.queue.items;
    var ys := r.state.queue.items;
    if |xs| > 0 {
      HeadAfterInsert(xs, t, ys);
      if Key(xs[0]) == Key(t) {
        assert forall i | 0 <= i < |xs| :: Key(xs[0]) <= Key(xs[i]);
      }
    }
  }

  /** After inserting `t` into a sorted, non-empty sequence, the head is
      `t` itself if it is strictly earlier than the old head, and the old
      head otherwise. */
  lemma HeadAfterInsert(xs: seq<Timeout>, t: Timeout, ys: seq<Timeout>)
    requires |xs| > 0
    requires ys == Queues.Insert(Queues.Queue(xs, None), t, Key).items
    ensures Key(t) < Key(xs[0]) ==> ys[0] == t
    ensures Key(xs[0]) <= Key(t) ==> ys[0] == xs[0]
  {
    var p := Queues.InsertPos(xs, Key(t), Key);
    if p == 0 {
      assert ys[0] == t;
    } else {
      assert ys[..p] == xs[..p];
      assert ys[0] == ys[..p][0];
    }
  }

  // ---------------------------------------------------------------------------
  // LPT_Handler

  /** The result of the handler's loop: the remaining queue, the last
      observed time, the timeouts fired in order, the time read just before
      each of them was popped, and how many counter readings were taken. */
  datatype Fired = Fired(queue: Queues.Queue<Timeout>, lazy: Time, fired: seq<Timeout>, firedAt: seq<Time>, readings: nat)

  /** The loop of `LPT_Handler`: read the time (reading number `i` of the
      counter is `reading(i)`), stop if the queue is empty or its head is
      later than now, otherwise pop the head and signal its condition
      variable, and repeat. A timeout fires only once the time read just
      before popping it has reached its deadline. */
  function FireDue(q: Queues.Queue<Timeout>, lazy: Time, reading: nat -> Count16, i: nat): (r: Fired)
    ensures |r.fired| <= |q.items| && |r.firedAt| == |r.fired|
    ensures r.fired == q.items[..|r.fired|] && r.queue.items == q.items[|r.fired|..]
    ensures AllDue(r.fired, r.firedAt)
    ensures |r.queue.items| == 0 || Before(r.lazy, r.queue.items[0].time)
    ensures r.readings == i + |r.fired| + 1
    ensures Queues.Wf(q) ==> Queues.Wf(r.queue)
    decreases |q.items|
  {
    var cur := UpdateCurTime(lazy, reading(i));
    match Queues.Peek(q)
    case None => Fired(q, cur, [], [], i + 1)
    case Some(t) =>
      if Before(cur, t.time) then Fired(q, cur, [], [], i + 1)
      else
        var (q', _) := Queues.Pop(q);
        var r := FireDue(q', cur, reading, i + 1);
        assert q.items[1..][|r.fired|..] == q.items[|r.fired| + 1..];
        assert [t] + q.items[1..][..|r.fired|] == q.items[..|r.fired| + 1];
        DueCons(t, cur, r.fired, r.firedAt);
        Fired(r.queue, r.lazy, [t] + r.fired, [cur] + r.firedAt, r.readings)
  }

  /** Every timeout of `fired` was due at the matching time of `at`. */
  predicate AllDue(fired: seq<Timeout>, at: seq<Time>)
    requires |at| == |fired|
  {
    forall j | 0 <= j < |fired| :: !Before(at[j], fired[j].time)
  }

  /** A timeout due now, followed by timeouts each due at its time. */
  lemma DueCons(t: Timeout, cur: Time, fired: seq<Timeout>, at: seq<Time>)
    requires |at| == |fired| && !Before(cur, t.time) && AllDue(fired, at)
    ensures AllDue([t] + fired, [cur] + at)
  {
    forall j | 0 <= j < |fired| + 1 ensures !Before(([cur] + at)[j], ([t] + fired)[j].time) {
      if j > 0 {
        assert ([t] + fired)[j] == fired[j - 1] && ([cur] + at)[j] == at[j - 1];
      }
    }
  }

  /** The times `n` successive `update_cur_time` calls return, starting
      from the stored time `lazy` with counter reading number `i`. */
  function Clock(lazy: Time, reading: nat -> Count16, i: nat, n: nat): (ts: seq<Time>)
    ensures |ts| == n
    decreases n
  {
    if n == 0 then []
    else
      var cur := UpdateCurTime(lazy, reading(i));
      [cur] + Clock(cur, reading, i + 1, n - 1)
  }

  /** The times `FireDue` reports are the clock as the loop reads it: one
      reading before each fired timeout, and one more that finds nothing
      due and becomes the stored time. */
  lemma {:induction false} FireDueReadsClock(q: Queues.Queue<Timeout>, lazy: Time, reading: nat -> Count16, i: nat)
    ensures var r := FireDue(q, lazy, reading, i);
      r.firedAt + [r.lazy] == Clock(lazy, reading, i, |r.firedAt| + 1)
    decreases |q.items|
  {
    var cur := UpdateCurTime(lazy, reading(i));
    var r := FireDue(q, lazy, reading, i);
    if |q.items| > 0 && !Before(cur, q.items[0].time) {
      var q' := Queues.Pop(q).0;
      var r' := FireDue(q', cur, reading, i + 1);
      FireDueStep(q, lazy, reading, i);
      FireDueReadsClock(q', cur, reading, i + 1);
      ConsSnoc(cur, r'.firedAt, r.lazy);
    } else {
      FireDueStop(q, lazy, reading, i);
      assert Clock(lazy, reading, i, 1) == [cur];
    }
  }

  lemma ConsSnoc<T>(a: T, xs: seq<T>, b: T)
    ensures ([a] + xs) + [b] == [a] + (xs + [b])
  {
  }

  /** One due timeout: the loop fires it at the time just read and goes on. */
  lemma FireDueStep(q: Queues.Queue<Timeout>, lazy: Time, reading: nat -> Count16, i: nat)
    requires |q.items| > 0 && !Before(UpdateCurTime(lazy, reading(i)), q.items[0].time)
    ensures var cur := UpdateCurTime(lazy, reading(i));
      var r, r' := FireDue(q, lazy, reading, i), FireDue(Queues.Pop(q).0, cur, reading, i + 1);
      r.firedAt == [cur] + r'.firedAt && r.lazy == r'.lazy
  {
  }

  /** Nothing due: the loop stops with the time just read. */
  lemma FireDueStop(q: Queues.Queue<Timeout>, lazy: Time, reading: nat -> Count16, i: nat)
    requires |q.items| == 0 || Before(UpdateCurTime(lazy, reading(i)), q.items[0].time)
    ensures var r := FireDue(q, lazy, reading, i);
      r.firedAt == [] && r.lazy == UpdateCurTime(lazy, reading(i))
  {
  }

  /** What one run of `LPT_Handler` does: the new state, the condition
      variables it signals in order, the time read before each signal, and
      the compare-register write of the final `reschedule`. */
  datatype Handled = Handled(state: TimeoutState, signalled: seq<CondVars.CondId>, firedAt: seq<Time>, compare: Option<Count16>)

  /** `LPT_Handler`: fire every due timeout, store the last observed time,
      then `reschedule` once. Each signalled timeout was due at the time read
      just before it, and those times are successive counter readings. */
  function LptHandler(s: TimeoutState, reading: nat -> Count16): (r: Handled)
    ensures var k := |r.signalled|;
      && k <= |s.queue.items| && |r.firedAt| == k
      && (forall j | 0 <= j < k :: r.signalled[j] == s.queue.items[j].cond)
      && (forall j | 0 <= j < k :: !Before(r.firedAt[j], s.queue.items[j].time))
      && r.state.queue.items == s.queue.items[k..]
      && (|r.state.queue.items| == 0 || Before(r.state.lazy, r.state.queue.items[0].time))
      && r.state.refCount == s.refCount
      && r.compare == Reschedule(r.state)
    ensures r.firedAt + [r.state.lazy] == Clock(s.lazy, reading, 0, |r.firedAt| + 1)
  {
    FireDueReadsClock(s.queue, s.lazy, reading, 0);
    var f := FireDue(s.queue, s.lazy, reading, 0);
    assert forall j | 0 <= j < |f.fired| :: f.fired[j] == s.queue.items[j];
    assert forall j | 0 <= j < |f.fired| :: !Before(f.firedAt[j], s.queue.items[j].time);
    var s' := TimeoutState(f.queue, f.lazy, s.refCount);
    Handled(s', seq(|f.fired|, j requires 0 <= j < |f.fired| => f.fired[j].cond), f.firedAt, Reschedule(s'))
  }

  /** With the counter standing at the stored time, the handler fires exactly
      the timeouts that are due: every fired deadline is at or before now
      and, on a sorted queue, every remaining one is later. */
  lemma FireDueWithStoppedClock(q: Queues.Queue<Timeout>, lazy: Time, reading: nat -> Count16, i: nat)
    requires forall j :: reading(j) == Low(lazy)
    requires Queues.Sorted(q.items, Key)
    ensures var r := FireDue(q, lazy, reading, i);
      && r.lazy == lazy
      && (forall j | 0 <= j < |r.fired| :: r.fired[j].time.raw <= lazy.raw)
      && (forall j | 0 <= j < |r.queue.items| :: lazy.raw < r.queue.items[j].time.raw)
  {
    var r := FireDue(q, lazy, reading, i);
    StoppedFireDueTimes(q, lazy, reading, i);
    SortedSuffixLater(q.items, |r.fired|, lazy.raw);
  }

  /** With the counter standing at the stored time, every time the handler
      loop reads is the stored time. */
  lemma StoppedFireDueTimes(q: Queues.Queue<Timeout>, lazy: Time, reading: nat -> Count16, i: nat)
    requires forall j :: reading(j) == Low(lazy)
    ensures var r := FireDue(q, lazy, reading, i);
      r.lazy == lazy && forall j | 0 <= j < |r.firedAt| :: r.firedAt[j] == lazy
  {
    var r := FireDue(q, lazy, reading, i);
    var k := |r.firedAt|;
    var ts := r.firedAt + [r.lazy];
    FireDueReadsClock(q, lazy, reading, i);
    StoppedClock(lazy, reading, i, k + 1);
    assert r.lazy == ts[k];
    forall j | 0 <= j < k ensures r.firedAt[j] == lazy {
      assert r.firedAt[j] == ts[j];
    }
  }

  /** In a sorted queue, a bound below the deadline at position `k` is below
      every deadline from `k` on. */
  lemma SortedSuffixLater(xs: seq<Timeout>, k: nat, bound: int)
    requires Queues.Sorted(xs, Key) && k <= |xs|
    requires k == |xs| || bound < Key(xs[k])
    ensures forall j | 0 <= j < |xs[k..]| :: bound < xs[k..][j].time.raw
  {
    forall j | 0 <= j < |xs[k..]| ensures bound < xs[k..][j].time.raw {
      assert xs[k..][j] == xs[k + j];
      assert Key(xs[k]) <= Key(xs[k + j]);
    }
  }

  /** A counter standing at the stored time's counter part: every reading
      gives back the stored time. */
  lemma {:induction false} StoppedClock(lazy: Time, reading: nat -> Count16, i: nat, n: nat)
    requires forall j :: reading(j) == Low(lazy)
    ensures forall k | 0 <= k < n :: Clock(lazy, reading, i, n)[k] == lazy
    decreases n
  {
    if n > 0 {
      UpdateCurTimeIdempotent(lazy, reading(i));
      StoppedClock(lazy, reading, i + 1, n - 1);
    }
  }

  // ---------------------------------------------------------------------------
  // TimebaseRef and current_time

  /** `TimebaseRef::new`: one more reference keeps the timebase running. */
  function RefAcquire(s: TimeoutState): (r: TimeoutState)
    ensures r.queue == s.queue && r.lazy == s.lazy
    ensures s.refCount < U32_LIMIT - 1 ==> r.refCount == s.refCount + 1
  {
    s.(refCount := IncWrap(s.refCount))
  }

  /** `drop` of a `TimebaseRef`: one reference fewer. */
  function RefRelease(s: TimeoutState): (r: TimeoutState)
    ensures r.queue == s.queue && r.lazy == s.lazy
    ensures s.refCount > 0 ==> r.refCount == s.refCount - 1
  {
    s.(refCount := DecWrap(s.refCount))
  }

  /** Creating and dropping a reference leaves the state as it was, even at
      the edges of the counter's range. */
  lemma RefReleaseUndoesAcquire(s: TimeoutState)
    ensures RefRelease(RefAcquire(s)) == s
    ensures RefAcquire(RefRelease(s)) == s
  {
  }

  /** A life of references: `true` creates one, `false` drops one. */
  function RunRefs(s: TimeoutState, ops: seq<bool>): (r: TimeoutState)
    ensures r.queue == s.queue && r.lazy == s.lazy
    decreases |ops|
  {
    if |ops| == 0 then s
    else RunRefs(if ops[0] then RefAcquire(s) else RefRelease(s), ops[1..])
  }

  /** Number of references alive after `ops`: creations minus drops. */
  function Live(ops: seq<bool>): int
    decreases |ops|
  {
    if |ops| == 0 then 0 else (if ops[|ops| - 1] then 1 else -1) + Live(ops[..|ops| - 1])
  }

  /** Every `TimebaseRef` is dropped at most once and fewer than 2^32 are
      alive at a time: after every step the reference count equals the
      number of live references. */
  lemma {:induction false} RefCountIsLive(s: TimeoutState, ops: seq<bool>)
    requires forall k | 0 <= k <= |ops| :: 0 <= s.refCount + Live(ops[..k]) < U32_LIMIT
    ensures RunRefs(s, ops).refCount == s.refCount + Live(ops)
    decreases |ops|
  {
    if |ops| > 0 {
      var n := |ops|;
      var init := ops[..n - 1];
      assert ops[..n] == ops;
      forall k | 0 <= k <= |init| ensures 0 <= s.refCount + Live(init[..k]) < U32_LIMIT {
        assert init[..k] == ops[..k];
      }
      RefCountIsLive(s, init);
      RunRefsSnoc(s, init, ops[n - 1]);
      assert init + [ops[n - 1]] == ops;
    }
  }

  /** Running one more operation after `ops`. */
  lemma {:induction false} RunRefsSnoc(s: TimeoutState, ops: seq<bool>, op: bool)
    ensures RunRefs(s, ops + [op]) == (var t := RunRefs(s, ops); if op then RefAcquire(t) else RefRelease(t))
    decreases |ops|
  {
    if |ops| == 0 {
      assert ops + [op] == [op];
    } else {
      assert (ops + [op])[1..] == ops[1..] + [op];
      RunRefsSnoc(if ops[0] then RefAcquire(s) else RefRelease(s), ops[1..], op);
    }
  }

  /** `current_time`: the time, brought up to date with one counter
      reading and stored. */
  function CurrentTime(s: TimeoutState, now: Count16): (r: (TimeoutState, Time))
    ensures r.0.lazy == r.1 && r.0.queue == s.queue && r.0.refCount == s.refCount
    ensures Low(r.1) == now
    ensures Epoch(s.lazy) < PERIOD - 1 ==> s.lazy.raw <= r.1.raw
  {
    var t := UpdateCurTime(s.lazy, now);
    assert Epoch(s.lazy) < PERIOD - 1 ==> s.lazy.raw <= t.raw by {
      if Epoch(s.lazy) < PERIOD - 1 {
        UpdateCurTimeMonotone(s.lazy, now);
      }
    }
    (s.(lazy := t), t)
  }
}
