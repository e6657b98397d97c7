/** The intrusive FIFO / priority queue of `src/lib/queue.rs`.

    The chain of nodes reachable from `head` is abstracted to the sequence
    `items` (head first); the `tail` link is kept as a separate field because
    the source maintains it separately and lets it go stale. A node's own
    `next` link is its successor in `items`. */
module Queues {
  import opened Common

  datatype Queue<T> = Queue(items: seq<T>, tail: Option<T>)

  /** Representation invariant: `tail` is the last item, and null when empty. */
  predicate Wf<T(==)>(q: Queue<T>)
  {
    if |q.items| == 0 then q.tail == None else q.tail == Some(q.items[|q.items| - 1])
  }

  /** What `pop` hands back: nothing for an empty queue, otherwise a pointer
      that may be null (`None`). */
  datatype Popped<T> = Empty | Returned(node: Option<T>)

  /** Ascending by `key`. */
  predicate Sorted<T(==)>(xs: seq<T>, key: T -> int)
  {
    forall i, j | 0 <= i < j < |xs| :: key(xs[i]) <= key(xs[j])
  }

  /** `Queue::new`: head and tail both null. */
  function New<T(==)>(): (q: Queue<T>)
    ensures Wf(q)
    ensures Peek(q) == None
    ensures Pop(q).1 == None
  {
    Queue([], None)
  }

  /** The node whose `next` field `push` overwrites: the current tail,
      whether or not it is still linked. */
  function PushRelinks<T(==)>(q: Queue<T>): Option<T>
  {
    q.tail
  }

  /** `Queue::push`: link `x` at the tail; it becomes head too when the queue was empty. */
  function Push<T(==)>(q: Queue<T>, x: T): (r: Queue<T>)
    ensures r.items == q.items + [x]
    ensures Wf(r)
    ensures Peek(r) == (if |q.items| == 0 then Some(x) else Peek(q))
  {
    Queue(q.items + [x], Some(x))
  }

  /** `Queue::peek`: the head, or nothing iff the queue is empty. */
  function Peek<T(==)>(q: Queue<T>): (r: Option<T>)
    ensures r.None? <==> |q.items| == 0
    ensures r.Some? ==> r.value in q.items && q.items[0] == r.value
  {
    if |q.items| == 0 then None else Some(q.items[0])
  }

  /** `Queue::pop` as written: `head` advances to its successor and the NEW
      head is returned (a null pointer when the queue has just emptied);
      `tail` is left untouched. */
  function PopAsWritten<T(==)>(q: Queue<T>): (r: (Queue<T>, Popped<T>))
    ensures |q.items| == 0 ==> r == (q, Empty)
    ensures |q.items| > 0 ==> r.0.items == q.items[1..] && r.0.tail == q.tail
    ensures |q.items| > 0 ==> r.1 == Returned(if |q.items| > 1 then Some(q.items[1]) else None)
  {
    if |q.items| == 0 then (q, Empty)
    else (Queue(q.items[1..], q.tail), Returned(if |q.items| > 1 then Some(q.items[1]) else None))
  }

  /** `Queue::pop` as its doc comment ("Pop off of head") intends: remove the
      head and return it, clearing `tail` when the queue empties. */
  function Pop<T(==)>(q: Queue<T>): (r: (Queue<T>, Option<T>))
    ensures |q.items| == 0 ==> r.1 == None && r.0 == q
    ensures |q.items| > 0 ==> r.1 == Some(q.items[0]) && r.0.items == q.items[1..]
    ensures Wf(q) ==> Wf(r.0)
  {
    if |q.items| == 0 then (q, None)
    else (Queue(q.items[1..], if |q.items| == 1 then None else q.tail), Some(q.items[0]))
  }

  /** The walk of the ordered insert: skip every node whose key is <= `k`
      and stop at the first strictly greater one (or the end). */
  function InsertPos<T(==)>(xs: seq<T>, k: int, key: T -> int): (p: nat)
    ensures p <= |xs|
    ensures forall i | 0 <= i < p :: key(xs[i]) <= k
    ensures p < |xs| ==> key(xs[p]) > k
  {
    if |xs| == 0 then 0
    else if key(xs[0]) > k then 0
    else 1 + InsertPos(xs[1..], k, key)
  }

  /** `Queue::insert`: stable ordered insertion; `tail` moves only when the
      node lands last. */
  function Insert<T(==)>(q: Queue<T>, x: T, key: T -> int): (r: Queue<T>)
    ensures |r.items| == |q.items| + 1
    ensures multiset(r.items) == multiset(q.items) + multiset{x}
    ensures var p := InsertPos(q.items, key(x), key);
      && r.items[p] == x
      && r.items[..p] == q.items[..p]
      && r.items[p + 1..] == q.items[p..]
    ensures Sorted(q.items, key) ==> Sorted(r.items, key)
    ensures Wf(q) ==> Wf(r)
  {
    var p := InsertPos(q.items, key(x), key);
    var items := q.items[..p] + [x] + q.items[p..];
    SpliceFacts(q.items, p, x, key);
    Queue(items, if p == |q.items| then Some(x) else q.tail)
  }

  /** Facts about placing `x` at index `p` of `xs`, where `p` is the insertion
      point of the walk. */
  lemma SpliceFacts<T>(xs: seq<T>, p: nat, x: T, key: T -> int)
    requires p <= |xs|
    requires forall i | 0 <= i < p :: key(xs[i]) <= key(x)
    requires p < |xs| ==> key(xs[p]) > key(x)
    ensures var r := xs[..p] + [x] + xs[p..];
      && multiset(r) == multiset(xs) + multiset{x}
      && r[p] == x && r[..p] == xs[..p] && r[p + 1..] == xs[p..]
      && (Sorted(xs, key) ==> Sorted(r, key))
  {
    var r := xs[..p] + [x] + xs[p..];
    assert xs == xs[..p] + xs[p..];
    assert r[..p] == xs[..p];
    assert r[p + 1..] == xs[p..];
    if Sorted(xs, key) {
      SpliceSorted(xs, p, x, key);
    }
  }

  lemma SpliceSorted<T>(xs: seq<T>, p: nat, x: T, key: T -> int)
    requires p <= |xs|
    requires forall i | 0 <= i < p :: key(xs[i]) <= key(x)
    requires p < |xs| ==> key(xs[p]) > key(x)
    requires Sorted(xs, key)
    ensures Sorted(xs[..p] + [x] + xs[p..], key)
  {
    var r := xs[..p] + [x] + xs[p..];
    assert forall i | 0 <= i < p :: r[i] == xs[i];
    assert forall i | p < i < |r| :: r[i] == xs[i - 1];
    forall i, j | 0 <= i < j < |r|
      ensures key(r[i]) <= key(r[j])
    {
      if j == p {
      } else if i == p {
        assert key(xs[p]) <= key(xs[j - 1]);
      } else if j < p {
      } else if i < p {
        assert key(xs[i]) <= key(xs[j - 1]);
      } else {
        assert key(xs[i - 1]) <= key(xs[j - 1]);
      }
    }
  }

  // ---------------------------------------------------------------------------
  // FIFO behaviour

  /** Push every element of `xs` in order. */
  function PushAll<T(==)>(q: Queue<T>, xs: seq<T>): (r: Queue<T>)
    decreases |xs|
  {
    if |xs| == 0 then q else PushAll(Push(q, xs[0]), xs[1..])
  }

  /** Pop until empty, collecting what `pop` hands back. */
  function Drain<T(==)>(q: Queue<T>): seq<T>
    decreases |q.items|
  {
    if |q.items| == 0 then [] else [Pop(q).1.value] + Drain(Pop(q).0)
  }

  lemma {:induction false} PushAllItems<T>(q: Queue<T>, xs: seq<T>)
    ensures PushAll(q, xs).items == q.items + xs
    decreases |xs|
  {
    if |xs| > 0 {
      PushAllItems(Push(q, xs[0]), xs[1..]);
      assert q.items + [xs[0]] + xs[1..] == q.items + xs;
    }
  }

  lemma {:induction false} DrainItems<T>(q: Queue<T>)
    ensures Drain(q) == q.items
    decreases |q.items|
  {
    if |q.items| > 0 {
      DrainItems(Pop(q).0);
    }
  }

  /** Pushes `x1..xk` onto an empty queue followed by pops return `x1..xk` in order. */
  lemma PushThenPopIsFifo<T>(xs: seq<T>)
    ensures Drain(PushAll(New(), xs)) == xs
  {
    PushAllItems(New(), xs);
    DrainItems(PushAll(New(), xs));
  }

  // ---------------------------------------------------------------------------
  // Ordered insertion against an independent definition

  function FilterLe<T(==)>(xs: seq<T>, k: int, key: T -> int): (r: seq<T>)
  {
    if |xs| == 0 then [] else (if key(xs[0]) <= k then [xs[0]] else []) + FilterLe(xs[1..], k, key)
  }

  function FilterGt<T(==)>(xs: seq<T>, k: int, key: T -> int): (r: seq<T>)
  {
    if |xs| == 0 then [] else (if key(xs[0]) > k then [xs[0]] else []) + FilterGt(xs[1..], k, key)
  }

  lemma {:induction false} FilterAllLe<T>(xs: seq<T>, k: int, key: T -> int)
    requires forall i | 0 <= i < |xs| :: key(xs[i]) <= k
    ensures FilterLe(xs, k, key) == xs
    ensures FilterGt(xs, k, key) == []
  {
    if |xs| > 0 {
      FilterAllLe(xs[1..], k, key);
    }
  }

  lemma {:induction false} FilterAllGt<T>(xs: seq<T>, k: int, key: T -> int)
    requires forall i | 0 <= i < |xs| :: key(xs[i]) > k
    ensures FilterLe(xs, k, key) == []
    ensures FilterGt(xs, k, key) == xs
  {
    if |xs| > 0 {
      FilterAllGt(xs[1..], k, key);
    }
  }

  lemma {:induction false} FilterAppend<T>(a: seq<T>, b: seq<T>, k: int, key: T -> int)
    ensures FilterLe(a + b, k, key) == FilterLe(a, k, key) + FilterLe(b, k, key)
    ensures FilterGt(a + b, k, key) == FilterGt(a, k, key) + FilterGt(b, k, key)
  {
    if |a| > 0 {
      assert (a + b)[1..] == a[1..] + b;
      FilterAppend(a[1..], b, k, key);
    } else {
      assert a + b == b;
    }
  }

  /** Inserting into a sorted queue yields every element with a key <= the new
      one (in arrival order), then the new node, then every strictly greater
      element (in arrival order): a stable ascending insertion. */
  lemma InsertIsStable<T>(q: Queue<T>, x: T, key: T -> int)
    requires Sorted(q.items, key)
    ensures Insert(q, x, key).items
         == FilterLe(q.items, key(x), key) + [x] + FilterGt(q.items, key(x), key)
  {
    var p := InsertPos(q.items, key(x), key);
    SortedFilterSplit(q.items, p, key(x), key);
    var r := Insert(q, x, key).items;
    assert r == r[..p] + [r[p]] + r[p + 1..];
  }

  /** In a sorted sequence the insertion point separates the keys <= `k` from the greater ones. */
  lemma SortedFilterSplit<T>(xs: seq<T>, p: nat, k: int, key: T -> int)
    requires Sorted(xs, key)
    requires p == InsertPos(xs, k, key)
    ensures FilterLe(xs, k, key) == xs[..p]
    ensures FilterGt(xs, k, key) == xs[p..]
  {
    var pre, post := xs[..p], xs[p..];
    assert xs == pre + post;
    FilterAllLe(pre, k, key);
    forall i | 0 <= i < |post|
      ensures key(post[i]) > k
    {
      assert post[i] == xs[p + i];
      assert key(xs[p]) <= key(xs[p + i]);
    }
    FilterAllGt(post, k, key);
    FilterAppend(pre, post, k, key);
  }

  /** Key of an (id, deadline) pair, for the examples below. */
  function Deadline(e: (nat, int)): int
  {
    e.1
  }

  /** Inserting deadlines 5, 1, 3 into an empty queue pops them as 1, 3, 5. */
  lemma InsertOrderExample(q1: Queue<(nat, int)>, q2: Queue<(nat, int)>, q3: Queue<(nat, int)>)
    requires q1 == Insert(New(), (0, 5), Deadline)
    requires q2 == Insert(q1, (1, 1), Deadline)
    requires q3 == Insert(q2, (2, 3), Deadline)
    ensures Drain(q3) == [(1, 1), (2, 3), (0, 5)]
  {
    InsertFirstStep();
    InsertSecondStep();
    InsertThirdStep();
    DrainItems(q3);
  }

  lemma InsertFirstStep()
    ensures Insert(New(), (0, 5), Deadline) == Queue([(0, 5)], Some((0, 5)))
  {
  }

  lemma InsertSecondStep()
    ensures Insert(Queue([(0, 5)], Some((0, 5))), (1, 1), Deadline) == Queue([(1, 1), (0, 5)], Some((0, 5)))
  {
    assert InsertPos([(0, 5)], 1, Deadline) == 0;
  }

  lemma InsertThirdStep()
    ensures Insert(Queue([(1, 1), (0, 5)], Some((0, 5))), (2, 3), Deadline).items == [(1, 1), (2, 3), (0, 5)]
  {
    assert InsertPos([(1, 1), (0, 5)], 3, Deadline) == 1;
  }

  /** Two equal deadlines pop in arrival order. */
  lemma InsertTieExample()
    ensures Drain(Insert(Insert(New(), (0, 2), Deadline), (1, 2), Deadline)) == [(0, 2), (1, 2)]
  {
    var q1 := Insert(New(), (0, 2), Deadline);
    assert q1.items == [(0, 2)];
    assert InsertPos(q1.items, 2, Deadline) == 1;
    var q2 := Insert(q1, (1, 2), Deadline);
    assert q2.items == [(0, 2), (1, 2)];
    DrainItems(q2);
  }

  // ---------------------------------------------------------------------------
  // pop as written

  /** `pop` as written hands back the successor of the removed head: for two
      distinct nodes `a, b` it returns `b`, which stays queued, and for a
      single node it returns a null pointer instead of the node. */
  lemma PopAsWrittenReturnsSuccessor<T>(a: T, b: T)
    requires a != b
    ensures var (q, r) := PopAsWritten(Push(Push(New(), a), b));
      r == Returned(Some(b)) && q.items == [b] && Pop(Push(Push(New(), a), b)).1 == Some(a)
    ensures PopAsWritten(Push(New(), a)).1 == Returned(None)
  {
  }

  /** `pop` as written leaves `tail` on the removed node: once the queue has
      emptied, the next `push` writes the link field of a node that is no
      longer queued. The corrected `Pop` keeps the invariant, so `push` only
      ever relinks a queued node. */
  lemma PopAsWrittenLeavesStaleTail<T>(a: T, x: T)
    ensures var q := PopAsWritten(Push(New(), a)).0;
      && q.items == [] && PushRelinks(q) == Some(a) && a !in q.items && !Wf(q)
      && Push(q, x).items == [x] && (a != x ==> a !in Push(q, x).items)
  {
  }

  /** With the corrected `Pop`, `push` only ever overwrites the link of the current last item. */
  lemma PushRelinksQueued<T>(q: Queue<T>)
    requires Wf(q)
    ensures PushRelinks(q) == (if |q.items| == 0 then None else Some(q.items[|q.items| - 1]))
    ensures PushRelinks(Pop(q).0).Some? ==> PushRelinks(Pop(q).0).value in Pop(q).0.items
  {
  }
}
