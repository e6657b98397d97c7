/** The intrusive singly linked list of `src/lib/linked_list.rs`.

    A `ListCell` used as a list head is abstracted to the sequence `xs` of the
    nodes reachable from it, first node first. Nodes are identities, so a
    node occurs at most once (`NoDup`). A node's own `next` link is its
    successor in `xs`; a node that is in no list has a cleared link (every
    operation that unlinks a node clears it). */
module LinkedLists {
  import opened Common

  /** `LinkedListIter`: the node under the cursor, as an index into the list, or null. */
  datatype Iter = Iter(cur: Option<nat>)

  predicate IterValid<T>(xs: seq<T>, it: Iter)
  {
    it.cur.Some? ==> it.cur.value < |xs|
  }

  /** `ListCell::iter`: a cursor on the first node, or null for the empty list. */
  function IterOf<T>(xs: seq<T>): (it: Iter)
    ensures IterValid(xs, it)
    ensures it.cur.None? <==> |xs| == 0
    ensures it.cur.Some? ==> it.cur.value == 0
  {
    if |xs| == 0 then Iter(None) else Iter(Some(0))
  }

  /** The iterator's measure: nodes left at or after the cursor. */
  function Remaining<T>(xs: seq<T>, it: Iter): nat
    requires IterValid(xs, it)
  {
    match it.cur
    case None => 0
    case Some(i) => |xs| - i
  }

  // ---------------------------------------------------------------------------
  // The iterator as written

  /** `LinkedListIter::next` as written: the node under the cursor is yielded
      only when it has a successor; a node without one (the final node)
      ends the iteration and the cursor stays on it. */
  function Next<T>(xs: seq<T>, it: Iter): (r: (Iter, Option<T>))
    requires IterValid(xs, it)
    ensures IterValid(xs, r.0)
    ensures r.1.Some? ==> Remaining(xs, r.0) < Remaining(xs, it)
  {
    match it.cur
    case None => (it, None)
    case Some(i) =>
      if i + 1 == |xs| then (it, None)
      else (Iter(Some(i + 1)), Some(xs[i]))
  }

  /** Everything the iterator yields from `it` on. */
  function Yields<T>(xs: seq<T>, it: Iter): (ys: seq<T>)
    requires IterValid(xs, it)
    ensures it.cur.Some? ==> ys == xs[it.cur.value..|xs| - 1]
    ensures it.cur.None? ==> ys == []
    decreases Remaining(xs, it)
  {
    match Next(xs, it)
    case (_, None) => []
    case (it', Some(x)) => [x] + Yields(xs, it')
  }

  /** Iterating a list yields every node but the final one: the final node
      is never produced, and a one-node list yields nothing. */
  lemma IterSkipsFinalNode<T>(xs: seq<T>)
    requires NoDup(xs)
    ensures |xs| > 0 ==> Yields(xs, IterOf(xs)) == xs[..|xs| - 1]
    ensures |xs| > 0 ==> xs[|xs| - 1] !in Yields(xs, IterOf(xs))
    ensures |xs| <= 1 ==> Yields(xs, IterOf(xs)) == []
  {
    if |xs| > 0 {
      var ys := Yields(xs, IterOf(xs));
      assert ys == xs[..|xs| - 1];
      forall k | 0 <= k < |ys|
        ensures ys[k] != xs[|xs| - 1]
      {
        assert ys[k] == xs[k];
      }
    }
  }

  // ---------------------------------------------------------------------------
  // The iterator as intended

  /** `next` as intended: yield the node under the cursor and move to its
      successor, so the final node is yielded too. */
  function NextFixed<T>(xs: seq<T>, it: Iter): (r: (Iter, Option<T>))
    requires IterValid(xs, it)
    ensures IterValid(xs, r.0)
    ensures r.1.Some? ==> Remaining(xs, r.0) < Remaining(xs, it)
    ensures r.1.None? <==> it.cur.None?
  {
    match it.cur
    case None => (it, None)
    case Some(i) => (Iter(if i + 1 == |xs| then None else Some(i + 1)), Some(xs[i]))
  }

  function YieldsFixed<T>(xs: seq<T>, it: Iter): (ys: seq<T>)
    requires IterValid(xs, it)
    decreases Remaining(xs, it)
  {
    match NextFixed(xs, it)
    case (_, None) => []
    case (it', Some(x)) => [x] + YieldsFixed(xs, it')
  }

  lemma {:induction false} YieldsFixedFrom<T>(xs: seq<T>, i: nat)
    requires i < |xs|
    ensures YieldsFixed(xs, Iter(Some(i))) == xs[i..]
    decreases |xs| - i
  {
    if i + 1 < |xs| {
      YieldsFixedFrom(xs, i + 1);
    }
  }

  /** The corrected iterator yields exactly the list, in order. */
  lemma IterFixedYieldsAll<T>(xs: seq<T>)
    ensures YieldsFixed(xs, IterOf(xs)) == xs
  {
    if |xs| > 0 {
      YieldsFixedFrom(xs, 0);
    }
  }

  // ---------------------------------------------------------------------------
  // last

  /** The loop of `ListCell::last` as written: remember the latest node the
      iterator produced. */
  function LastLoop<T>(xs: seq<T>, it: Iter, end: Option<T>): (r: Option<T>)
    requires IterValid(xs, it)
    ensures (it.cur.Some? && it.cur.value + 1 < |xs|) ==> r == Some(xs[|xs| - 2])
    ensures (it.cur.None? || it.cur.value + 1 == |xs|) ==> r == end
    decreases Remaining(xs, it)
  {
    match Next(xs, it)
    case (_, None) => end
    case (it', Some(n)) => LastLoop(xs, it', Some(n))
  }

  /** `ListCell::last` as written. */
  function LastAsWritten<T>(xs: seq<T>): (r: Option<T>)
    ensures r.None? <==> |xs| <= 1
    ensures r.Some? ==> r.value == xs[|xs| - 2]
  {
    LastLoop(xs, IterOf(xs), None)
  }

  /** `last` as written returns the second-to-last node, and nothing for a
      one-node list, instead of the last node its doc comment promises. */
  lemma LastAsWrittenIsSecondToLast<T>(xs: seq<T>)
    ensures |xs| >= 2 ==> LastAsWritten(xs) == Some(xs[|xs| - 2])
    ensures |xs| <= 1 ==> LastAsWritten(xs) == None
  {
  }

  /** `last` as its doc comment intends, driven by the corrected iterator. */
  function LastLoopFixed<T>(xs: seq<T>, it: Iter, end: Option<T>): (r: Option<T>)
    requires IterValid(xs, it)
    ensures it.cur.Some? ==> r == Some(xs[|xs| - 1])
    ensures it.cur.None? ==> r == end
    decreases Remaining(xs, it)
  {
    match NextFixed(xs, it)
    case (_, None) => end
    case (it', Some(n)) => LastLoopFixed(xs, it', Some(n))
  }

  /** `ListCell::last`: the last node, or nothing for the empty list. */
  function Last<T>(xs: seq<T>): (r: Option<T>)
    ensures r.None? <==> |xs| == 0
    ensures r.Some? ==> r.value == xs[|xs| - 1]
  {
    LastLoopFixed(xs, IterOf(xs), None)
  }

  // ---------------------------------------------------------------------------
  // append, prepend, pop, head

  /** `ListCell::new`: the empty list. */
  function New<T>(): (xs: seq<T>)
    ensures |xs| == 0 && Head(xs) == None && Pop(xs) == (xs, None)
  {
    []
  }

  /** The linking step of `append`: clear the new node's link, then make it
      the successor of `end`, or of the list head when `end` is null. */
  function LinkAfter<T(==)>(xs: seq<T>, end: Option<T>, node: T): (r: seq<T>)
    requires end.Some? ==> end.value in xs
  {
    match end
    case None => [node]
    case Some(e) => xs[..IndexOf(xs, e) + 1] + [node]
  }

  /** `ListCell::append` as written, on top of `last` as written: the new node
      REPLACES the old final node, which drops out of the list. */
  function AppendAsWritten<T(==)>(xs: seq<T>, node: T): (r: seq<T>)
    requires NoDup(xs)
    requires node !in xs
    ensures |xs| == 0 ==> r == [node]
    ensures |xs| > 0 ==> r == xs[..|xs| - 1] + [node]
  {
    LastAsWrittenIsSecondToLast(xs);
    var end := LastAsWritten(xs);
    assert |xs| >= 2 ==> IndexOf(xs, xs[|xs| - 2]) == |xs| - 2;
    LinkAfter(xs, end, node)
  }

  /** Appending `c` to the list `a, b` as written yields `a, c`: `b` is lost. */
  lemma AppendAsWrittenDropsLast<T>(a: T, b: T, c: T)
    requires a != b && a != c && b != c
    ensures AppendAsWritten([a, b], c) == [a, c]
    ensures AppendAsWritten([a], c) == [c]
  {
  }

  /** `ListCell::append` as its doc comment intends: add to the end. */
  function Append<T(==)>(xs: seq<T>, node: T): (r: seq<T>)
    requires NoDup(xs)
    requires node !in xs
    ensures r == xs + [node]
    ensures NoDup(r)
    ensures Last(r) == Some(node)
  {
    var end := Last(xs);
    assert |xs| > 0 ==> IndexOf(xs, xs[|xs| - 1]) == |xs| - 1;
    assert xs[..|xs|] == xs;
    LinkAfter(xs, end, node)
  }

  /** `ListCell::prepend`: the new node first, the old nodes following in order. */
  function Prepend<T(==)>(xs: seq<T>, node: T): (r: seq<T>)
    ensures |r| == |xs| + 1 && r[0] == node && r[1..] == xs
    ensures Head(r) == Some(node)
    ensures NoDup(xs) && node !in xs ==> NoDup(r)
  {
    match Head(xs)
    case None => [node]
    case Some(_) => [node] + xs
  }

  /** `ListCell::pop`: unlink and return the first node. */
  function Pop<T>(xs: seq<T>): (r: (seq<T>, Option<T>))
    ensures |xs| == 0 ==> r == (xs, None)
    ensures |xs| > 0 ==> r.1 == Some(xs[0]) && r.0 == xs[1..]
  {
    if |xs| == 0 then (xs, None) else (xs[1..], Some(xs[0]))
  }

  /** `ListCell::head`: the first node; the list is unchanged. */
  function Head<T>(xs: seq<T>): (r: Option<T>)
    ensures r.None? <==> |xs| == 0
    ensures r.Some? ==> r.value == xs[0]
  {
    if |xs| == 0 then None else Some(xs[0])
  }

  /** Prepending and then popping gives back the node and the original list. */
  lemma PopUndoesPrepend<T>(xs: seq<T>, node: T)
    ensures Pop(Prepend(xs, node)) == (xs, Some(node))
  {
  }

  /** Popping every node of an appended list returns the appended nodes in order. */
  lemma PopAfterAppend<T>(xs: seq<T>, node: T)
    requires NoDup(xs) && node !in xs
    ensures |xs| == 0 ==> Pop(Append(xs, node)) == ([], Some(node))
    ensures |xs| > 0 ==> Pop(Append(xs, node)) == (Append(xs[1..], node), Some(xs[0]))
  {
    if |xs| > 0 {
      assert (xs + [node])[1..] == xs[1..] + [node];
    } else {
      assert xs + [node] == [node];
    }
  }

  // ---------------------------------------------------------------------------
  // remove

  /** Unlink the node at index `i`: its predecessor cell (`prev`, the list
      head when null) takes over its successor. */
  function Unlink<T>(xs: seq<T>, prev: Option<nat>, i: nat): (r: seq<T>)
    requires i < |xs|
    requires prev == (if i == 0 then None else Some(i - 1))
  {
    match prev
    case None => xs[i + 1..]
    case Some(k) => xs[..k + 1] + xs[i + 1..]
  }

  /** `IndexOf` is the first position holding `x`. */
  lemma IndexOfAt<T>(xs: seq<T>, i: nat, x: T)
    requires i < |xs| && xs[i] == x && x !in xs[..i]
    ensures IndexOf(xs, x) == i
  {
    var j := IndexOf(xs, x);
    assert j >= i by {
      assert forall m | 0 <= m < i :: xs[..i][m] == xs[m];
    }
  }

  /** The loop of `remove` as written: `prev` is the cell the previous node
      lives in (`last` in the source); every node before the cursor has
      already been compared with `target`. */
  function RemoveLoop<T(==)>(xs: seq<T>, it: Iter, prev: Option<nat>, target: T): (r: (seq<T>, Option<T>))
    requires IterValid(xs, it)
    requires it.cur.Some? ==> prev == (if it.cur.value == 0 then None else Some(it.cur.value - 1))
    requires it.cur.Some? ==> target !in xs[..it.cur.value]
    ensures it.cur.None? ==> r == (xs, None)
    ensures it.cur.Some? && target in xs[..|xs| - 1] ==>
      var i := IndexOf(xs, target);
      r == (xs[..i] + xs[i + 1..], Some(target))
    ensures it.cur.Some? && target !in xs[..|xs| - 1] ==> r == (xs, None)
    decreases Remaining(xs, it)
  {
    match it.cur
    case None => (xs, None)
    case Some(i) =>
      match Next(xs, it)
      case (_, None) =>
        assert xs[..|xs| - 1] == xs[..i];
        (xs, None)
      case (it', Some(n)) =>
        if n == target then
          IndexOfAt(xs, i, target);
          assert Unlink(xs, prev, i) == xs[..i] + xs[i + 1..] by {
            assert i > 0 ==> xs[..i - 1 + 1] == xs[..i];
            assert i == 0 ==> xs[..i] + xs[i + 1..] == xs[i + 1..];
          }
          (Unlink(xs, prev, i), Some(n))
        else
          assert xs[..i + 1] == xs[..i] + [n];
          RemoveLoop(xs, it', Some(i), target)
  }

  /** `remove` as written: the final node is never found, because the
      iterator never yields it. */
  function RemoveAsWritten<T(==)>(xs: seq<T>, target: T): (r: (seq<T>, Option<T>))
    ensures |xs| > 0 && target in xs[..|xs| - 1] ==>
      var i := IndexOf(xs, target);
      r == (xs[..i] + xs[i + 1..], Some(target))
    ensures |xs| == 0 || target !in xs[..|xs| - 1] ==> r == (xs, None)
  {
    RemoveLoop(xs, IterOf(xs), None, target)
  }

  /** Removing the final node as written reports it missing and leaves the list as is. */
  lemma RemoveAsWrittenMissesFinalNode<T>(xs: seq<T>)
    requires NoDup(xs) && |xs| > 0
    ensures RemoveAsWritten(xs, xs[|xs| - 1]) == (xs, None)
  {
    IterSkipsFinalNode(xs);
  }

  /** `remove` as its doc comment intends: driven by the corrected iterator,
      so any node of the list can be found. */
  function RemoveLoopFixed<T(==)>(xs: seq<T>, it: Iter, prev: Option<nat>, target: T): (r: (seq<T>, Option<T>))
    requires IterValid(xs, it)
    requires it.cur.Some? ==> prev == (if it.cur.value == 0 then None else Some(it.cur.value - 1))
    requires it.cur.Some? ==> target !in xs[..it.cur.value]
    requires it.cur.None? ==> target !in xs
    ensures target in xs ==>
      var i := IndexOf(xs, target);
      r == (xs[..i] + xs[i + 1..], Some(target))
    ensures target !in xs ==> r == (xs, None)
    decreases Remaining(xs, it)
  {
    match it.cur
    case None => (xs, None)
    case Some(i) =>
      match NextFixed(xs, it)
      case (_, None) => (xs, None)
      case (it', Some(n)) =>
        if n == target then
          IndexOfAt(xs, i, target);
          assert Unlink(xs, prev, i) == xs[..i] + xs[i + 1..] by {
            assert i > 0 ==> xs[..i - 1 + 1] == xs[..i];
            assert i == 0 ==> xs[..i] + xs[i + 1..] == xs[i + 1..];
          }
          (Unlink(xs, prev, i), Some(n))
        else
          assert xs[..i + 1] == xs[..i] + [n];
          assert i + 1 == |xs| ==> xs[..i + 1] == xs;
          RemoveLoopFixed(xs, it', Some(i), target)
  }

  /** `remove`: when `target` is in the list, unlink its first occurrence, keep
      the others in order and return it; otherwise report it missing. */
  function Remove<T(==)>(xs: seq<T>, target: T): (r: (seq<T>, Option<T>))
    ensures target in xs ==>
      var i := IndexOf(xs, target);
      r == (xs[..i] + xs[i + 1..], Some(target))
    ensures target !in xs <==> r.1 == None
    ensures target !in xs ==> r.0 == xs
  {
    RemoveLoopFixed(xs, IterOf(xs), None, target)
  }

  /** Removing a node that was appended gives back the list it was appended to. */
  lemma RemoveUndoesAppend<T>(xs: seq<T>, node: T)
    requires NoDup(xs) && node !in xs
    ensures Remove(Append(xs, node), node) == (xs, Some(node))
  {
    var ys := Append(xs, node);
    assert ys[|xs|] == node;
    assert ys[..|xs|] == xs;
    assert ys[|xs| + 1..] == [];
    IndexOfAt(ys, |xs|, node);
    assert ys[..|xs|] + ys[|xs| + 1..] == xs;
  }

  // ---------------------------------------------------------------------------
  // insert_after

  /** `insert_after` as written: `after`'s own link cell is used as the head
      of a list, and `append` (as written) runs on the nodes following
      `after`; the new node ends up at the end, replacing the old final node
      when two or more nodes follow, or replacing the only follower. */
  function InsertAfterAsWritten<T(==)>(xs: seq<T>, after: T, node: T): (r: seq<T>)
    requires NoDup(xs) && after in xs && node !in xs
    ensures |r| > 0 && r[|r| - 1] == node
    ensures var i := IndexOf(xs, after);
      && (|xs| - (i + 1) <= 1 ==> r == xs[..i + 1] + [node])
      && (|xs| - (i + 1) >= 2 ==> r == xs[..|xs| - 1] + [node])
  {
    var i := IndexOf(xs, after);
    NoDupSuffix(xs, i + 1);
    assert node !in xs[i + 1..];
    var r := xs[..i + 1] + AppendAsWritten(xs[i + 1..], node);
    PrefixThenDropLast(xs, i + 1);
    r
  }

  /** The first `k` nodes followed by all but the last of the rest are all
      but the last node. */
  lemma PrefixThenDropLast<T>(xs: seq<T>, k: nat)
    requires k <= |xs|
    ensures k < |xs| ==> xs[..k] + xs[k..][..|xs| - k - 1] == xs[..|xs| - 1]
  {
    if k < |xs| {
      assert xs[k..][..|xs| - k - 1] == xs[k..|xs| - 1];
    }
  }

  lemma NoDupSuffix<T>(xs: seq<T>, k: nat)
    requires NoDup(xs) && k <= |xs|
    ensures NoDup(xs[k..])
  {
    var ys := xs[k..];
    forall a, b | 0 <= a < b < |ys|
      ensures ys[a] != ys[b]
    {
      assert ys[a] == xs[k + a] && ys[b] == xs[k + b];
    }
  }

  /** Inserting `v` after `a` in `a, b, c` as written yields `a, b, v`. */
  lemma InsertAfterAsWrittenExample<T>(a: T, b: T, c: T, v: T)
    requires NoDup([a, b, c]) && v != a && v != b && v != c
    ensures InsertAfterAsWritten([a, b, c], a, v) == [a, b, v]
  {
    assert IndexOf([a, b, c], a) == 0;
    assert [a, b, c][1..] == [b, c];
  }

  /** `insert_after` as its doc comment intends: the new node directly follows `after`. */
  function InsertAfter<T(==)>(xs: seq<T>, after: T, node: T): (r: seq<T>)
    requires NoDup(xs) && after in xs && node !in xs
    ensures |r| == |xs| + 1
    ensures var i := IndexOf(xs, after);
      r[..i + 1] == xs[..i + 1] && r[i + 1] == node && r[i + 2..] == xs[i + 1..]
    ensures NoDup(r)
    ensures multiset(r) == multiset(xs) + multiset{node}
  {
    var i := IndexOf(xs, after);
    var r := xs[..i + 1] + [node] + xs[i + 1..];
    assert xs == xs[..i + 1] + xs[i + 1..];
    SpliceNoDup(xs, i + 1, node);
    r
  }

  /** Placing a node that is in no list at any position keeps the nodes distinct. */
  lemma SpliceNoDup<T>(xs: seq<T>, p: nat, node: T)
    requires NoDup(xs) && node !in xs && p <= |xs|
    ensures NoDup(xs[..p] + [node] + xs[p..])
  {
    var r := xs[..p] + [node] + xs[p..];
    forall a, b | 0 <= a < b < |r|
      ensures r[a] != r[b]
    {
      var xa := if a < p then a else a - 1;
      var xb := if b < p then b else b - 1;
      if a != p && b != p {
        assert r[a] == xs[xa] && r[b] == xs[xb] && xa < xb;
      } else if a == p {
        assert r[b] == xs[xb];
      } else {
        assert r[a] == xs[xa];
      }
    }
  }

  /** Removing a node just inserted after another gives back the original list. */
  lemma RemoveUndoesInsertAfter<T>(xs: seq<T>, after: T, node: T)
    requires NoDup(xs) && after in xs && node !in xs
    ensures Remove(InsertAfter(xs, after, node), node) == (xs, Some(node))
  {
    var i := IndexOf(xs, after);
    var r := InsertAfter(xs, after, node);
    assert r[..i + 1] == xs[..i + 1];
    IndexOfAt(r, i + 1, node);
    assert xs == xs[..i + 1] + xs[i + 1..];
  }
}
