/** The abstract view of an MRU list: the sequence of payloads from the root
    (head) to the last (tail) element, and what each list operation does to
    that sequence.  The heap-based implementation in module MruList is proved
    against these functions. */
module ListSpec {

  /** Index of the first element equal to `x`, or `|s|` when there is none:
      the position at which a scan from the root stops. */
  function FirstIndex<T(==)>(s: seq<T>, x: T): (k: nat)
    ensures k <= |s|
    ensures k < |s| ==> s[k] == x
    ensures forall j :: 0 <= j < k ==> s[j] != x
  {
    if s == [] then 0
    else if s[0] == x then 0
    else 1 + FirstIndex(s[1..], x)
  }

  /** The sequence without its last element; the empty sequence stays empty
      (removing the tail of an empty list removes nothing). */
  function DropLast<T>(s: seq<T>): (r: seq<T>)
    ensures r <= s
    ensures |r| == if s == [] then 0 else |s| - 1
  {
    if s == [] then [] else s[..|s| - 1]
  }

  /** True when inserting into `s` must first evict its tail. */
  predicate Full<T>(s: seq<T>, size: int)
  {
    |s| == size && s != []
  }

  /** What an insertion into `s` evicts: the tail, when the list is full. */
  function Evicted<T>(s: seq<T>, size: int): (r: seq<T>)
    ensures |r| <= 1
    ensures r != [] <==> Full(s, size)
    ensures r != [] ==> r[0] == s[|s| - 1]
  {
    if Full(s, size) then [s[|s| - 1]] else []
  }

  /** The sequence after inserting `x` into a list of capacity `size`: when the
      list already holds `size` elements its tail is removed first, then `x`
      goes to the tail.  The code tests `count == size`; on an empty list
      that test removes nothing, which is why eviction is keyed on `Full`. */
  function Added<T>(s: seq<T>, x: T, size: int): (r: seq<T>)
    ensures |r| == |s| + 1 - |Evicted(s, size)|
    ensures r[|r| - 1] == x
    ensures forall i :: 0 <= i < |r| - 1 ==> r[i] == s[i]
  {
    if Full(s, size) then
      assert (s[..|s| - 1] + [x])[..|s| - 1] == s[..|s| - 1];
      assert s[..|s| - 1] + [s[|s| - 1]] == s;
      s[..|s| - 1] + [x]
    else
      assert (s + [x])[..|s|] == s;
      s + [x]
  }

  /** `s` with the element at position `k` exchanged with its predecessor. */
  function SwapUp<T>(s: seq<T>, k: nat): (r: seq<T>)
    requires 0 < k < |s|
    ensures |r| == |s|
    ensures r[k - 1] == s[k] && r[k] == s[k - 1]
    ensures forall i {:trigger r[i]} :: 0 <= i < |s| && i != k - 1 && i != k ==> r[i] == s[i]
  {
    seq(|s|, i requires 0 <= i < |s| => if i == k - 1 then s[k] else if i == k then s[k - 1] else s[i])
  }

  /** One promotion of the element at position `k`: one step toward the root,
      nothing when it already is the root. */
  function Promoted<T>(s: seq<T>, k: nat): (r: seq<T>)
    requires k < |s|
    ensures |r| == |s|
    ensures r[if k == 0 then 0 else k - 1] == s[k]
    ensures 0 < k ==> r[k] == s[k - 1]
    ensures forall i {:trigger r[i]} :: 0 <= i < |s| && i + 1 != k && i != k ==> r[i] == s[i]
  {
    if k == 0 then s else SwapUp(s, k)
  }

  /** Looking up `x`: the first element equal to `x` is promoted; on a miss
      the sequence is unchanged. */
  function Accessed<T(==)>(s: seq<T>, x: T): (r: seq<T>)
    ensures |r| == |s|
    ensures x !in s ==> r == s
  {
    var k := FirstIndex(s, x);
    if k == |s| then s
    else
      Promoted(s, k)
  }

  /** The list and the evicted payloads, in eviction order, after inserting
      `xs` one by one into a fresh list of capacity `size`. */
  function InsertAll<T>(xs: seq<T>, size: int): (r: (seq<T>, seq<T>))
    ensures |r.0| + |r.1| == |xs|
    ensures xs != [] ==> r.0 != [] && r.0[|r.0| - 1] == xs[|xs| - 1]
  {
    if xs == [] then ([], [])
    else
      var prior := InsertAll(xs[..|xs| - 1], size);
      (Added(prior.0, xs[|xs| - 1], size), prior.1 + Evicted(prior.0, size))
  }

  /** `s` back to front: the order of a traversal from the tail. */
  function Reversed<T>(s: seq<T>): seq<T>
  {
    seq(|s|, i requires 0 <= i < |s| => s[|s| - 1 - i])
  }

  /** The element at position `k`, promoted `k` times in a row. */
  function PromotedRepeatedly<T>(s: seq<T>, k: nat): seq<T>
    requires k < |s|
    decreases k
  {
    if k == 0 then s else PromotedRepeatedly(SwapUp(s, k), k - 1)
  }

  // ---------------------------------------------------------------------
  // Insertion and eviction

  /** An insertion keeps a list of positive capacity within its capacity:
      it grows by one until full, then stays full. */
  lemma AddedBounded<T>(s: seq<T>, x: T, size: int)
    requires 0 < size && |s| <= size
    ensures |Added(s, x, size)| == if |s| < size then |s| + 1 else size
    ensures |Added(s, x, size)| <= size
  {
  }

  /** Inserting into a list that is not full and then removing the tail gives
      back the list that was there before. */
  lemma AddedThenDropLast<T>(s: seq<T>, x: T, size: int)
    requires !Full(s, size)
    ensures DropLast(Added(s, x, size)) == s
  {
    assert (s + [x])[..|s|] == s;
  }

  /** Inserting `xs` into a fresh list of positive capacity `size` keeps the
      first `size - 1` payloads at the head and the latest one at the tail;
      every payload in between was evicted, in insertion order. */
  lemma {:induction false} InsertAllFromEmpty<T>(xs: seq<T>, size: int)
    requires 0 < size
    ensures InsertAll(xs, size).0 ==
      if |xs| <= size then xs else xs[..size - 1] + [xs[|xs| - 1]]
    ensures InsertAll(xs, size).1 ==
      if |xs| <= size then [] else xs[size - 1..|xs| - 1]
  {
    if xs != [] {
      var ys, x := xs[..|xs| - 1], xs[|xs| - 1];
      InsertAllFromEmpty(ys, size);
      assert ys + [x] == xs;
      InsertOneMore(ys, x, size, InsertAll(ys, size).0, InsertAll(ys, size).1);
    }
  }

  /** The induction step of `InsertAllFromEmpty`: one more insertion into the
      list that `ys` left behind. */
  lemma InsertOneMore<T>(ys: seq<T>, x: T, size: int, kept: seq<T>, evicted: seq<T>)
    requires 0 < size
    requires kept == if |ys| <= size then ys else ys[..size - 1] + [ys[|ys| - 1]]
    requires evicted == if |ys| <= size then [] else ys[size - 1..|ys| - 1]
    ensures var xs := ys + [x];
      Added(kept, x, size) ==
        (if |xs| <= size then xs else xs[..size - 1] + [x]) &&
      evicted + Evicted(kept, size) ==
        (if |xs| <= size then [] else xs[size - 1..|xs| - 1])
  {
    var xs := ys + [x];
    if |ys| < size {
      assert !Full(kept, size);
    } else if |ys| == size {
      assert Full(kept, size) && kept[..size - 1] == xs[..size - 1];
      assert Evicted(kept, size) == xs[size - 1..|xs| - 1];
    } else {
      assert Full(kept, size) && kept[..size - 1] == xs[..size - 1];
      assert Evicted(kept, size) == [xs[|xs| - 2]];
      assert xs[size - 1..|xs| - 1] == ys[size - 1..|ys| - 1] + [xs[|xs| - 2]];
    }
  }

  /** Repeated insertion loses nothing: every payload inserted is either
      still in the list or among the evicted ones, as often as inserted. */
  lemma {:induction false} InsertAllKeepsOrEvicts<T>(xs: seq<T>, size: int)
    ensures var r := InsertAll(xs, size);
      multiset(r.0) + multiset(r.1) == multiset(xs)
  {
    if xs != [] {
      var ys, x := xs[..|xs| - 1], xs[|xs| - 1];
      var prior := InsertAll(ys, size);
      InsertAllKeepsOrEvicts(ys, size);
      AddedKeepsOrEvicts(prior.0, prior.1, x, size);
      assert xs == ys + [x];
    }
  }

  /** One insertion loses nothing: the new list and what was evicted so far
      (`gone`, plus what this insertion evicts) hold the old list's payloads,
      the earlier evictions and the new payload. */
  lemma AddedKeepsOrEvicts<T>(s: seq<T>, gone: seq<T>, x: T, size: int)
    ensures multiset(Added(s, x, size)) + multiset(gone + Evicted(s, size)) ==
      multiset(s) + multiset(gone) + multiset{x}
  {
    var r := Added(s, x, size);
    var kept := r[..|r| - 1];
    assert r == kept + [x];
    assert kept == s[..|kept|];
    assert s == kept + Evicted(s, size) by {
      assert s == s[..|kept|] + s[|kept|..];
    }
  }

  /** The capacity bound of repeated insertion: after `N` insertions into a
      fresh list of capacity `C`, it holds `min(N, C)` payloads, and
      `max(0, N - C)` were evicted. */
  lemma InsertAllCounts<T>(xs: seq<T>, size: int)
    requires 0 < size
    ensures |InsertAll(xs, size).0| == if |xs| <= size then |xs| else size
    ensures |InsertAll(xs, size).1| == if |xs| <= size then 0 else |xs| - size
  {
    InsertAllFromEmpty(xs, size);
  }

  // ---------------------------------------------------------------------
  // Promotion

  /** A promotion only reorders: the same payloads, as often as before. */
  lemma SwapUpPermutes<T>(s: seq<T>, k: nat)
    requires 0 < k < |s|
    ensures multiset(SwapUp(s, k)) == multiset(s)
  {
    assert SwapUp(s, k) == s[..k - 1] + [s[k], s[k - 1]] + s[k + 1..];
    calc {
      multiset(SwapUp(s, k));
      multiset(s[..k - 1]) + multiset([s[k], s[k - 1]]) + multiset(s[k + 1..]);
      multiset(s[..k - 1]) + multiset([s[k - 1], s[k]]) + multiset(s[k + 1..]);
      { assert s == s[..k - 1] + [s[k - 1], s[k]] + s[k + 1..]; }
      multiset(s);
    }
  }

  /** A promotion keeps every element, as often as before. */
  lemma PromotedPermutes<T>(s: seq<T>, k: nat)
    requires k < |s|
    ensures multiset(Promoted(s, k)) == multiset(s)
  {
    if 0 < k {
      SwapUpPermutes(s, k);
    }
  }

  /** Exchanging the same neighbours twice restores the sequence: a promotion
      is undone by promoting the demoted element back. */
  lemma SwapUpTwice<T>(s: seq<T>, k: nat)
    requires 0 < k < |s|
    ensures SwapUp(SwapUp(s, k), k) == s
  {
    var r := SwapUp(SwapUp(s, k), k);
    assert forall i :: 0 <= i < |s| ==> r[i] == s[i];
  }

  /** A lookup never adds or removes payloads. */
  lemma AccessedPermutes<T>(s: seq<T>, x: T)
    ensures multiset(Accessed(s, x)) == multiset(s)
  {
    var k := FirstIndex(s, x);
    if k < |s| {
      PromotedPermutes(s, k);
    }
  }

  /** A hit moves the first match exactly one position toward the root (not to
      the front; at the root it stays put). */
  lemma AccessedMovesFirstMatchOneStep<T>(s: seq<T>, x: T)
    ensures x in s ==>
      var k := FirstIndex(s, x);
      FirstIndex(Accessed(s, x), x) == if k == 0 then 0 else k - 1
  {
    var k := FirstIndex(s, x);
    if x in s {
      var r := Accessed(s, x);
      var j := if k == 0 then 0 else k - 1;
      assert r[j] == x;
      assert forall i :: 0 <= i < j ==> r[i] == s[i];
      FirstIndexBefore(r, x, j);
    }
  }

  /** `FirstIndex` is the position of the first match. */
  lemma FirstIndexBefore<T>(s: seq<T>, x: T, j: nat)
    requires j < |s| && s[j] == x
    requires forall i :: 0 <= i < j ==> s[i] != x
    ensures FirstIndex(s, x) == j
  {
  }

  /** Promoting the element at position `k` `k` times in a row brings it to the
      root; everything else keeps its relative order.  Single-step promotion
      therefore needs `k` accesses where move-to-front needs one. */
  lemma {:induction false} PromotedRepeatedlyMovesToFront<T>(s: seq<T>, k: nat)
    requires k < |s|
    ensures PromotedRepeatedly(s, k) == [s[k]] + s[..k] + s[k + 1..]
    decreases k
  {
    if k > 0 {
      var t := SwapUp(s, k);
      PromotedRepeatedlyMovesToFront(t, k - 1);
      assert t[k - 1] == s[k];
      assert t[..k - 1] == s[..k - 1];
      assert t[k..] == [s[k - 1]] + s[k + 1..];
      assert s[..k - 1] + [s[k - 1]] == s[..k];
    }
  }
}
