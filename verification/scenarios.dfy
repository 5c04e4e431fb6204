/** Client-side walks over an MRU list and the usage scenarios of the
    package's tests, each with its outcome stated as a postcondition. */
module Scenarios {
  import opened ListSpec
  import opened MruList

  /** Walks the list from the root along the forward links, collecting the
      payloads: exactly the payloads of the list, from root to last. */
  method Forward<T(==)>(ml: MruList<T>) returns (r: seq<T>)
    requires ml.Valid()
    ensures r == Values(ml.nodes)
  {
    var n := ml.GetRoot();
    r := [];
    ghost var i := 0;
    while n != null
      invariant 0 <= i <= |ml.nodes|
      invariant n == if i < |ml.nodes| then ml.nodes[i] else null
      invariant r == Values(ml.nodes)[..i]
      decreases |ml.nodes| - i
    {
      r := r + [n.data];
      n := n.next;
      i := i + 1;
    }
  }

  /** Walks the list from the last node along the back links: the payloads of
      the list in reverse order. */
  method Backward<T(==)>(ml: MruList<T>) returns (r: seq<T>)
    requires ml.Valid()
    ensures r == Reversed(Values(ml.nodes))
  {
    var n := ml.GetLast();
    r := [];
    ghost var i := 0;
    while n != null
      invariant 0 <= i <= |ml.nodes|
      invariant n == if i < |ml.nodes| then ml.nodes[|ml.nodes| - 1 - i] else null
      invariant r == Reversed(Values(ml.nodes))[..i]
      decreases |ml.nodes| - i
    {
      r := r + [n.data];
      n := n.prev;
      i := i + 1;
    }
  }

  /** The payloads left by inserting 0 through 9 into a list of capacity 5. */
  lemma TenIntoFive()
    ensures InsertAll(seq(10, j => j), 5).0 == [0, 1, 2, 3, 9]
  {
    InsertAllFromEmpty(seq(10, j => j), 5);
  }

  /** Inserting 0 through 9 into a list of capacity 5 keeps 0 at the root
      and ends with 9 at the tail: every insertion into the full list evicts
      the previous tail. */
  method AddTenToCapacityFive() returns (rootData: int, lastData: int)
    ensures rootData == 0 && lastData == 9
  {
    var ml := new MruList<int>(5);
    var i := 0;
    while i < 10
      invariant 0 <= i <= 10
      invariant ml.Valid() && ml.size == 5
      invariant forall j :: 0 <= j < |ml.nodes| ==> fresh(ml.nodes[j])
      invariant Values(ml.nodes) == if i <= 5 then seq(i, j => j) else [0, 1, 2, 3, i - 1]
    {
      var _, _ := ml.Add(i);
      i := i + 1;
    }
    var root := ml.GetRoot();
    var last := ml.GetLast();
    assert root.data == Values(ml.nodes)[0] && last.data == Values(ml.nodes)[4];
    rootData, lastData := root.data, last.data;
  }

  /** Inserting into a list that is not at capacity and then removing the
      tail hands back the node just inserted and restores the node chain and
      the count, hence every link between the nodes. */
  method AddThenRemoveLast<T(==)>(ml: MruList<T>, data: T) returns (n: Node<T>, back: Node?<T>)
    requires ml.Valid() && !Full(ml.nodes, ml.size)
    modifies ml, ml.nodes
    ensures ml.Valid()
    ensures back == n && n.data == data
    ensures ml.nodes == old(ml.nodes) && ml.count == old(ml.count)
  {
    ghost var before := ml.nodes;
    var removed;
    n, removed := ml.Add(data);
    back := ml.RemoveLast();
    AddedThenDropLast(before, n, ml.size);
  }

  /** The payload sequences of the two-payload test: a hit on the root
      changes nothing, a hit on the second payload makes it the root. */
  lemma TwoElementTrace()
    ensures Accessed([1, 2], 1) == [1, 2]
    ensures Accessed([1, 2], 2) == [2, 1] && Reversed([2, 1]) == [1, 2]
  {
    FirstIndexBefore([1, 2], 2, 1);
    assert Reversed([2, 1]) == [[2, 1][1], [2, 1][0]];
  }

  /** Two payloads inserted as 1, 2 into a list of capacity 5: looking up 1
      leaves 1 at the root and 2 at the tail; looking up 2 then makes 2 the
      root and 1 the tail, and the forward and backward walks read [2, 1]
      and [1, 2]. */
  method MoveUpWithTwoElements()
    returns (root1: int, last1: int, root2: int, last2: int, forward: seq<int>, backward: seq<int>)
    ensures root1 == 1 && last1 == 2
    ensures root2 == 2 && last2 == 1
    ensures forward == [2, 1] && backward == [1, 2]
  {
    TwoElementTrace();
    var ml := new MruList<int>(5);
    var _, _ := ml.Add(1);
    var _, _ := ml.Add(2);
    assert Values(ml.nodes) == [1, 2];

    var _ := ml.Get(1);
    var r := ml.GetRoot();
    var l := ml.GetLast();
    assert r.data == Values(ml.nodes)[0] && l.data == Values(ml.nodes)[1];
    root1, last1 := r.data, l.data;

    var _ := ml.Get(2);
    r := ml.GetRoot();
    l := ml.GetLast();
    assert r.data == Values(ml.nodes)[0] && l.data == Values(ml.nodes)[1];
    root2, last2 := r.data, l.data;

    forward := Forward(ml);
    backward := Backward(ml);
  }

  /** Three payloads inserted as 1, 2, 3 (the list [1, 2, 3]) and then looked up as 3, 3, 2, 2, 3:
      each hit moves its payload one position toward the root, taking the
      list through [1, 3, 2], [3, 1, 2], [3, 2, 1], [2, 3, 1] and back to
      [3, 2, 1]; each backward order is the forward one reversed. */
  lemma MoveUpWithThreeElements()
    ensures Accessed([1, 2, 3], 3) == [1, 3, 2] && Reversed([1, 3, 2]) == [2, 3, 1]
    ensures Accessed([1, 3, 2], 3) == [3, 1, 2] && Reversed([3, 1, 2]) == [2, 1, 3]
    ensures Accessed([3, 1, 2], 2) == [3, 2, 1] && Reversed([3, 2, 1]) == [1, 2, 3]
    ensures Accessed([3, 2, 1], 2) == [2, 3, 1] && Reversed([2, 3, 1]) == [1, 3, 2]
    ensures Accessed([2, 3, 1], 3) == [3, 2, 1]
  {
    FirstIndexBefore([1, 2, 3], 3, 2);
    FirstIndexBefore([1, 3, 2], 3, 1);
    FirstIndexBefore([3, 1, 2], 2, 2);
    FirstIndexBefore([3, 2, 1], 2, 1);
    FirstIndexBefore([2, 3, 1], 3, 1);
    ReversedOfThree(1, 3, 2);
    ReversedOfThree(3, 1, 2);
    ReversedOfThree(3, 2, 1);
    ReversedOfThree(2, 3, 1);
  }

  /** Eviction takes the tail, not the least recently used payload: after 1,
      2, 3 are inserted into a list of capacity 3 and 3 is looked up twice,
      the next insertion evicts 2, although 1 was the payload used least
      recently and 3 the one inserted last. */
  lemma EvictsTailAfterPromotions()
    ensures Accessed(Accessed([1, 2, 3], 3), 3) == [3, 1, 2]
    ensures Evicted([3, 1, 2], 3) == [2] && Added([3, 1, 2], 4, 3) == [3, 1, 4]
  {
    FirstIndexBefore([1, 2, 3], 3, 2);
    FirstIndexBefore([1, 3, 2], 3, 1);
    var r := Added([3, 1, 2], 4, 3);
    assert r[0] == 3 && r[1] == 1;
  }

  /** Three payloads back to front. */
  lemma ReversedOfThree(a: int, b: int, c: int)
    ensures Reversed([a, b, c]) == [c, b, a]
  {
  }
}
