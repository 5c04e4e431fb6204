/** A bounded doubly-linked list backing a most-recently-used eviction policy.
    Nodes are appended at the tail (`last`), an access moves a node one step
    toward the head (`root`), and a full list evicts its tail before an
    insertion.  Each list carries the ghost sequence `nodes` of its nodes from
    root to last; `Valid()` ties every link to it, and every operation states
    its effect on that sequence in terms of module ListSpec. */
module MruList {
  import opened ListSpec

  /** A list cell: a back link, a forward link and the payload.  The payload is
      set when the node is created and the list never writes it again. */
  class Node<T> {
    var prev: Node?<T>
    var next: Node?<T>
    const data: T

    constructor (data: T)
      ensures this.data == data && prev == null && next == null
    {
      this.data := data;
      prev, next := null, null;
    }
  }

  /** The payloads of `ns`, in order. */
  function Values<T>(ns: seq<Node<T>>): seq<T>
  {
    seq(|ns|, i requires 0 <= i < |ns| => ns[i].data)
  }

  /** Consecutive nodes of `ns` are linked both ways. */
  ghost predicate Linked<T>(ns: seq<Node<T>>)
    reads ns
  {
    (forall i {:trigger ns[i].next} :: 0 <= i < |ns| - 1 ==> ns[i].next == ns[i + 1]) &&
    (forall i {:trigger ns[i].prev} :: 0 < i < |ns| ==> ns[i].prev == ns[i - 1])
  }

  /** A chain in which every node keeps its links except the nodes at
      positions `k - 1` and `k`, which now point past each other in swapped
      order, and their outer neighbours, which now point at them, is the
      linked chain `SwapUp(ns, k)`. */
  lemma LinkedAfterSwapUp<T>(ns: seq<Node<T>>, k: nat)
    requires 0 < k < |ns|
    requires forall i {:trigger ns[i].next} :: 0 <= i < |ns| - 1 && (i < k - 2 || k < i) ==>
      ns[i].next == ns[i + 1]
    requires forall i {:trigger ns[i].prev} :: 0 < i < |ns| && (i < k - 1 || k + 1 < i) ==>
      ns[i].prev == ns[i - 1]
    requires ns[k].prev == (if 1 < k then ns[k - 2] else null) && ns[k].next == ns[k - 1]
    requires ns[k - 1].prev == ns[k] && ns[k - 1].next == (if k + 1 < |ns| then ns[k + 1] else null)
    requires 1 < k ==> ns[k - 2].next == ns[k]
    requires k + 1 < |ns| ==> ns[k + 1].prev == ns[k - 1]
    ensures Linked(SwapUp(ns, k))
  {
    var r := SwapUp(ns, k);
    forall i | 0 <= i < |r| - 1
      ensures r[i].next == r[i + 1]
    {
      if i < k - 2 || k < i {
        assert r[i] == ns[i] && ns[i].next == ns[i + 1];
      }
    }
    forall i | 0 < i < |r|
      ensures r[i].prev == r[i - 1]
    {
      if i < k - 1 || k + 1 < i {
        assert r[i] == ns[i] && ns[i].prev == ns[i - 1];
      }
    }
  }

  /** In a chain whose head has no back link, following back links from two
      equal nodes reaches the head from both, so a node occurs only once. */
  lemma {:induction false} LinkedNoRepeat<T>(ns: seq<Node<T>>, i: nat, j: nat)
    requires Linked(ns) && ns != [] && ns[0].prev == null
    requires i < j < |ns|
    ensures ns[i] != ns[j]
    decreases i
  {
    if 0 < i && ns[i] == ns[j] {
      assert ns[i - 1] == ns[i].prev == ns[j].prev == ns[j - 1];
      LinkedNoRepeat(ns, i - 1, j - 1);
    }
  }

  /** In a linked chain whose head has no back link, the node at position `k`
      occurs nowhere else. */
  lemma LinkedOnlyAt<T>(ns: seq<Node<T>>, k: nat)
    requires Linked(ns) && ns != [] && ns[0].prev == null && k < |ns|
    ensures forall i :: 0 <= i < |ns| && i != k ==> ns[i] != ns[k]
  {
    forall i | 0 <= i < |ns| && i != k
      ensures ns[i] != ns[k]
    {
      if i < k {
        LinkedNoRepeat(ns, i, k);
      } else {
        LinkedNoRepeat(ns, k, i);
      }
    }
  }

  /** Taking payloads commutes with promotion. */
  lemma ValuesPromoted<T>(ns: seq<Node<T>>, k: nat)
    requires k < |ns|
    ensures Values(Promoted(ns, k)) == Promoted(Values(ns), k)
  {
  }

  /** Taking payloads commutes with insertion. */
  lemma ValuesAdded<T>(ns: seq<Node<T>>, n: Node<T>, size: int)
    ensures Values(Added(ns, n, size)) == Added(Values(ns), n.data, size)
  {
  }

  class MruList<T(==)> {
    const size: int
    var count: int
    var root: Node?<T>
    var last: Node?<T>

    /** The nodes from root to last. */
    ghost var nodes: seq<Node<T>>

    /** The doubly-linked invariant: `root` and `last` are the ends of `nodes`
        (both null when it is empty), `count` is its length, consecutive nodes
        are linked both ways, the ends have no outer links, and a positive
        capacity bounds the length.  That no node occurs twice follows
        (`LinkedOnlyAt`). */
    ghost predicate Valid()
      reads this, nodes
    {
      count == |nodes| &&
      (0 < size ==> count <= size) &&
      (nodes == [] ==> root == null && last == null) &&
      (nodes != [] ==>
        root == nodes[0] && last == nodes[|nodes| - 1] &&
        root.prev == null && last.next == null) &&
      Linked(nodes)
    }

    /** An empty list of capacity `size`.  The capacity is not checked: with
        `size <= 0` the list never counts as full and grows without bound. */
    constructor (size: int)
      ensures Valid()
      ensures this.size == size && count == 0
      ensures root == null && last == null && nodes == []
    {
      this.size := size;
      count := 0;
      root, last := null, null;
      nodes := [];
    }

    /** The head node, or null for an empty list. */
    method GetRoot() returns (r: Node?<T>)
      requires Valid()
      ensures r == if nodes == [] then null else nodes[0]
      ensures r != null ==> r.prev == null
    {
      r := root;
    }

    /** The tail node, or null for an empty list. */
    method GetLast() returns (r: Node?<T>)
      requires Valid()
      ensures r == if nodes == [] then null else nodes[|nodes| - 1]
      ensures r != null ==> r.next == null
    {
      r := last;
    }

    /** Appends a new node carrying `data` at the tail.  A full list first
        evicts its tail, which is returned as `removed`. */
    method Add(data: T) returns (newNode: Node<T>, removed: Node?<T>)
      requires Valid()
      modifies this, nodes
      ensures Valid()
      ensures fresh(newNode) && newNode.data == data
      ensures nodes == Added(old(nodes), newNode, size)
      ensures Values(nodes) == Added(Values(old(nodes)), data, size)
      ensures removed == if Full(old(nodes), size) then old(last) else null
      ensures removed != null ==>
        removed !in nodes && removed.next == null && removed.prev == old(removed.prev)
      ensures count == if Full(old(nodes), size) then old(count) else old(count) + 1
    {
      removed := null;
      if count == size {
        removed := RemoveLast();
      }

      newNode := new Node(data);
      LinkAtTail(newNode);
      ValuesAdded(old(nodes), newNode, size);
    }

    /** The second half of `Add`: counts `n` in and links it after the current
        tail, or makes it root and last of an empty list.  The caller has made
        room for it. */
    method LinkAtTail(n: Node<T>)
      requires Valid() && n !in nodes && n.prev == null && n.next == null
      requires 0 < size ==> count < size
      modifies this, nodes, n
      ensures Valid()
      ensures nodes == old(nodes) + [n] && count == old(count) + 1
      ensures Values(nodes) == Values(old(nodes)) + [n.data]
    {
      count := count + 1;

      if root == null {
        root := n;
        last := n;
        nodes := [n];
        return;
      }

      n.prev := last;
      n.next := null;

      last.next := n;
      last := n;
      nodes := nodes + [n];
    }

    /** Removes the tail node and returns it, or returns null on an empty list.
        The removed node keeps its back link, which still points at the new
        tail. */
    method RemoveLast() returns (removed: Node?<T>)
      requires Valid()
      modifies this, nodes
      ensures Valid()
      ensures removed == old(last)
      ensures nodes == DropLast(old(nodes))
      ensures Values(nodes) == DropLast(Values(old(nodes)))
      ensures count == if old(nodes) == [] then old(count) else old(count) - 1
      ensures removed != null ==>
        removed !in nodes && removed.next == null && removed.prev == last
    {
      if root == null {
        return null;
      }

      count := count - 1;
      removed := last;
      ghost var m := |nodes| - 1;
      LinkedOnlyAt(nodes, m);

      if root == last {
        root := null;
        last := null;
        nodes := [];
        return;
      }

      assert 0 < m && last.prev == nodes[m - 1];
      last.prev.next := null;
      last := last.prev;
      nodes := nodes[..m];
    }

    /** Moves `n` one position toward the root by exchanging it with its
        predecessor; nothing happens when `n` is null or the root. */
    method MoveUp(n: Node?<T>)
      requires Valid()
      requires n != null ==> n in nodes
      modifies this, nodes
      ensures Valid() && count == old(count)
      ensures n == null ==> nodes == old(nodes)
      ensures n != null ==> nodes == Promoted(old(nodes), FirstIndex(old(nodes), n))
      ensures n != null ==>
        Values(nodes) == Promoted(Values(old(nodes)), FirstIndex(old(nodes), n))
      ensures n != null && n != old(root) && old(n.prev) == old(root) ==> root == n
      ensures n != null && n == old(last) && n != old(root) ==> last == old(n.prev)
    {
      if n == null || n == root {
        return;
      }

      ghost var k := FirstIndex(nodes, n);
      assert 0 < k && nodes[k] == n && n.prev == nodes[k - 1];
      LinkedOnlyAt(nodes, k);
      LinkedOnlyAt(nodes, k - 1);
      if 1 < k {
        LinkedOnlyAt(nodes, k - 2);
      }
      if k + 1 < |nodes| {
        LinkedOnlyAt(nodes, k + 1);
      }
      assert if k == 1 then nodes[k - 1].prev == null else nodes[k - 1].prev == nodes[k - 2];
      assert if k == |nodes| - 1 then n.next == null else n.next == nodes[k + 1];

      var nPrev := n.prev;
      var nPrevPrev := n.prev.prev;
      var nNext := n.next;

      Relink(n, nPrev, nPrevPrev, nNext);

      if nNext == null {
        last := nPrev;
      }

      if nPrevPrev == null {
        root := n;
      }

      ghost var ns := nodes;
      forall i {:trigger ns[i].next} | 0 <= i < |ns| - 1 && (i < k - 2 || k < i)
        ensures ns[i].next == ns[i + 1]
      {
        assert ns[i] != n && ns[i] != nPrev && ns[i] != nPrevPrev;
        assert old(ns[i].next) == ns[i + 1];
      }
      forall i {:trigger ns[i].prev} | 0 < i < |ns| && (i < k - 1 || k + 1 < i)
        ensures ns[i].prev == ns[i - 1]
      {
        assert ns[i] != n && ns[i] != nPrev && ns[i] != nNext;
        assert old(ns[i].prev) == ns[i - 1];
      }
      nodes := SwapUp(ns, k);
      ValidAfterExchange(ns, k);
      ValuesPromoted(ns, k);
    }

    /** The state `MoveUp` leaves behind: `nodes` is the old chain with
        positions `k - 1` and `k` exchanged, the links around them are rewired
        and `root` and `last` are the new ends. */
    lemma ValidAfterExchange(ns: seq<Node<T>>, k: nat)
      requires 0 < k < |ns| && nodes == SwapUp(ns, k)
      requires count == |ns| && (0 < size ==> count <= size)
      requires root == (if k == 1 then ns[1] else ns[0]) && root.prev == null
      requires last == (if k == |ns| - 1 then ns[k - 1] else ns[|ns| - 1]) && last.next == null
      requires forall i {:trigger ns[i].next} :: 0 <= i < |ns| - 1 && (i < k - 2 || k < i) ==>
        ns[i].next == ns[i + 1]
      requires forall i {:trigger ns[i].prev} :: 0 < i < |ns| && (i < k - 1 || k + 1 < i) ==>
        ns[i].prev == ns[i - 1]
      requires ns[k].prev == (if 1 < k then ns[k - 2] else null) && ns[k].next == ns[k - 1]
      requires ns[k - 1].prev == ns[k] && ns[k - 1].next == (if k + 1 < |ns| then ns[k + 1] else null)
      requires 1 < k ==> ns[k - 2].next == ns[k]
      requires k + 1 < |ns| ==> ns[k + 1].prev == ns[k - 1]
      ensures Valid()
    {
      LinkedAfterSwapUp(ns, k);
    }

    /** The pointer exchange of `MoveUp`: `n` goes between `nPrevPrev` and
        `nPrev`, and `nPrev` between `n` and `nNext`; the outer neighbours, when
        present, are pointed at them. */
    static method Relink(n: Node<T>, nPrev: Node<T>, nPrevPrev: Node?<T>, nNext: Node?<T>)
      requires n != nPrev && nPrevPrev != n && nPrevPrev != nPrev
      requires nNext != n && nNext != nPrev && (nNext != null ==> nNext != nPrevPrev)
      modifies n, nPrev, nPrevPrev, nNext
      ensures n.prev == nPrevPrev && n.next == nPrev
      ensures nPrev.prev == n && nPrev.next == nNext
      ensures nPrevPrev != null ==> nPrevPrev.next == n && nPrevPrev.prev == old(nPrevPrev.prev)
      ensures nNext != null ==> nNext.prev == nPrev && nNext.next == old(nNext.next)
    {
      n.prev := nPrevPrev;
      n.next := nPrev;
      if nPrevPrev != null {
        nPrevPrev.next := n;
      }
      nPrev.next := nNext;
      nPrev.prev := n;
      if nNext != null {
        nNext.prev := nPrev;
      }
    }

    /** Finds the first node from the root whose payload equals `data`,
        promotes it one step and returns it; returns null on a miss, leaving
        the list unchanged. */
    method Get(data: T) returns (r: Node?<T>)
      requires Valid()
      modifies this, nodes
      ensures Valid() && count == old(count)
      ensures var k := FirstIndex(Values(old(nodes)), data);
        if k < |old(nodes)| then
          r == old(nodes)[k] && nodes == Promoted(old(nodes), k)
        else
          r == null && nodes == old(nodes)
      ensures Values(nodes) == Accessed(Values(old(nodes)), data)
    {
      var n := root;
      ghost var i := 0;
      while n != null
        invariant 0 <= i <= |nodes|
        invariant n == if i < |nodes| then nodes[i] else null
        invariant forall j :: 0 <= j < i ==> nodes[j].data != data
        decreases |nodes| - i
      {
        if n.data == data {
          FirstIndexBefore(Values(nodes), data, i);
          LinkedOnlyAt(nodes, i);
          FirstIndexBefore(nodes, n, i);
          ValuesPromoted(nodes, i);
          MoveUp(n);
          return n;
        }
        n := n.next;
        i := i + 1;
      }
      return null;
    }
  }
}
