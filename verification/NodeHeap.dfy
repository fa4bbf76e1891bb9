/** The array binary heap of node descriptors used by Dijkstra, with the back-pointer heap_pos of each
    descriptor. It refines a priority queue: a map from queued node ids to their distances. */
module NodeHeap {
  import opened Graphs

  datatype Element = Element(dist: Dist, descr: nat)

  function Parent(i: int): int { (i - 1) / 2 }

  class MinHeap {
    var sz: nat
    const A: array<Element>
    const pos: array<int>             // heap_pos of every node descriptor, -1 if it is not queued
    ghost var queue: map<nat, Dist>   // the priority queue this heap stands for

    /** Slots and back-pointers are mutually inverse, and the slots hold exactly the queue. */
    ghost predicate Linked()
      reads this, A, pos
    {
      && A.Length == pos.Length
      && sz <= A.Length
      && (forall n: nat :: n in queue <==> n < pos.Length && pos[n] >= 0)
      && (forall n: nat :: n < pos.Length && pos[n] != -1 ==> 0 <= pos[n] < sz && A[pos[n]].descr == n)
      && (forall i :: 0 <= i < sz ==>
            A[i].descr < pos.Length && pos[A[i].descr] == i && queue[A[i].descr] == A[i].dist)
    }

    ghost predicate Ordered()
      requires Linked()
      reads this, A, pos
    {
      forall i :: 1 <= i < sz ==> !Less(A[i].dist, A[Parent(i)].dist)
    }

    ghost predicate Valid()
      reads this, A, pos
    {
      Linked() && Ordered()
    }

    constructor (heapPos: array<int>)
      requires forall n :: 0 <= n < heapPos.Length ==> heapPos[n] == -1
      ensures Valid() && sz == 0 && queue == map[] && pos == heapPos && fresh(A)
    {
      sz, pos, queue := 0, heapPos, map[];
      A := new Element[heapPos.Length](_ => Element(Inf, 0));
    }

    method SwapElements(x: nat, y: nat)
      requires Linked() && x < sz && y < sz && x != y
      modifies A, pos
      ensures Linked()
      ensures A[x] == old(A[y]) && A[y] == old(A[x])
      ensures forall i :: 0 <= i < A.Length && i != x && i != y ==> A[i] == old(A[i])
    {
      A[x], A[y] := A[y], A[x];
      pos[A[x].descr] := x;
      pos[A[y].descr] := y;
    }

    /** Every slot but i is in order with its parent, and the children of i with the parent of i. */
    ghost predicate OrderedAbove(i: nat)
      requires Linked()
      reads this, A, pos
    {
      && (forall k :: 1 <= k < sz && k != i ==> !Less(A[k].dist, A[Parent(k)].dist))
      && (forall k :: 1 <= k < sz && Parent(k) == i && i > 0 ==> !Less(A[k].dist, A[Parent(i)].dist))
    }

    method SwapWithParent(i: nat)
      requires Linked() && 0 < i < sz && OrderedAbove(i) && Less(A[i].dist, A[Parent(i)].dist)
      modifies A, pos
      ensures Linked() && OrderedAbove(Parent(i))
    {
      var p := Parent(i);
      assert p > 0 ==> !Less(A[p].dist, A[Parent(p)].dist);
      SwapElements(i, p);
      forall k | 1 <= k < sz && k != p ensures !Less(A[k].dist, A[Parent(k)].dist) {
        assert k == i || Parent(k) == i || Parent(k) == p || A[Parent(k)] == old(A[Parent(k)]);
      }
      forall k | 1 <= k < sz && Parent(k) == p && p > 0 ensures !Less(A[k].dist, A[Parent(p)].dist) {
        assert k == i || !Less(old(A[k].dist), old(A[p].dist));
      }
    }

    /** The upward pass. */
    method SiftUp(start: nat)
      requires Linked() && start < sz && OrderedAbove(start)
      modifies A, pos
      ensures Valid()
    {
      var i: nat := start;
      while i > 0 && Less(A[i].dist, A[Parent(i)].dist)
        invariant Linked() && i < sz && OrderedAbove(i)
      {
        SwapWithParent(i);
        i := Parent(i);
      }
    }

    /** Every slot is in order with its parent except the children of i, and those are in order with
        the parent of i. */
    ghost predicate OrderedBelow(i: nat)
      requires Linked()
      reads this, A, pos
    {
      && (forall k :: 1 <= k < sz && Parent(k) != i ==> !Less(A[k].dist, A[Parent(k)].dist))
      && (forall k :: 1 <= k < sz && Parent(k) == i && i > 0 ==> !Less(A[k].dist, A[Parent(i)].dist))
    }

    /** Swap i with a least child that is smaller than i. */
    method SwapWithChild(i: nat, c: nat)
      requires Linked() && i < c < sz && Parent(c) == i && OrderedBelow(i)
      requires Less(A[c].dist, A[i].dist)
      requires forall k :: 1 <= k < sz && Parent(k) == i ==> !Less(A[k].dist, A[c].dist)
      modifies A, pos
      ensures Linked() && OrderedBelow(c)
    {
      SwapElements(i, c);
      forall k | 1 <= k < sz && Parent(k) != c ensures !Less(A[k].dist, A[Parent(k)].dist) {
        assert k == c || k == i || Parent(k) == i || (A[k] == old(A[k]) && A[Parent(k)] == old(A[Parent(k)]));
      }
      forall k | 1 <= k < sz && Parent(k) == c ensures !Less(A[k].dist, A[i].dist) {
        assert A[k] == old(A[k]);
      }
    }

    /** The downward pass. */
    method Heapify(i: nat)
      requires Linked() && (i < sz || sz == 0) && OrderedBelow(i)
      modifies A, pos
      ensures Valid()
      decreases A.Length - i
    {
      var l, r := 2 * i + 1, 2 * i + 2;
      var smallest := i;
      if l < sz && Less(A[l].dist, A[i].dist) {
        smallest := l;
      }
      if r < sz && Less(A[r].dist, A[smallest].dist) {
        smallest := r;
      }
      assert forall k :: 1 <= k < sz && Parent(k) == i ==> k == l || k == r;
      if smallest != i {
        SwapWithChild(i, smallest);
        Heapify(smallest);
      }
    }

    /** Insert a descriptor that is not queued. */
    method Insert(k: Dist, d: nat)
      requires Valid() && d < pos.Length && pos[d] == -1 && sz < A.Length
      modifies this, A, pos
      ensures Valid() && queue == old(queue)[d := k] && sz == old(sz) + 1
    {
      A[sz] := Element(k, d);
      pos[d] := sz;
      queue := queue[d := k];
      sz := sz + 1;
      SiftUp(sz - 1);
    }

    method SetDist(i: nat, k: Dist)
      requires Valid() && i < sz && Less(k, A[i].dist)
      modifies this, A
      ensures Linked() && OrderedAbove(i) && sz == old(sz)
      ensures queue == old(queue)[old(A[i].descr) := k] && queue.Keys == old(queue.Keys)
    {
      queue := queue[A[i].descr := k];
      A[i] := Element(k, A[i].descr);
    }

    /** Lower the distance in slot i; the slot must be a real one, so the node must be queued. */
    method DecreaseDist(i: int, k: Dist)
      requires Valid() && 0 <= i < sz
      modifies this, A, pos
      ensures Valid() && sz == old(sz) && queue.Keys == old(queue.Keys)
      ensures queue == if Less(k, old(A[i].dist)) then old(queue)[old(A[i].descr) := k] else old(queue)
    {
      if Less(k, A[i].dist) {
        SetDist(i, k);
        SiftUp(i);
      }
    }

    lemma FirstIsLeast(i: nat)
      requires Valid() && i < sz
      ensures !Less(A[i].dist, A[0].dist)
    {
      if i > 0 { FirstIsLeast(Parent(i)); }
    }

    /** Take the last slot into the first one. */
    method DropFirst()
      requires Valid() && sz > 0
      modifies this, A, pos
      ensures Linked() && sz == old(sz) - 1 && OrderedBelow(0)
      ensures queue == old(queue) - {old(A[0].descr)}
    {
      var d := A[0].descr;
      sz := sz - 1;
      queue := queue - {d};
      pos[d] := -1;
      if sz > 0 {
        A[0] := A[sz];
        pos[A[0].descr] := 0;
      }
    }

    /** Remove and return a queued descriptor of least distance. */
    method PopFirst() returns (res: Element)
      requires Valid() && sz > 0
      modifies this, A, pos
      ensures Valid() && sz == old(sz) - 1
      ensures res.descr in old(queue) && old(queue)[res.descr] == res.dist
      ensures forall n :: n in old(queue) ==> !Less(old(queue)[n], res.dist)
      ensures queue == old(queue) - {res.descr}
    {
      res := A[0];
      forall n | n in queue ensures !Less(queue[n], res.dist) {
        FirstIsLeast(pos[n]);
      }
      DropFirst();
      if sz > 0 {
        Heapify(0);
      }
    }
  }
}
