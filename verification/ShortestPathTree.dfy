/** Rows of the predecessor table: what a finished row means, and the invariant that Dijkstra's
    algorithm keeps while it fills one. */
module ShortestPathTree {
  import opened Graphs

  const NIL := -1

  datatype PLink = PLink(prev: int, dist: Dist)

  const UNSET := PLink(NIL, Inf)

  ghost predicate Simple(w: seq<nat>) {
    forall i, j :: 0 <= i < j < |w| ==> w[i] != w[j]
  }

  /** w is the predecessor chain of its last node, read from the root. */
  ghost predicate FollowsPrev(row: seq<PLink>, w: seq<nat>) {
    && (forall i :: 0 <= i < |w| ==> w[i] < |row|)
    && forall i :: 1 <= i < |w| ==> row[w[i]].prev == w[i - 1]
  }

  /** The predecessor chain of y ends at the root, visits no node twice, and is a shortest walk. */
  ghost predicate TreePath(g: Graph, root: nat, row: seq<PLink>, y: nat, w: seq<nat>) {
    IsShortest(g, root, y, w) && FollowsPrev(row, w) && Simple(w)
  }

  /** y has its true distance, and its predecessor chain is a shortest walk from the root; a node with
      no walk to it has neither. */
  ghost predicate EntryOk(g: Graph, root: nat, row: seq<PLink>, y: nat)
    requires y < |row|
  {
    match row[y].dist
    case Inf => !Connected(g, root, y) && row[y].prev == NIL
    case Fin(v) => exists w :: TreePath(g, root, row, y, w) && Len(g, w) == v
  }

  ghost predicate IsTreeRow(g: Graph, root: nat, row: seq<PLink>) {
    && |row| == g.n && root < g.n && row[root] == PLink(root, Fin(0.0))
    && forall y: nat :: y < g.n ==> EntryOk(g, root, row, y)
  }

  // The invariant

  ghost predicate PrevOk(g: Graph, row: seq<PLink>, queue: set<nat>, rank: seq<nat>, y: nat)
    requires |rank| == |row| && y < |row|
  {
    if row[y].dist.Inf? then row[y].prev == NIL
    else
      var p := row[y].prev;
      && 0 <= p < |row| && p !in queue && (p, y) in g.wt
      && row[p].dist.Fin? && row[y].dist == Plus(row[p].dist, g.wt[(p, y)])
      && (y !in queue ==> rank[p] < rank[y])
  }

  /** queue are the nodes not yet popped; rank is the order in which the others were popped. */
  ghost predicate Inv(g: Graph, root: nat, row: seq<PLink>, queue: set<nat>, rank: seq<nat>, count: nat) {
    && Valid(g) && |row| == |rank| == g.n && root < g.n && row[root] == PLink(root, Fin(0.0))
    && (forall y: nat :: y < g.n && y != root ==> PrevOk(g, row, queue, rank, y))
    && (forall y: nat :: y < g.n && y !in queue ==> rank[y] < count)
    && (forall y: nat :: y < g.n && row[y].dist.Fin? ==> row[y].dist.v >= 0.0)
    && forall u: nat, v: nat :: u < g.n && v < g.n && u !in queue && v in queue ==> !Less(row[v].dist, row[u].dist)
  }

  /** The link from u to v, if any, cannot shorten the distance of v. */
  ghost predicate Relaxed(g: Graph, row: seq<PLink>, u: nat, v: nat)
    requires u < |row| && v < |row|
  {
    (u, v) in g.wt ==> !Less(Plus(row[u].dist, g.wt[(u, v)]), row[v].dist)
  }

  ghost predicate RelaxedFrom(g: Graph, row: seq<PLink>, u: nat)
    requires u < |row|
  {
    forall v: nat :: v < |row| ==> Relaxed(g, row, u, v)
  }

  /** Every node already popped, except cur, has had all its links relaxed, and none is farther than cur. */
  ghost predicate RelaxedBut(g: Graph, row: seq<PLink>, queue: set<nat>, cur: nat) {
    cur < |row| && cur !in queue &&
    forall u: nat :: u < |row| && u !in queue ==>
      !Less(row[cur].dist, row[u].dist) && (u != cur ==> RelaxedFrom(g, row, u))
  }

  ghost predicate AllRelaxed(g: Graph, row: seq<PLink>, queue: set<nat>) {
    forall u: nat :: u < |row| && u !in queue ==> RelaxedFrom(g, row, u)
  }

  lemma StartInv(g: Graph, root: nat, row: seq<PLink>, queue: set<nat>)
    requires Valid(g) && |row| == g.n && root < g.n && row[root] == PLink(root, Fin(0.0))
    requires forall y: nat :: y < g.n && y != root ==> row[y] == UNSET
    requires forall y: nat :: y < g.n ==> y in queue
    ensures Inv(g, root, row, queue, seq(g.n, _ => 0), 0) && AllRelaxed(g, row, queue)
  {
  }

  /** Popping a node of least distance. */
  lemma PopKeepsInv(g: Graph, root: nat, row: seq<PLink>, queue: set<nat>, rank: seq<nat>, count: nat, u: nat)
    requires Inv(g, root, row, queue, rank, count) && AllRelaxed(g, row, queue) && u in queue && u < g.n
    requires forall v: nat :: v < g.n && v in queue ==> !Less(row[v].dist, row[u].dist)
    ensures Inv(g, root, row, queue - {u}, rank[u := count], count + 1)
    ensures RelaxedBut(g, row, queue - {u}, u)
  {
    var queue', rank' := queue - {u}, rank[u := count];
    forall y: nat | y < g.n && y != root ensures PrevOk(g, row, queue', rank', y) {
      assert PrevOk(g, row, queue, rank, y);
    }
  }

  /** A node whose distance a link can shorten is still queued, so its heap slot is a real one. */
  lemma RelaxedNodeIsQueued(g: Graph, root: nat, row: seq<PLink>, queue: set<nat>,
                            rank: seq<nat>, count: nat, u: nat, v: nat)
    requires Inv(g, root, row, queue, rank, count) && RelaxedBut(g, row, queue, u)
    requires v < g.n && (u, v) in g.wt && Less(Plus(row[u].dist, g.wt[(u, v)]), row[v].dist)
    ensures v in queue && v != root
  {
  }

  lemma RelaxKeepsInv(g: Graph, root: nat, row: seq<PLink>, queue: set<nat>, rank: seq<nat>, count: nat, u: nat, v: nat)
    requires Inv(g, root, row, queue, rank, count) && RelaxedBut(g, row, queue, u)
    requires v < g.n && (u, v) in g.wt && Less(Plus(row[u].dist, g.wt[(u, v)]), row[v].dist)
    ensures var row' := row[v := PLink(u, Plus(row[u].dist, g.wt[(u, v)]))];
      && Inv(g, root, row', queue, rank, count) && RelaxedBut(g, row', queue, u)
      && Relaxed(g, row', u, v)
      && forall x: nat :: x < g.n && Relaxed(g, row, u, x) ==> Relaxed(g, row', u, x)
  {
    RelaxedNodeIsQueued(g, root, row, queue, rank, count, u, v);
    var row' := row[v := PLink(u, Plus(row[u].dist, g.wt[(u, v)]))];
    forall y: nat | y < g.n && y != root ensures PrevOk(g, row', queue, rank, y) {
      assert PrevOk(g, row, queue, rank, y);
    }
    forall x: nat | x < |row| && x !in queue && x != u ensures RelaxedFrom(g, row', x) {
      assert RelaxedFrom(g, row, x);
      forall y: nat | y < |row| ensures Relaxed(g, row', x, y) {
        assert x != v && Relaxed(g, row, x, y);
      }
    }
  }

  // What the finished row means

  /** The end of a walk from the root has its distance bounded by the walk, or the walk is already as
      long as the distance of some queued node. */
  lemma {:induction false} WalkBound(g: Graph, root: nat, row: seq<PLink>, queue: set<nat>,
                                   rank: seq<nat>, count: nat, w: seq<nat>)
    requires Inv(g, root, row, queue, rank, count) && AllRelaxed(g, row, queue)
    requires IsWalk(g, w) && w[0] == root
    ensures !Less(Fin(Len(g, w)), row[w[|w| - 1]].dist) ||
            exists v: nat :: v < g.n && v in queue && !Less(Fin(Len(g, w)), row[v].dist)
  {
    if |w| > 1 {
      var w' := w[..|w| - 1];
      WalkBound(g, root, row, queue, rank, count, w');
      var u, y := w[|w| - 2], w[|w| - 1];
      assert w'[|w'| - 1] == u;
      if u !in queue {
        assert RelaxedFrom(g, row, u);
        assert Relaxed(g, row, u, y);
      }
    }
  }

  /** The predecessor chain of a popped node is a walk of exactly its distance, and visits nodes in
      the order in which they were popped. */
  lemma {:induction false} ChainIsWalk(g: Graph, root: nat, row: seq<PLink>, queue: set<nat>,
                                     rank: seq<nat>, count: nat, y: nat)
      returns (w: seq<nat>)
    requires Inv(g, root, row, queue, rank, count)
    requires y < g.n && y !in queue && row[y].dist.Fin?
    ensures Joins(g, root, y, w) && FollowsPrev(row, w) && Len(g, w) == row[y].dist.v
    ensures forall i, j :: 0 <= i < j < |w| ==> rank[w[i]] < rank[w[j]]
    decreases rank[y]
  {
    if y == root {
      w := [root];
    } else {
      assert PrevOk(g, row, queue, rank, y);
      var v := ChainIsWalk(g, root, row, queue, rank, count, row[y].prev);
      w := v + [y];
      ExtendChain(g, root, row, rank, v, y);
    }
  }

  lemma ExtendChain(g: Graph, root: nat, row: seq<PLink>, rank: seq<nat>, v: seq<nat>, y: nat)
    requires |row| == |rank| == g.n && y < g.n && |v| > 0 && v[|v| - 1] == row[y].prev
    requires Joins(g, root, v[|v| - 1], v) && FollowsPrev(row, v) && (v[|v| - 1], y) in g.wt
    requires forall i, j :: 0 <= i < j < |v| ==> rank[v[i]] < rank[v[j]]
    requires rank[v[|v| - 1]] < rank[y]
    ensures Joins(g, root, y, v + [y]) && FollowsPrev(row, v + [y])
    ensures Len(g, v + [y]) == Len(g, v) + g.wt[(v[|v| - 1], y)]
    ensures var w := v + [y]; forall i, j :: 0 <= i < j < |w| ==> rank[w[i]] < rank[w[j]]
  {
    var w := v + [y];
    assert w[..|w| - 1] == v;
  }

  /** A popped node that no queued node undercuts has its final, correct entry. */
  lemma PoppedEntryOk(g: Graph, root: nat, row: seq<PLink>, queue: set<nat>, rank: seq<nat>, count: nat, y: nat)
    requires Inv(g, root, row, queue, rank, count) && AllRelaxed(g, row, queue)
    requires y < g.n && y !in queue
    ensures EntryOk(g, root, row, y)
  {
    forall w | Joins(g, root, y, w) ensures !Less(Fin(Len(g, w)), row[y].dist) {
      WalkBound(g, root, row, queue, rank, count, w);
    }
    if row[y].dist.Fin? {
      var w := ChainIsWalk(g, root, row, queue, rank, count, y);
      assert TreePath(g, root, row, y, w);
    } else if y == root {
    } else {
      assert PrevOk(g, row, queue, rank, y);
    }
  }

  /** A queued node of least distance already has its final, correct entry. */
  lemma LeastEntryOk(g: Graph, root: nat, row: seq<PLink>, queue: set<nat>, rank: seq<nat>, count: nat, y: nat)
    requires Inv(g, root, row, queue, rank, count) && AllRelaxed(g, row, queue) && y in queue && y < g.n
    requires forall v: nat :: v < g.n && v in queue ==> !Less(row[v].dist, row[y].dist)
    ensures EntryOk(g, root, row, y)
  {
    forall w | Joins(g, root, y, w) ensures !Less(Fin(Len(g, w)), row[y].dist) {
      WalkBound(g, root, row, queue, rank, count, w);
    }
    if row[y].dist.Fin? {
      PopKeepsInv(g, root, row, queue, rank, count, y);
      var w := ChainIsWalk(g, root, row, queue - {y}, rank[y := count], count + 1, y);
      assert TreePath(g, root, row, y, w);
    } else {
      assert PrevOk(g, row, queue, rank, y);
    }
  }

  /** With nothing left in the queue the row is a shortest-path tree. */
  lemma EmptyQueueIsTree(g: Graph, root: nat, row: seq<PLink>, queue: set<nat>, rank: seq<nat>, count: nat)
    requires Inv(g, root, row, queue, rank, count) && AllRelaxed(g, row, queue)
    requires forall y: nat :: y < g.n ==> y !in queue
    ensures IsTreeRow(g, root, row)
  {
    forall y: nat | y < g.n ensures EntryOk(g, root, row, y) {
      PoppedEntryOk(g, root, row, queue, rank, count, y);
    }
  }
}
