/** Dijkstra's algorithm over the node table, the predecessor table and the heap: the full version
    that fills one row of the table, and the version that stops at one destination. */
module Dijkstra {
  import opened Graphs
  import opened NodeTable
  import opened NodeHeap
  import opened ShortestPathTree

  ghost function ToGraph(N: NTable): Graph
    reads N
  {
    N.Abs().ToGraph()
  }

  /** Row x of the predecessor table. */
  ghost predicate RowIs(P: array2<PLink>, x: nat, row: seq<PLink>)
    reads P
  {
    x < P.Length0 && |row| == P.Length1 && forall y :: 0 <= y < |row| ==> P[x, y] == row[y]
  }

  /** A node table ready for a search: no length is negative, and no descriptor has a heap position. */
  ghost predicate Idle(N: NTable)
    reads N, N.heapPos
  {
    && N.Valid() && Graphs.Valid(ToGraph(N)) && N.heapPos.Length == |N.pids|
    && forall i :: 0 <= i < N.heapPos.Length ==> N.heapPos[i] == -1
  }

  twostate predicate OtherRowsSame(P: array2<PLink>, root: nat)
    reads P
  {
    forall x, y :: 0 <= x < P.Length0 && 0 <= y < P.Length1 && x != root ==> P[x, y] == old(P[x, y])
  }

  /** The queue holds the current distances of the queued nodes. */
  ghost predicate QueueHas(row: seq<PLink>, queue: map<nat, Dist>) {
    forall y :: y in queue ==> y < |row| && queue[y] == row[y].dist
  }

  /** A search in progress: the row, the heap and the invariant fit together. */
  ghost predicate Searching(g: Graph, P: array2<PLink>, root: nat, Q: MinHeap, row: seq<PLink>,
                            rank: seq<nat>, count: nat)
    reads P, Q, Q.A, Q.pos
  {
    && Q.Valid() && Q.pos.Length == g.n && RowIs(P, root, row) && QueueHas(row, Q.queue)
    && Inv(g, root, row, Q.queue.Keys, rank, count)
  }

  /** Queue every node, the root at distance 0. */
  method Start(ghost g: Graph, heapPos: array<int>, P: array2<PLink>, root: nat)
      returns (Q: MinHeap, ghost row: seq<PLink>)
    requires Valid(g) && root < g.n == heapPos.Length == P.Length1 && root < P.Length0
    requires forall i :: 0 <= i < heapPos.Length ==> heapPos[i] == -1
    requires forall y :: 0 <= y < P.Length1 ==> P[root, y] == UNSET
    modifies P, heapPos
    ensures fresh(Q) && fresh(Q.A) && Q.pos == heapPos && OtherRowsSame(P, root)
    ensures Searching(g, P, root, Q, row, seq(|row|, _ => 0), 0) && AllRelaxed(g, row, Q.queue.Keys)
    ensures forall y: nat :: y < g.n ==> y in Q.queue
  {
    Q := new MinHeap(heapPos);
    P[root, root] := PLink(root, Fin(0.0));
    row := seq(P.Length1, _ => UNSET)[root := PLink(root, Fin(0.0))];
    QueueAll(Q, root);
    StartInv(g, root, row, Q.queue.Keys);
  }

  method QueueAll(Q: MinHeap, root: nat)
    requires Q.Valid() && Q.sz == 0 && Q.queue == map[] && root < Q.pos.Length
    modifies Q, Q.A, Q.pos
    ensures Q.Valid()
    ensures forall y: nat :: y in Q.queue <==> y < Q.pos.Length
    ensures forall y :: y in Q.queue ==> Q.queue[y] == if y == root then Fin(0.0) else Inf
  {
    for nj := 0 to Q.pos.Length
      invariant Q.Valid() && Q.sz == nj
      invariant forall y: nat :: y in Q.queue <==> y < nj
      invariant forall y :: y in Q.queue ==> Q.queue[y] == if y == root then Fin(0.0) else Inf
    {
      assert nj !in Q.queue;
      Q.Insert(if nj == root then Fin(0.0) else Inf, nj);
    }
  }

  /** Pop the nearest queued node. Its entry is final. */
  method Pop(ghost g: Graph, P: array2<PLink>, root: nat, Q: MinHeap,
             ghost row: seq<PLink>, ghost rank: seq<nat>, ghost count: nat)
      returns (lower: Element, ghost rank': seq<nat>)
    requires Searching(g, P, root, Q, row, rank, count) && AllRelaxed(g, row, Q.queue.Keys) && Q.sz > 0
    modifies Q, Q.A, Q.pos
    ensures Q.sz == old(Q.sz) - 1 && lower.descr in old(Q.queue) && Q.queue == old(Q.queue) - {lower.descr}
    ensures Searching(g, P, root, Q, row, rank', count + 1)
    ensures RelaxedBut(g, row, Q.queue.Keys, lower.descr) && row[lower.descr].dist == lower.dist
    ensures EntryOk(g, root, row, lower.descr)
  {
    ghost var before := Q.queue;
    lower := Q.PopFirst();
    assert Q.queue.Keys == before.Keys - {lower.descr};
    PopKeepsInv(g, root, row, before.Keys, rank, count, lower.descr);
    LeastEntryOk(g, root, row, before.Keys, rank, count, lower.descr);
    rank' := rank[lower.descr := count];
  }

  /** Relax every link of the node just popped. */
  method RelaxLinks(ghost g: Graph, adj: seq<seq<Adj>>, P: array2<PLink>, root: nat, Q: MinHeap, lower: Element,
                    ghost row: seq<PLink>, ghost rank: seq<nat>, ghost count: nat) returns (ghost row': seq<PLink>)
    requires Searching(g, P, root, Q, row, rank, count) && Represents(adj, g.wt) && |adj| == g.n
    requires RelaxedBut(g, row, Q.queue.Keys, lower.descr) && row[lower.descr].dist == lower.dist
    modifies P, Q, Q.A, Q.pos
    ensures Q.sz == old(Q.sz) && Q.queue.Keys == old(Q.queue.Keys) && OtherRowsSame(P, root)
    ensures Searching(g, P, root, Q, row', rank, count) && AllRelaxed(g, row', Q.queue.Keys)
  {
    row' := row;
    var u := lower.descr;
    for k := 0 to |adj[u]|
      invariant Q.sz == old(Q.sz) && Q.queue.Keys == old(Q.queue.Keys) && OtherRowsSame(P, root)
      invariant Searching(g, P, root, Q, row', rank, count)
      invariant RelaxedBut(g, row', Q.queue.Keys, u) && row'[u].dist == lower.dist
      invariant RelaxedUpTo(g, row', u, adj[u], k)
    {
      ghost var row0 := row';
      row' := RelaxLink(g, P, root, Q, lower, adj[u][k], row', rank, count);
      RelaxedOneMore(g, row0, row', u, adj[u], k);
    }
    AllLinksRelaxed(adj, g, row', Q.queue.Keys, u);
  }

  ghost predicate RelaxedUpTo(g: Graph, row: seq<PLink>, u: nat, adj: seq<Adj>, k: int)
    requires u < |row|
  {
    forall j :: 0 <= j < k && j < |adj| ==> adj[j].nid < |row| && Relaxed(g, row, u, adj[j].nid)
  }

  lemma RelaxedOneMore(g: Graph, row: seq<PLink>, row': seq<PLink>, u: nat, adj: seq<Adj>, k: nat)
    requires u < |row| == |row'| && k < |adj| && RelaxedUpTo(g, row, u, adj, k)
    requires adj[k].nid < |row'| && Relaxed(g, row', u, adj[k].nid)
    requires forall x: nat :: x < |row| && Relaxed(g, row, u, x) ==> Relaxed(g, row', u, x)
    ensures RelaxedUpTo(g, row', u, adj, k + 1)
  {
  }

  lemma AllLinksRelaxed(adj: seq<seq<Adj>>, g: Graph, row: seq<PLink>, queue: set<nat>, u: nat)
    requires Represents(adj, g.wt) && RelaxedBut(g, row, queue, u) && u < |adj|
    requires RelaxedUpTo(g, row, u, adj[u], |adj[u]|)
    ensures AllRelaxed(g, row, queue)
  {
    forall v: nat | v < |row| ensures Relaxed(g, row, u, v) {
      if (u, v) in g.wt { assert HasAdj(adj[u], v); }
    }
  }

  /** Lower the distance of a queued node. */
  method LowerDist(Q: MinHeap, ghost row: seq<PLink>, v: nat, ghost u: nat, d: Dist)
    requires Q.Valid() && QueueHas(row, Q.queue) && v in Q.queue && Less(d, row[v].dist)
    modifies Q, Q.A, Q.pos
    ensures Q.Valid() && Q.sz == old(Q.sz) && Q.queue.Keys == old(Q.queue.Keys)
    ensures QueueHas(row[v := PLink(u, d)], Q.queue)
  {
    Q.DecreaseDist(Q.pos[v], d);
  }

  /** Relax one link. The heap position used is always a real one: only queued nodes are decreased. */
  method RelaxLink(ghost g: Graph, P: array2<PLink>, root: nat, Q: MinHeap, lower: Element, ai: Adj,
                   ghost row: seq<PLink>, ghost rank: seq<nat>, ghost count: nat) returns (ghost row': seq<PLink>)
    requires Searching(g, P, root, Q, row, rank, count)
    requires RelaxedBut(g, row, Q.queue.Keys, lower.descr) && row[lower.descr].dist == lower.dist
    requires (lower.descr, ai.nid) in g.wt && g.wt[(lower.descr, ai.nid)] == ai.len
    modifies P, Q, Q.A, Q.pos
    ensures Q.sz == old(Q.sz) && Q.queue.Keys == old(Q.queue.Keys) && OtherRowsSame(P, root)
    ensures Searching(g, P, root, Q, row', rank, count)
    ensures RelaxedBut(g, row', Q.queue.Keys, lower.descr) && row'[lower.descr].dist == lower.dist
    ensures ai.nid < |row'| && Relaxed(g, row', lower.descr, ai.nid)
    ensures forall x: nat :: x < |row| && Relaxed(g, row, lower.descr, x) ==> Relaxed(g, row', lower.descr, x)
  {
    row' := row;
    if Less(Plus(lower.dist, ai.len), P[root, ai.nid].dist) {
      var d := Plus(lower.dist, ai.len);
      RelaxedNodeIsQueued(g, root, row, Q.queue.Keys, rank, count, lower.descr, ai.nid);
      RelaxKeepsInv(g, root, row, Q.queue.Keys, rank, count, lower.descr, ai.nid);
      P[root, ai.nid] := PLink(lower.descr, d);
      row' := row[ai.nid := PLink(lower.descr, d)];
      LowerDist(Q, row, ai.nid, lower.descr, d);
    }
  }

  /** Fills row root of the table with a shortest-path tree and leaves the other rows alone. */
  method FillRow(N: NTable, P: array2<PLink>, root: nat) returns (ghost row: seq<PLink>)
    requires Idle(N) && root < |N.pids| == P.Length1 && root < P.Length0
    requires forall y :: 0 <= y < P.Length1 ==> P[root, y] == UNSET
    modifies P, N.heapPos
    ensures Idle(N) && RowIs(P, root, row) && IsTreeRow(ToGraph(N), root, row) && OtherRowsSame(P, root)
  {
    ghost var g := ToGraph(N);
    var Q: MinHeap;
    Q, row := Start(g, N.heapPos, P, root);
    ghost var rank, count := seq(|row|, _ => 0), 0;
    while Q.sz > 0
      invariant fresh(Q) && fresh(Q.A) && Q.pos == N.heapPos && OtherRowsSame(P, root)
      invariant Searching(g, P, root, Q, row, rank, count) && AllRelaxed(g, row, Q.queue.Keys)
    {
      var lower;
      lower, rank := Pop(g, P, root, Q, row, rank, count);
      count := count + 1;
      row := RelaxLinks(g, N.adj, P, root, Q, lower, row, rank, count);
    }
    EmptyQueueIsTree(g, root, row, Q.queue.Keys, rank, count);
  }

  /** The links of a walk, from its end back to its start, as the source lists them. */
  function Backwards(w: seq<nat>): (p: seq<Edge>)
    ensures |p| == if |w| == 0 then 0 else |w| - 1
    ensures forall k :: 0 <= k < |p| ==> p[k] == Edge(w[|w| - 1 - k], w[|w| - 2 - k], 0.0)
  {
    if |w| <= 1 then [] else [Edge(w[|w| - 1], w[|w| - 2], 0.0)] + Backwards(w[..|w| - 1])
  }

  /** Follow the predecessors from dest back to the root. */
  method ReadPath(P: array2<PLink>, ghost g: Graph, ghost row: seq<PLink>, root: nat, dest: nat)
      returns (path: seq<Edge>, ghost w: seq<nat>)
    requires RowIs(P, root, row) && |row| == g.n && dest < g.n
    requires EntryOk(g, root, row, dest) && row[dest].dist.Fin?
    ensures TreePath(g, root, row, dest, w) && Len(g, w) == row[dest].dist.v && path == Backwards(w)
    ensures path == [] <==> dest == root
    ensures path != [] ==> path[0].from == dest && path[|path| - 1].to == root
  {
    w :| TreePath(g, root, row, dest, w) && Len(g, w) == row[dest].dist.v;
    path := [];
    var node := dest;
    while node != root
      invariant |path| < |w| && node == w[|w| - 1 - |path|]
      invariant path == Backwards(w)[..|path|]
      decreases |w| - |path|
    {
      ghost var k := |w| - 1 - |path|;
      assert row[w[k]].prev == w[k - 1];
      var nextNode := P[root, node].prev;
      if nextNode == node {
        assert false;
      }
      path := path + [Edge(node, nextNode, 0.0)];
      node := nextNode;
    }
  }

  /** The answer of a search whose destination has its final entry. */
  ghost predicate FoundPath(g: Graph, root: nat, dest: nat, path: seq<Edge>, w: seq<nat>) {
    if Connected(g, root, dest) then IsShortest(g, root, dest, w) && Simple(w) && path == Backwards(w)
    else path == []
  }

  lemma FoundIfConnected(g: Graph, root: nat, dest: nat, path: seq<Edge>, w: seq<nat>)
    requires FoundPath(g, root, dest, path, w) && root != dest
    ensures path == [] <==> !Connected(g, root, dest)
  {
  }

  method Answer(P: array2<PLink>, ghost g: Graph, ghost row: seq<PLink>, root: nat, dest: nat)
      returns (path: seq<Edge>, ghost w: seq<nat>)
    requires RowIs(P, root, row) && |row| == g.n && dest < g.n && EntryOk(g, root, row, dest)
    ensures FoundPath(g, root, dest, path, w)
  {
    if P[root, dest].dist.Fin? {
      path, w := ReadPath(P, g, row, root, dest);
    } else {
      path, w := [], [];
    }
  }

  /** The search that stops as soon as dest is popped. It returns the links of a shortest walk that
      visits no node twice, and no links exactly when there is nothing to find. */
  method SearchTo(N: NTable, root: nat, dest: nat) returns (path: seq<Edge>, ghost w: seq<nat>)
    requires Idle(N) && root < |N.pids| && dest < |N.pids|
    modifies N.heapPos
    ensures FoundPath(ToGraph(N), root, dest, path, w)
  {
    var P := new PLink[|N.pids|, |N.pids|]((_, _) => UNSET);
    path, w := SearchIn(ToGraph(N), N.adj, N.heapPos, P, root, dest);
  }

  method SearchIn(ghost g: Graph, adj: seq<seq<Adj>>, heapPos: array<int>, P: array2<PLink>, root: nat, dest: nat)
      returns (path: seq<Edge>, ghost w: seq<nat>)
    requires Valid(g) && Represents(adj, g.wt) && |adj| == g.n && dest < g.n
    requires root < g.n == heapPos.Length == P.Length1 && root < P.Length0
    requires forall i :: 0 <= i < heapPos.Length ==> heapPos[i] == -1
    requires forall y :: 0 <= y < P.Length1 ==> P[root, y] == UNSET
    modifies P, heapPos
    ensures FoundPath(g, root, dest, path, w)
  {
    var Q, row := Start(g, heapPos, P, root);
    ghost var rank, count := seq(|row|, _ => 0), 0;
    while Q.sz > 0
      invariant fresh(Q) && fresh(Q.A) && Q.pos == heapPos && dest in Q.queue
      invariant Searching(g, P, root, Q, row, rank, count) && AllRelaxed(g, row, Q.queue.Keys)
    {
      var lower;
      lower, rank := Pop(g, P, root, Q, row, rank, count);
      count := count + 1;
      if lower.descr == dest {
        path, w := Answer(P, g, row, root, dest);
        return;
      }
      row := RelaxLinks(g, adj, P, root, Q, lower, row, rank, count);
    }
    assert false;
  }
}
