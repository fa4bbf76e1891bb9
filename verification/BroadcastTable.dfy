/** The broadcast table of the shortest-path layer: filling it from finished Dijkstra rows, and what the
    filled table means to the routing nodes. */
module BroadcastTable {
  import opened Collections
  import opened Graphs
  import opened NodeTable
  import opened ShortestPathTree
  import opened MixedTable
  import opened Dijkstra
  import opened BroadcastTree

  const NULL_PROCESSID := -1

  /** One entry of the broadcast table; the hop count is not initialised by the constructor. */
  datatype BLink = BLink(prev: int, next: set<int>, hopCount: Option<int>)

  const NO_LINK := BLink(NULL_PROCESSID, {}, None)

  type Paths = map<int, map<int, BLink>>

  /** The entry of node in the tree of root, as operator[] would default it. */
  function At(paths: Paths, root: int, node: int): BLink {
    if root in paths && node in paths[root] then paths[root][node] else NO_LINK
  }

  predicate Present(paths: Paths, root: int, node: int) {
    root in paths && node in paths[root]
  }

  /** Every entry that is there has been given something. */
  ghost predicate NoBlank(paths: Paths) {
    forall x, y :: Present(paths, x, y) ==> paths[x][y] != NO_LINK
  }

  function Put(paths: Paths, root: int, node: int, b: BLink): (r: Paths)
    ensures forall x, y :: At(r, x, y) == if x == root && y == node then b else At(paths, x, y)
    ensures NoBlank(paths) && b != NO_LINK ==> NoBlank(r)
  {
    paths[root := (if root in paths then paths[root] else map[])[node := b]]
  }

  // What the filled table must contain

  /** The mixed table as plain data: parent and hop count of y in the tree of r, for the pairs (r, y)
      that can reach each other. */
  datatype Mixed = Mixed(n: nat, parent: map<(nat, nat), nat>, hops: map<(nat, nat), int>)

  ghost predicate MixedOk(m: Mixed) {
    match m
    case Mixed(n, parent, hops) =>
      && (forall r: nat, y: nat :: (r, y) in parent ==>
           r < n && y < n && parent[(r, y)] < n && (y, r) in parent && (r, y) in hops)
      && forall r: nat :: r < n ==> (r, r) in parent && parent[(r, r)] == r && hops[(r, r)] == 0
  }

  ghost function MixedOf(g: Graph, rows: seq<seq<PLink>>): Mixed
    requires AllRows(g, rows)
  {
    Mixed(g.n,
          map r: nat, y: nat | r < g.n && y < g.n && Reached(rows, r, y) :: (r, y) := MixedParent(g, rows, r, y),
          map r: nat, y: nat | r < g.n && y < g.n && Reached(rows, r, y) :: (r, y) := MixedHops(g, rows, r, y))
  }

  lemma MixedOfOk(g: Graph, rows: seq<seq<PLink>>)
    requires AllRows(g, rows)
    ensures MixedOk(MixedOf(g, rows))
    ensures forall r: nat, y: nat :: r < g.n && y < g.n ==>
              ((r, y) in MixedOf(g, rows).parent <==> Reached(rows, r, y))
  {
    var m := MixedOf(g, rows);
    forall r: nat, y: nat | (r, y) in m.parent
      ensures r < m.n && y < m.n && m.parent[(r, y)] < m.n && (y, r) in m.parent && (r, y) in m.hops
    {
      DistSymmetric(g, rows, r, y);
    }
    forall r: nat | r < m.n ensures (r, r) in m.parent && m.parent[(r, r)] == r && m.hops[(r, r)] == 0 {
      var w := PathOf(g, r, rows[r], r);
      assert w[0] == w[|w| - 1];
    }
  }

  /** The pair has been handled when the loops stand at (i, j). */
  predicate Done(r: nat, y: nat, i: nat, j: nat) {
    var a, b := if r <= y then r else y, if r <= y then y else r;
    a < i || (a == i && b < j)
  }

  ghost predicate IsChild(m: Mixed, r: nat, y: nat, c: nat) {
    c != r && (r, c) in m.parent && m.parent[(r, c)] == y
  }

  ghost function NextSet(m: Mixed, pids: seq<int>, r: nat, y: nat, i: nat, j: nat): set<int>
    requires |pids| == m.n
  {
    set c: nat | c < m.n && Done(r, c, i, j) && IsChild(m, r, y, c) :: pids[c]
  }

  ghost function Expected(m: Mixed, pids: seq<int>, r: nat, y: nat, i: nat, j: nat): BLink
    requires MixedOk(m) && |pids| == m.n
  {
    if Done(r, y, i, j) && (r, y) in m.parent
    then BLink(pids[m.parent[(r, y)]], NextSet(m, pids, r, y, i, j), Some(m.hops[(r, y)]))
    else BLink(NULL_PROCESSID, NextSet(m, pids, r, y, i, j), None)
  }

  ghost predicate Filled(m: Mixed, pids: seq<int>, paths: Paths, i: nat, j: nat)
    requires MixedOk(m) && |pids| == m.n
  {
    match m
    case Mixed(n, _, _) =>
      forall r: nat, y: nat :: r < n && y < n ==> At(paths, pids[r], pids[y]) == Expected(m, pids, r, y, i, j)
  }

  // One pair of nodes at a time

  function SetPrev(paths: Paths, root: int, node: int, prev: int, hops: int): (r: Paths)
    ensures forall x, y :: At(r, x, y) == if x == root && y == node
                                          then At(paths, x, y).(prev := prev, hopCount := Some(hops))
                                          else At(paths, x, y)
    ensures NoBlank(paths) ==> NoBlank(r)
  {
    Put(paths, root, node, At(paths, root, node).(prev := prev, hopCount := Some(hops)))
  }

  function AddNext(paths: Paths, root: int, node: int, child: int): (r: Paths)
    ensures forall x, y :: At(r, x, y) == if x == root && y == node
                                          then At(paths, x, y).(next := At(paths, x, y).next + {child})
                                          else At(paths, x, y)
    ensures NoBlank(paths) ==> NoBlank(r)
  {
    assert child in At(paths, root, node).next + {child};
    Put(paths, root, node, At(paths, root, node).(next := At(paths, root, node).next + {child}))
  }

  lemma DoneOneMore(r: nat, y: nat, i: nat, j: nat)
    requires i < j
    ensures Done(r, y, i, j + 1) <==> Done(r, y, i, j) || (r == i && y == j) || (r == j && y == i)
  {
  }

  lemma NextSetOneMore(m: Mixed, pids: seq<int>, r: nat, y: nat, i: nat, j: nat)
    requires |pids| == m.n && i < j < m.n
    ensures NextSet(m, pids, r, y, i, j + 1) == NextSet(m, pids, r, y, i, j)
      + (if r == i && IsChild(m, i, y, j) then {pids[j]} else {})
      + (if r == j && IsChild(m, j, y, i) then {pids[i]} else {})
  {
    forall c: nat { DoneOneMore(r, c, i, j); }
  }

  /** The four updates that the loop makes for a pair of process ids that can reach each other. */
  function AfterPair(paths: Paths, pi: int, pj: int, prevIj: int, prevJi: int, hops: int): (r: Paths)
    ensures NoBlank(paths) ==> NoBlank(r)
  {
    var p1 := SetPrev(paths, pi, pj, prevIj, hops);
    var p2 := AddNext(p1, pi, prevIj, pj);
    var p3 := SetPrev(p2, pj, pi, prevJi, hops);
    AddNext(p3, pj, prevJi, pi)
  }

  lemma AfterPairAt(paths: Paths, pi: int, pj: int, prevIj: int, prevJi: int, hops: int, x: int, y: int)
    requires pi != pj
    ensures var b := At(AfterPair(paths, pi, pj, prevIj, prevJi, hops), x, y);
      && (b.prev, b.hopCount) == (if x == pi && y == pj then (prevIj, Some(hops))
                                  else if x == pj && y == pi then (prevJi, Some(hops))
                                  else (At(paths, x, y).prev, At(paths, x, y).hopCount))
      && b.next == At(paths, x, y).next + (if x == pi && y == prevIj then {pj} else {})
                   + (if x == pj && y == prevJi then {pi} else {})
  {
  }

  lemma PairStep(m: Mixed, pids: seq<int>, paths: Paths, i: nat, j: nat)
    requires MixedOk(m) && |pids| == m.n && Distinct(pids) && i < j < m.n
    requires Filled(m, pids, paths, i, j) && (i, j) in m.parent && m.hops[(i, j)] == m.hops[(j, i)]
    ensures Filled(m, pids, AfterPair(paths, pids[i], pids[j], pids[m.parent[(i, j)]], pids[m.parent[(j, i)]],
                                      m.hops[(i, j)]), i, j + 1)
  {
    var a, b := m.parent[(i, j)], m.parent[(j, i)];
    var p := AfterPair(paths, pids[i], pids[j], pids[a], pids[b], m.hops[(i, j)]);
    forall r: nat, y: nat | r < m.n && y < m.n
      ensures At(p, pids[r], pids[y]) == Expected(m, pids, r, y, i, j + 1)
    {
      assert At(paths, pids[r], pids[y]) == Expected(m, pids, r, y, i, j);
      PairEntry(m, pids, paths, i, j, r, y);
    }
  }

  lemma PairEntry(m: Mixed, pids: seq<int>, paths: Paths, i: nat, j: nat, r: nat, y: nat)
    requires MixedOk(m) && |pids| == m.n && Distinct(pids) && i < j < m.n && r < m.n && y < m.n
    requires (i, j) in m.parent && m.hops[(i, j)] == m.hops[(j, i)]
    requires At(paths, pids[r], pids[y]) == Expected(m, pids, r, y, i, j)
    ensures At(AfterPair(paths, pids[i], pids[j], pids[m.parent[(i, j)]], pids[m.parent[(j, i)]], m.hops[(i, j)]),
               pids[r], pids[y]) == Expected(m, pids, r, y, i, j + 1)
  {
    AfterPairAt(paths, pids[i], pids[j], pids[m.parent[(i, j)]], pids[m.parent[(j, i)]], m.hops[(i, j)],
                pids[r], pids[y]);
    DoneOneMore(r, y, i, j);
    NextSetOneMore(m, pids, r, y, i, j);
  }

  lemma UnreachedPairStep(m: Mixed, pids: seq<int>, paths: Paths, i: nat, j: nat)
    requires MixedOk(m) && |pids| == m.n && i < j < m.n
    requires Filled(m, pids, paths, i, j) && (i, j) !in m.parent
    ensures Filled(m, pids, paths, i, j + 1)
  {
    forall r: nat, y: nat | r < m.n && y < m.n
      ensures At(paths, pids[r], pids[y]) == Expected(m, pids, r, y, i, j + 1)
    {
      DoneOneMore(r, y, i, j);
      NextSetOneMore(m, pids, r, y, i, j);
    }
  }

  /** The children handled are the same when the same pairs of two distinct nodes are. */
  lemma NextSetSame(m: Mixed, pids: seq<int>, r: nat, y: nat, i: nat, j: nat, i': nat, j': nat)
    requires |pids| == m.n
    requires forall c: nat :: c < m.n && c != r ==> (Done(r, c, i, j) <==> Done(r, c, i', j'))
    ensures NextSet(m, pids, r, y, i, j) == NextSet(m, pids, r, y, i', j')
  {
  }

  lemma SelfStep(m: Mixed, pids: seq<int>, paths: Paths, i: nat)
    requires MixedOk(m) && |pids| == m.n && Distinct(pids) && i < m.n && Filled(m, pids, paths, i, i)
    ensures Filled(m, pids, SetPrev(paths, pids[i], pids[i], pids[i], 0), i, i + 1)
  {
    forall r: nat, y: nat | r < m.n && y < m.n
      ensures At(SetPrev(paths, pids[i], pids[i], pids[i], 0), pids[r], pids[y]) == Expected(m, pids, r, y, i, i + 1)
    {
      assert At(paths, pids[r], pids[y]) == Expected(m, pids, r, y, i, i);
      NextSetSame(m, pids, r, y, i, i, i, i + 1);
      SelfEntry(m, pids, paths, i, r, y);
    }
  }

  lemma SelfEntry(m: Mixed, pids: seq<int>, paths: Paths, i: nat, r: nat, y: nat)
    requires MixedOk(m) && |pids| == m.n && Distinct(pids) && i < m.n && r < m.n && y < m.n
    requires At(paths, pids[r], pids[y]) == Expected(m, pids, r, y, i, i)
    requires NextSet(m, pids, r, y, i, i) == NextSet(m, pids, r, y, i, i + 1)
    ensures At(SetPrev(paths, pids[i], pids[i], pids[i], 0), pids[r], pids[y]) == Expected(m, pids, r, y, i, i + 1)
  {
  }

  lemma RowStep(m: Mixed, pids: seq<int>, paths: Paths, i: nat)
    requires MixedOk(m) && |pids| == m.n && i < m.n && Filled(m, pids, paths, i, m.n)
    ensures Filled(m, pids, paths, i + 1, i + 1)
  {
    forall r: nat, y: nat | r < m.n && y < m.n
      ensures At(paths, pids[r], pids[y]) == Expected(m, pids, r, y, i + 1, i + 1)
    {
      assert At(paths, pids[r], pids[y]) == Expected(m, pids, r, y, i, m.n);
      NextSetSame(m, pids, r, y, i, m.n, i + 1, i + 1);
      RowEntry(m, pids, i, r, y);
    }
  }

  lemma RowEntry(m: Mixed, pids: seq<int>, i: nat, r: nat, y: nat)
    requires MixedOk(m) && |pids| == m.n && r < m.n && y < m.n
    requires NextSet(m, pids, r, y, i, m.n) == NextSet(m, pids, r, y, i + 1, i + 1)
    ensures Expected(m, pids, r, y, i, m.n) == Expected(m, pids, r, y, i + 1, i + 1)
  {
  }

  lemma EmptyFilled(m: Mixed, pids: seq<int>)
    requires MixedOk(m) && |pids| == m.n
    ensures Filled(m, pids, map[], 0, 0)
  {
    forall r: nat, y: nat | r < m.n && y < m.n ensures NextSet(m, pids, r, y, 0, 0) == {} {}
  }

  ghost predicate TableIs(P: array2<PLink>, rows: seq<seq<PLink>>)
    reads P
  {
    P.Length0 == P.Length1 == |rows| && forall x :: 0 <= x < |rows| ==> RowIs(P, x, rows[x])
  }

  /** Follow the predecessors of row i from j back to the node next to i, along the chain w. */
  method FirstHop(P: array2<PLink>, ghost row: seq<PLink>, i: nat, j: nat, ghost w: seq<nat>)
      returns (prevJi: nat, hopCount: int)
    requires RowIs(P, i, row) && FollowsPrev(row, w) && Simple(w)
    requires |w| > 1 && w[0] == i && w[|w| - 1] == j
    ensures prevJi == w[1] && hopCount == |w| - 1
  {
    hopCount, prevJi := 1, j;
    while P[i, prevJi].prev != i
      invariant 1 <= hopCount < |w| && prevJi == w[|w| - hopCount]
      decreases |w| - hopCount
    {
      prevJi := P[i, prevJi].prev;
      hopCount := hopCount + 1;
    }
    assert row[w[|w| - hopCount]].prev == w[|w| - hopCount - 1];
  }

  // Building the node table

  function AsSet(pids: seq<int>): set<int> {
    set p | p in pids
  }

  lemma {:induction false} DistinctSize(pids: seq<int>)
    requires Distinct(pids)
    ensures |AsSet(pids)| == |pids|
  {
    if |pids| > 0 {
      var k := |pids| - 1;
      DistinctSize(pids[..k]);
      assert AsSet(pids) == AsSet(pids[..k]) + {pids[k]};
    }
  }

  ghost predicate NodesOf(es: seq<Edge>, nodes: set<int>) {
    forall p :: Occurs(es, p) ==> p in nodes
  }

  /** Extending the table by the next edge stays within the room for all nodes. */
  lemma BuildFits(es: seq<Edge>, k: nat, nodes: set<int>)
    requires NodesOf(es, nodes) && k < |es|
    ensures Build(es[..k + 1]) == WithEdge(Build(es[..k]), es[k])
    ensures |WithEdge(Build(es[..k]), es[k]).pids| <= |nodes|
  {
    var es' := es[..k + 1];
    assert es'[..k] == es[..k];
    BuildIsGraph(es');
    forall p | Occurs(es', p) ensures p in nodes { assert Occurs(es, p); }
    DistinctSize(Build(es').pids);
    SubsetSize(AsSet(Build(es').pids), nodes);
  }

  ghost predicate NoHeapPositions(N: NTable)
    reads N.heapPos
  {
    forall i :: 0 <= i < N.heapPos.Length ==> N.heapPos[i] == -1
  }

  /** The node table of the given edges, with room for all the nodes. */
  method BuildTable(es: seq<Edge>, ghost nodes: set<int>, size: nat) returns (N: NTable)
    requires NodesOf(es, nodes) && size == |nodes|
    ensures fresh(N) && fresh(N.heapPos) && N.Valid() && N.Abs() == Build(es)
    ensures N.heapPos.Length == size && NoHeapPositions(N)
  {
    N := new NTable(size);
    for k := 0 to |es|
      invariant fresh(N) && fresh(N.heapPos) && N.Valid() && N.Abs() == Build(es[..k])
      invariant N.heapPos.Length == size && NoHeapPositions(N)
    {
      BuildFits(es, k, nodes);
      N.AddEdge(es[k]);
    }
    assert es[..|es|] == es;
  }

  /** One full Dijkstra search per node. */
  method FillTable(N: NTable) returns (P: array2<PLink>, ghost rows: seq<seq<PLink>>)
    requires Idle(N)
    modifies N.heapPos
    ensures Idle(N) && fresh(P) && TableIs(P, rows) && AllRows(ToGraph(N), rows)
  {
    var n := |N.pids|;
    P := new PLink[n, n]((_, _) => UNSET);
    rows := [];
    for x := 0 to n
      invariant Idle(N) && fresh(P) && |rows| == x
      invariant forall y :: 0 <= y < x ==> RowIs(P, y, rows[y]) && IsTreeRow(ToGraph(N), y, rows[y])
      invariant forall y, z :: x <= y < n && 0 <= z < n ==> P[y, z] == UNSET
    {
      ghost var row := FillRow(N, P, x);
      rows := rows + [row];
    }
  }

  /** Row i has the chain w to j, and m the ends and the length of w. */
  ghost predicate PairChain(row: seq<PLink>, m: Mixed, i: nat, j: nat, w: seq<nat>) {
    && FollowsPrev(row, w) && Simple(w) && |w| > 1 && w[0] == i && w[|w| - 1] == j < |row|
    && (i, j) in m.parent && m.parent[(i, j)] == row[j].prev && (j, i) in m.parent && m.parent[(j, i)] == w[1]
    && (i, j) in m.hops && (j, i) in m.hops && m.hops[(i, j)] == m.hops[(j, i)] == |w| - 1
  }

  /** What row i has about j > i: nothing when they cannot reach each other, else a chain. */
  ghost predicate PairGiven(row: seq<PLink>, m: Mixed, i: nat, j: nat) {
    && j < |row| && (row[j].prev == NIL <==> (i, j) !in m.parent)
    && ((i, j) in m.parent ==> exists w :: PairChain(row, m, i, j, w))
  }

  /** The rows have what m has about every pair of nodes. */
  ghost predicate Gives(rows: seq<seq<PLink>>, m: Mixed) {
    match m
    case Mixed(n, _, _) => |rows| == n && forall i: nat, j: nat :: i < j < n ==> PairGiven(rows[i], m, i, j)
  }

  /** m has what the mixed table has about r and y. */
  ghost predicate MixedAt(g: Graph, rows: seq<seq<PLink>>, m: Mixed, r: nat, y: nat)
    requires AllRows(g, rows) && r < g.n && y < g.n
  {
    && ((r, y) in m.parent <==> Reached(rows, r, y)) && ((r, y) in m.hops <==> Reached(rows, r, y))
    && (Reached(rows, r, y) ==>
         m.parent[(r, y)] == MixedParent(g, rows, r, y) && m.hops[(r, y)] == MixedHops(g, rows, r, y))
  }

  lemma RowsGivePair(g: Graph, rows: seq<seq<PLink>>, m: Mixed, i: nat, j: nat)
    requires AllRows(g, rows) && i < j < g.n && MixedAt(g, rows, m, i, j) && MixedAt(g, rows, m, j, i)
    ensures PairGiven(rows[i], m, i, j)
  {
    DistSymmetric(g, rows, i, j);
    assert EntryOk(g, i, rows[i], j);
    if Reached(rows, i, j) {
      assert PairChain(rows[i], m, i, j, PathOf(g, i, rows[i], j));
    }
  }

  lemma RowsGive(g: Graph, rows: seq<seq<PLink>>, m: Mixed)
    requires AllRows(g, rows) && m.n == g.n
    requires forall r: nat, y: nat :: r < g.n && y < g.n ==> MixedAt(g, rows, m, r, y)
    ensures Gives(rows, m)
  {
    forall i: nat, j: nat | i < j < g.n ensures PairGiven(rows[i], m, i, j) {
      RowsGivePair(g, rows, m, i, j);
    }
  }

  lemma MixedOfAt(g: Graph, rows: seq<seq<PLink>>, r: nat, y: nat)
    requires AllRows(g, rows) && r < g.n && y < g.n
    ensures MixedAt(g, rows, MixedOf(g, rows), r, y)
  {
  }

  lemma MixedOfGiven(g: Graph, rows: seq<seq<PLink>>)
    requires AllRows(g, rows)
    ensures Gives(rows, MixedOf(g, rows))
  {
    var m := MixedOf(g, rows);
    forall r: nat, y: nat | r < g.n && y < g.n ensures MixedAt(g, rows, m, r, y) {
      MixedOfAt(g, rows, r, y);
    }
    RowsGive(g, rows, m);
  }

  /** The double loop over the pairs of nodes. */
  method FillPaths(pids: seq<int>, P: array2<PLink>, ghost rows: seq<seq<PLink>>, ghost m: Mixed)
      returns (paths: Paths)
    requires Gives(rows, m) && MixedOk(m) && |pids| == m.n && Distinct(pids) && TableIs(P, rows)
    ensures Filled(m, pids, paths, |pids|, |pids|) && NoBlank(paths)
  {
    paths := map[];
    EmptyFilled(m, pids);
    for i := 0 to |pids|
      invariant Filled(m, pids, paths, i, i) && NoBlank(paths)
    {
      paths := FillFrom(pids, P, rows, m, paths, i);
    }
  }

  /** The pairs (i, j) with j >= i. */
  method FillFrom(pids: seq<int>, P: array2<PLink>, ghost rows: seq<seq<PLink>>, ghost m: Mixed,
                  paths: Paths, i: nat) returns (paths': Paths)
    requires Gives(rows, m) && MixedOk(m) && |pids| == m.n && Distinct(pids) && TableIs(P, rows)
    requires i < m.n && Filled(m, pids, paths, i, i) && NoBlank(paths)
    ensures Filled(m, pids, paths', i + 1, i + 1) && NoBlank(paths')
  {
    SelfStep(m, pids, paths, i);
    paths' := SetPrev(paths, pids[i], pids[i], pids[i], 0);
    for j := i + 1 to |pids|
      invariant Filled(m, pids, paths', i, j) && NoBlank(paths')
    {
      paths' := FillPair(pids, P, rows, m, paths', i, j);
    }
    RowStep(m, pids, paths', i);
  }

  method FillPair(pids: seq<int>, P: array2<PLink>, ghost rows: seq<seq<PLink>>, ghost m: Mixed,
                  paths: Paths, i: nat, j: nat) returns (paths': Paths)
    requires Gives(rows, m) && MixedOk(m) && |pids| == m.n && Distinct(pids) && TableIs(P, rows)
    requires i < j < m.n && Filled(m, pids, paths, i, j) && NoBlank(paths)
    ensures Filled(m, pids, paths', i, j + 1) && NoBlank(paths')
  {
    assert PairGiven(rows[i], m, i, j);
    var prevIj := P[i, j].prev;
    if prevIj != NIL {
      ghost var w :| PairChain(rows[i], m, i, j, w);
      var prevJi, hopCount := FirstHop(P, rows[i], i, j, w);
      PairStep(m, pids, paths, i, j);
      paths' := AfterPair(paths, pids[i], pids[j], pids[prevIj], pids[prevJi], hopCount);
    } else {
      UnreachedPairStep(m, pids, paths, i, j);
      paths' := paths;
    }
  }

  // What the finished table means to the routing nodes

  /** The whole table: every pair has its entry from finished Dijkstra rows. */
  ghost predicate AllPairs(t: Table, rows: seq<seq<PLink>>, paths: Paths) {
    match t
    case Table(pids, _) =>
      && IsTable(t) && AllRows(t.ToGraph(), rows) && MixedOk(MixedOf(t.ToGraph(), rows))
      && Filled(MixedOf(t.ToGraph(), rows), pids, paths, |pids|, |pids|) && NoBlank(paths)
  }

  /** The tree that getParent answers for one root. */
  ghost function TreeAt(pids: seq<int>, paths: Paths, root: int): Tree {
    Tree(root, map p | p in pids && At(paths, root, p).prev != NULL_PROCESSID :: At(paths, root, p).prev)
  }

  ghost function PidsOf(pids: seq<int>, v: seq<nat>): seq<int>
    requires forall i :: 0 <= i < |v| ==> v[i] < |pids|
  {
    seq(|v|, i requires 0 <= i < |v| => pids[v[i]])
  }

  lemma AllDone(m: Mixed, pids: seq<int>, r: nat, y: nat)
    requires MixedOk(m) && |pids| == m.n && r < m.n && y < m.n
    ensures var b := Expected(m, pids, r, y, m.n, m.n);
      && b.prev == (if (r, y) in m.parent then pids[m.parent[(r, y)]] else NULL_PROCESSID)
      && b.hopCount == (if (r, y) in m.parent then Some(m.hops[(r, y)]) else None)
      && b.next == set c: nat | c < m.n && IsChild(m, r, y, c) :: pids[c]
  {
  }

  ghost predicate RealPids(t: Table) {
    forall i :: 0 <= i < |t.pids| ==> t.pids[i] > NULL_PROCESSID
  }

  /** What getParent and getHopCount answer. */
  lemma EntryOf(t: Table, rows: seq<seq<PLink>>, paths: Paths, r: nat, y: nat)
    requires AllPairs(t, rows, paths) && RealPids(t) && r < |t.pids| && y < |t.pids|
    ensures At(paths, t.pids[r], t.pids[y]).prev != NULL_PROCESSID <==> Reached(rows, r, y)
    ensures Reached(rows, r, y) ==>
              && At(paths, t.pids[r], t.pids[y]).prev == t.pids[MixedParent(t.ToGraph(), rows, r, y)]
              && At(paths, t.pids[r], t.pids[y]).hopCount == Some(MixedHops(t.ToGraph(), rows, r, y))
  {
    var m := MixedOf(t.ToGraph(), rows);
    MixedOfOk(t.ToGraph(), rows);
    AllDone(m, t.pids, r, y);
    assert At(paths, t.pids[r], t.pids[y]) == Expected(m, t.pids, r, y, m.n, m.n);
  }

  /** The tree has the nodes with a mixed parent, and those parents. */
  ghost predicate Mirrors(tree: Tree, pids: seq<int>, m: Mixed, r: nat)
    requires MixedOk(m) && |pids| == m.n
  {
    && (forall y: nat :: y < m.n && (r, y) in m.parent ==>
         pids[y] in tree.parent && tree.parent[pids[y]] == pids[m.parent[(r, y)]])
    && forall p :: p in tree.parent ==> exists y: nat :: y < m.n && pids[y] == p && (r, y) in m.parent
  }

  lemma TreeMirrors(t: Table, rows: seq<seq<PLink>>, paths: Paths, r: nat)
    requires AllPairs(t, rows, paths) && RealPids(t) && r < |t.pids|
    ensures Mirrors(TreeAt(t.pids, paths, t.pids[r]), t.pids, MixedOf(t.ToGraph(), rows), r)
  {
    var tree, m := TreeAt(t.pids, paths, t.pids[r]), MixedOf(t.ToGraph(), rows);
    MixedOfOk(t.ToGraph(), rows);
    forall y: nat | y < m.n && (r, y) in m.parent
      ensures t.pids[y] in tree.parent && tree.parent[t.pids[y]] == t.pids[m.parent[(r, y)]]
    {
      EntryOf(t, rows, paths, r, y);
    }
    forall p | p in tree.parent ensures exists y: nat :: y < m.n && t.pids[y] == p && (r, y) in m.parent {
      var y: nat :| y < m.n && t.pids[y] == p;
      EntryOf(t, rows, paths, r, y);
    }
  }

  lemma ChildrenAreNext(tree: Tree, pids: seq<int>, m: Mixed, r: nat, y: nat)
    requires MixedOk(m) && |pids| == m.n && Distinct(pids) && r < m.n && y < m.n
    requires Mirrors(tree, pids, m, r) && tree.root == pids[r]
    ensures Children(tree, pids[y]) == set c: nat | c < m.n && IsChild(m, r, y, c) :: pids[c]
  {
    forall p | p in Children(tree, pids[y]) ensures exists c: nat :: c < m.n && IsChild(m, r, y, c) && pids[c] == p {
      var c: nat :| c < m.n && pids[c] == p && (r, c) in m.parent;
      assert IsChild(m, r, y, c);
    }
  }

  /** getChildren is the inverse of getParent, apart from the root. */
  lemma ChildrenInvertParents(t: Table, rows: seq<seq<PLink>>, paths: Paths, r: nat, y: nat)
    requires AllPairs(t, rows, paths) && RealPids(t) && r < |t.pids| && y < |t.pids|
    ensures At(paths, t.pids[r], t.pids[y]).next == Children(TreeAt(t.pids, paths, t.pids[r]), t.pids[y])
  {
    var m, tree := MixedOf(t.ToGraph(), rows), TreeAt(t.pids, paths, t.pids[r]);
    TreeMirrors(t, rows, paths, r);
    AllDone(m, t.pids, r, y);
    ChildrenAreNext(tree, t.pids, m, r, y);
    assert At(paths, t.pids[r], t.pids[y]) == Expected(m, t.pids, r, y, m.n, m.n);
  }

  /** w walks the mixed parents of r. */
  ghost predicate MixedWalk(m: Mixed, r: nat, v: seq<nat>) {
    && |v| > 0 && v[|v| - 1] == r
    && (forall i :: 0 <= i < |v| ==> v[i] < m.n)
    && forall i :: 0 <= i < |v| - 1 ==> v[i] != r && (r, v[i]) in m.parent && m.parent[(r, v[i])] == v[i + 1]
  }

  lemma MixedWalkIsChain(tree: Tree, pids: seq<int>, m: Mixed, r: nat, v: seq<nat>)
    requires MixedOk(m) && |pids| == m.n && Distinct(pids) && r < m.n
    requires Mirrors(tree, pids, m, r) && tree.root == pids[r] && MixedWalk(m, r, v)
    ensures Chain(tree, PidsOf(pids, v))
  {
  }

  lemma ParentWalkIsMixedWalk(g: Graph, rows: seq<seq<PLink>>, m: Mixed, r: nat, v: seq<nat>)
    requires AllRows(g, rows) && r < g.n == m.n
    requires ParentWalk(g, rows, r, v) && forall i :: 0 <= i < |v| ==> Reached(rows, r, v[i])
    requires forall i :: 0 <= i < |v| ==> MixedAt(g, rows, m, r, v[i])
    ensures MixedWalk(m, r, v)
  {
    forall i | 0 <= i < |v| - 1 ensures v[i] != r && (r, v[i]) in m.parent && m.parent[(r, v[i])] == v[i + 1] {
      assert MixedAt(g, rows, m, r, v[i]) && MixedParent(g, rows, r, v[i]) == v[i + 1];
    }
  }

  lemma TreePathsAreShortest(t: Table, rows: seq<seq<PLink>>, paths: Paths, r: nat, y: nat) returns (v: seq<nat>)
    requires AllPairs(t, rows, paths) && RealPids(t) && Positive(t.ToGraph()) && r < |t.pids| && y < |t.pids|
    requires Reached(rows, r, y)
    ensures IsShortest(t.ToGraph(), y, r, v) && Simple(v) && ParentWalk(t.ToGraph(), rows, r, v)
    ensures Chain(TreeAt(t.pids, paths, t.pids[r]), PidsOf(t.pids, v)) && PidsOf(t.pids, v)[0] == t.pids[y]
  {
    v := ParentWalkExists(t.ToGraph(), rows, r, y);
    MixedIsShortestPathTree(t.ToGraph(), rows, r, y);
    forall i | 0 <= i < |v| ensures Reached(rows, r, v[i]) {
      if i > 0 { assert Less(rows[r][v[i]].dist, rows[r][v[0]].dist); }
    }
    TreeMirrors(t, rows, paths, r);
    forall i | 0 <= i < |v| ensures MixedAt(t.ToGraph(), rows, MixedOf(t.ToGraph(), rows), r, v[i]) {
      MixedOfAt(t.ToGraph(), rows, r, v[i]);
    }
    ParentWalkIsMixedWalk(t.ToGraph(), rows, MixedOf(t.ToGraph(), rows), r, v);
    MixedWalkIsChain(TreeAt(t.pids, paths, t.pids[r]), t.pids, MixedOf(t.ToGraph(), rows), r, v);
  }

  /** y's chain of getParent answers is a shortest walk to the root. */
  ghost predicate ChainIsShortest(t: Table, paths: Paths, r: nat, y: nat, w: seq<int>)
    requires r < |t.pids|
  {
    exists v :: IsShortest(t.ToGraph(), y, r, v) && Simple(v) &&
                (forall i :: 0 <= i < |v| ==> v[i] < |t.pids|) && w == PidsOf(t.pids, v)
  }

  /** For every root the table holds a tree: it spans exactly the nodes that can be walked to, following
      getParent from any of them ends at the root after a shortest walk, and getChildren inverts it. */
  lemma TablesAreShortestPathTrees(t: Table, rows: seq<seq<PLink>>, paths: Paths, r: nat)
    requires AllPairs(t, rows, paths) && RealPids(t) && Positive(t.ToGraph()) && r < |t.pids|
    ensures var tree := TreeAt(t.pids, paths, t.pids[r]);
      && IsTree(tree)
      && (forall y: nat :: y < |t.pids| ==> (t.pids[y] in tree.parent <==> Connected(t.ToGraph(), y, r)))
      && (forall y: nat, w :: y < |t.pids| && Chain(tree, w) && w[0] == t.pids[y] && t.pids[y] in tree.parent ==>
           ChainIsShortest(t, paths, r, y, w))
      && forall y: nat :: y < |t.pids| ==> At(paths, t.pids[r], t.pids[y]).next == Children(tree, t.pids[y])
  {
    var tree := TreeAt(t.pids, paths, t.pids[r]);
    forall y: nat | y < |t.pids|
      ensures t.pids[y] in tree.parent <==> Connected(t.ToGraph(), y, r)
      ensures t.pids[y] in tree.parent ==> tree.parent[t.pids[y]] in tree.parent && HasChain(tree, t.pids[y])
      ensures At(paths, t.pids[r], t.pids[y]).next == Children(tree, t.pids[y])
      ensures forall w :: Chain(tree, w) && w[0] == t.pids[y] && t.pids[y] in tree.parent ==>
        ChainIsShortest(t, paths, r, y, w)
    {
      OneNode(t, rows, paths, r, y);
    }
    RootEntry(t, rows, paths, r);
  }

  lemma RootEntry(t: Table, rows: seq<seq<PLink>>, paths: Paths, r: nat)
    requires AllPairs(t, rows, paths) && RealPids(t) && r < |t.pids|
    ensures var tree := TreeAt(t.pids, paths, t.pids[r]);
      tree.root in tree.parent && tree.parent[tree.root] == tree.root
  {
    EntryOf(t, rows, paths, r, r);
  }

  lemma OneNode(t: Table, rows: seq<seq<PLink>>, paths: Paths, r: nat, y: nat)
    requires AllPairs(t, rows, paths) && RealPids(t) && Positive(t.ToGraph()) && r < |t.pids| && y < |t.pids|
    ensures var tree := TreeAt(t.pids, paths, t.pids[r]);
      && (t.pids[y] in tree.parent <==> Connected(t.ToGraph(), y, r))
      && (t.pids[y] in tree.parent ==> tree.parent[t.pids[y]] in tree.parent && HasChain(tree, t.pids[y]))
      && At(paths, t.pids[r], t.pids[y]).next == Children(tree, t.pids[y])
      && forall w :: Chain(tree, w) && w[0] == t.pids[y] && t.pids[y] in tree.parent ==>
        ChainIsShortest(t, paths, r, y, w)
  {
    var tree := TreeAt(t.pids, paths, t.pids[r]);
    ChildrenInvertParents(t, rows, paths, r, y);
    EntryOf(t, rows, paths, r, y);
    RowDistance(t.ToGraph(), y, rows[y], r);
    DistSymmetric(t.ToGraph(), rows, r, y);
    if Reached(rows, r, y) {
      var v := TreePathsAreShortest(t, rows, paths, r, y);
      var p := MixedParent(t.ToGraph(), rows, r, y);
      if y != r { ParentIsOneLinkNearer(t.ToGraph(), rows, r, y); }
      EntryOf(t, rows, paths, r, p);
      forall w | Chain(tree, w) && w[0] == t.pids[y] ensures ChainIsShortest(t, paths, r, y, w) {
        ChainUnique(tree, w, PidsOf(t.pids, v));
      }
    }
  }

  // Hop counts

  /** What getHopCount answers for two nodes: -1 without an entry, else what the entry has. */
  function HopCountIn(paths: Paths, from: int, to: int): Option<int> {
    if Present(paths, to, from) then paths[to][from].hopCount else Some(-1)
  }

  lemma UnreachedHasNoChildren(t: Table, rows: seq<seq<PLink>>, r: nat, y: nat)
    requires IsTable(t) && AllRows(t.ToGraph(), rows) && MixedOk(MixedOf(t.ToGraph(), rows))
    requires r < |t.pids| && y < |t.pids| && !Reached(rows, r, y)
    ensures forall c: nat :: c < |t.pids| ==> !IsChild(MixedOf(t.ToGraph(), rows), r, y, c)
  {
    MixedOfOk(t.ToGraph(), rows);
    forall c: nat | c < |t.pids| && c != r && Reached(rows, r, c)
      ensures MixedParent(t.ToGraph(), rows, r, c) != y
    {
      ParentIsOneLinkNearer(t.ToGraph(), rows, r, c);
    }
  }

  /** -1 is the answer exactly for nodes that cannot reach each other. */
  lemma HopCountTellsReached(t: Table, rows: seq<seq<PLink>>, paths: Paths, r: nat, y: nat)
    requires AllPairs(t, rows, paths) && RealPids(t) && r < |t.pids| && y < |t.pids|
    ensures Connected(t.ToGraph(), y, r) <==> Reached(rows, r, y)
    ensures HopCountIn(paths, t.pids[y], t.pids[r]) ==
      if Reached(rows, r, y) then Some(MixedHops(t.ToGraph(), rows, r, y)) else Some(-1)
    ensures Reached(rows, r, y) ==> MixedHops(t.ToGraph(), rows, r, y) >= 0
  {
    var m := MixedOf(t.ToGraph(), rows);
    RowDistance(t.ToGraph(), y, rows[y], r);
    DistSymmetric(t.ToGraph(), rows, r, y);
    EntryOf(t, rows, paths, r, y);
    if !Reached(rows, r, y) {
      UnreachedHasNoChildren(t, rows, r, y);
      AllDone(m, t.pids, r, y);
      assert At(paths, t.pids[r], t.pids[y]) == Expected(m, t.pids, r, y, m.n, m.n);
      assert At(paths, t.pids[r], t.pids[y]).next == {};
    }
  }

  /** The hop count answered for two nodes, in both directions, is the number of links of a shortest walk. */
  lemma HopsOfShortestWalk(t: Table, rows: seq<seq<PLink>>, paths: Paths, r: nat, y: nat) returns (w: seq<nat>)
    requires AllPairs(t, rows, paths) && RealPids(t) && r < |t.pids| && y < |t.pids|
    requires Connected(t.ToGraph(), y, r)
    ensures IsShortest(t.ToGraph(), y, r, w) && Simple(w) && |w| > 0
    ensures HopCountIn(paths, t.pids[y], t.pids[r]) == HopCountIn(paths, t.pids[r], t.pids[y]) == Some(|w| - 1)
  {
    HopCountTellsReached(t, rows, paths, r, y);
    DistSymmetric(t.ToGraph(), rows, r, y);
    RowDistance(t.ToGraph(), r, rows[r], y);
    HopCountTellsReached(t, rows, paths, y, r);
    w := HopsWalk(t.ToGraph(), rows, r, y);
  }

  lemma HopsWalk(g: Graph, rows: seq<seq<PLink>>, r: nat, y: nat) returns (w: seq<nat>)
    requires AllRows(g, rows) && r < g.n && y < g.n && Reached(rows, r, y) && Reached(rows, y, r)
    ensures IsShortest(g, y, r, w) && Simple(w) && MixedHops(g, rows, r, y) == MixedHops(g, rows, y, r) == |w| - 1
  {
    if y >= r {
      var v := PathOf(g, r, rows[r], y);
      ShortestReverse(g, r, y, v);
      w := Reverse(v);
    } else {
      w := PathOf(g, y, rows[y], r);
    }
  }

  /**
   * When shortest paths are unique, the parents from y to r and from r to y are the same nodes in opposite
   * orders, and the hop count answered for them, in both directions, is the number of parent steps.
   */
  lemma HopsAreParentSteps(t: Table, rows: seq<seq<PLink>>, paths: Paths, r: nat, y: nat) returns (v: seq<nat>)
    requires AllPairs(t, rows, paths) && RealPids(t) && r < |t.pids| && y < |t.pids|
    requires Positive(t.ToGraph()) && UniqueShortest(t.ToGraph()) && Connected(t.ToGraph(), y, r)
    ensures (forall i :: 0 <= i < |v| ==> v[i] < |t.pids|) && |v| > 0 && v[0] == y && v[|v| - 1] == r
    ensures Chain(TreeAt(t.pids, paths, t.pids[r]), PidsOf(t.pids, v))
    ensures Chain(TreeAt(t.pids, paths, t.pids[y]), PidsOf(t.pids, Reverse(v)))
    ensures HopCountIn(paths, t.pids[y], t.pids[r]) == HopCountIn(paths, t.pids[r], t.pids[y]) == Some(|v| - 1)
  {
    HopCountTellsReached(t, rows, paths, r, y);
    DistSymmetric(t.ToGraph(), rows, r, y);
    RowDistance(t.ToGraph(), r, rows[r], y);
    HopCountTellsReached(t, rows, paths, y, r);
    v := TreePathsAreShortest(t, rows, paths, r, y);
    var w := TreePathsAreShortest(t, rows, paths, y, r);
    UniquePathsAreSymmetric(t.ToGraph(), rows, y, r, v, w);
  }
}
