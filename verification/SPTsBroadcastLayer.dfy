/** The broadcast layer that computes one shortest-path tree per issuer, and link-disjoint alternative
    paths for every pair of nodes. */
module SPTsBroadcastLayer {
  import opened Collections
  import opened Graphs
  import opened NodeTable
  import opened ShortestPathTree
  import opened MixedTable
  import opened Dijkstra
  import opened BroadcastTree
  import opened BroadcastTable
  import opened AlternativePaths

  /** The links of a walk in walking order, as the primary path is listed. */
  function Forwards(v: seq<nat>): (p: seq<Edge>)
    ensures |p| == if |v| == 0 then 0 else |v| - 1
    ensures forall k :: 0 <= k < |p| ==> p[k] == Edge(v[k], v[k + 1], 0.0)
  {
    if |v| <= 1 then [] else [Edge(v[0], v[1], 0.0)] + Forwards(v[1..])
  }

  lemma AvoidsForwards(v: seq<nat>, w: seq<nat>)
    requires Avoids(w, Forwards(v))
    ensures LinkDisjoint(v, w)
  {
    forall i, j | 0 <= i < |v| - 1 && 0 <= j < |w| - 1 ensures !SameHop(v, i, w, j) {
      assert Forwards(v)[i] == Edge(v[i], v[i + 1], 0.0);
      assert !ExploredHop(Forwards(v), w, j);
    }
  }

  lemma UnexploredSubset(es: seq<Edge>, ex: seq<Edge>)
    ensures forall e :: e in Unexplored(es, ex) ==> e in es
  {
  }

  lemma UnexploredNodesOf(es: seq<Edge>, ex: seq<Edge>, nodes: set<int>)
    requires NodesOf(es, nodes)
    ensures NodesOf(Unexplored(es, ex), nodes)
  {
    UnexploredSubset(es, ex);
    forall p | Occurs(Unexplored(es, ex), p) ensures p in nodes { assert Occurs(es, p); }
  }

  method IsExplored(explored: seq<Edge>, e: Edge) returns (inPath: bool)
    ensures inPath == Explored(explored, e.from, e.to)
  {
    inPath := false;
    var j := 0;
    while j < |explored|
      invariant 0 <= j <= |explored| && !inPath
      invariant forall k :: 0 <= k < j ==> !Between(explored[k], e.from, e.to)
    {
      if Between(explored[j], e.from, e.to) {
        inPath := true;
        break;
      }
      j := j + 1;
    }
  }

  /** The auxiliary graph: every input edge that is not in an explored path. */
  method BuildWithout(input: seq<Edge>, explored: seq<Edge>, ghost nodes: set<int>, size: nat) returns (N: NTable)
    requires NodesOf(input, nodes) && size == |nodes|
    ensures fresh(N) && fresh(N.heapPos) && N.Valid() && N.Abs() == Build(Unexplored(input, explored))
    ensures N.heapPos.Length == size && NoHeapPositions(N)
  {
    N := new NTable(size);
    for i := 0 to |input|
      invariant fresh(N) && fresh(N.heapPos) && N.Valid() && N.Abs() == Build(Unexplored(input[..i], explored))
      invariant N.heapPos.Length == size && NoHeapPositions(N)
    {
      var inPath := IsExplored(explored, input[i]);
      OneMoreInput(input, explored, i, nodes);
      if !inPath {
        N.AddEdge(input[i]);
      }
    }
    assert input[..|input|] == input;
  }

  lemma OneMoreInput(input: seq<Edge>, ex: seq<Edge>, i: nat, nodes: set<int>)
    requires NodesOf(input, nodes) && i < |input|
    ensures var e, b := input[i], Unexplored(input[..i], ex);
      if Explored(ex, e.from, e.to) then Unexplored(input[..i + 1], ex) == b
      else Build(Unexplored(input[..i + 1], ex)) == WithEdge(Build(b), e) && |WithEdge(Build(b), e).pids| <= |nodes|
  {
    var e, b := input[i], Unexplored(input[..i], ex);
    PrefixStep(input, i, ex);
    if !Explored(ex, e.from, e.to) {
      PrefixNodesOf(input, i + 1, nodes);
      UnexploredNodesOf(input[..i + 1], ex, nodes);
      assert (b + [e])[..|b|] == b && (b + [e])[..|b| + 1] == b + [e];
      BuildFits(b + [e], |b|, nodes);
    }
  }

  lemma PrefixNodesOf(es: seq<Edge>, k: nat, nodes: set<int>)
    requires NodesOf(es, nodes) && k <= |es|
    ensures NodesOf(es[..k], nodes)
  {
    forall p | Occurs(es[..k], p) ensures p in nodes { assert Occurs(es, p); }
  }

  /** m holds exactly the steps lo..hi-1 of w. */
  ghost predicate HoldsSteps(m: NextHops, w: seq<nat>, lo: int, hi: int)
    requires 0 <= lo <= hi && hi < |w|
  {
    && (forall i :: lo <= i < hi ==> w[i] in m && m[w[i]] == w[i + 1])
    && forall x :: x in m ==> exists i :: lo <= i < hi && w[i] == x
  }

  lemma StepBelow(m: NextHops, w: seq<nat>, lo: int, hi: int)
    requires 0 < lo <= hi < |w| && Simple(w) && HoldsSteps(m, w, lo, hi)
    ensures HoldsSteps(m[w[lo - 1] := w[lo]], w, lo - 1, hi)
  {
  }

  lemma StepAbove(m: NextHops, w: seq<nat>, lo: int, hi: int)
    requires 0 <= lo <= hi < |w| - 1 && Simple(w) && HoldsSteps(m, w, lo, hi)
    ensures HoldsSteps(m[w[hi] := w[hi + 1]], w, lo, hi + 1)
  {
  }

  /** The last k steps of w are in the map forward, and in the opposite direction in the map backward. */
  ghost predicate MapsHold(forward: NextHops, backward: NextHops, w: seq<nat>, k: int)
    requires 0 <= k < |w|
  {
    HoldsSteps(forward, w, |w| - 1 - k, |w| - 1) && HoldsSteps(backward, Reverse(w), 0, k)
  }

  lemma OneMoreStep(forward: NextHops, backward: NextHops, w: seq<nat>, k: nat)
    requires k < |w| - 1 && Simple(w) && MapsHold(forward, backward, w, k)
    ensures var x, y := w[|w| - 2 - k], w[|w| - 1 - k]; MapsHold(forward[x := y], backward[y := x], w, k + 1)
  {
    StepBelow(forward, w, |w| - 1 - k, |w| - 1);
    StepAbove(backward, Reverse(w), 0, k);
  }

  lemma AllStepsHeld(forward: NextHops, backward: NextHops, w: seq<nat>)
    requires |w| > 0 && MapsHold(forward, backward, w, |w| - 1)
    ensures IsNextOf(forward, w) && IsNextOf(backward, Reverse(w))
  {
  }

  /** The next-hop maps of a path listed from its end, in both directions. */
  method NextMaps(path: seq<Edge>, ghost w: seq<nat>) returns (forward: NextHops, backward: NextHops)
    requires path == Backwards(w) && Simple(w) && |w| > 0
    ensures IsNextOf(forward, w) && IsNextOf(backward, Reverse(w))
  {
    forward, backward := map[], map[];
    var k := 0;
    while k < |path|
      invariant 0 <= k <= |path| == |w| - 1 && MapsHold(forward, backward, w, k)
    {
      OneMoreStep(forward, backward, w, k);
      forward := forward[path[k].to := path[k].from];
      backward := backward[path[k].from := path[k].to];
      k := k + 1;
    }
    AllStepsHeld(forward, backward, w);
  }

  /** A path with at least one link and without repeated nodes adds links to explore, none of them from a
      node to itself. */
  lemma NoSelfAfter(ex: seq<Edge>, w: seq<nat>)
    requires NoSelfLinks(ex) && Simple(w)
    ensures NoSelfLinks(ex + Backwards(w))
  {
  }

  /** Edges that can be searched for paths: the nodes are numbered, and no length is negative. */
  ghost predicate Searchable(es: seq<Edge>, nodes: set<int>) {
    NodesOf(es, nodes) && WellNumbered(es, |nodes|) && Nonnegative(es)
  }

  /** What is searched: the graph without the explored links, with all its nodes. */
  lemma Searched(es: seq<Edge>, nodes: set<int>, ex: seq<Edge>)
    requires Searchable(es, nodes) && NoSelfLinks(ex)
    ensures NodesOf(es, nodes)
    ensures var t := Build(Unexplored(es, ex));
      |t.pids| == |nodes| && Valid(t.ToGraph()) && t.ToGraph() == Without(Build(es).ToGraph(), ex)
  {
    RebuiltGraph(es, |nodes|, ex);
    UnexploredSubset(es, ex);
    BuildIsValid(Unexplored(es, ex));
  }

  /** Search what remains of the graph for one more path. */
  method FindPath(input: seq<Edge>, nodes: set<int>, explored: seq<Edge>, from: nat, to: nat)
      returns (newPath: seq<Edge>, ghost w: seq<nat>)
    requires Searchable(input, nodes) && NoSelfLinks(explored)
    requires from != to && from < |nodes| && to < |nodes|
    ensures FoundPath(Without(Build(input).ToGraph(), explored), from, to, newPath, w)
  {
    Searched(input, nodes, explored);
    var N := BuildWithout(input, explored, nodes, |nodes|);
    newPath, w := SearchTo(N, from, to);
  }

  lemma FirstRound(g: Graph, ex: seq<Edge>, from: nat, to: nat, path: seq<Edge>, w: seq<nat>)
    requires FoundPath(Without(g, ex), from, to, path, w) && from != to && NoSelfLinks(ex)
    ensures path == [] ==> Rounds(g, ex, from, to, [])
    ensures path != [] ==>
              && IsShortest(Without(g, ex), from, to, w) && Simple(w) && path == Backwards(w)
              && NoSelfLinks(ex + path) && Without(g, ex + path).wt.Keys < Without(g, ex).wt.Keys
  {
    if path != [] {
      LinksShrink(g, ex, from, to, w);
      NoSelfAfter(ex, w);
    }
  }

  // All pairs

  /** v is the primary path between i and j: j's chain of parents in the tree of i. */
  ghost predicate PrimaryWalk(t: Table, paths: Paths, i: nat, j: nat, v: seq<nat>) {
    && i < |t.pids| && IsShortest(t.ToGraph(), j, i, v) && Simple(v)
    && (forall k :: 0 <= k < |v| ==> v[k] < |t.pids|)
    && Chain(TreeAt(t.pids, paths, t.pids[i]), PidsOf(t.pids, v))
  }

  ghost predicate IsPrimary(t: Table, paths: Paths, i: nat, j: nat, ex: seq<Edge>) {
    if Connected(t.ToGraph(), j, i) then exists v :: PrimaryWalk(t, paths, i, j, v) && ex == Forwards(v) else ex == []
  }

  /** What is stored for the pair: the paths ws found once the links ex of the primary path are removed. */
  ghost predicate PairHas(t: Table, paths: Paths, alt: Alternatives, i: nat, j: nat, ex: seq<Edge>, ws: seq<seq<nat>>) {
    IsPrimary(t, paths, i, j, ex) && Rounds(t.ToGraph(), ex, i, j, ws) && Stored(alt, i, j, 2, ws)
  }

  ghost predicate PairDone(t: Table, paths: Paths, alt: Alternatives, i: nat, j: nat) {
    exists ex, ws :: PairHas(t, paths, alt, i, j, ex, ws)
  }

  /** getNext follows each path under its number, in both directions, and has no answer for a node off the
      path, or for any other number from 2. */
  ghost predicate GetNextWalks(alt: Alternatives, i: nat, j: nat, ws: seq<seq<nat>>) {
    && (forall q :: 0 <= q < |ws| ==> FollowsPath(alt, i, j, 2 + q, ws[q]))
    && forall x, k :: k >= 2 + |ws| ==> NextIn(alt, i, j, x, k) == NIL && NextIn(alt, j, i, x, k) == NIL
  }

  /** For every pair of nodes, the stored alternatives are paths between them without repeated nodes, in
      pairs link-disjoint and link-disjoint from the primary path, and removing the primary path and all
      of them disconnects the pair. Walking getNext follows them. */
  lemma AlternativesAreDisjointPaths(t: Table, paths: Paths, alt: Alternatives, i: nat, j: nat)
      returns (ex: seq<Edge>, ws: seq<seq<nat>>)
    requires IsTable(t) && i < j < |t.pids| && PairDone(t, paths, alt, i, j)
    ensures IsPrimary(t, paths, i, j, ex)
    ensures forall q :: 0 <= q < |ws| ==> Joins(t.ToGraph(), i, j, ws[q]) && Simple(ws[q])
    ensures PairwiseDisjoint(ws)
    ensures forall v, q :: PrimaryWalk(t, paths, i, j, v) && 0 <= q < |ws| ==> LinkDisjoint(v, ws[q])
    ensures !Connected(Without(t.ToGraph(), ex + AllBackwards(ws)), i, j)
    ensures GetNextWalks(alt, i, j, ws)
  {
    ex, ws :| PairHas(t, paths, alt, i, j, ex, ws);
    GetNextFollowsPath(alt, i, j, 2, ws);
    RoundsAreDisjointPaths(t.ToGraph(), ex, i, j, ws);
    forall v, q | PrimaryWalk(t, paths, i, j, v) && 0 <= q < |ws| ensures LinkDisjoint(v, ws[q]) {
      PrimaryIsForwards(t, paths, i, j, ex, v);
      AvoidsForwards(v, ws[q]);
    }
  }

  lemma PrimaryIsForwards(t: Table, paths: Paths, i: nat, j: nat, ex: seq<Edge>, v: seq<nat>)
    requires IsPrimary(t, paths, i, j, ex) && PrimaryWalk(t, paths, i, j, v) && Distinct(t.pids)
    ensures ex == Forwards(v)
  {
    var u :| PrimaryWalk(t, paths, i, j, u) && ex == Forwards(u);
    ChainUnique(TreeAt(t.pids, paths, t.pids[i]), PidsOf(t.pids, u), PidsOf(t.pids, v));
    PidsInjective(t.pids, u, v);
  }

  lemma PidsInjective(pids: seq<int>, u: seq<nat>, v: seq<nat>)
    requires Distinct(pids)
    requires (forall k :: 0 <= k < |u| ==> u[k] < |pids|) && (forall k :: 0 <= k < |v| ==> v[k] < |pids|)
    requires PidsOf(pids, u) == PidsOf(pids, v)
    ensures u == v
  {
    assert |u| == |PidsOf(pids, u)| == |v|;
    forall k | 0 <= k < |u| ensures u[k] == v[k] {
      assert PidsOf(pids, u)[k] == PidsOf(pids, v)[k];
    }
  }

  predicate Before(a: nat, b: nat, i: int, j: int) {
    a < i || (a == i && b < j)
  }

  /** The pairs already handled have their paths stored, the others have none. */
  ghost predicate PairState(t: Table, paths: Paths, alt: Alternatives, i: int, j: int, a: nat, b: nat) {
    if Before(a, b, i, j) then PairDone(t, paths, alt, a, b) else NoneStored(alt, a, b, 2)
  }

  ghost predicate PairsUpTo(t: Table, paths: Paths, alt: Alternatives, n: int, i: int, j: int) {
    forall a: nat, b: nat :: a < b < n ==> PairState(t, paths, alt, i, j, a, b)
  }

  lemma StoredFrame(before: Alternatives, after: Alternatives, x: int, y: int, from: int, to: int, ws: seq<seq<nat>>)
    requires OnlyAdds(before, after, x, y, 2) && Stored(before, from, to, 2, ws)
    requires (from, to) != (x, y) && (from, to) != (y, x)
    ensures Stored(after, from, to, 2, ws)
  {
    forall k ensures SameAt(before, after, ((from, to), k)) && SameAt(before, after, ((to, from), k)) {}
  }

  lemma PairStepDone(t: Table, paths: Paths, before: Alternatives, after: Alternatives, n: nat, i: nat, j: nat,
                     ex: seq<Edge>, ws: seq<seq<nat>>)
    requires i < j < n && PairsUpTo(t, paths, before, n, i, j) && OnlyAdds(before, after, i, j, 2)
    requires PairHas(t, paths, after, i, j, ex, ws)
    ensures PairsUpTo(t, paths, after, n, i, j + 1)
  {
    var j' := j + 1;
    forall a: nat, b: nat | a < b < n ensures PairState(t, paths, after, i, j', a, b) {
      assert PairState(t, paths, before, i, j, a, b);
      if Before(a, b, i, j) {
        var ex', ws' :| PairHas(t, paths, before, a, b, ex', ws');
        StoredFrame(before, after, i, j, a, b, ws');
        assert PairHas(t, paths, after, a, b, ex', ws');
      } else if !(a == i && b == j) {
        StoredFrame(before, after, i, j, a, b, []);
      }
    }
  }

  lemma NothingStored(t: Table, paths: Paths, n: nat)
    ensures PairsUpTo(t, paths, map[], n, 0, 1)
  {
  }

  lemma NextRow(t: Table, paths: Paths, alt: Alternatives, n: nat, i: nat)
    requires i < n && PairsUpTo(t, paths, alt, n, i, n)
    ensures PairsUpTo(t, paths, alt, n, i + 1, i + 2)
  {
    var i', j' := i + 1, i + 2;
    forall a: nat, b: nat | a < b < n ensures PairState(t, paths, alt, i', j', a, b) {
      assert PairState(t, paths, alt, i, n, a, b);
    }
  }

  lemma AllPairsDone(t: Table, paths: Paths, alt: Alternatives, n: nat)
    requires PairsUpTo(t, paths, alt, n, n, n + 1)
    ensures forall i: nat, j: nat :: i < j < n ==> PairDone(t, paths, alt, i, j)
  {
    var n' := n + 1;
    forall i: nat, j: nat | i < j < n ensures PairDone(t, paths, alt, i, j) {
      assert PairState(t, paths, alt, n, n', i, j);
    }
  }

  /** Every link between two distinct nodes has positive length, and no other link a negative one. */
  ghost predicate PositiveLengths(es: seq<Edge>) {
    Nonnegative(es) && forall e :: e in es && e.from != e.to ==> e.len > 0.0
  }

  lemma PositiveEdges(es: seq<Edge>)
    requires PositiveLengths(es)
    ensures Positive(Build(es).ToGraph())
  {
    BuildIsFirstLinkGraph(es);
    var t := Build(es);
    forall u: nat, v: nat | (u, v) in t.wt && u != v ensures t.wt[(u, v)] > 0.0 {
      assert LinkIsFirst(es, t, u, v);
      var k :| FirstBetween(es, k, t.pids[u], t.pids[v]);
      assert es[k] in es;
    }
  }

  lemma AllNodesFit(es: seq<Edge>, nodes: set<int>)
    requires forall p :: p in nodes <==> Occurs(es, p)
    ensures |Build(es).pids| == |nodes|
  {
    BuildIsGraph(es);
    forall p ensures p in nodes <==> p in AsSet(Build(es).pids) {}
    assert AsSet(Build(es).pids) == nodes;
    DistinctSize(Build(es).pids);
  }

  ghost predicate ParentsAlong(paths: Paths, i: nat, v: seq<nat>) {
    forall k :: 0 <= k < |v| - 1 ==> v[k] != i && At(paths, i, v[k]).prev == v[k + 1]
  }

  /** j has a parent in the tree of i exactly if it can be walked to, and then its chain of parents is the
      primary path. */
  ghost predicate PrimaryOk(t: Table, paths: Paths, i: nat, j: nat) {
    && (At(paths, i, j).prev != NULL_PROCESSID <==> Connected(t.ToGraph(), j, i))
    && (Connected(t.ToGraph(), j, i) ==> exists v :: PrimaryWalk(t, paths, i, j, v) && ParentsAlong(paths, i, v))
  }

  ghost predicate PrimariesOk(t: Table, paths: Paths, n: nat) {
    forall i: nat, j: nat :: i < j < n ==> PrimaryOk(t, paths, i, j)
  }

  lemma AllPrimariesOk(t: Table, rows: seq<seq<PLink>>, paths: Paths, n: nat)
    requires AllPairs(t, rows, paths) && t.pids == Ids(n) && Positive(t.ToGraph())
    ensures PrimariesOk(t, paths, n)
  {
    forall i: nat, j: nat | i < j < n ensures PrimaryOk(t, paths, i, j) {
      PrimaryFacts(t, rows, paths, n, i, j);
    }
  }

  lemma PrimaryFacts(t: Table, rows: seq<seq<PLink>>, paths: Paths, n: nat, i: nat, j: nat)
    requires AllPairs(t, rows, paths) && t.pids == Ids(n) && Positive(t.ToGraph()) && i < j < n
    ensures PrimaryOk(t, paths, i, j)
  {
    RowDistance(t.ToGraph(), j, rows[j], i);
    DistSymmetric(t.ToGraph(), rows, i, j);
    EntryOf(t, rows, paths, i, j);
    if Reached(rows, i, j) {
      var v := TreePathsAreShortest(t, rows, paths, i, j);
      ChainOfIds(n, paths, i, v);
      assert PrimaryWalk(t, paths, i, j, v);
    }
  }

  lemma ChainOfIds(n: nat, paths: Paths, i: nat, v: seq<nat>)
    requires i < n && (forall k :: 0 <= k < |v| ==> v[k] < n) && Chain(TreeAt(Ids(n), paths, i), PidsOf(Ids(n), v))
    ensures ParentsAlong(paths, i, v)
  {
    var w := PidsOf(Ids(n), v);
    forall k | 0 <= k < |v| - 1 ensures v[k] != i && At(paths, i, v[k]).prev == v[k + 1] {
      assert w[k] == v[k] && w[k + 1] == v[k + 1];
      assert w[k] != i;
    }
  }

  lemma ParentsOf(t: Table, rows: seq<seq<PLink>>, paths: Paths, r: nat, y: nat) returns (v: seq<nat>)
    requires AllPairs(t, rows, paths) && RealPids(t) && Positive(t.ToGraph()) && r < |t.pids| && y < |t.pids|
    ensures if Connected(t.ToGraph(), y, r) then
        && IsShortest(t.ToGraph(), y, r, v) && (forall k :: 0 <= k < |v| ==> v[k] < |t.pids|)
        && forall k :: 0 <= k < |v| - 1 ==> At(paths, t.pids[r], t.pids[v[k]]).prev == t.pids[v[k + 1]]
      else At(paths, t.pids[r], t.pids[y]).prev == NULL_PROCESSID
  {
    v := [];
    HopCountTellsReached(t, rows, paths, r, y);
    EntryOf(t, rows, paths, r, y);
    if Reached(rows, r, y) {
      v := TreePathsAreShortest(t, rows, paths, r, y);
      ChainParents(t.pids, paths, t.pids[r], v);
    }
  }

  lemma ChainParents(pids: seq<int>, paths: Paths, root: int, v: seq<nat>)
    requires forall k :: 0 <= k < |v| ==> v[k] < |pids|
    requires Chain(TreeAt(pids, paths, root), PidsOf(pids, v))
    ensures forall k :: 0 <= k < |v| - 1 ==> At(paths, root, pids[v[k]]).prev == pids[v[k + 1]]
  {
    var w := PidsOf(pids, v);
    forall k | 0 <= k < |v| - 1 ensures At(paths, root, pids[v[k]]).prev == pids[v[k + 1]] {
      assert w[k] == pids[v[k]] && w[k + 1] == pids[v[k + 1]];
      assert w[k] != root;
    }
  }

  lemma NoSelfForwards(v: seq<nat>)
    requires Simple(v)
    ensures NoSelfLinks(Forwards(v))
  {
  }

  /** What the trees were computed from, and the table of trees. */
  datatype Computed = Computed(input: seq<Edge>, nodes: set<int>, paths: Paths) {
    ghost predicate Ready() {
      match this
      case Computed(_, _, _) => Searchable(input, nodes) && PrimariesOk(Build(input), paths, |nodes|)
    }

    /** The alternative paths are stored for the pairs before (i, j), and for no others. */
    ghost predicate UpTo(alt: Alternatives, i: int, j: int) {
      match this
      case Computed(_, _, _) => PairsUpTo(Build(input), paths, alt, |nodes|, i, j)
    }

    lemma NothingDone()
      ensures UpTo(map[], 0, 1)
    {
      NothingStored(Build(input), paths, |nodes|);
    }

    lemma RowDone(alt: Alternatives, i: int)
      requires 0 <= i < |nodes| && UpTo(alt, i, |nodes|)
      ensures UpTo(alt, i + 1, i + 2)
    {
      NextRow(Build(input), paths, alt, |nodes|, i);
    }

    ghost predicate Done(alt: Alternatives) {
      match this
      case Computed(_, _, _) => forall i: nat, j: nat :: i < j < |nodes| ==> PairDone(Build(input), paths, alt, i, j)
    }

    lemma AllDone(alt: Alternatives)
      requires UpTo(alt, |nodes|, |nodes| + 1)
      ensures Done(alt)
    {
      AllPairsDone(Build(input), paths, alt, |nodes|);
    }

    /** The trees have been computed from numbered nodes and positive lengths. */
    ghost predicate TreesReady(rows: seq<seq<PLink>>) {
      match this
      case Computed(_, _, _) =>
        && WellNumbered(input, |nodes|) && PositiveLengths(input) && NodesOf(input, nodes)
        && AllPairs(Build(input), rows, paths)
    }

    lemma ReadyAfterTrees(rows: seq<seq<PLink>>)
      requires TreesReady(rows)
      ensures Ready() && Positive(Build(input).ToGraph())
    {
      PositiveEdges(input);
      RebuiltGraph(input, |nodes|, []);
      AllPrimariesOk(Build(input), rows, paths, |nodes|);
    }
  }

  class SPTsBroadcastLayer {
    var nodes: set<int>
    var input: seq<Edge>
    var paths: Paths
    var alternativePaths: Alternatives
    ghost var rows: seq<seq<PLink>>

    ghost predicate Valid()
      reads this
    {
      forall p :: p in nodes <==> Occurs(input, p)
    }

    constructor ()
      ensures Valid() && input == [] && paths == map[] && alternativePaths == map[]
    {
      nodes, input, paths, alternativePaths, rows := {}, [], map[], map[], [];
    }

    method AddLink(from: int, to: int, length: real)
      requires Valid()
      modifies this`nodes, this`input
      ensures Valid() && input == old(input) + [Edge(from, to, length)] && nodes == old(nodes) + {from, to}
    {
      input := input + [Edge(from, to, length)];
      nodes := nodes + {from, to};
      forall p ensures p in nodes <==> Occurs(input, p) {
        assert input[|input| - 1] in input;
        assert forall e :: e in input <==> e in old(input) || e == Edge(from, to, length);
        assert Occurs(old(input), p) ==> Occurs(input, p);
      }
    }

    method AddNode(p: int)
      requires Valid()
      modifies this`nodes, this`input
      ensures Valid() && input == old(input) + [Edge(p, p, 0.0)] && nodes == old(nodes) + {p}
    {
      AddLink(p, p, 0.0);
    }

    function GetChildren(root: int, node: int): set<int>
      reads this
    {
      At(paths, root, node).next
    }

    function GetParent(root: int, node: int): int
      reads this
    {
      At(paths, root, node).prev
    }

    /** None stands for a count that was never set. */
    function GetHopCount(from: int, to: int): Option<int>
      reads this
    {
      HopCountIn(paths, from, to)
    }

    function GetNext(from: int, to: int, currentNode: int, pathNumber: int): int
      reads this
    {
      NextIn(alternativePaths, from, to, currentNode, pathNumber)
    }

    /** Once the trees are there, getParent leads from y to the root r along a shortest walk, and has no answer if
        there is none. */
    lemma ParentsAnswered(r: nat, y: nat) returns (v: seq<nat>)
      requires AllPairs(Build(input), rows, paths) && RealPids(Build(input)) && Positive(Build(input).ToGraph())
      requires r < |Build(input).pids| && y < |Build(input).pids|
      ensures var t := Build(input);
        if Connected(t.ToGraph(), y, r) then
          && IsShortest(t.ToGraph(), y, r, v) && (forall k :: 0 <= k < |v| ==> v[k] < |t.pids|)
          && forall k :: 0 <= k < |v| - 1 ==> GetParent(t.pids[r], t.pids[v[k]]) == t.pids[v[k + 1]]
        else GetParent(t.pids[r], t.pids[y]) == NULL_PROCESSID
    {
      v := ParentsOf(Build(input), rows, paths, r, y);
    }

    /** getChildren answers just the nodes whose parent this one is. */
    lemma ChildrenAnswered(r: nat, y: nat)
      requires AllPairs(Build(input), rows, paths) && RealPids(Build(input))
      requires r < |Build(input).pids| && y < |Build(input).pids|
      ensures var t := Build(input);
        forall z :: z in GetChildren(t.pids[r], t.pids[y]) <==>
          z in t.pids && z != t.pids[r] && GetParent(t.pids[r], z) == t.pids[y]
    {
      ChildrenInvertParents(Build(input), rows, paths, r, y);
    }

    /** getHopCount answers the number of links of a shortest walk, and -1 if there is none. */
    lemma HopsAnswered(r: nat, y: nat) returns (w: seq<nat>)
      requires AllPairs(Build(input), rows, paths) && RealPids(Build(input))
      requires r < |Build(input).pids| && y < |Build(input).pids|
      ensures var t := Build(input);
        if Connected(t.ToGraph(), y, r) then
          IsShortest(t.ToGraph(), y, r, w) && Simple(w) && GetHopCount(t.pids[y], t.pids[r]) == Some(|w| - 1)
        else GetHopCount(t.pids[y], t.pids[r]) == Some(-1)
    {
      var t := Build(input);
      w := [];
      HopCountTellsReached(t, rows, paths, r, y);
      if Connected(t.ToGraph(), y, r) {
        w := HopsOfShortestWalk(t, rows, paths, r, y);
      }
    }

    /** Once the alternative paths are there, getNext walks them, each under its number, and answers nothing else. */
    lemma NextAnswered(i: nat, j: nat) returns (ws: seq<seq<nat>>)
      requires i < j < |Build(input).pids| && PairDone(Build(input), paths, alternativePaths, i, j)
      ensures forall q :: 0 <= q < |ws| ==> Joins(Build(input).ToGraph(), i, j, ws[q]) && Simple(ws[q])
      ensures forall q, k :: 0 <= q < |ws| && 0 <= k < |ws[q]| - 1 ==>
        GetNext(i, j, ws[q][k], 2 + q) == ws[q][k + 1] && GetNext(j, i, ws[q][k + 1], 2 + q) == ws[q][k]
      ensures forall q, x :: 0 <= q < |ws| && !StepsFrom(ws[q], x) ==> GetNext(i, j, x, 2 + q) == NIL
      ensures forall q, x :: 0 <= q < |ws| && !StepsTo(ws[q], x) ==> GetNext(j, i, x, 2 + q) == NIL
      ensures forall x, k :: k >= 2 + |ws| ==> GetNext(i, j, x, k) == NIL && GetNext(j, i, x, k) == NIL
    {
      BuildIsGraph(input);
      var ex;
      ex, ws := AlternativesAreDisjointPaths(Build(input), paths, alternativePaths, i, j);
      forall q, k | 0 <= q < |ws| && 0 <= k < |ws[q]| - 1
        ensures GetNext(i, j, ws[q][k], 2 + q) == ws[q][k + 1] && GetNext(j, i, ws[q][k + 1], 2 + q) == ws[q][k]
      {
        assert FollowsPath(alternativePaths, i, j, 2 + q, ws[q]);
        assert TakesStep(alternativePaths, i, j, 2 + q, ws[q], k);
      }
    }

    /** The shortest-path trees. */
    method ComputeTrees()
      requires Valid() && Nonnegative(input) && paths == map[]
      modifies this`paths, this`rows
      ensures AllPairs(Build(input), rows, paths)
    {
      BuildIsGraph(input);
      BuildIsValid(input);
      var N := BuildTable(input, nodes, |nodes|);
      AllNodesFit(input, nodes);
      var P;
      P, rows := FillTable(N);
      MixedOfOk(ToGraph(N), rows);
      MixedOfGiven(ToGraph(N), rows);
      paths := FillPaths(N.pids, P, rows, MixedOf(ToGraph(N), rows));
    }

    /** The links that getParent goes through from j to i in the tree of i. */
    method ReadPrimary(i: nat, j: nat, ghost v: seq<nat>) returns (explored: seq<Edge>)
      requires |v| > 0 && v[0] == j && v[|v| - 1] == i
      requires forall k :: 0 <= k < |v| - 1 ==> v[k] != i && GetParent(i, v[k]) == v[k + 1]
      ensures explored == Forwards(v)
    {
      explored := [];
      var from := j;
      while from != i
        invariant |explored| < |v| && from == v[|explored|] && explored == Forwards(v)[..|explored|]
        decreases |v| - |explored|
      {
        var to := GetParent(i, from);
        explored := explored + [Edge(from, to, 0.0)];
        from := to;
      }
    }

    /** The primary path between i and j, read off the tree of i. */
    method PrimaryPath(i: nat, j: nat) returns (explored: seq<Edge>)
      requires PrimaryOk(Build(input), paths, i, j)
      ensures IsPrimary(Build(input), paths, i, j, explored) && NoSelfLinks(explored)
    {
      explored := [];
      ghost var t := Build(input);
      if GetParent(i, j) != NULL_PROCESSID {
        ghost var v :| PrimaryWalk(t, paths, i, j, v) && ParentsAlong(paths, i, v);
        NoSelfForwards(v);
        explored := ReadPrimary(i, j, v);
      }
    }

    /** The shortest-path trees, and the alternative paths of every pair of nodes. */
    method ComputePaths()
      requires Valid() && paths == map[] && alternativePaths == map[]
      requires WellNumbered(input, |nodes|) && PositiveLengths(input)
      modifies this`paths, this`rows, this`alternativePaths
      ensures AllPairs(Build(input), rows, paths) && Positive(Build(input).ToGraph())
      ensures forall i: nat, j: nat :: i < j < |nodes| ==> PairDone(Build(input), paths, alternativePaths, i, j)
    {
      ComputeTrees();
      AddAlternatives(Computed(input, nodes, paths), rows);
    }

    /** The alternative paths, once the trees are there. */
    method AddAlternatives(ghost d: Computed, ghost rows: seq<seq<PLink>>)
      requires Reads(d) && d.TreesReady(rows) && alternativePaths == map[]
      modifies this`alternativePaths
      ensures d.Done(alternativePaths) && Positive(Build(d.input).ToGraph())
    {
      d.ReadyAfterTrees(rows);
      ComputeAllAlternatives(d);
      d.AllDone(alternativePaths);
    }

    /** The fields that the search for alternative paths only reads. */
    ghost predicate Reads(d: Computed)
      reads this`input, this`nodes, this`paths
    {
      input == d.input && nodes == d.nodes && paths == d.paths
    }

    method ComputeAllAlternatives(ghost d: Computed)
      requires Reads(d) && d.Ready() && alternativePaths == map[]
      modifies this`alternativePaths
      ensures d.UpTo(alternativePaths, |nodes|, |nodes| + 1)
    {
      d.NothingDone();
      for i := 0 to |nodes|
        invariant d.UpTo(alternativePaths, i, i + 1)
      {
        ComputeRow(d, i);
      }
    }

    method ComputeRow(ghost d: Computed, i: int)
      requires Reads(d) && d.Ready() && 0 <= i < |nodes| && d.UpTo(alternativePaths, i, i + 1)
      modifies this`alternativePaths
      ensures d.UpTo(alternativePaths, i + 1, i + 2)
    {
      for j := i + 1 to |nodes|
        invariant d.UpTo(alternativePaths, i, j)
      {
        ComputePair(d, i, j);
      }
      d.RowDone(alternativePaths, i);
    }

    method ComputePair(ghost d: Computed, i: int, j: int)
      requires Reads(d) && d.Ready() && 0 <= i < j < |nodes| && d.UpTo(alternativePaths, i, j)
      modifies this`alternativePaths
      ensures d.UpTo(alternativePaths, i, j + 1)
    {
      assert PairState(Build(input), paths, alternativePaths, i, j, i, j);
      var explored := PrimaryPath(i, j);
      ghost var before := alternativePaths;
      ghost var ws := ComputeAlternativePaths(explored, i, j, 2);
      PairStepDone(Build(input), paths, before, alternativePaths, |nodes|, i, j, explored, ws);
    }

    /** Remove the explored links, look for another path, store it, and go on until there is none. */
    method ComputeAlternativePaths(explored: seq<Edge>, from: nat, to: nat, pathNumber: nat)
        returns (ghost ws: seq<seq<nat>>)
      requires Searchable(input, nodes) && NoSelfLinks(explored)
      requires from != to && from < |nodes| && to < |nodes|
      requires NoneStored(alternativePaths, from, to, pathNumber)
      modifies this`alternativePaths
      ensures Rounds(Build(input).ToGraph(), explored, from, to, ws)
      ensures Stored(alternativePaths, from, to, pathNumber, ws)
      ensures OnlyAdds(old(alternativePaths), alternativePaths, from, to, pathNumber)
      decreases Without(Build(input).ToGraph(), explored).wt.Keys
    {
      ghost var g := Build(input).ToGraph();
      var newPath, w := FindPath(input, nodes, explored, from, to);
      FirstRound(g, explored, from, to, newPath, w);
      ws := [];
      if newPath != [] {
        ghost var before := alternativePaths;
        StorePath(from, to, pathNumber, newPath, w);
        ghost var stored := alternativePaths;
        ghost var rest := ComputeAlternativePaths(explored + newPath, from, to, pathNumber + 1);
        ws := [w] + rest;
        StoredCons(stored, alternativePaths, from, to, pathNumber, w, rest);
        OnlyAddsTrans(before, stored, alternativePaths, from, to, pathNumber);
      }
    }

    /** Save the discovered path in both directions. */
    method StorePath(from: nat, to: nat, pathNumber: nat, newPath: seq<Edge>, ghost w: seq<nat>)
      requires newPath == Backwards(w) && Simple(w) && |w| > 0 && from != to
      requires NoneStored(alternativePaths, from, to, pathNumber)
      modifies this`alternativePaths
      ensures NoneStored(alternativePaths, from, to, pathNumber + 1)
      ensures OnlyAdds(old(alternativePaths), alternativePaths, from, to, pathNumber)
      ensures ((from, to), pathNumber) in alternativePaths && IsNextOf(alternativePaths[((from, to), pathNumber)], w)
      ensures ((to, from), pathNumber) in alternativePaths &&
              IsNextOf(alternativePaths[((to, from), pathNumber)], Reverse(w))
    {
      var forward, backward := NextMaps(newPath, w);
      StoreOne(alternativePaths, from, to, pathNumber, forward, backward);
      alternativePaths := Insert(alternativePaths, ((from, to), pathNumber), forward);
      alternativePaths := Insert(alternativePaths, ((to, from), pathNumber), backward);
    }
  }
}
