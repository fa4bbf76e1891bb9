/** What the recursive search for alternative paths computes: the graph without the explored links, and
    the sequence of link-disjoint paths found until the two nodes are disconnected. */
module AlternativePaths {
  import opened Graphs
  import opened NodeTable
  import opened ShortestPathTree
  import opened Dijkstra

  predicate Explored(ex: seq<Edge>, p: int, q: int) {
    exists j :: 0 <= j < |ex| && Between(ex[j], p, q)
  }

  /** The edges that are not in an explored path, in the same order. */
  function Unexplored(es: seq<Edge>, ex: seq<Edge>): seq<Edge> {
    if |es| == 0 then []
    else
      var k := |es| - 1;
      Unexplored(es[..k], ex) + if Explored(ex, es[k].from, es[k].to) then [] else [es[k]]
  }

  /** g without the explored links. */
  ghost function Without(g: Graph, ex: seq<Edge>): Graph {
    Graph(g.n, map p | p in g.wt && !Explored(ex, p.0, p.1) :: g.wt[p])
  }

  /** Nodes 0..n-1 were added in order, before any link. */
  ghost predicate WellNumbered(es: seq<Edge>, n: nat) {
    && n <= |es|
    && (forall i :: 0 <= i < n ==> es[i] == Edge(i, i, 0.0))
    && forall e :: e in es ==> 0 <= e.from < n && 0 <= e.to < n
  }

  ghost predicate NoSelfLinks(ex: seq<Edge>) {
    forall e :: e in ex ==> e.from != e.to
  }

  function Ids(n: nat): seq<int> {
    seq(n, i => i)
  }

  lemma IdIndex(n: nat, i: nat)
    requires i < n
    ensures i in Ids(n) && Index(Ids(n), i) == i
  {
    assert Ids(n)[i] == i;
  }

  lemma WithEdgeOnIds(t: Table, n: nat, e: Edge)
    requires t.pids == Ids(n) && 0 <= e.from < n && 0 <= e.to < n
    ensures WithEdge(t, e) == Table(Ids(n), if (e.from, e.to) in t.wt then t.wt
                                            else t.wt[(e.from, e.to) := e.len][(e.to, e.from) := e.len])
  {
    IdIndex(n, e.from);
    IdIndex(n, e.to);
  }

  lemma BuildAppend(es: seq<Edge>, e: Edge)
    ensures Build(es + [e]) == WithEdge(Build(es), e)
  {
    assert (es + [e])[..|es|] == es;
  }

  lemma PrefixStep(es: seq<Edge>, k: nat, ex: seq<Edge>)
    requires k < |es|
    ensures Build(es[..k + 1]) == WithEdge(Build(es[..k]), es[k])
    ensures Unexplored(es[..k + 1], ex) == Unexplored(es[..k], ex) +
                                           if Explored(ex, es[k].from, es[k].to) then [] else [es[k]]
  {
    assert es[..k + 1][..k] == es[..k];
  }

  lemma AddSelf(t: Table, k: nat)
    requires t.pids == Ids(k) && (k, k) !in t.wt
    ensures WithEdge(t, Edge(k, k, 0.0)) == Table(Ids(k + 1), t.wt[(k, k) := 0.0])
  {
    assert Ids(k) + [k] == Ids(k + 1);
    IdIndex(k + 1, k);
  }

  lemma {:induction false} SelfLinksFirst(es: seq<Edge>, n: nat, k: nat)
    requires WellNumbered(es, n) && k <= n
    ensures Build(es[..k]).pids == Ids(k)
    ensures forall u: nat, v: nat :: (u, v) in Build(es[..k]).wt ==> u == v < k
  {
    if k > 0 {
      SelfLinksFirst(es, n, k - 1);
      PrefixStep(es, k - 1, []);
      assert es[k - 1] == Edge(k - 1, k - 1, 0.0);
      AddSelf(Build(es[..k - 1]), k - 1);
    }
  }

  lemma {:induction false} NoneExplored(es: seq<Edge>, ex: seq<Edge>)
    requires forall k :: 0 <= k < |es| ==> !Explored(ex, es[k].from, es[k].to)
    ensures Unexplored(es, ex) == es
  {
    if es != [] {
      NoneExplored(es[..|es| - 1], ex);
    }
  }

  lemma NotExploredSelf(ex: seq<Edge>, k: int)
    requires NoSelfLinks(ex)
    ensures !Explored(ex, k, k)
  {
    forall j | 0 <= j < |ex| ensures !Between(ex[j], k, k) { assert ex[j] in ex; }
  }

  ghost predicate Restricted(t': Table, t: Table, n: nat, ex: seq<Edge>) {
    && t.pids == Ids(n) && t'.pids == Ids(n)
    && forall u: nat, v: nat ::
         ((u, v) in t'.wt <==> (u, v) in t.wt && !Explored(ex, u, v)) &&
         ((u, v) in t'.wt ==> t'.wt[(u, v)] == t.wt[(u, v)])
  }

  lemma RestrictedBase(es: seq<Edge>, n: nat, ex: seq<Edge>)
    requires WellNumbered(es, n) && NoSelfLinks(ex)
    ensures Restricted(Build(Unexplored(es[..n], ex)), Build(es[..n]), n, ex)
  {
    SelfLinksFirst(es, n, n);
    forall k | 0 <= k < n ensures !Explored(ex, es[k].from, es[k].to) {
      assert es[k] == Edge(k, k, 0.0);
      NotExploredSelf(ex, k);
    }
    NoneExplored(es[..n], ex);
    forall u: nat | u < n ensures !Explored(ex, u, u) { NotExploredSelf(ex, u); }
  }

  lemma RestrictedStep(t': Table, t: Table, n: nat, ex: seq<Edge>, e: Edge)
    requires Restricted(t', t, n, ex) && 0 <= e.from < n && 0 <= e.to < n
    requires Symmetric(t.ToGraph())
    ensures Restricted(if Explored(ex, e.from, e.to) then t' else WithEdge(t', e), WithEdge(t, e), n, ex)
  {
    WithEdgeOnIds(t, n, e);
    WithEdgeOnIds(t', n, e);
    assert forall u: int, v: int :: Explored(ex, u, v) <==> Explored(ex, v, u);
  }

  ghost predicate RestrictedAt(es: seq<Edge>, n: nat, ex: seq<Edge>, k: nat) {
    k <= |es| && Restricted(Build(Unexplored(es[..k], ex)), Build(es[..k]), n, ex)
  }

  lemma {:induction false} UnexploredFrom(es: seq<Edge>, n: nat, ex: seq<Edge>, k: nat)
    requires WellNumbered(es, n) && RestrictedAt(es, n, ex, k)
    ensures RestrictedAt(es, n, ex, |es|)
    decreases |es| - k
  {
    if k < |es| {
      UnexploredStep(es, n, ex, k);
      UnexploredFrom(es, n, ex, k + 1);
    }
  }

  lemma UnexploredStep(es: seq<Edge>, n: nat, ex: seq<Edge>, k: nat)
    requires WellNumbered(es, n) && k < |es| && RestrictedAt(es, n, ex, k)
    ensures RestrictedAt(es, n, ex, k + 1)
  {
    PrefixIsGraph(es, n, k);
    PrefixStep(es, k, ex);
    RestrictedAppend(Unexplored(es[..k], ex), Build(es[..k]), n, ex, es[k]);
  }

  lemma RestrictedAppend(b: seq<Edge>, t: Table, n: nat, ex: seq<Edge>, e: Edge)
    requires Restricted(Build(b), t, n, ex) && 0 <= e.from < n && 0 <= e.to < n && Symmetric(t.ToGraph())
    ensures Restricted(Build(b + if Explored(ex, e.from, e.to) then [] else [e]), WithEdge(t, e), n, ex)
  {
    RestrictedStep(Build(b), t, n, ex, e);
    BuildAppend(b, e);
    assert b + [] == b;
  }

  lemma PrefixIsGraph(es: seq<Edge>, n: nat, k: nat)
    requires WellNumbered(es, n) && k <= |es|
    ensures Symmetric(Build(es[..k]).ToGraph())
  {
    BuildIsGraph(es[..k]);
  }

  lemma RestrictedIsWithout(t': Table, t: Table, n: nat, ex: seq<Edge>)
    requires Restricted(t', t, n, ex)
    ensures t'.ToGraph() == Without(t.ToGraph(), ex)
  {
    forall p ensures p in t'.wt <==> p in Without(t.ToGraph(), ex).wt {
      assert p == (p.0, p.1);
    }
    forall p | p in t'.wt ensures t'.wt[p] == Without(t.ToGraph(), ex).wt[p] {
      assert p == (p.0, p.1);
    }
  }

  /** Rebuilding the graph from the unexplored edges is the same as removing the explored links. */
  lemma RebuiltGraph(es: seq<Edge>, n: nat, ex: seq<Edge>)
    requires WellNumbered(es, n) && NoSelfLinks(ex)
    ensures Build(Unexplored(es, ex)).ToGraph() == Without(Build(es).ToGraph(), ex)
    ensures Build(es).pids == Ids(n) == Build(Unexplored(es, ex)).pids
  {
    RestrictedBase(es, n, ex);
    UnexploredFrom(es, n, ex, n);
    assert es[..|es|] == es;
    PrefixIsGraph(es, n, |es|);
    RestrictedIsWithout(Build(Unexplored(es, ex)), Build(es), n, ex);
  }

  // The sequence of paths found

  /** ws are the paths that the recursion finds between two nodes, one after the other, until none is
      left: each is a shortest path in what remains of the graph, without repeated nodes. */
  ghost predicate Rounds(g: Graph, ex: seq<Edge>, from: nat, to: nat, ws: seq<seq<nat>>)
    decreases |ws|
  {
    if |ws| == 0 then !Connected(Without(g, ex), from, to)
    else IsShortest(Without(g, ex), from, to, ws[0]) && Simple(ws[0]) &&
         Rounds(g, ex + Backwards(ws[0]), from, to, ws[1..])
  }

  ghost predicate SameLink(a: nat, b: nat, c: nat, d: nat) {
    (a == c && b == d) || (a == d && b == c)
  }

  ghost predicate SameHop(v: seq<nat>, i: int, w: seq<nat>, j: int)
    requires 0 <= i < |v| - 1 && 0 <= j < |w| - 1
  {
    SameLink(v[i], v[i + 1], w[j], w[j + 1])
  }

  ghost predicate LinkDisjoint(v: seq<nat>, w: seq<nat>) {
    forall i, j :: 0 <= i < |v| - 1 && 0 <= j < |w| - 1 ==> !SameHop(v, i, w, j)
  }

  ghost predicate ExploredHop(ex: seq<Edge>, w: seq<nat>, i: int)
    requires 0 <= i < |w| - 1
  {
    Explored(ex, w[i], w[i + 1])
  }

  /** No link of w is among the explored ones. */
  ghost predicate Avoids(w: seq<nat>, ex: seq<Edge>) {
    forall i :: 0 <= i < |w| - 1 ==> !ExploredHop(ex, w, i)
  }

  function AllBackwards(ws: seq<seq<nat>>): seq<Edge> {
    if |ws| == 0 then [] else Backwards(ws[0]) + AllBackwards(ws[1..])
  }

  lemma WalkWithout(g: Graph, ex: seq<Edge>, from: nat, to: nat, w: seq<nat>)
    requires Joins(Without(g, ex), from, to, w)
    ensures Joins(g, from, to, w) && Avoids(w, ex)
  {
    forall i | 0 <= i < |w| - 1 ensures (w[i], w[i + 1]) in g.wt && !ExploredHop(ex, w, i) {
      assert (w[i], w[i + 1]) in Without(g, ex).wt;
    }
  }

  lemma AvoidsLess(w: seq<nat>, ex: seq<Edge>, more: seq<Edge>)
    requires Avoids(w, ex + more)
    ensures Avoids(w, ex) && Avoids(w, more)
  {
    forall i | 0 <= i < |w| - 1 ensures !ExploredHop(ex, w, i) && !ExploredHop(more, w, i) {
      assert !ExploredHop(ex + more, w, i);
      forall j | 0 <= j < |ex| ensures !Between(ex[j], w[i], w[i + 1]) {
        assert (ex + more)[j] == ex[j];
      }
      forall j | 0 <= j < |more| ensures !Between(more[j], w[i], w[i + 1]) {
        assert (ex + more)[|ex| + j] == more[j];
      }
    }
  }

  lemma AvoidsBackwards(v: seq<nat>, w: seq<nat>)
    requires Avoids(w, Backwards(v))
    ensures LinkDisjoint(v, w)
  {
    forall i, j | 0 <= i < |v| - 1 && 0 <= j < |w| - 1 ensures !SameHop(v, i, w, j) {
      var k := |v| - 2 - i;
      assert Backwards(v)[k] == Edge(v[i + 1], v[i], 0.0);
      assert !ExploredHop(Backwards(v), w, j);
    }
  }

  /** Paths of g between the two nodes, without repeated nodes and without explored links. */
  ghost predicate PathsAvoiding(g: Graph, ex: seq<Edge>, from: nat, to: nat, ws: seq<seq<nat>>) {
    forall q :: 0 <= q < |ws| ==> Joins(g, from, to, ws[q]) && Simple(ws[q]) && Avoids(ws[q], ex)
  }

  ghost predicate PairwiseDisjoint(ws: seq<seq<nat>>) {
    forall p, q :: 0 <= p < q < |ws| ==> LinkDisjoint(ws[p], ws[q])
  }

  lemma OneMorePath(g: Graph, ex: seq<Edge>, from: nat, to: nat, v: seq<nat>, rest: seq<seq<nat>>)
    requires Joins(g, from, to, v) && Simple(v) && Avoids(v, ex)
    requires PathsAvoiding(g, ex + Backwards(v), from, to, rest) && PairwiseDisjoint(rest)
    ensures PathsAvoiding(g, ex, from, to, [v] + rest) && PairwiseDisjoint([v] + rest)
  {
    forall q | 0 <= q < |rest| ensures Avoids(rest[q], ex) && LinkDisjoint(v, rest[q]) {
      AvoidsLess(rest[q], ex, Backwards(v));
      AvoidsBackwards(v, rest[q]);
    }
    OneMoreDisjoint(v, rest);
  }

  lemma OneMoreDisjoint(v: seq<nat>, rest: seq<seq<nat>>)
    requires PairwiseDisjoint(rest) && forall q :: 0 <= q < |rest| ==> LinkDisjoint(v, rest[q])
    ensures PairwiseDisjoint([v] + rest)
  {
    var ws := [v] + rest;
    forall p, q | 0 <= p < q < |ws| ensures LinkDisjoint(ws[p], ws[q]) {
      if p > 0 { assert ws[p] == rest[p - 1] && ws[q] == rest[q - 1]; }
    }
  }

  /** The paths found are paths of the original graph without repeated nodes, none uses a link explored
      before, no two of them share a link, and once all their links are removed the two nodes are
      disconnected. */
  lemma {:induction false} RoundsAreDisjointPaths(g: Graph, ex: seq<Edge>, from: nat, to: nat, ws: seq<seq<nat>>)
    requires Rounds(g, ex, from, to, ws)
    ensures PathsAvoiding(g, ex, from, to, ws) && PairwiseDisjoint(ws)
    ensures !Connected(Without(g, ex + AllBackwards(ws)), from, to)
    decreases |ws|
  {
    if |ws| == 0 {
      assert ex + AllBackwards(ws) == ex;
    } else {
      var v, rest := ws[0], ws[1..];
      WalkWithout(g, ex, from, to, v);
      RoundsAreDisjointPaths(g, ex + Backwards(v), from, to, rest);
      OneMorePath(g, ex, from, to, v, rest);
      assert [v] + rest == ws;
      assert (ex + Backwards(v)) + AllBackwards(rest) == ex + AllBackwards(ws);
    }
  }

  /** Each path found uses up a link that was left, so the links left shrink. */
  lemma LinksShrink(g: Graph, ex: seq<Edge>, from: nat, to: nat, w: seq<nat>)
    requires Joins(Without(g, ex), from, to, w) && from != to
    ensures Without(g, ex + Backwards(w)).wt.Keys < Without(g, ex).wt.Keys
  {
    var ex' := ex + Backwards(w);
    assert forall j :: 0 <= j < |ex| ==> ex'[j] == ex[j];
    var k := |w| - 2;
    assert Backwards(w)[k] == Edge(w[1], w[0], 0.0);
    assert ex'[|ex| + k] == Backwards(w)[k];
    assert Between(ex'[|ex| + k], w[0], w[1]);
    assert (w[0], w[1]) in Without(g, ex).wt.Keys;
    assert (w[0], w[1]) !in Without(g, ex').wt.Keys;
  }

  // The table of alternative paths

  type NextHops = map<int, int>
  type Alternatives = map<((int, int), int), NextHops>

  ghost predicate IsNextOf(m: NextHops, w: seq<nat>) {
    && (forall i :: 0 <= i < |w| - 1 ==> w[i] in m && m[w[i]] == w[i + 1])
    && forall x :: x in m ==> exists i :: 0 <= i < |w| - 1 && w[i] == x
  }

  /** The paths stored for the pair are exactly ws, numbered from 2, and for the opposite pair their
      reversals. */
  ghost predicate Stored(alt: Alternatives, from: int, to: int, first: int, ws: seq<seq<nat>>) {
    && (forall k :: k >= first ==> (((from, to), k) in alt <==> k < first + |ws|) &&
                                   (((to, from), k) in alt <==> k < first + |ws|))
    && forall q :: 0 <= q < |ws| ==>
         IsNextOf(alt[((from, to), first + q)], ws[q]) && IsNextOf(alt[((to, from), first + q)], Reverse(ws[q]))
  }

  ghost predicate NoneStored(alt: Alternatives, from: int, to: int, first: int) {
    Stored(alt, from, to, first, [])
  }

  /** after differs from before only in paths of the given pair numbered from first. */
  ghost predicate OnlyAdds(before: Alternatives, after: Alternatives, from: int, to: int, first: int) {
    forall x, y, k :: !((x, y) in {(from, to), (to, from)} && k >= first) ==> SameAt(before, after, ((x, y), k))
  }

  ghost predicate SameAt(before: Alternatives, after: Alternatives, key: ((int, int), int)) {
    (key in after <==> key in before) && (key in before ==> after[key] == before[key])
  }

  /** insert, which leaves an existing entry alone. */
  function Insert(alt: Alternatives, key: ((int, int), int), m: NextHops): Alternatives {
    if key in alt then alt else alt[key := m]
  }

  lemma StoreOne(alt: Alternatives, from: int, to: int, first: int, m: NextHops, m': NextHops)
    requires from != to && NoneStored(alt, from, to, first)
    ensures var a := Insert(Insert(alt, ((from, to), first), m), ((to, from), first), m');
      && NoneStored(a, from, to, first + 1) && OnlyAdds(alt, a, from, to, first)
      && ((from, to), first) in a && a[((from, to), first)] == m
      && ((to, from), first) in a && a[((to, from), first)] == m'
  {
  }

  lemma StoredCons(a: Alternatives, b: Alternatives, from: int, to: int, first: int, w: seq<nat>, rest: seq<seq<nat>>)
    requires ((from, to), first) in a && IsNextOf(a[((from, to), first)], w)
    requires ((to, from), first) in a && IsNextOf(a[((to, from), first)], Reverse(w))
    requires OnlyAdds(a, b, from, to, first + 1) && Stored(b, from, to, first + 1, rest)
    ensures Stored(b, from, to, first, [w] + rest)
  {
    assert SameAt(a, b, ((from, to), first)) && SameAt(a, b, ((to, from), first));
    var ws := [w] + rest;
    forall q | 0 <= q < |ws|
      ensures IsNextOf(b[((from, to), first + q)], ws[q]) && IsNextOf(b[((to, from), first + q)], Reverse(ws[q]))
    {
      if q > 0 {
        assert ws[q] == rest[q - 1];
        assert ((from, to), first + 1 + (q - 1)) in b && ((to, from), first + 1 + (q - 1)) in b;
      }
    }
  }

  lemma OnlyAddsTrans(a: Alternatives, b: Alternatives, c: Alternatives, from: int, to: int, first: int)
    requires OnlyAdds(a, b, from, to, first) && OnlyAdds(b, c, from, to, first + 1)
    ensures OnlyAdds(a, c, from, to, first)
  {
    forall x, y, k | !((x, y) in {(from, to), (to, from)} && k >= first) ensures SameAt(a, c, ((x, y), k)) {
      assert SameAt(a, b, ((x, y), k)) && SameAt(b, c, ((x, y), k));
    }
  }

  /** What getNext answers. */
  function NextIn(alt: Alternatives, from: int, to: int, current: int, k: int): int {
    if ((from, to), k) in alt && current in alt[((from, to), k)] then alt[((from, to), k)][current] else NIL
  }

  /** w goes on from x. */
  ghost predicate StepsFrom(w: seq<nat>, x: int) {
    exists i :: 0 <= i < |w| - 1 && w[i] == x
  }

  /** w comes to x from another node. */
  ghost predicate StepsTo(w: seq<nat>, x: int) {
    exists i :: 1 <= i < |w| && w[i] == x
  }

  /** getNext takes step i of w, and takes it back for the opposite pair. */
  ghost predicate TakesStep(alt: Alternatives, from: int, to: int, k: int, w: seq<nat>, i: int)
    requires 0 <= i < |w| - 1
  {
    NextIn(alt, from, to, w[i], k) == w[i + 1] && NextIn(alt, to, from, w[i + 1], k) == w[i]
  }

  /** getNext for path number k follows w, backwards for the opposite pair, and has no answer for any other node. */
  ghost predicate FollowsPath(alt: Alternatives, from: int, to: int, k: int, w: seq<nat>) {
    && (forall i :: 0 <= i < |w| - 1 ==> TakesStep(alt, from, to, k, w, i))
    && (forall x :: !StepsFrom(w, x) ==> NextIn(alt, from, to, x, k) == NIL)
    && (forall x :: !StepsTo(w, x) ==> NextIn(alt, to, from, x, k) == NIL)
  }

  /** Walking getNext from one end of a stored pair follows a stored path to the other end, in either
      direction; there is no answer for a node off the path, or for any number past the last path. */
  lemma GetNextFollowsPath(alt: Alternatives, from: int, to: int, first: int, ws: seq<seq<nat>>)
    requires Stored(alt, from, to, first, ws)
    ensures forall q :: 0 <= q < |ws| ==> FollowsPath(alt, from, to, first + q, ws[q])
    ensures forall x, k :: k >= first + |ws| ==>
              NextIn(alt, from, to, x, k) == NIL && NextIn(alt, to, from, x, k) == NIL
  {
    forall q | 0 <= q < |ws| ensures FollowsPath(alt, from, to, first + q, ws[q]) {
      var k := first + q;
      assert ((from, to), k) in alt && ((to, from), k) in alt;
      NextHopsFollow(alt, from, to, k, ws[q]);
    }
  }

  lemma NextHopsFollow(alt: Alternatives, from: int, to: int, k: int, w: seq<nat>)
    requires ((from, to), k) in alt && IsNextOf(alt[((from, to), k)], w)
    requires ((to, from), k) in alt && IsNextOf(alt[((to, from), k)], Reverse(w))
    ensures FollowsPath(alt, from, to, k, w)
  {
    forall i | 0 <= i < |w| - 1 ensures TakesStep(alt, from, to, k, w, i) {
      var j := |w| - 2 - i;
      assert Reverse(w)[j] == w[i + 1] && Reverse(w)[j + 1] == w[i];
    }
    forall x | !StepsTo(w, x) ensures NextIn(alt, to, from, x, k) == NIL {
      if x in alt[((to, from), k)] { ComesBackFrom(alt[((to, from), k)], w, x); }
    }
  }

  /** The way back goes on only from where the way there came to. */
  lemma ComesBackFrom(m: NextHops, w: seq<nat>, x: int)
    requires IsNextOf(m, Reverse(w)) && x in m
    ensures StepsTo(w, x)
  {
    var i :| 0 <= i < |Reverse(w)| - 1 && Reverse(w)[i] == x;
    assert w[|w| - 1 - i] == x;
  }
}
