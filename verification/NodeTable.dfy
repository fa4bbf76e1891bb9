/** The table of node descriptors built from the user's edges: sequential ids for the process ids,
    and one adjacency list per node in which the first link to a neighbour wins. */
module NodeTable {
  import opened Graphs

  datatype Edge = Edge(from: int, to: int, len: real)

  datatype Adj = Adj(nid: nat, len: real)

  /** What a table stands for: the process ids in order of their node ids, and the links. */
  datatype Table = Table(pids: seq<int>, wt: Links) {
    function ToGraph(): Graph { Graph(|pids|, wt) }
  }

  function AddPid(pids: seq<int>, p: int): seq<int> {
    if p in pids then pids else pids + [p]
  }

  ghost function Index(pids: seq<int>, p: int): (i: nat)
    requires p in pids
    ensures i < |pids| && pids[i] == p
  {
    var i :| 0 <= i < |pids| && pids[i] == p; i
  }

  ghost predicate Distinct(pids: seq<int>) {
    forall i, j :: 0 <= i < j < |pids| ==> pids[i] != pids[j]
  }

  ghost function WithEdge(t: Table, e: Edge): Table {
    var pids := AddPid(AddPid(t.pids, e.from), e.to);
    var u, v := Index(pids, e.from), Index(pids, e.to);
    Table(pids, if (u, v) in t.wt then t.wt else t.wt[(u, v) := e.len][(v, u) := e.len])
  }

  /** The table that the edges es build. */
  ghost function Build(es: seq<Edge>): Table {
    if |es| == 0 then Table([], map[]) else WithEdge(Build(es[..|es| - 1]), es[|es| - 1])
  }

  predicate Between(e: Edge, p: int, q: int) {
    (e.from == p && e.to == q) || (e.from == q && e.to == p)
  }

  ghost predicate Nonnegative(es: seq<Edge>) {
    forall e :: e in es ==> e.len >= 0.0
  }

  /** Edge k is the first one given between p and q. */
  ghost predicate FirstBetween(es: seq<Edge>, k: int, p: int, q: int) {
    0 <= k < |es| && Between(es[k], p, q) && forall i :: 0 <= i < k ==> !Between(es[i], p, q)
  }

  lemma IndexUnique(pids: seq<int>, i: nat)
    requires Distinct(pids) && i < |pids|
    ensures Index(pids, pids[i]) == i
  {
  }

  ghost predicate Occurs(es: seq<Edge>, p: int) {
    exists e :: e in es && (p == e.from || p == e.to)
  }

  ghost predicate HasFirst(es: seq<Edge>, p: int, q: int) {
    exists k :: FirstBetween(es, k, p, q)
  }

  /** The links of t are exactly those of the first edges, with their lengths. */
  ghost predicate LinksAreFirst(es: seq<Edge>, t: Table) {
    forall u: nat, v: nat :: u < |t.pids| && v < |t.pids| ==> LinkIsFirst(es, t, u, v)
  }

  ghost predicate LinkIsFirst(es: seq<Edge>, t: Table, u: nat, v: nat)
    requires u < |t.pids| && v < |t.pids|
  {
    && ((u, v) in t.wt <==> HasFirst(es, t.pids[u], t.pids[v]))
    && forall k :: FirstBetween(es, k, t.pids[u], t.pids[v]) ==> (u, v) in t.wt && t.wt[(u, v)] == es[k].len
  }

  ghost predicate IsTable(t: Table) {
    Distinct(t.pids) && Symmetric(t.ToGraph())
  }

  lemma AddPidKeeps(pids: seq<int>, p: int)
    requires Distinct(pids)
    ensures Distinct(AddPid(pids, p)) && p in AddPid(pids, p) && pids <= AddPid(pids, p)
    ensures forall q :: q in AddPid(pids, p) <==> q in pids || q == p
  {
  }

  /** One more edge links its two ends, unless they were linked, and changes no other link. */
  lemma AddEdgeKeeps(s: Table, e: Edge)
    requires IsTable(s)
    ensures var t := WithEdge(s, e);
      && IsTable(t) && s.pids <= t.pids
      && (forall p :: p in t.pids <==> p in s.pids || p == e.from || p == e.to)
      && forall u: nat, v: nat :: u < |t.pids| && v < |t.pids| ==>
           ((u, v) in t.wt <==> (u, v) in s.wt || Between(e, t.pids[u], t.pids[v])) &&
           ((u, v) in t.wt ==> t.wt[(u, v)] == if (u, v) in s.wt then s.wt[(u, v)] else e.len)
  {
    AddPidKeeps(s.pids, e.from);
    AddPidKeeps(AddPid(s.pids, e.from), e.to);
    var pids := AddPid(AddPid(s.pids, e.from), e.to);
    forall u: nat | u < |pids| ensures Index(pids, pids[u]) == u { IndexUnique(pids, u); }
    assert forall u: nat, v: nat :: (u, v) in s.wt ==> u < |s.pids| && v < |s.pids|;
  }

  lemma {:induction false} BuildIsGraph(es: seq<Edge>)
    ensures IsTable(Build(es))
    ensures forall p :: p in Build(es).pids <==> Occurs(es, p)
  {
    if |es| > 0 {
      var es', e := es[..|es| - 1], es[|es| - 1];
      assert es == es' + [e];
      BuildIsGraph(es');
      AddEdgeKeeps(Build(es'), e);
      OccursAppend(es', e);
    }
  }

  lemma OccursAppend(es: seq<Edge>, e: Edge)
    ensures forall p :: Occurs(es + [e], p) <==> Occurs(es, p) || p == e.from || p == e.to
  {
    forall p ensures Occurs(es + [e], p) <==> Occurs(es, p) || p == e.from || p == e.to {
      assert forall x :: x in es + [e] <==> x in es || x == e;
    }
  }

  /** The table is a graph on exactly the process ids that occur, and any two of them are linked by
      the first edge given between them, whichever way round it was given. */
  lemma {:induction false} BuildIsFirstLinkGraph(es: seq<Edge>)
    ensures IsTable(Build(es))
    ensures forall p :: p in Build(es).pids <==> Occurs(es, p)
    ensures LinksAreFirst(es, Build(es))
  {
    BuildIsGraph(es);
    if |es| > 0 {
      var es', e := es[..|es| - 1], es[|es| - 1];
      assert es == es' + [e];
      BuildIsFirstLinkGraph(es');
      FirstLinkStep(es', Build(es'), e);
    }
  }

  lemma FirstLinkStep(es: seq<Edge>, s: Table, e: Edge)
    requires IsTable(s) && LinksAreFirst(es, s)
    requires forall p :: p in s.pids <==> Occurs(es, p)
    ensures LinksAreFirst(es + [e], WithEdge(s, e))
  {
    AddEdgeKeeps(s, e);
    var t := WithEdge(s, e);
    forall u: nat, v: nat | u < |t.pids| && v < |t.pids| ensures LinkIsFirst(es + [e], t, u, v) {
      if u < |s.pids| && v < |s.pids| {
        assert LinkIsFirst(es, s, u, v);
      } else {
        NewNodeHasNoEdge(es, s, t.pids[u], t.pids[v]);
      }
      FirstLinkStepAt(es, s, t, e, u, v);
    }
  }

  /** Without negative lengths among the edges there is none in the graph. */
  lemma BuildIsValid(es: seq<Edge>)
    requires Nonnegative(es)
    ensures Valid(Build(es).ToGraph())
  {
    BuildIsFirstLinkGraph(es);
    var t := Build(es);
    forall u: nat, v: nat | (u, v) in t.wt ensures t.wt[(u, v)] >= 0.0 {
      assert LinkIsFirst(es, t, u, v);
      var k :| FirstBetween(es, k, t.pids[u], t.pids[v]);
      assert es[k] in es;
    }
  }

  lemma FirstLinkStepAt(es: seq<Edge>, s: Table, t: Table, e: Edge, u: nat, v: nat)
    requires u < |t.pids| && v < |t.pids|
    requires (u, v) in s.wt <==> HasFirst(es, t.pids[u], t.pids[v])
    requires forall k :: FirstBetween(es, k, t.pids[u], t.pids[v]) ==> (u, v) in s.wt && s.wt[(u, v)] == es[k].len
    requires (u, v) in t.wt <==> (u, v) in s.wt || Between(e, t.pids[u], t.pids[v])
    requires (u, v) in t.wt ==> t.wt[(u, v)] == if (u, v) in s.wt then s.wt[(u, v)] else e.len
    ensures LinkIsFirst(es + [e], t, u, v)
  {
    FirstAfterAppend(es, e, t.pids[u], t.pids[v]);
    if (u, v) in s.wt {
      var k :| FirstBetween(es, k, t.pids[u], t.pids[v]);
      assert FirstBetween(es + [e], k, t.pids[u], t.pids[v]);
    } else if (u, v) in t.wt {
      assert FirstBetween(es + [e], |es|, t.pids[u], t.pids[v]);
    }
  }

  lemma NewNodeHasNoEdge(es: seq<Edge>, s: Table, p: int, q: int)
    requires forall p :: p in s.pids <==> Occurs(es, p)
    requires p !in s.pids || q !in s.pids
    ensures !HasFirst(es, p, q)
  {
    if HasFirst(es, p, q) {
      var k :| FirstBetween(es, k, p, q);
      assert es[k] in es;
      assert Occurs(es, p) && Occurs(es, q);
    }
  }

  /** Appending an edge makes it the first one between its ends if there was none before. */
  lemma FirstAfterAppend(es: seq<Edge>, e: Edge, p: int, q: int)
    ensures forall k :: FirstBetween(es + [e], k, p, q) <==>
              if HasFirst(es, p, q) then FirstBetween(es, k, p, q) else k == |es| && Between(e, p, q)
  {
    var es' := es + [e];
    forall k | 0 <= k < |es| ensures FirstBetween(es', k, p, q) <==> FirstBetween(es, k, p, q) {
      assert es'[..k] == es[..k];
      assert forall i :: 0 <= i <= k ==> es'[i] == es[i];
    }
    if HasFirst(es, p, q) {
      var j :| FirstBetween(es, j, p, q);
      assert FirstBetween(es', j, p, q);
    } else {
      forall i | 0 <= i < |es| ensures !Between(es[i], p, q) {
        if Between(es[i], p, q) { var k := FirstOf(es, i, p, q); }
      }
    }
  }

  lemma FirstOf(es: seq<Edge>, i: nat, p: int, q: int) returns (k: nat)
    requires i < |es| && Between(es[i], p, q)
    ensures FirstBetween(es, k, p, q)
  {
    k := 0;
    while !Between(es[k], p, q)
      invariant k <= i
      invariant forall j :: 0 <= j < k ==> !Between(es[j], p, q)
      decreases i - k
    {
      k := k + 1;
    }
  }

  predicate HasAdj(row: seq<Adj>, v: nat) {
    exists k :: 0 <= k < |row| && row[k].nid == v
  }

  function PushAdj(row: seq<Adj>, v: nat, len: real): seq<Adj> {
    if HasAdj(row, v) then row else [Adj(v, len)] + row
  }

  /** The adjacency lists hold exactly the links wt. */
  ghost predicate Represents(adj: seq<seq<Adj>>, wt: Links) {
    && (forall u, k :: 0 <= u < |adj| && 0 <= k < |adj[u]| ==>
          (u, adj[u][k].nid) in wt && wt[(u, adj[u][k].nid)] == adj[u][k].len)
    && forall u: nat, v: nat :: (u, v) in wt ==> u < |adj| && HasAdj(adj[u], v)
  }

  lemma PushRepresents(row: seq<Adj>, v: nat, len: real)
    ensures var r := PushAdj(row, v, len);
      && HasAdj(r, v)
      && (forall x: nat :: HasAdj(r, x) <==> HasAdj(row, x) || x == v)
      && forall k :: 0 <= k < |r| ==> r[k] in row || (r[k] == Adj(v, len) && !HasAdj(row, v))
  {
    if !HasAdj(row, v) {
      var r := PushAdj(row, v, len);
      assert r[0].nid == v;
      forall x: nat | HasAdj(row, x) ensures HasAdj(r, x) {
        var k :| 0 <= k < |row| && row[k].nid == x;
        assert r[k + 1].nid == x;
      }
    }
  }

  lemma PushBothRepresents(adj: seq<seq<Adj>>, t: Table, u: nat, v: nat, len: real)
    requires Represents(adj, t.wt) && |adj| == |t.pids| && Symmetric(t.ToGraph()) && u < |adj| && v < |adj|
    ensures var a := adj[u := PushAdj(adj[u], v, len)];
      Represents(a[v := PushAdj(a[v], u, len)],
                 if (u, v) in t.wt then t.wt else t.wt[(u, v) := len][(v, u) := len])
  {
    if (u, v) in t.wt {
      assert HasAdj(adj[u], v) && (v, u) in t.wt && HasAdj(adj[v], u);
      var a := adj[u := PushAdj(adj[u], v, len)];
      assert a == adj && a[v := PushAdj(a[v], u, len)] == adj;
    } else {
      var wt := t.wt[(u, v) := len][(v, u) := len];
      var a := adj[u := PushAdj(adj[u], v, len)];
      var b: seq<seq<Adj>> := a[v := PushAdj(a[v], u, len)];
      PushRepresents(adj[u], v, len);
      PushRepresents(a[v], u, len);
      forall x: int, k: int | 0 <= x < |b| && 0 <= k < |b[x]|
        ensures (x, b[x][k].nid) in wt && wt[(x, b[x][k].nid)] == b[x][k].len
      {
        if b[x][k] in adj[x] {
          var j :| 0 <= j < |adj[x]| && adj[x][j] == b[x][k];
          assert (x, adj[x][j].nid) in t.wt;
        }
      }
      forall x: nat, y: nat | (x, y) in wt ensures x < |b| && HasAdj(b[x], y) {
        if (x, y) in t.wt {
          assert HasAdj(adj[x], y);
        }
      }
    }
  }

  /** The source's node table. */
  class NTable {
    var pids: seq<int>              // process id of each node
    var adj: seq<seq<Adj>>          // adjacency list of each node, newest link first
    var reverseMap: map<int, nat>
    const heapPos: array<int>       // heap position of each node descriptor
    ghost var wt: Links

    ghost predicate Valid()
      reads this
    {
      && |adj| == |pids| <= heapPos.Length
      && IsTable(Abs())
      && Represents(adj, wt)
      && (forall p :: p in reverseMap <==> p in pids)
      && forall p :: p in reverseMap ==> reverseMap[p] < |pids| && pids[reverseMap[p]] == p
    }

    ghost function Abs(): Table
      reads this
    {
      Table(pids, wt)
    }

    constructor (s: nat)
      ensures Valid() && Abs() == Build([])
      ensures fresh(heapPos) && heapPos.Length == s && forall i :: 0 <= i < s ==> heapPos[i] == -1
    {
      pids, adj, reverseMap, wt := [], [], map[], map[];
      heapPos := new int[s](_ => -1);
    }

    method AddNode(p: int) returns (nid: nat)
      requires Valid() && (p !in pids ==> |pids| < heapPos.Length)
      modifies this
      ensures Valid() && wt == old(wt) && pids == AddPid(old(pids), p)
      ensures p in pids && nid == Index(pids, p)
    {
      if p !in reverseMap {
        reverseMap := reverseMap[p := |pids|];
        pids, adj := pids + [p], adj + [[]];
      }
      nid := reverseMap[p];
    }

    method AddAdj(u: nat, v: nat, len: real)
      requires u < |adj|
      modifies this`adj
      ensures adj == old(adj)[u := PushAdj(old(adj[u]), v, len)]
    {
      var k := 0;
      while k < |adj[u]|
        invariant 0 <= k <= |adj[u]|
        invariant forall j :: 0 <= j < k ==> adj[u][j].nid != v
      {
        if adj[u][k].nid == v { return; }
        k := k + 1;
      }
      adj := adj[u := [Adj(v, len)] + adj[u]];
    }

    /** Link two nodes both ways. */
    method LinkNodes(u: nat, v: nat, len: real)
      requires Valid() && u < |pids| && v < |pids|
      modifies this`adj, this`wt
      ensures Valid()
      ensures wt == if (u, v) in old(wt) then old(wt) else old(wt)[(u, v) := len][(v, u) := len]
    {
      PushBothRepresents(adj, Abs(), u, v, len);
      AddAdj(u, v, len);
      AddAdj(v, u, len);
      wt := if (u, v) in wt then wt else wt[(u, v) := len][(v, u) := len];
    }

    method AddEdge(e: Edge)
      requires Valid() && |WithEdge(Abs(), e).pids| <= heapPos.Length
      modifies this
      ensures Valid() && Abs() == WithEdge(old(Abs()), e)
    {
      AddEdgeKeeps(Abs(), e);
      var u := AddNode(e.from);
      var v := AddNode(e.to);
      IndexUnique(pids, u);
      LinkNodes(u, v, e.len);
    }
  }
}
