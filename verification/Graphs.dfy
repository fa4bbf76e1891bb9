/** Weighted undirected graphs over the node ids 0..n-1, walks in them, and what it means for one
    row of a predecessor table to be a shortest-path tree. */
module Graphs {

  /** A path length, or the length of a path that does not exist. */
  datatype Dist = Fin(v: real) | Inf

  predicate Less(a: Dist, b: Dist) {
    a.Fin? && (b.Inf? || a.v < b.v)
  }

  function Plus(a: Dist, len: real): Dist {
    if a.Inf? then Inf else Fin(a.v + len)
  }

  type Links = map<(nat, nat), real>

  datatype Graph = Graph(n: nat, wt: Links)

  /** Every link has its endpoints in the graph, a nonnegative length, and exists in both directions. */
  ghost predicate Valid(g: Graph) {
    forall u: nat, v: nat :: (u, v) in g.wt ==>
      u < g.n && v < g.n && g.wt[(u, v)] >= 0.0 && (v, u) in g.wt && g.wt[(v, u)] == g.wt[(u, v)]
  }

  /** Every link has its endpoints in the graph, and exists in both directions. */
  ghost predicate Symmetric(g: Graph) {
    forall u: nat, v: nat :: (u, v) in g.wt ==>
      u < g.n && v < g.n && (v, u) in g.wt && g.wt[(v, u)] == g.wt[(u, v)]
  }

  /** All links between two distinct nodes have positive length. */
  ghost predicate Positive(g: Graph) {
    forall u: nat, v: nat :: (u, v) in g.wt && u != v ==> g.wt[(u, v)] > 0.0
  }

  ghost predicate IsWalk(g: Graph, w: seq<nat>) {
    && |w| > 0
    && (forall i :: 0 <= i < |w| ==> w[i] < g.n)
    && forall i :: 0 <= i < |w| - 1 ==> (w[i], w[i + 1]) in g.wt
  }

  ghost predicate Joins(g: Graph, x: nat, y: nat, w: seq<nat>) {
    IsWalk(g, w) && w[0] == x && w[|w| - 1] == y
  }

  ghost predicate Connected(g: Graph, x: nat, y: nat) {
    exists w :: Joins(g, x, y, w)
  }

  ghost function Len(g: Graph, w: seq<nat>): real
    requires IsWalk(g, w)
  {
    if |w| == 1 then 0.0
    else Len(g, w[..|w| - 1]) + g.wt[(w[|w| - 2], w[|w| - 1])]
  }

  ghost predicate IsShortest(g: Graph, x: nat, y: nat, w: seq<nat>) {
    Joins(g, x, y, w) && forall u :: Joins(g, x, y, u) ==> Len(g, w) <= Len(g, u)
  }

  /** d is the length of a shortest walk from x to y, or infinity when there is none. */
  ghost predicate IsDistance(g: Graph, x: nat, y: nat, d: Dist) {
    match d
    case Inf => !Connected(g, x, y)
    case Fin(v) => exists w :: IsShortest(g, x, y, w) && Len(g, w) == v
  }

  lemma DistanceUnique(g: Graph, x: nat, y: nat, d: Dist, e: Dist)
    requires IsDistance(g, x, y, d) && IsDistance(g, x, y, e)
    ensures d == e
  {
  }

  lemma {:induction false} LenNonneg(g: Graph, w: seq<nat>)
    requires Valid(g) && IsWalk(g, w)
    ensures Len(g, w) >= 0.0
  {
    if |w| > 1 { LenNonneg(g, w[..|w| - 1]); }
  }

  lemma {:induction false} LenConcat(g: Graph, a: seq<nat>, b: seq<nat>)
    requires IsWalk(g, a) && IsWalk(g, b) && a[|a| - 1] == b[0]
    ensures IsWalk(g, a + b[1..]) && Len(g, a + b[1..]) == Len(g, a) + Len(g, b)
    decreases |b|
  {
    var c := a + b[1..];
    forall i | 0 <= i < |c| - 1 ensures (c[i], c[i + 1]) in g.wt {
      if i >= |a| - 1 { assert c[i] == b[i - |a| + 1] && c[i + 1] == b[i - |a| + 2]; }
    }
    if |b| == 1 {
      assert c == a;
    } else {
      var b' := b[..|b| - 1];
      LenConcat(g, a, b');
      assert c[..|c| - 1] == a + b'[1..];
    }
  }

  lemma LenCons(g: Graph, x: nat, v: seq<nat>)
    requires IsWalk(g, v) && x < g.n && (x, v[0]) in g.wt
    ensures IsWalk(g, [x] + v) && Len(g, [x] + v) == g.wt[(x, v[0])] + Len(g, v)
  {
    var hop := [x, v[0]];
    assert hop[..1] == [x];
    LenConcat(g, hop, v);
    assert hop + v[1..] == [x] + v;
  }

  function Reverse(w: seq<nat>): (r: seq<nat>)
    ensures |r| == |w| && forall i :: 0 <= i < |w| ==> r[i] == w[|w| - 1 - i]
  {
    if |w| == 0 then [] else [w[|w| - 1]] + Reverse(w[..|w| - 1])
  }

  /** A link is as long in one direction as in the other, and so is a walk. */
  lemma {:induction false} LenReverse(g: Graph, w: seq<nat>)
    requires Valid(g) && IsWalk(g, w)
    ensures IsWalk(g, Reverse(w)) && Len(g, Reverse(w)) == Len(g, w)
  {
    if |w| == 1 {
      assert Reverse(w) == w;
    } else {
      var w', x := w[..|w| - 1], w[|w| - 1];
      LenReverse(g, w');
      assert Reverse(w')[0] == w[|w| - 2] && Reverse(w) == [x] + Reverse(w');
      LenCons(g, x, Reverse(w'));
    }
  }

  lemma ShortestReverse(g: Graph, x: nat, y: nat, w: seq<nat>)
    requires Valid(g) && IsShortest(g, x, y, w)
    ensures IsShortest(g, y, x, Reverse(w)) && Len(g, Reverse(w)) == Len(g, w)
  {
    LenReverse(g, w);
    forall u | Joins(g, y, x, u) ensures Len(g, Reverse(w)) <= Len(g, u) {
      LenReverse(g, u);
      assert Joins(g, x, y, Reverse(u));
    }
  }

  lemma DistanceSymmetric(g: Graph, x: nat, y: nat, d: Dist)
    requires Valid(g) && IsDistance(g, x, y, d)
    ensures IsDistance(g, y, x, d)
  {
    if d.Fin? {
      var w :| IsShortest(g, x, y, w) && Len(g, w) == d.v;
      ShortestReverse(g, x, y, w);
    } else {
      forall w | Joins(g, y, x, w) ensures false {
        LenReverse(g, w);
        assert Joins(g, x, y, Reverse(w));
      }
    }
  }
}
