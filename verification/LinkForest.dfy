/** Links between nodes, the components they form, forests, and why a forest that takes each link in
    order of length whenever it joins two components is a shortest one. */
module LinkForest {
  import opened Collections

  datatype Link = Link(a: int, b: int, len: int)

  type Labels = map<int, int>

  predicate Ends(e: Link, x: int, y: int) {
    (e.a == x && e.b == y) || (e.a == y && e.b == x)
  }

  ghost predicate Adjacent(es: seq<Link>, x: int, y: int) {
    exists e :: e in es && Ends(e, x, y)
  }

  ghost predicate IsRoute(es: seq<Link>, w: seq<int>) {
    |w| > 0 && forall i :: 0 <= i < |w| - 1 ==> Adjacent(es, w[i], w[i + 1])
  }

  ghost predicate Route(es: seq<Link>, x: int, y: int, w: seq<int>) {
    IsRoute(es, w) && w[0] == x && w[|w| - 1] == y
  }

  /** The links es join x and y. */
  ghost predicate Joined(es: seq<Link>, x: int, y: int) {
    exists w :: Route(es, x, y, w)
  }

  function Without(es: seq<Link>, k: nat): seq<Link>
    requires k < |es|
  {
    es[..k] + es[k + 1..]
  }

  /** No link joins nodes that the other links already join. */
  ghost predicate IsForest(es: seq<Link>) {
    forall k :: 0 <= k < |es| ==> !Joined(Without(es, k), es[k].a, es[k].b)
  }

  ghost predicate Within(es: seq<Link>, nodes: set<int>) {
    forall e :: e in es ==> e.a in nodes && e.b in nodes
  }

  lemma JoinedRefl(es: seq<Link>, x: int)
    ensures Joined(es, x, x)
  {
    assert Route(es, x, x, [x]);
  }

  lemma JoinedStep(es: seq<Link>, x: int, y: int, z: int)
    requires Joined(es, x, y) && Adjacent(es, y, z)
    ensures Joined(es, x, z)
  {
    var w :| Route(es, x, y, w);
    assert Route(es, x, z, w + [z]);
  }

  lemma {:induction false} JoinedTransAlong(es: seq<Link>, x: int, y: int, z: int, w: seq<int>)
    requires Joined(es, x, y) && Route(es, y, z, w)
    ensures Joined(es, x, z)
    decreases |w|
  {
    if |w| > 1 {
      var v := w[..|w| - 1];
      forall i | 0 <= i < |v| - 1 ensures Adjacent(es, v[i], v[i + 1]) { assert Adjacent(es, w[i], w[i + 1]); }
      JoinedTransAlong(es, x, y, w[|w| - 2], v);
      assert Adjacent(es, w[|w| - 2], w[|w| - 2 + 1]);
      JoinedStep(es, x, w[|w| - 2], z);
    }
  }

  lemma JoinedTrans(es: seq<Link>, x: int, y: int, z: int)
    requires Joined(es, x, y) && Joined(es, y, z)
    ensures Joined(es, x, z)
  {
    var w :| Route(es, y, z, w);
    JoinedTransAlong(es, x, y, z, w);
  }

  lemma {:induction false} JoinedSymAlong(es: seq<Link>, x: int, y: int, w: seq<int>)
    requires Route(es, x, y, w)
    ensures Joined(es, y, x)
    decreases |w|
  {
    JoinedRefl(es, x);
    if |w| > 1 {
      assert Adjacent(es, w[0], w[0 + 1]);
      var v := w[1..];
      forall i | 0 <= i < |v| - 1 ensures Adjacent(es, v[i], v[i + 1]) { assert Adjacent(es, w[i + 1], w[i + 1 + 1]); }
      JoinedSymAlong(es, w[1], y, v);
      JoinedStep(es, y, w[1], x);
    }
  }

  lemma JoinedSym(es: seq<Link>, x: int, y: int)
    requires Joined(es, x, y)
    ensures Joined(es, y, x)
  {
    var w :| Route(es, x, y, w);
    JoinedSymAlong(es, x, y, w);
  }

  lemma JoinedMono(es: seq<Link>, fs: seq<Link>, x: int, y: int)
    requires Joined(es, x, y) && forall e :: e in es ==> e in fs
    ensures Joined(fs, x, y)
  {
    var w :| Route(es, x, y, w);
    forall i | 0 <= i < |w| - 1 ensures Adjacent(fs, w[i], w[i + 1]) { assert Adjacent(es, w[i], w[i + 1]); }
    assert Route(fs, x, y, w);
  }

  // Component labels

  /** Relabel the component of b with the label of a. */
  function Merge(lab: Labels, a: int, b: int): (r: Labels)
    requires a in lab && b in lab
    ensures r.Keys == lab.Keys
  {
    map n | n in lab :: if lab[n] == lab[b] then lab[a] else lab[n]
  }

  /** Every node its own component, then one relabelling per link. */
  function LabelsOf(nodes: set<int>, es: seq<Link>): (r: Labels)
    requires Within(es, nodes)
    ensures r.Keys == nodes
  {
    if |es| == 0 then map n | n in nodes :: n
    else Merge(LabelsOf(nodes, es[..|es| - 1]), es[|es| - 1].a, es[|es| - 1].b)
  }

  lemma {:induction false} LinkedSameLabel(nodes: set<int>, es: seq<Link>, k: nat)
    requires Within(es, nodes) && k < |es|
    ensures LabelsOf(nodes, es)[es[k].a] == LabelsOf(nodes, es)[es[k].b]
  {
    if k < |es| - 1 {
      LinkedSameLabel(nodes, es[..|es| - 1], k);
    }
  }

  lemma {:induction false} RouteSameLabel(nodes: set<int>, es: seq<Link>, w: seq<int>)
    requires Within(es, nodes) && IsRoute(es, w) && w[0] in nodes
    ensures w[|w| - 1] in nodes && LabelsOf(nodes, es)[w[0]] == LabelsOf(nodes, es)[w[|w| - 1]]
    decreases |w|
  {
    if |w| > 1 {
      var v := w[..|w| - 1];
      forall i | 0 <= i < |v| - 1 ensures Adjacent(es, v[i], v[i + 1]) { assert Adjacent(es, w[i], w[i + 1]); }
      RouteSameLabel(nodes, es, v);
      assert Adjacent(es, w[|w| - 2], w[|w| - 2 + 1]);
      var e :| e in es && Ends(e, w[|w| - 2], w[|w| - 1]);
      var k :| 0 <= k < |es| && es[k] == e;
      LinkedSameLabel(nodes, es, k);
    }
  }

  lemma {:induction false} SameLabelJoined(nodes: set<int>, es: seq<Link>, x: int, y: int)
    requires Within(es, nodes) && x in nodes && y in nodes
    requires LabelsOf(nodes, es)[x] == LabelsOf(nodes, es)[y]
    ensures Joined(es, x, y)
    decreases |es|
  {
    if |es| == 0 {
      JoinedRefl(es, x);
    } else {
      var fs, e := es[..|es| - 1], es[|es| - 1];
      var lab := LabelsOf(nodes, fs);
      if lab[x] == lab[y] {
        SameLabelJoined(nodes, fs, x, y);
        JoinedMono(fs, es, x, y);
      } else {
        var p, q := if lab[x] == lab[e.b] then y else x, if lab[x] == lab[e.b] then x else y;
        AcrossLink(nodes, es, p, q);
        if p == y { JoinedSym(es, y, x); }
      }
    }
  }

  /** The last link joins p, in the component of its a, to q, in the component of its b. */
  lemma {:induction false} AcrossLink(nodes: set<int>, es: seq<Link>, p: int, q: int)
    requires Within(es, nodes) && |es| > 0 && p in nodes && q in nodes
    requires var lab, e := LabelsOf(nodes, es[..|es| - 1]), es[|es| - 1]; lab[p] == lab[e.a] && lab[q] == lab[e.b]
    ensures Joined(es, p, q)
    decreases |es|, 0
  {
    var fs, e := es[..|es| - 1], es[|es| - 1];
    SameLabelJoined(nodes, fs, p, e.a);
    SameLabelJoined(nodes, fs, e.b, q);
    JoinedMono(fs, es, p, e.a);
    JoinedMono(fs, es, e.b, q);
    assert Ends(es[|es| - 1], e.a, e.b);
    JoinedStep(es, p, e.a, e.b);
    JoinedTrans(es, p, e.b, q);
  }

  /** Two nodes have the same label exactly if the links join them. */
  lemma LabelsAreComponents(nodes: set<int>, es: seq<Link>, x: int, y: int)
    requires Within(es, nodes) && x in nodes && y in nodes
    ensures LabelsOf(nodes, es)[x] == LabelsOf(nodes, es)[y] <==> Joined(es, x, y)
  {
    if Joined(es, x, y) {
      var w :| Route(es, x, y, w);
      RouteSameLabel(nodes, es, w);
    }
    if LabelsOf(nodes, es)[x] == LabelsOf(nodes, es)[y] {
      SameLabelJoined(nodes, es, x, y);
    }
  }

  // Counting components

  ghost function Components(nodes: set<int>, es: seq<Link>): nat
    requires Within(es, nodes)
  {
    |LabelsOf(nodes, es).Values|
  }

  lemma MergeValues(lab: Labels, a: int, b: int)
    requires a in lab && b in lab
    ensures lab[a] == lab[b] ==> Merge(lab, a, b) == lab
    ensures lab[a] != lab[b] ==> |Merge(lab, a, b).Values| == |lab.Values| - 1
  {
    var r := Merge(lab, a, b);
    if lab[a] == lab[b] {
      assert r == lab;
    } else {
      forall v | v in lab.Values - {lab[b]} ensures v in r.Values {
        var n := KeyFor(lab, v);
        assert r[n] == v;
      }
      assert r.Values == lab.Values - {lab[b]};
    }
  }

  lemma StartValues(nodes: set<int>)
    ensures LabelsOf(nodes, []).Values == nodes
  {
    var lab := LabelsOf(nodes, []);
    forall n | n in nodes ensures n in lab.Values { assert lab[n] == n; }
  }

  /** Each link merges at most two components. */
  lemma {:induction false} ComponentsAtLeast(nodes: set<int>, es: seq<Link>)
    requires Within(es, nodes)
    ensures Components(nodes, es) >= |nodes| - |es|
    decreases |es|
  {
    if |es| == 0 {
      StartValues(nodes);
    } else {
      var k := |es| - 1;
      ComponentsAtLeast(nodes, es[..k]);
      MergeValues(LabelsOf(nodes, es[..k]), es[k].a, es[k].b);
    }
  }

  lemma PrefixForest(es: seq<Link>)
    requires IsForest(es) && |es| > 0
    ensures var k := |es| - 1; IsForest(es[..k]) && !Joined(es[..k], es[k].a, es[k].b)
  {
    var k := |es| - 1;
    assert Without(es, k) == es[..k];
    forall j | 0 <= j < k ensures !Joined(Without(es[..k], j), es[j].a, es[j].b) {
      if Joined(Without(es[..k], j), es[j].a, es[j].b) {
        assert forall e :: e in Without(es[..k], j) ==> e in Without(es, j);
        JoinedMono(Without(es[..k], j), Without(es, j), es[j].a, es[j].b);
      }
    }
  }

  /** In a forest each link merges two components. */
  lemma {:induction false} ForestComponents(nodes: set<int>, es: seq<Link>)
    requires Within(es, nodes) && IsForest(es)
    ensures Components(nodes, es) == |nodes| - |es|
    decreases |es|
  {
    if |es| == 0 {
      StartValues(nodes);
    } else {
      var k := |es| - 1;
      PrefixForest(es);
      ForestComponents(nodes, es[..k]);
      LabelsAreComponents(nodes, es[..k], es[k].a, es[k].b);
      MergeValues(LabelsOf(nodes, es[..k]), es[k].a, es[k].b);
    }
  }

  lemma {:induction false} ImageSmaller(s: set<int>, f: int -> int)
    ensures |set v | v in s :: f(v)| <= |s|
  {
    if s != {} {
      var x := Pick(s);
      var t := s - {x};
      ImageSmaller(t, f);
      var img, img' := set v | v in s :: f(v), set v | v in t :: f(v);
      assert img == img' + {f(x)};
    }
  }

  /** Joining more leaves fewer components. */
  lemma CoarserIsFewer(fine: Labels, coarse: Labels)
    requires fine.Keys == coarse.Keys
    requires forall x, y :: x in fine && y in fine && fine[x] == fine[y] ==> coarse[x] == coarse[y]
    ensures |coarse.Values| <= |fine.Values|
  {
    var f: int -> int := v =>
      if exists x :: x in fine && fine[x] == v then (var x :| x in fine && fine[x] == v; coarse[x]) else 0;
    ImageSmaller(fine.Values, f);
    var img := set v | v in fine.Values :: f(v);
    forall c | c in coarse.Values ensures c in img {
      var x := KeyFor(coarse, c);
      assert fine[x] in fine.Values && f(fine[x]) == c;
    }
    SubsetSize(coarse.Values, img);
  }

  /** Conversely, links that each merge two components are a forest. */
  lemma CountedForest(nodes: set<int>, es: seq<Link>)
    requires Within(es, nodes) && Components(nodes, es) == |nodes| - |es|
    ensures IsForest(es)
  {
    forall k | 0 <= k < |es| ensures !Joined(Without(es, k), es[k].a, es[k].b) {
      if Joined(Without(es, k), es[k].a, es[k].b) {
        var fs := Without(es, k);
        assert forall e :: e in es ==> e in fs || e == es[k];
        ComponentsAtLeast(nodes, fs);
        forall x, y | x in nodes && y in nodes && LabelsOf(nodes, es)[x] == LabelsOf(nodes, es)[y]
          ensures LabelsOf(nodes, fs)[x] == LabelsOf(nodes, fs)[y]
        {
          LabelsAreComponents(nodes, es, x, y);
          RedundantLink(es, k, x, y);
          LabelsAreComponents(nodes, fs, x, y);
        }
        CoarserIsFewer(LabelsOf(nodes, es), LabelsOf(nodes, fs));
      }
    }
  }

  /** A link whose ends are joined anyway joins nothing new. */
  lemma RedundantLink(es: seq<Link>, k: nat, x: int, y: int)
    requires k < |es| && Joined(Without(es, k), es[k].a, es[k].b) && Joined(es, x, y)
    ensures Joined(Without(es, k), x, y)
  {
    var w :| Route(es, x, y, w);
    JoinedSym(Without(es, k), es[k].a, es[k].b);
    RedundantAlong(es, k, x, w);
  }

  lemma {:induction false} RedundantAlong(es: seq<Link>, k: nat, x: int, w: seq<int>)
    requires k < |es| && Joined(Without(es, k), es[k].a, es[k].b) && Joined(Without(es, k), es[k].b, es[k].a)
    requires IsRoute(es, w) && w[0] == x
    ensures Joined(Without(es, k), x, w[|w| - 1])
    decreases |w|
  {
    var fs := Without(es, k);
    if |w| == 1 {
      JoinedRefl(fs, x);
    } else {
      var v := w[..|w| - 1];
      forall i | 0 <= i < |v| - 1 ensures Adjacent(es, v[i], v[i + 1]) { assert Adjacent(es, w[i], w[i + 1]); }
      RedundantAlong(es, k, x, v);
      assert Adjacent(es, w[|w| - 2], w[|w| - 2 + 1]);
      var e :| e in es && Ends(e, w[|w| - 2], w[|w| - 1]);
      if e in fs {
        JoinedStep(fs, x, w[|w| - 2], w[|w| - 1]);
      } else {
        assert e == es[k];
        JoinedTrans(fs, x, w[|w| - 2], w[|w| - 1]);
      }
    }
  }
}
