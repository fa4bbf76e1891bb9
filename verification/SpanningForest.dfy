/** Choosing links in order of length whenever they join two components yields a spanning forest of
    least total length. */
module SpanningForest {
  import opened LinkForest

  predicate Sorted(links: seq<Link>) {
    forall i, j :: 0 <= i <= j < |links| ==> links[i].len <= links[j].len
  }

  /** The chosen links among the first k. */
  function Chosen(links: seq<Link>, s: set<int>, k: nat): seq<Link>
    requires k <= |links|
  {
    if k == 0 then [] else Chosen(links, s, k - 1) + if k - 1 in s then [links[k - 1]] else []
  }

  /** The total length of the chosen links among the first k. */
  function TotalLength(links: seq<Link>, s: set<int>, k: nat): int
    requires k <= |links|
  {
    if k == 0 then 0 else TotalLength(links, s, k - 1) + if k - 1 in s then links[k - 1].len else 0
  }

  /** The links chosen by s have no cycle and join exactly what all the links join. */
  ghost predicate IsSpanningForest(links: seq<Link>, s: set<int>) {
    && IsForest(Chosen(links, s, |links|))
    && forall x, y :: Joined(links, x, y) <==> Joined(Chosen(links, s, |links|), x, y)
  }

  ghost predicate IsMinimum(links: seq<Link>, s: set<int>) {
    IsSpanningForest(links, s) &&
    forall t :: IsSpanningForest(links, t) ==> TotalLength(links, s, |links|) <= TotalLength(links, t, |links|)
  }

  lemma {:induction false} ChosenFrom(links: seq<Link>, s: set<int>, k: nat)
    requires k <= |links|
    ensures forall e :: e in Chosen(links, s, k) ==> e in links[..k]
  {
    if k > 0 {
      ChosenFrom(links, s, k - 1);
      assert links[..k] == links[..k - 1] + [links[k - 1]];
    }
  }

  lemma ChosenWithin(links: seq<Link>, s: set<int>, k: nat, nodes: set<int>)
    requires k <= |links| && Within(links, nodes)
    ensures Within(Chosen(links, s, k), nodes) && Within(links[..k], nodes)
  {
    ChosenFrom(links, s, k);
  }

  // What the relabelling loop keeps

  /** After k links: the labels are the components of those links, and every chosen link merged two. */
  ghost predicate KruskalInv(nodes: set<int>, links: seq<Link>, k: nat, s: set<int>, lab: Labels) {
    && Within(links, nodes) && k <= |links| && Within(links[..k], nodes) && Within(Chosen(links, s, k), nodes)
    && (forall i :: i in s ==> 0 <= i < k)
    && lab == LabelsOf(nodes, links[..k])
    && lab == LabelsOf(nodes, Chosen(links, s, k))
    && Components(nodes, Chosen(links, s, k)) == |nodes| - |Chosen(links, s, k)|
  }

  lemma KruskalStart(nodes: set<int>, links: seq<Link>)
    requires Within(links, nodes)
    ensures KruskalInv(nodes, links, 0, {}, map n | n in nodes :: n)
  {
    StartValues(nodes);
  }

  lemma {:induction false} ChosenSame(links: seq<Link>, s: set<int>, t: set<int>, k: nat)
    requires k <= |links| && forall i :: 0 <= i < k ==> (i in s <==> i in t)
    ensures Chosen(links, s, k) == Chosen(links, t, k)
  {
    if k > 0 { ChosenSame(links, s, t, k - 1); }
  }

  lemma KruskalStep(nodes: set<int>, links: seq<Link>, k: nat, s: set<int>, lab: Labels)
    requires KruskalInv(nodes, links, k, s, lab) && k < |links|
    ensures links[k].a in lab && links[k].b in lab
    ensures var e := links[k];
      if lab[e.a] == lab[e.b] then KruskalInv(nodes, links, k + 1, s, lab)
      else KruskalInv(nodes, links, k + 1, s + {k}, Merge(lab, e.a, e.b))
  {
    var e := links[k];
    assert e in links;
    assert links[..k + 1][..k] == links[..k];
    MergeValues(lab, e.a, e.b);
    ChosenWithin(links, s, k + 1, nodes);
    if lab[e.a] == lab[e.b] {
      assert Chosen(links, s, k + 1) == Chosen(links, s, k);
    } else {
      ChosenWithin(links, s + {k}, k + 1, nodes);
      ChosenSame(links, s, s + {k}, k);
      var fs := Chosen(links, s, k);
      assert Chosen(links, s + {k}, k + 1) == fs + [e];
      assert (fs + [e])[..|fs|] == fs;
    }
  }

  /** At every stage the chosen links join exactly what the links so far join, without a cycle. */
  lemma KruskalSpans(nodes: set<int>, links: seq<Link>, k: nat, s: set<int>, lab: Labels)
    requires KruskalInv(nodes, links, k, s, lab)
    ensures IsForest(Chosen(links, s, k))
    ensures forall x, y :: Joined(links[..k], x, y) <==> Joined(Chosen(links, s, k), x, y)
  {
    var fs := Chosen(links, s, k);
    CountedForest(nodes, fs);
    ChosenFrom(links, s, k);
    forall x, y ensures Joined(links[..k], x, y) <==> Joined(fs, x, y) {
      SameLabelsSameJoined(nodes, links[..k], fs, x, y);
    }
  }

  lemma SameLabelsSameJoined(nodes: set<int>, es: seq<Link>, fs: seq<Link>, x: int, y: int)
    requires Within(es, nodes) && Within(fs, nodes) && LabelsOf(nodes, es) == LabelsOf(nodes, fs)
    ensures Joined(es, x, y) <==> Joined(fs, x, y)
  {
    if x in nodes && y in nodes {
      LabelsAreComponents(nodes, es, x, y);
      LabelsAreComponents(nodes, fs, x, y);
    } else {
      OutsideJoined(nodes, es, x, y);
      OutsideJoined(nodes, fs, x, y);
    }
  }

  lemma RouteEnds(nodes: set<int>, es: seq<Link>, w: seq<int>)
    requires Within(es, nodes) && IsRoute(es, w) && |w| > 1
    ensures w[0] in nodes && w[|w| - 1] in nodes
  {
    assert Adjacent(es, w[0], w[0 + 1]);
    assert Adjacent(es, w[|w| - 2], w[|w| - 2 + 1]);
  }

  /** A node outside is joined only to itself. */
  lemma OutsideJoined(nodes: set<int>, es: seq<Link>, x: int, y: int)
    requires Within(es, nodes) && !(x in nodes && y in nodes)
    ensures Joined(es, x, y) <==> x == y
  {
    if x == y { JoinedRefl(es, x); }
    if Joined(es, x, y) && x != y {
      var w :| Route(es, x, y, w);
      RouteEnds(nodes, es, w);
    }
  }

  // Minimality

  lemma {:induction false} PrefixOfForest(links: seq<Link>, t: set<int>, k: nat)
    requires k <= |links| && IsForest(Chosen(links, t, |links|))
    ensures IsForest(Chosen(links, t, k))
    decreases |links| - k
  {
    if k < |links| {
      PrefixOfForest(links, t, k + 1);
      var es := Chosen(links, t, k + 1);
      if k in t {
        PrefixForest(es);
        assert es[..|es| - 1] == Chosen(links, t, k);
      } else {
        assert es == Chosen(links, t, k);
      }
    }
  }

  /** A forest has at most as many of the first k links as a forest that joins all that they join. */
  lemma FewerInPrefix(nodes: set<int>, links: seq<Link>, k: nat, s: set<int>, t: set<int>, lab: Labels)
    requires KruskalInv(nodes, links, k, s, lab) && IsForest(Chosen(links, t, |links|))
    ensures |Chosen(links, t, k)| <= |Chosen(links, s, k)|
  {
    ChosenWithin(links, t, k, nodes);
    PrefixOfForest(links, t, k);
    var es, fs := Chosen(links, t, k), Chosen(links, s, k);
    ForestComponents(nodes, es);
    forall x, y | x in nodes && y in nodes && LabelsOf(nodes, es)[x] == LabelsOf(nodes, es)[y]
      ensures LabelsOf(nodes, fs)[x] == LabelsOf(nodes, fs)[y]
    {
      LabelsAreComponents(nodes, es, x, y);
      ChosenFrom(links, t, k);
      JoinedMono(es, links[..k], x, y);
      LabelsAreComponents(nodes, links[..k], x, y);
    }
    CoarserIsFewer(LabelsOf(nodes, es), LabelsOf(nodes, fs));
  }

  /** Summation by parts: with no more links than s in any prefix, t pays at least as much per link. */
  lemma {:induction false} CheaperPrefixes(links: seq<Link>, s: set<int>, t: set<int>, k: nat)
    requires Sorted(links) && 0 < k <= |links|
    requires forall j: nat :: j <= k ==> |Chosen(links, t, j)| <= |Chosen(links, s, j)|
    ensures TotalLength(links, s, k) - TotalLength(links, t, k) <=
            links[k - 1].len * (|Chosen(links, s, k)| - |Chosen(links, t, k)|)
  {
    if k == 1 {
      assert Chosen(links, s, 0) == [] && Chosen(links, t, 0) == [];
    } else {
      CheaperPrefixes(links, s, t, k - 1);
      var d := |Chosen(links, s, k - 1)| - |Chosen(links, t, k - 1)|;
      var gain := (if k - 1 in s then 1 else 0) - if k - 1 in t then 1 else 0;
      OneMoreLink(links[k - 2].len, links[k - 1].len, d, gain);
      assert |Chosen(links, s, k)| - |Chosen(links, t, k)| == d + gain;
    }
  }

  lemma OneMoreLink(a: int, b: int, d: int, gain: int)
    requires a <= b && d >= 0 && -1 <= gain <= 1
    ensures a * d + (if gain == 1 then b else if gain == 0 then 0 else -b) <= b * (d + gain)
  {
    assert a * d <= b * d;
    assert b * (d + gain) == b * d + b * gain;
  }

  /** Spanning forests have equally many links. */
  lemma SameSize(nodes: set<int>, links: seq<Link>, s: set<int>, t: set<int>)
    requires Within(links, nodes) && IsSpanningForest(links, s) && IsSpanningForest(links, t)
    ensures |Chosen(links, s, |links|)| <= |Chosen(links, t, |links|)|
  {
    var es, fs := Chosen(links, s, |links|), Chosen(links, t, |links|);
    ChosenWithin(links, s, |links|, nodes);
    ChosenWithin(links, t, |links|, nodes);
    ForestComponents(nodes, es);
    ForestComponents(nodes, fs);
    forall x, y | x in nodes && y in nodes && LabelsOf(nodes, es)[x] == LabelsOf(nodes, es)[y]
      ensures LabelsOf(nodes, fs)[x] == LabelsOf(nodes, fs)[y]
    {
      LabelsAreComponents(nodes, es, x, y);
      LabelsAreComponents(nodes, fs, x, y);
    }
    forall x, y | x in nodes && y in nodes && LabelsOf(nodes, fs)[x] == LabelsOf(nodes, fs)[y]
      ensures LabelsOf(nodes, es)[x] == LabelsOf(nodes, es)[y]
    {
      LabelsAreComponents(nodes, es, x, y);
      LabelsAreComponents(nodes, fs, x, y);
    }
    CoarserIsFewer(LabelsOf(nodes, es), LabelsOf(nodes, fs));
    CoarserIsFewer(LabelsOf(nodes, fs), LabelsOf(nodes, es));
  }

  /** The links that the algorithm chooses among the first k. */
  ghost function Greedy(nodes: set<int>, links: seq<Link>, k: nat): set<int>
    requires Within(links, nodes) && k <= |links|
  {
    if k == 0 then {}
    else
      PrefixWithin(links, k - 1, nodes);
      var lab, e := LabelsOf(nodes, links[..k - 1]), links[k - 1];
      assert e in links;
      Greedy(nodes, links, k - 1) + if lab[e.a] != lab[e.b] then {k - 1} else {}
  }

  lemma PrefixWithin(links: seq<Link>, k: nat, nodes: set<int>)
    requires Within(links, nodes) && k <= |links|
    ensures Within(links[..k], nodes)
  {
  }

  lemma {:induction false} GreedyInv(nodes: set<int>, links: seq<Link>, k: nat)
    requires Within(links, nodes) && k <= |links|
    ensures Within(links[..k], nodes)
    ensures KruskalInv(nodes, links, k, Greedy(nodes, links, k), LabelsOf(nodes, links[..k]))
  {
    PrefixWithin(links, k, nodes);
    if k == 0 {
      KruskalStart(nodes, links);
    } else {
      GreedyInv(nodes, links, k - 1);
      var s, lab := Greedy(nodes, links, k - 1), LabelsOf(nodes, links[..k - 1]);
      assert s + {} == s;
      KruskalStep(nodes, links, k - 1, s, lab);
    }
  }

  /** What the algorithm has after some links: the indices and the links it chose, and the labels. */
  datatype Forest = Forest(s: set<int>, chosen: seq<Link>, roots: Labels)

  /** The next link is chosen if it joins two components, which are then merged. */
  function Take(f: Forest, k: nat, e: Link): (r: Forest)
    requires e.a in f.roots && e.b in f.roots
    ensures r.roots.Keys == f.roots.Keys
  {
    if f.roots[e.a] == f.roots[e.b] then f else Forest(f.s + {k}, f.chosen + [e], Merge(f.roots, e.a, e.b))
  }

  function AfterLinks(nodes: set<int>, links: seq<Link>, k: nat): (f: Forest)
    requires Within(links, nodes) && k <= |links|
    ensures f.roots.Keys == nodes
  {
    if k == 0 then Forest({}, [], map n | n in nodes :: n)
    else
      assert links[k - 1] in links;
      Take(AfterLinks(nodes, links, k - 1), k - 1, links[k - 1])
  }

  lemma {:induction false} AfterLinksInv(nodes: set<int>, links: seq<Link>, k: nat)
    requires Within(links, nodes) && k <= |links|
    ensures var f := AfterLinks(nodes, links, k);
      && f.s == Greedy(nodes, links, k) && f.chosen == Chosen(links, f.s, k)
      && KruskalInv(nodes, links, k, f.s, f.roots)
  {
    if k == 0 {
      KruskalStart(nodes, links);
    } else {
      AfterLinksInv(nodes, links, k - 1);
      var f := AfterLinks(nodes, links, k - 1);
      TakeIsGreedy(nodes, links, k - 1, f);
    }
  }

  lemma TakeIsGreedy(nodes: set<int>, links: seq<Link>, k: nat, f: Forest)
    requires k < |links| && KruskalInv(nodes, links, k, f.s, f.roots)
    requires f.s == Greedy(nodes, links, k) && f.chosen == Chosen(links, f.s, k)
    ensures links[k].a in f.roots && links[k].b in f.roots
    ensures var r := Take(f, k, links[k]);
      && r.s == Greedy(nodes, links, k + 1) && r.chosen == Chosen(links, r.s, k + 1)
      && KruskalInv(nodes, links, k + 1, r.s, r.roots)
  {
    KruskalStep(nodes, links, k, f.s, f.roots);
    assert f.s + {} == f.s;
    ChosenSame(links, f.s, f.s + {k}, k);
  }

  lemma {:induction false} GreedyGrows(nodes: set<int>, links: seq<Link>, j: nat, k: nat)
    requires Within(links, nodes) && j <= k <= |links|
    ensures forall i :: 0 <= i < j ==> (i in Greedy(nodes, links, j) <==> i in Greedy(nodes, links, k))
    decreases k
  {
    if j < k { GreedyGrows(nodes, links, j, k - 1); }
  }

  lemma GreedyPrefix(nodes: set<int>, links: seq<Link>, t: set<int>, j: nat)
    requires Within(links, nodes) && j <= |links| && IsForest(Chosen(links, t, |links|))
    ensures |Chosen(links, t, j)| <= |Chosen(links, Greedy(nodes, links, |links|), j)|
  {
    GreedyInv(nodes, links, j);
    FewerInPrefix(nodes, links, j, Greedy(nodes, links, j), t, LabelsOf(nodes, links[..j]));
    GreedyGrows(nodes, links, j, |links|);
    ChosenSame(links, Greedy(nodes, links, |links|), Greedy(nodes, links, j), j);
  }

  lemma GreedySpans(nodes: set<int>, links: seq<Link>)
    requires Within(links, nodes)
    ensures IsSpanningForest(links, Greedy(nodes, links, |links|))
  {
    var n := |links|;
    assert links[..n] == links;
    GreedyInv(nodes, links, n);
    KruskalSpans(nodes, links, n, Greedy(nodes, links, n), LabelsOf(nodes, links[..n]));
  }

  /** The chosen links are a spanning forest, and no spanning forest is shorter. */
  lemma GreedyIsMinimum(nodes: set<int>, links: seq<Link>)
    requires Within(links, nodes) && Sorted(links)
    ensures IsMinimum(links, Greedy(nodes, links, |links|))
  {
    var n, s := |links|, Greedy(nodes, links, |links|);
    GreedySpans(nodes, links);
    forall t | IsSpanningForest(links, t) ensures TotalLength(links, s, n) <= TotalLength(links, t, n) {
      if n > 0 {
        forall j: nat | j <= n ensures |Chosen(links, t, j)| <= |Chosen(links, s, j)| {
          GreedyPrefix(nodes, links, t, j);
        }
        CheaperPrefixes(links, s, t, n);
        SameSize(nodes, links, s, t);
      }
    }
  }
}
