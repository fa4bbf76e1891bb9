/** The broadcast layer that uses one minimum spanning forest for all issuers, and reads a tree per
    issuer off it. */
module MSTBroadcastLayer {
  import opened Collections
  import opened LinkForest
  import opened SpanningForest
  import opened BroadcastTree
  import opened ForestTrees

  lemma HoldsOneMore(mst: Neighbors, nodes: set<int>, es: seq<Link>, e: Link)
    requires Holds(mst, nodes, es) && e.a in nodes && e.b in nodes
    ensures var m := mst[e.a := mst[e.a] + {e.b}]; Holds(m[e.b := m[e.b] + {e.a}], nodes, es + [e])
  {
    var fs := es + [e];
    forall x, y ensures Adjacent(fs, x, y) <==> Adjacent(es, x, y) || Ends(e, x, y) {
      assert e in fs;
    }
  }

  /** Place k is behind all links that are not longer than e, and before all longer ones. */
  ghost predicate AfterEqual(links: seq<Link>, k: int, e: Link) {
    && (forall i :: 0 <= i < k && i < |links| ==> links[i].len <= e.len)
    && forall i :: 0 <= k <= i < |links| ==> e.len < links[i].len
  }

  /** The multimap insertion: after the links of the same length. */
  method InsertSorted(links: seq<Link>, e: Link) returns (r: seq<Link>)
    requires Sorted(links)
    ensures Sorted(r) && multiset(r) == multiset(links) + multiset{e}
    ensures exists k :: 0 <= k <= |links| && r == links[..k] + [e] + links[k..] && AfterEqual(links, k, e)
  {
    var i := 0;
    while i < |links| && links[i].len <= e.len
      invariant 0 <= i <= |links| && forall k :: 0 <= k < i ==> links[k].len <= e.len
    {
      i := i + 1;
    }
    InsertedSorted(links, i, e);
    r := links[..i] + [e] + links[i..];
  }

  lemma InsertedSorted(links: seq<Link>, k: nat, e: Link)
    requires Sorted(links) && k <= |links| && AfterEqual(links, k, e)
    ensures var r := links[..k] + [e] + links[k..];
      Sorted(r) && multiset(r) == multiset(links) + multiset{e}
  {
    assert links == links[..k] + links[k..];
  }

  /** One relabelling loop of the algorithm. */
  method Relabel(roots: Labels, n1: int, n2: int) returns (r: Labels)
    requires n1 in roots && n2 in roots
    ensures r == Merge(roots, n1, n2)
  {
    var from, to := roots[n2], roots[n1];
    var rest := roots.Keys;
    r := roots;
    while rest != {}
      invariant r.Keys == roots.Keys && rest <= roots.Keys
      invariant forall n :: n in r ==> r[n] == if n !in rest && roots[n] == from then to else roots[n]
      decreases |rest|
    {
      var k := PickOne(rest);
      if r[k] == from {
        r := r[k := to];
      }
      rest := rest - {k};
    }
    forall n | n in r ensures r[n] == Merge(roots, n1, n2)[n] {}
    SameMap(r, Merge(roots, n1, n2));
  }

  const NULL_PROCESSID := -1

  /** The tree stored for root r: the part of the forest joined to it, its children the inverse of its
      parents, and its links all the links of the forest there. */
  ghost predicate TreeOk(es: seq<Link>, r: int, parents: map<int, int>, children: Neighbors) {
    IsTreeIn(es, Tree(r, parents)) && forall x :: Kids(children, x) == Children(Tree(r, parents), x)
  }

  /** The trees of all roots but those that are left. */
  ghost predicate TreesFor(es: seq<Link>, nodes: set<int>, parents: map<int, map<int, int>>,
                           children: map<int, Neighbors>, rest: set<int>) {
    && children.Keys == parents.Keys == nodes - rest
    && forall r :: r in parents && r in children ==> TreeOk(es, r, parents[r], children[r])
  }

  lemma OneMoreTree(es: seq<Link>, nodes: set<int>, parents: map<int, map<int, int>>, children: map<int, Neighbors>,
                    rest: set<int>, i: int, pars: map<int, int>, kids: Neighbors)
    requires TreesFor(es, nodes, parents, children, rest) && rest <= nodes && i in rest
    requires TreeOk(es, i, pars, kids)
    ensures TreesFor(es, nodes, parents[i := pars], children[i := kids], rest - {i})
  {
    KeyAdded(children, nodes, rest, i, kids);
    KeyAdded(parents, nodes, rest, i, pars);
  }

  lemma HoldsIsUndirected(mst: Neighbors, nodes: set<int>, es: seq<Link>)
    requires Holds(mst, nodes, es) && Within(es, nodes)
    ensures Undirected(mst)
  {
    forall x, y | x in mst && y in mst[x] ensures y in mst && x in mst[y] {
      var e :| e in es && Ends(e, x, y);
      AdjacentSym(es, x, y);
    }
  }

  method OneTree(mst: Neighbors, root: int, ghost es: seq<Link>, ghost nodes: set<int>)
      returns (children: Neighbors, parents: map<int, int>)
    requires Holds(mst, nodes, es) && Within(es, nodes) && Undirected(mst) && root in nodes
    ensures TreeOk(es, root, parents, children)
  {
    var visited;
    ghost var rank := map[root := 0];
    visited, children, parents, rank := Visit(mst, root, {}, map[], map[root := root], root, rank);
    VisitedIsTree(es, nodes, mst, root, visited, parents, children, rank);
  }

  /** The tree of a node outside the forest is that node alone. */
  lemma AloneIsTree(es: seq<Link>, nodes: set<int>, x: int)
    requires Within(es, nodes) && x !in nodes
    ensures IsTreeIn(es, Tree(x, map[x := x]))
  {
    assert Chain(Tree(x, map[x := x]), [x]);
    forall y ensures y == x <==> Joined(es, x, y) {
      OutsideJoined(nodes, es, x, y);
    }
  }

  method HopsInForest(mst: Neighbors, from: int, to: int, ghost es: seq<Link>, ghost nodes: set<int>, ghost t: Tree)
      returns (r: int)
    requires Within(es, nodes) && Holds(mst, nodes, es) && IsForest(es) && IsTreeIn(es, t) && t.root == to
    requires from in nodes && from != to
    ensures r == if from in t.parent then Depth(t, from) else -1
  {
    if from in t.parent {
      AncestorsAreNearer(t, from);
      ParentChain(t, from);
    }
    var visited;
    r, visited := HopCount(mst, from, to, {from}, es, nodes, t);
  }

  class MSTBroadcastLayer {
    var links: seq<Link>
    var nodes: set<int>
    var mst: Neighbors
    var children: map<int, Neighbors>
    var parents: map<int, map<int, int>>

    constructor ()
      ensures links == [] && nodes == {} && mst == map[] && children == map[] && parents == map[]
    {
      links, nodes, mst, children, parents := [], {}, map[], map[], map[];
    }

    method AddLink(from: int, to: int, length: int)
      requires Sorted(links)
      modifies this`links
      ensures Sorted(links) && multiset(links) == multiset(old(links)) + multiset{Link(from, to, length)}
      ensures exists k :: 0 <= k <= |old(links)| && AfterEqual(old(links), k, Link(from, to, length))
                          && links == old(links)[..k] + [Link(from, to, length)] + old(links)[k..]
    {
      links := InsertSorted(links, Link(from, to, length));
    }

    method AddNode(id: int)
      modifies this`nodes
      ensures nodes == old(nodes) + {id}
    {
      nodes := nodes + {id};
    }

    /** Every node starts as the root of itself, with no neighbors. */
    method StartForest() returns (roots: Labels)
      modifies this`mst
      ensures roots == (map n | n in nodes :: n) && Holds(mst, nodes, [])
    {
      roots, mst := map[], map[];
      var rest := nodes;
      while rest != {}
        invariant rest <= nodes && roots.Keys == mst.Keys == nodes - rest
        invariant forall n :: n in roots ==> roots[n] == n && mst[n] == {}
        decreases |rest|
      {
        var i := PickOne(rest);
        KeyAdded(roots, nodes, rest, i, i);
        KeyAdded(mst, nodes, rest, i, {});
        roots, mst, rest := roots[i := i], mst[i := {}], rest - {i};
      }
      forall n | n in roots ensures roots[n] == (map n | n in nodes :: n)[n] {}
      SameMap(roots, map n | n in nodes :: n);
    }

    /** The minimum spanning forest. */
    method ComputeForest() returns (ghost s: set<int>)
      requires Sorted(links) && Within(links, nodes)
      modifies this`mst
      ensures IsMinimum(links, s) && Holds(mst, nodes, Chosen(links, s, |links|))
    {
      var roots := StartForest();
      ghost var f := AfterLinks(nodes, links, 0);
      for j := 0 to |links|
        invariant f == AfterLinks(nodes, links, j) && roots == f.roots && Holds(mst, nodes, f.chosen)
      {
        assert links[j] in links;
        roots := OneLink(roots, links[j], j, f);
        f := Take(f, j, links[j]);
      }
      s := f.s;
      AfterLinksInv(nodes, links, |links|);
      GreedyIsMinimum(nodes, links);
    }

    /** Choose the link if it joins two components. */
    method OneLink(roots: Labels, e: Link, ghost j: nat, ghost f: Forest) returns (roots': Labels)
      requires e.a in nodes && e.b in nodes && roots.Keys == nodes
      requires roots == f.roots && Holds(mst, nodes, f.chosen)
      modifies this`mst
      ensures roots' == Take(f, j, e).roots && Holds(mst, nodes, Take(f, j, e).chosen)
    {
      roots' := roots;
      if roots[e.a] != roots[e.b] {
        AddToForest(e, f.chosen);
        roots' := Relabel(roots, e.a, e.b);
      }
    }

    method AddToForest(e: Link, ghost es: seq<Link>)
      requires Holds(mst, nodes, es) && e.a in nodes && e.b in nodes
      modifies this`mst
      ensures Holds(mst, nodes, es + [e])
    {
      HoldsOneMore(mst, nodes, es, e);
      mst := mst[e.a := mst[e.a] + {e.b}];
      mst := mst[e.b := mst[e.b] + {e.a}];
    }

    /** One tree per node, read off the forest. */
    method ComputeTrees(ghost es: seq<Link>)
      requires Holds(mst, nodes, es) && Within(es, nodes) && children == map[] && parents == map[]
      modifies this`children, this`parents
      ensures children.Keys == parents.Keys == nodes
      ensures forall r :: r in nodes ==> TreeOk(es, r, parents[r], children[r])
    {
      HoldsIsUndirected(mst, nodes, es);
      var rest := nodes;
      while rest != {}
        invariant rest <= nodes && TreesFor(es, nodes, parents, children, rest)
        decreases |rest|
      {
        var i := PickOne(rest);
        var kids, pars := OneTree(mst, i, es, nodes);
        OneMoreTree(es, nodes, parents, children, rest, i, pars, kids);
        children, parents, rest := children[i := kids], parents[i := pars], rest - {i};
      }
    }

    /** The forest and its trees; the links and nodes are cleared. */
    method ComputePaths() returns (ghost es: seq<Link>, ghost s: set<int>)
      requires Sorted(links) && Within(links, nodes) && children == map[] && parents == map[]
      modifies this
      ensures IsMinimum(old(links), s) && es == Chosen(old(links), s, |old(links)|)
      ensures Within(es, old(nodes)) && Holds(mst, old(nodes), es)
      ensures children.Keys == parents.Keys == old(nodes)
      ensures forall r :: r in old(nodes) ==> TreeOk(es, r, parents[r], children[r])
      ensures links == [] && nodes == {}
    {
      s := ComputeForest();
      es := Chosen(links, s, |links|);
      ChosenWithin(links, s, |links|, nodes);
      ComputeTrees(es);
      nodes, links := {}, [];
    }

    /** None stands for the exception about an unknown root. */
    function GetChildren(root: int, node: int): Option<set<int>>
      reads this
    {
      if root !in children then None else Some(Kids(children[root], node))
    }

    function GetParent(root: int, node: int): Option<int>
      reads this
    {
      if root !in parents then None else Some(if node in parents[root] then parents[root][node] else NULL_PROCESSID)
    }

    /** getParent answers a neighbour in the forest for each node joined to the root, and -1 for the others;
        getChildren answers just the nodes whose parent this one is. */
    lemma TreeAnswered(root: int, es: seq<Link>)
      requires root in parents && root in children && TreeOk(es, root, parents[root], children[root])
      ensures forall x :: x != root && Joined(es, root, x) ==>
        exists p :: GetParent(root, x) == Some(p) && Adjacent(es, x, p) && Joined(es, root, p)
      ensures forall x :: !Joined(es, root, x) ==> GetParent(root, x) == Some(NULL_PROCESSID)
      ensures forall x, z :: GetChildren(root, x).Some? && (z in GetChildren(root, x).value <==>
        z != root && Joined(es, root, z) && GetParent(root, z) == Some(x))
    {
      var t := Tree(root, parents[root]);
      forall x | x != root && Joined(es, root, x)
        ensures exists p :: GetParent(root, x) == Some(p) && Adjacent(es, x, p) && Joined(es, root, p)
      {
        assert HasChain(t, x);
        assert GetParent(root, x) == Some(t.parent[x]);
      }
    }

    /** None stands for the exception about an unknown node. Otherwise the answer is the number of
        getParent steps from `from` in the tree of `to`, and -1 exactly when the forest does not join
        them. */
    method GetHopCount(from: int, to: int, ghost es: seq<Link>, ghost all: set<int>) returns (r: Option<int>)
      requires Within(es, all) && Holds(mst, all, es) && IsForest(es)
      requires parents.Keys == children.Keys == all
      requires forall x :: x in all ==> TreeOk(es, x, parents[x], children[x])
      ensures from == to ==> r == Some(0)
      ensures from != to && from !in all ==> r == None
      ensures from != to && from in all && !Joined(es, to, from) ==> r == Some(-1)
      ensures from in all && Joined(es, to, from) ==>
                to in all && from in parents[to] && IsTree(Tree(to, parents[to])) &&
                r == Some(Depth(Tree(to, parents[to]), from))
    {
      if to !in all { OutsideJoined(all, es, to, from); }
      if from == to {
        if to in all {
          JoinedRefl(es, to);
          DepthStep(Tree(to, parents[to]), to);
        }
        return Some(0);
      }
      if from !in mst {
        return None;
      }
      ghost var t := Tree(to, if to in all then parents[to] else map[to := to]);
      if to !in all { AloneIsTree(es, all, to); }
      var n := HopsInForest(mst, from, to, es, all, t);
      r := Some(n);
    }
  }
}
