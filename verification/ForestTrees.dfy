/** The tree of one root inside a forest: what the depth-first visit builds, and that it has exactly the
    links of the forest. */
module ForestTrees {
  import opened Collections
  import opened LinkForest
  import opened BroadcastTree

  type Neighbors = map<int, set<int>>

  /** The adjacency map holds exactly the links es. */
  ghost predicate Holds(mst: Neighbors, nodes: set<int>, es: seq<Link>) {
    mst.Keys == nodes && forall x, y :: x in nodes ==> (y in mst[x] <==> Adjacent(es, x, y))
  }

  /** The children stored for x, none if there is no entry. */
  function Kids(children: Neighbors, x: int): set<int> {
    if x in children then children[x] else {}
  }

  /** Parents seen so far: every node but the root has a parent that was seen before it and is its
      neighbor; the children invert the parents. */
  ghost predicate Growing(mst: Neighbors, root: int, parents: map<int, int>, children: Neighbors, rank: map<int, nat>) {
    && parents.Keys <= mst.Keys && rank.Keys == parents.Keys
    && root in parents && parents[root] == root
    && (forall y :: y in parents && y != root ==> ParentSeen(mst, parents, rank, y))
    && forall x, y :: y in Kids(children, x) <==> y in parents && y != root && parents[y] == x
  }

  ghost predicate ParentSeen(mst: Neighbors, parents: map<int, int>, rank: map<int, nat>, y: int)
    requires y in parents && rank.Keys == parents.Keys && parents.Keys <= mst.Keys
  {
    parents[y] in parents && y in mst[parents[y]] && rank[parents[y]] < rank[y]
  }

  ghost predicate Undirected(mst: Neighbors) {
    (forall x :: x in mst ==> mst[x] <= mst.Keys) &&
    forall x, y :: x in mst && y in mst && y in mst[x] ==> x in mst[y]
  }

  /** All neighbors of x have been visited. */
  ghost predicate Closed(mst: Neighbors, visited: set<int>, x: int) {
    x in mst && mst[x] <= visited
  }

  lemma AddChild(mst: Neighbors, root: int, parents: map<int, int>, children: Neighbors,
                 rank: map<int, nat>, node: int, i: int)
    requires Growing(mst, root, parents, children, rank) && node in parents
    requires i in mst[node] && i in mst && i !in parents
    ensures Growing(mst, root, parents[i := node], children[node := Kids(children, node) + {i}],
                    rank[i := rank[node] + 1])
  {
    var p, r := parents[i := node], rank[i := rank[node] + 1];
    var c := children[node := Kids(children, node) + {i}];
    assert p.Keys == parents.Keys + {i} == r.Keys;
    forall y | y in p && y != root ensures ParentSeen(mst, p, r, y) {
      if y != i { assert ParentSeen(mst, parents, rank, y); }
    }
    forall x, y ensures y in Kids(c, x) <==> y in p && y != root && p[y] == x {
      assert y in Kids(children, x) <==> y in parents && y != root && parents[y] == x;
    }
  }

  lemma {:induction false} SeenHasChain(mst: Neighbors, root: int, parents: map<int, int>, children: Neighbors,
                                        rank: map<int, nat>, y: int)
    requires Growing(mst, root, parents, children, rank) && y in parents
    ensures HasChain(Tree(root, parents), y)
    decreases rank[y]
  {
    var t := Tree(root, parents);
    if y == root {
      assert Chain(t, [root]);
    } else {
      assert ParentSeen(mst, parents, rank, y);
      SeenHasChain(mst, root, parents, children, rank, parents[y]);
      var w :| Chain(t, w) && w[0] == parents[y];
      var v := [y] + w;
      forall i | 0 <= i < |v| - 1 ensures v[i] != root && v[i] in parents && parents[v[i]] == v[i + 1] {
        if i > 0 { assert v[i] == w[i - 1] && v[i + 1] == w[i - 1 + 1]; }
      }
      assert Chain(t, v);
    }
  }

  /** The tree of root in the forest es: it has exactly the nodes joined to the root, and every parent is
      a neighbor. */
  ghost predicate IsTreeIn(es: seq<Link>, t: Tree) {
    && IsTree(t)
    && (forall y :: y in t.parent <==> Joined(es, t.root, y))
    && forall y :: y in t.parent && y != t.root ==> Adjacent(es, y, t.parent[y])
  }

  lemma AdjacentSym(es: seq<Link>, x: int, y: int)
    requires Adjacent(es, x, y)
    ensures Adjacent(es, y, x)
  {
    var e :| e in es && Ends(e, x, y);
    assert Ends(e, y, x);
  }

  lemma {:induction false} ClosedReaches(es: seq<Link>, nodes: set<int>, mst: Neighbors, visited: set<int>, w: seq<int>)
    requires Holds(mst, nodes, es) && IsRoute(es, w) && w[0] in visited
    requires forall x :: x in visited ==> Closed(mst, visited, x)
    ensures w[|w| - 1] in visited
    decreases |w|
  {
    if |w| > 1 {
      assert Adjacent(es, w[0], w[0 + 1]);
      assert Closed(mst, visited, w[0]);
      var v := w[1..];
      forall i | 0 <= i < |v| - 1 ensures Adjacent(es, v[i], v[i + 1]) { assert Adjacent(es, w[i + 1], w[i + 1 + 1]); }
      ClosedReaches(es, nodes, mst, visited, v);
    }
  }

  lemma {:induction false} ChainJoined(es: seq<Link>, t: Tree, w: seq<int>)
    requires Chain(t, w)
    requires forall y :: y in t.parent && y != t.root ==> Adjacent(es, y, t.parent[y])
    ensures Joined(es, t.root, w[0])
    decreases |w|
  {
    JoinedRefl(es, t.root);
    if |w| > 1 {
      var v := w[1..];
      ChainJoined(es, t, v);
      assert w[0] != t.root && w[0] in t.parent && t.parent[w[0]] == w[0 + 1];
      AdjacentSym(es, w[0], w[1]);
      JoinedStep(es, t.root, w[1], w[0]);
    }
  }

  /** What has been visited is joined to the root by the parents, and nothing else is joined to it. */
  lemma VisitedIsJoined(es: seq<Link>, nodes: set<int>, mst: Neighbors, t: Tree)
    requires Holds(mst, nodes, es) && IsTree(t)
    requires forall x :: x in t.parent ==> Closed(mst, t.parent.Keys, x)
    requires forall y :: y in t.parent && y != t.root ==> Adjacent(es, y, t.parent[y])
    ensures forall y :: y in t.parent <==> Joined(es, t.root, y)
  {
    forall y ensures y in t.parent <==> Joined(es, t.root, y) {
      if y in t.parent {
        ChainJoined(es, t, ChainOf(t, y));
      }
      if Joined(es, t.root, y) {
        var w :| Route(es, t.root, y, w);
        ClosedReaches(es, nodes, mst, t.parent.Keys, w);
      }
    }
  }

  lemma GrowingIsTree(mst: Neighbors, root: int, parents: map<int, int>, children: Neighbors, rank: map<int, nat>)
    requires Growing(mst, root, parents, children, rank)
    ensures IsTree(Tree(root, parents))
    ensures forall y :: y in parents && y != root ==> parents[y] in mst && y in mst[parents[y]]
    ensures forall x :: Kids(children, x) == Children(Tree(root, parents), x)
  {
    forall y | y in parents ensures HasChain(Tree(root, parents), y) && parents[y] in parents {
      SeenHasChain(mst, root, parents, children, rank, y);
      if y != root { assert ParentSeen(mst, parents, rank, y); }
    }
    forall y | y in parents && y != root ensures parents[y] in mst && y in mst[parents[y]] {
      assert ParentSeen(mst, parents, rank, y);
    }
    forall x ensures Kids(children, x) == Children(Tree(root, parents), x) {
      forall y ensures y in Kids(children, x) <==> y in Children(Tree(root, parents), x) {}
    }
  }

  /** A finished visit has built the tree of the root. */
  lemma VisitedIsTree(es: seq<Link>, nodes: set<int>, mst: Neighbors, root: int, visited: set<int>,
                      parents: map<int, int>, children: Neighbors, rank: map<int, nat>)
    requires Within(es, nodes) && Holds(mst, nodes, es) && Growing(mst, root, parents, children, rank)
    requires parents.Keys == visited && forall x :: x in visited ==> Closed(mst, visited, x)
    ensures IsTreeIn(es, Tree(root, parents))
    ensures forall x :: Kids(children, x) == Children(Tree(root, parents), x)
  {
    GrowingIsTree(mst, root, parents, children, rank);
    forall y | y in parents && y != root ensures Adjacent(es, y, parents[y]) {
      AdjacentSym(es, parents[y], y);
    }
    VisitedIsJoined(es, nodes, mst, Tree(root, parents));
  }

  // In a forest the tree has all the links

  /** The chain of x to the root uses no link with the ends of e. */
  lemma {:induction false} ChainAvoids(es: seq<Link>, t: Tree, k: nat, w: seq<int>)
    requires k < |es| && Chain(t, w)
    requires forall y :: y in t.parent && y != t.root ==> Adjacent(es, y, t.parent[y]) && !Ends(es[k], y, t.parent[y])
    ensures Joined(Without(es, k), t.root, w[0])
    decreases |w|
  {
    var fs := Without(es, k);
    JoinedRefl(fs, t.root);
    if |w| > 1 {
      var v := w[1..];
      ChainAvoids(es, t, k, v);
      assert w[0] != t.root && w[0] in t.parent && t.parent[w[0]] == w[0 + 1];
      var e :| e in es && Ends(e, w[0], w[1]);
      assert e in fs by {
        var j :| 0 <= j < |es| && es[j] == e;
        assert j != k;
        assert e == if j < k then fs[j] else fs[j - 1];
      }
      assert Ends(e, w[1], w[0]);
      JoinedStep(fs, t.root, w[1], w[0]);
    }
  }

  /** In a forest, neighbors in the tree are parent and child. */
  lemma NeighborsAreParentAndChild(es: seq<Link>, nodes: set<int>, t: Tree, x: int, y: int)
    requires IsForest(es) && IsTreeIn(es, t) && x in t.parent && y in t.parent && Adjacent(es, x, y)
    ensures x != y
    ensures (x != t.root && t.parent[x] == y) || (y != t.root && t.parent[y] == x)
  {
    var e :| e in es && Ends(e, x, y);
    var k :| 0 <= k < |es| && es[k] == e;
    var fs := Without(es, k);
    if x == y { JoinedRefl(fs, x); }
    if !(x != t.root && t.parent[x] == y) && !(y != t.root && t.parent[y] == x) {
      ChainAvoids(es, t, k, ChainOf(t, x));
      ChainAvoids(es, t, k, ChainOf(t, y));
      JoinedSym(fs, t.root, x);
      JoinedTrans(fs, x, t.root, y);
      JoinedSym(fs, x, y);
    }
  }

  // The depth-first visit

  /** after agrees with before on everything before has. */
  ghost predicate Extends(before: map<int, int>, after: map<int, int>) {
    forall y :: y in before ==> y in after && after[y] == before[y]
  }

  /** Everything visited since, except perhaps node, has had all its neighbors visited. */
  ghost predicate ClosedSince(mst: Neighbors, before: set<int>, visited: set<int>, node: int) {
    forall x :: x in visited && x !in before && x != node ==> Closed(mst, visited, x)
  }

  lemma ClosedMore(mst: Neighbors, before: set<int>, visited: set<int>, more: set<int>, node: int, i: int)
    requires ClosedSince(mst, before, visited, node) && visited <= more && i !in visited
    requires forall x :: x in more && x !in visited ==> Closed(mst, more, x)
    ensures ClosedSince(mst, before, more, node)
  {
    forall x | x in more && x !in before && x != node ensures Closed(mst, more, x) {
      if x in visited { assert Closed(mst, visited, x); }
    }
  }

  /** Each node reached gets a parent and is listed as its child; at the end all neighbors of the nodes
      reached have been visited. */
  method Visit(mst: Neighbors, node: int, visited: set<int>, children: Neighbors, parents: map<int, int>,
               ghost root: int, ghost rank: map<int, nat>)
      returns (visited': set<int>, children': Neighbors, parents': map<int, int>, ghost rank': map<int, nat>)
    requires Undirected(mst) && Growing(mst, root, parents, children, rank)
    requires node in mst && node !in visited && parents.Keys == visited + {node}
    ensures Growing(mst, root, parents', children', rank') && Extends(parents, parents')
    ensures parents'.Keys == visited' && visited + {node} <= visited'
    ensures forall x :: x in visited' && x !in visited ==> Closed(mst, visited', x)
    decreases mst.Keys - visited
  {
    visited', children', parents', rank' := visited + {node}, children, parents, rank;
    var rest := mst[node];
    while rest != {}
      invariant Growing(mst, root, parents', children', rank') && Extends(parents, parents')
      invariant parents'.Keys == visited' && visited + {node} <= visited' && rest <= mst[node]
      invariant mst[node] - rest <= visited' && ClosedSince(mst, visited, visited', node)
      decreases |rest|
    {
      var i := PickOne(rest);
      if i !in visited' {
        ghost var seen := visited';
        visited', children', parents', rank' :=
          VisitChild(mst, node, i, visited', children', parents', root, rank', visited);
        ClosedMore(mst, visited, seen, visited', node, i);
      }
      rest := rest - {i};
    }
  }

  method VisitChild(mst: Neighbors, node: int, i: int, visited: set<int>, children: Neighbors, parents: map<int, int>,
                    ghost root: int, ghost rank: map<int, nat>, ghost before: set<int>)
      returns (visited': set<int>, children': Neighbors, parents': map<int, int>, ghost rank': map<int, nat>)
    requires Undirected(mst) && Growing(mst, root, parents, children, rank)
    requires node in mst && node in visited && node !in before && before <= visited
    requires i in mst[node] && i !in visited && parents.Keys == visited
    ensures Growing(mst, root, parents', children', rank') && Extends(parents, parents')
    ensures parents'.Keys == visited' && visited <= visited' && i in visited'
    ensures forall x :: x in visited' && x !in visited ==> Closed(mst, visited', x)
    decreases mst.Keys - before, 0
  {
    AddChild(mst, root, parents, children, rank, node, i);
    parents' := parents[i := node];
    children' := children[node := Kids(children, node) + {i}];
    rank' := rank[i := rank[node] + 1];
    assert node in mst.Keys - before && node !in mst.Keys - visited;
    visited', children', parents', rank' := Visit(mst, i, visited, children', parents', root, rank');
  }

  // The hop count

  /** No proper ancestor of x has been visited. */
  ghost predicate WayUpOpen(t: Tree, visited: set<int>, x: int)
    requires IsTree(t) && x in t.parent
  {
    forall i :: 1 <= i < |ChainOf(t, x)| ==> ChainOf(t, x)[i] !in visited
  }

  /** The nodes the search from x has added to visited: below x in the tree, or outside the tree as x is. */
  ghost predicate OnlyBelow(t: Tree, before: set<int>, after: set<int>, x: int)
    requires IsTree(t)
  {
    forall y :: y in after && y !in before ==>
      if x in t.parent then y in t.parent && Depth(t, y) > Depth(t, x) else y !in t.parent
  }

  /** A neighbor is the parent, one step nearer, or a child, one step farther. */
  lemma NeighborDepth(es: seq<Link>, nodes: set<int>, t: Tree, x: int, y: int)
    requires IsForest(es) && IsTreeIn(es, t) && y in nodes && Adjacent(es, x, y) && x in t.parent
    ensures y in t.parent
    ensures (x != t.root && t.parent[x] == y && Depth(t, x) == Depth(t, y) + 1) ||
            (y != t.root && t.parent[y] == x && Depth(t, y) == Depth(t, x) + 1)
  {
    JoinedStep(es, t.root, x, y);
    NeighborsAreParentAndChild(es, nodes, t, x, y);
    DepthStep(t, x);
    DepthStep(t, y);
  }

  lemma OutsideNeighbor(es: seq<Link>, nodes: set<int>, t: Tree, x: int, y: int)
    requires IsForest(es) && IsTreeIn(es, t) && x in nodes && Adjacent(es, x, y) && x !in t.parent
    ensures y !in t.parent
  {
    if y in t.parent {
      AdjacentSym(es, x, y);
      NeighborDepth(es, nodes, t, y, x);
    }
  }

  lemma ParentChain(t: Tree, x: int)
    requires IsTree(t) && x in t.parent && x != t.root
    ensures |ChainOf(t, x)| > 1 && ChainOf(t, x)[1] == t.parent[x] && ChainOf(t, t.parent[x]) == ChainOf(t, x)[1..]
  {
    var w := ChainOf(t, x);
    assert w[0] in t.parent && t.parent[w[0]] == w[0 + 1];
    ChainUnique(t, w[1..], ChainOf(t, t.parent[x]));
  }

  /** The ancestors of x are nearer to the root than x. */
  lemma {:induction false} AncestorsAreNearer(t: Tree, x: int)
    requires IsTree(t) && x in t.parent
    ensures forall i :: 1 <= i < |ChainOf(t, x)| ==>
              ChainOf(t, x)[i] in t.parent && Depth(t, ChainOf(t, x)[i]) < Depth(t, x)
    decreases Depth(t, x)
  {
    DepthStep(t, x);
    if x == t.root {
    } else {
      ParentChain(t, x);
      AncestorsAreNearer(t, t.parent[x]);
      forall i | 1 <= i < |ChainOf(t, x)|
        ensures ChainOf(t, x)[i] in t.parent && Depth(t, ChainOf(t, x)[i]) < Depth(t, x)
      {
        assert ChainOf(t, x)[i] == ChainOf(t, t.parent[x])[i - 1];
      }
    }
  }

  /** From x the way up is open to its parent, also after a search below x. */
  lemma WayUpFromParent(t: Tree, visited: set<int>, after: set<int>, x: int)
    requires IsTree(t) && x in t.parent && x != t.root && WayUpOpen(t, visited, x) && OnlyBelow(t, visited, after, x)
    ensures t.parent[x] !in after
    ensures t.parent[x] in t.parent && WayUpOpen(t, after + {t.parent[x]}, t.parent[x])
  {
    var p := t.parent[x];
    ParentChain(t, x);
    AncestorsAreNearer(t, x);
    AncestorsAreNearer(t, p);
    forall i | 1 <= i < |ChainOf(t, x)| ensures ChainOf(t, x)[i] !in after {}
    forall i | 1 <= i < |ChainOf(t, p)| ensures ChainOf(t, p)[i] !in after + {p} {
      assert ChainOf(t, p)[i] == ChainOf(t, x)[i + 1];
    }
  }

  /** The search is either on the open way up to the root, or cut off from it. */
  ghost predicate CutOff(t: Tree, visited: set<int>, x: int) {
    x in t.parent ==> x != t.root && t.parent[x] in visited
  }

  /** The recursive search: the depth of `from` under the destination when the way up is open, -1 when the
      search is cut off from it. */
  method HopCount(mst: Neighbors, from: int, to: int, visited: set<int>,
                  ghost es: seq<Link>, ghost nodes: set<int>, ghost t: Tree) returns (r: int, visited': set<int>)
    requires Within(es, nodes) && Holds(mst, nodes, es) && IsForest(es) && IsTreeIn(es, t) && t.root == to
    requires from in nodes && from in visited && (from == to || to !in visited)
    requires CutOff(t, visited, from) || (from in t.parent && WayUpOpen(t, visited, from))
    ensures r == if CutOff(t, visited, from) then -1 else Depth(t, from)
    ensures visited <= visited' && (r == -1 ==> to !in visited' && OnlyBelow(t, visited, visited', from))
    decreases nodes - visited
  {
    visited' := visited;
    if from == to {
      DepthStep(t, from);
      r := 0;
      return;
    }
    if to in mst[from] {
      AdjacentSym(es, from, to);
      NeighborDepth(es, nodes, t, to, from);
      DepthStep(t, from);
      r := 1;
      return;
    }
    var rest := mst[from];
    while rest != {}
      invariant rest <= mst[from] && visited <= visited' && mst[from] - rest <= visited'
      invariant to !in visited' && OnlyBelow(t, visited, visited', from)
      decreases |rest|
    {
      var j := PickOne(rest);
      if j !in visited' {
        HopStep(es, nodes, t, mst, visited, visited', from, j);
        var ret, after := HopCount(mst, j, to, visited' + {j}, es, nodes, t);
        if ret != -1 {
          DepthStep(t, from);
          r, visited' := 1 + ret, after;
          return;
        }
        BelowMore(es, nodes, t, visited, visited', after, from, j);
        visited' := after;
      }
      rest := rest - {j};
    }
    r := -1;
    StillCutOff(es, nodes, t, mst, visited, visited', from);
  }

  /** An unvisited neighbor is either the parent, with the way up open, or cut off. */
  lemma HopStep(es: seq<Link>, nodes: set<int>, t: Tree, mst: Neighbors, visited: set<int>,
                after: set<int>, x: int, j: int)
    requires Within(es, nodes) && Holds(mst, nodes, es) && IsForest(es) && IsTreeIn(es, t)
    requires x in nodes && x in visited && j in mst[x] && j !in after && visited <= after
    requires CutOff(t, visited, x) || (x in t.parent && WayUpOpen(t, visited, x))
    requires OnlyBelow(t, visited, after, x) && t.root !in after && j != t.root
    ensures j in nodes
    ensures CutOff(t, after + {j}, j) || (j in t.parent && WayUpOpen(t, after + {j}, j))
    ensures CutOff(t, visited, x) ==> CutOff(t, after + {j}, j)
    ensures !CutOff(t, after + {j}, j) ==> x in t.parent && x != t.root && t.parent[x] == j
    ensures CutOff(t, after + {j}, j) && j in t.parent ==> t.parent[j] == x
  {
    var e :| e in es && Ends(e, x, j);
    if x in t.parent {
      NeighborDepth(es, nodes, t, x, j);
      if t.parent[x] == j && !CutOff(t, visited, x) {
        WayUpFromParent(t, visited, after, x);
        ParentChain(t, j);
      }
    } else {
      OutsideNeighbor(es, nodes, t, x, j);
    }
  }

  lemma BelowMore(es: seq<Link>, nodes: set<int>, t: Tree, visited: set<int>,
                  before: set<int>, after: set<int>, x: int, j: int)
    requires IsForest(es) && IsTreeIn(es, t) && x in nodes && j in nodes && Adjacent(es, x, j)
    requires OnlyBelow(t, visited, before, x) && OnlyBelow(t, before + {j}, after, j) && before + {j} <= after
    requires j in t.parent ==> j != t.root && t.parent[j] == x
    ensures OnlyBelow(t, visited, after, x)
  {
    if x in t.parent {
      NeighborDepth(es, nodes, t, x, j);
    } else {
      OutsideNeighbor(es, nodes, t, x, j);
    }
    if j in t.parent { DepthStep(t, j); }
  }

  /** With every neighbor searched in vain, the search was cut off. */
  lemma StillCutOff(es: seq<Link>, nodes: set<int>, t: Tree, mst: Neighbors, visited: set<int>, after: set<int>, x: int)
    requires Holds(mst, nodes, es) && IsForest(es) && IsTreeIn(es, t) && x in nodes && x != t.root
    requires mst[x] <= after && OnlyBelow(t, visited, after, x)
    requires CutOff(t, visited, x) || (x in t.parent && WayUpOpen(t, visited, x))
    ensures CutOff(t, visited, x)
  {
    if !CutOff(t, visited, x) {
      WayUpFromParent(t, visited, after, x);
    }
  }
}
