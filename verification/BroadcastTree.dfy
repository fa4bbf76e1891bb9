/** The tree of one issuer, as the routing nodes see it: getParent and getChildren. */
module BroadcastTree {

  /** parent maps every node of the tree to its parent, and the root to itself. */
  datatype Tree = Tree(root: int, parent: map<int, int>)

  function Children(t: Tree, x: int): set<int> {
    set y | y in t.parent && y != t.root && t.parent[y] == x
  }

  /** w goes from w[0] up to the root by parents, and stops there. */
  ghost predicate Chain(t: Tree, w: seq<int>) {
    && |w| > 0 && w[|w| - 1] == t.root
    && forall i :: 0 <= i < |w| - 1 ==> w[i] != t.root && w[i] in t.parent && t.parent[w[i]] == w[i + 1]
  }

  ghost predicate HasChain(t: Tree, y: int) {
    exists w :: Chain(t, w) && w[0] == y
  }

  /** Every node of the tree gets to the root by following parents. */
  ghost predicate IsTree(t: Tree) {
    && t.root in t.parent && t.parent[t.root] == t.root
    && forall y {:trigger HasChain(t, y)} :: y in t.parent ==> t.parent[y] in t.parent && HasChain(t, y)
  }

  ghost function ChainOf(t: Tree, y: int): (w: seq<int>)
    requires IsTree(t) && y in t.parent
    ensures Chain(t, w) && w[0] == y
  {
    assert HasChain(t, y);
    var w :| Chain(t, w) && w[0] == y;
    w
  }

  /** The number of parent steps from y to the root. */
  ghost function Depth(t: Tree, y: int): nat
    requires IsTree(t) && y in t.parent
  {
    |ChainOf(t, y)| - 1
  }

  lemma {:induction false} ChainUnique(t: Tree, v: seq<int>, w: seq<int>)
    requires Chain(t, v) && Chain(t, w) && v[0] == w[0]
    ensures v == w
  {
    if |v| > 1 {
      ChainUnique(t, v[1..], w[1..]);
    }
  }

  lemma DepthStep(t: Tree, y: int)
    requires IsTree(t) && y in t.parent
    ensures Depth(t, t.root) == 0
    ensures y != t.root ==> t.parent[y] in t.parent && Depth(t, y) == Depth(t, t.parent[y]) + 1
  {
    var w := ChainOf(t, y);
    assert HasChain(t, y);
    ChainUnique(t, ChainOf(t, t.root), [t.root]);
    if y != t.root {
      assert w[0] in t.parent && t.parent[w[0]] == w[0 + 1];
      ChainUnique(t, w[1..], ChainOf(t, t.parent[y]));
    }
  }
}
