/** The all-pairs table that takes the entry of node y in the tree rooted at r from row r when y > r,
    and reads it backwards out of row y when y < r. */
module MixedTable {
  import opened Collections
  import opened Graphs
  import opened ShortestPathTree

  ghost predicate AllRows(g: Graph, rows: seq<seq<PLink>>) {
    Valid(g) && |rows| == g.n && forall x: nat :: x < g.n ==> IsTreeRow(g, x, rows[x])
  }

  /** The chain of row `root` from the root to y. */
  ghost function PathOf(g: Graph, root: nat, row: seq<PLink>, y: nat): (w: seq<nat>)
    requires IsTreeRow(g, root, row) && y < g.n && row[y].dist.Fin?
    ensures TreePath(g, root, row, y, w) && Len(g, w) == row[y].dist.v
  {
    assert EntryOk(g, root, row, y);
    var w :| TreePath(g, root, row, y, w) && Len(g, w) == row[y].dist.v;
    w
  }

  predicate Reached(rows: seq<seq<PLink>>, r: nat, y: nat)
    requires r < |rows| && y < |rows[r]|
  {
    rows[r][y].dist.Fin?
  }

  /** The parent of y in the tree of r, NIL when y is not in it. */
  ghost function MixedParent(g: Graph, rows: seq<seq<PLink>>, r: nat, y: nat): (p: int)
    requires AllRows(g, rows) && r < g.n && y < g.n
    ensures Reached(rows, r, y) ==> 0 <= p < g.n
  {
    DistSymmetric(g, rows, r, y);
    if y == r then r
    else if y > r then
      assert Reached(rows, r, y) ==>
          var w := PathOf(g, r, rows[r], y); |w| > 1 && rows[r][w[|w| - 1]].prev == w[|w| - 2];
      rows[r][y].prev
    else if !Reached(rows, y, r) then NIL
    else
      var w := PathOf(g, y, rows[y], r);
      assert |w| > 1;
      w[1]
  }

  /** The hop count stored for r and y, in both orders. */
  ghost function MixedHops(g: Graph, rows: seq<seq<PLink>>, r: nat, y: nat): int
    requires AllRows(g, rows) && r < g.n && y < g.n && Reached(rows, r, y)
  {
    DistSymmetric(g, rows, r, y);
    if y >= r then |PathOf(g, r, rows[r], y)| - 1 else |PathOf(g, y, rows[y], r)| - 1
  }

  lemma RowDistance(g: Graph, root: nat, row: seq<PLink>, y: nat)
    requires IsTreeRow(g, root, row) && y < g.n
    ensures IsDistance(g, root, y, row[y].dist)
    ensures row[y].dist.Fin? <==> Connected(g, root, y)
  {
    assert EntryOk(g, root, row, y);
  }

  lemma DistSymmetric(g: Graph, rows: seq<seq<PLink>>, x: nat, y: nat)
    requires AllRows(g, rows) && x < g.n && y < g.n
    ensures rows[x][y].dist == rows[y][x].dist
  {
    RowDistance(g, x, rows[x], y);
    RowDistance(g, y, rows[y], x);
    DistanceSymmetric(g, x, y, rows[x][y].dist);
    DistanceUnique(g, y, x, rows[x][y].dist, rows[y][x].dist);
  }

  lemma PrefixShortest(g: Graph, x: nat, y: nat, w: seq<nat>)
    requires IsShortest(g, x, y, w) && |w| > 1
    ensures var k := |w| - 1; IsShortest(g, x, w[k - 1], w[..k]) && Len(g, w) == Len(g, w[..k]) + g.wt[(w[k - 1], w[k])]
  {
    var k := |w| - 1;
    var a := w[..k];
    forall u | Joins(g, x, w[k - 1], u) ensures Len(g, a) <= Len(g, u) {
      var v := u + [w[k]];
      assert v[..|v| - 1] == u;
      assert Joins(g, x, y, v);
    }
  }

  lemma SuffixShortest(g: Graph, x: nat, y: nat, w: seq<nat>)
    requires IsShortest(g, x, y, w) && |w| > 1
    ensures IsShortest(g, w[1], y, w[1..]) && Len(g, w) == g.wt[(w[0], w[1])] + Len(g, w[1..])
  {
    var b := w[1..];
    LenCons(g, x, b);
    assert [x] + b == w;
    forall u | Joins(g, w[1], y, u) ensures Len(g, b) <= Len(g, u) {
      LenCons(g, x, u);
      assert Joins(g, x, y, [x] + u);
    }
  }

  /** A parent is one link away, and exactly that link nearer to the root. */
  lemma ParentIsOneLinkNearer(g: Graph, rows: seq<seq<PLink>>, r: nat, y: nat)
    requires AllRows(g, rows) && r < g.n && y < g.n && y != r && Reached(rows, r, y)
    ensures var p := MixedParent(g, rows, r, y);
      && 0 <= p < g.n && p != y && (p, y) in g.wt && Reached(rows, r, p)
      && rows[r][y].dist == Plus(rows[r][p].dist, g.wt[(p, y)])
  {
    if y > r {
      var w := PathOf(g, r, rows[r], y);
      PrefixShortest(g, r, y, w);
      var p := w[|w| - 2];
      RowDistance(g, r, rows[r], p);
    } else {
      DistSymmetric(g, rows, r, y);
      var w := PathOf(g, y, rows[y], r);
      SuffixShortest(g, y, r, w);
      RowDistance(g, w[1], rows[w[1]], r);
      DistSymmetric(g, rows, r, w[1]);
    }
  }

  /** w walks the parents of the tree of r from w[0] to r, where it stops. */
  ghost predicate ParentWalk(g: Graph, rows: seq<seq<PLink>>, r: nat, w: seq<nat>)
    requires AllRows(g, rows) && r < g.n
  {
    && |w| > 0 && w[|w| - 1] == r
    && (forall i :: 0 <= i < |w| ==> w[i] < g.n)
    && forall i :: 0 <= i < |w| - 1 ==> w[i] != r && MixedParent(g, rows, r, w[i]) == w[i + 1]
  }

  ghost function Nearer(g: Graph, row: seq<PLink>, y: nat): set<nat>
    requires |row| == g.n && y < g.n
  {
    set z: nat | z < g.n && Less(row[z].dist, row[y].dist)
  }

  lemma StepFirst(g: Graph, rows: seq<seq<PLink>>, r: nat, y: nat, v: seq<nat>)
    requires AllRows(g, rows) && r < g.n && y < g.n && y != r
    requires ParentWalk(g, rows, r, v) && v[0] == MixedParent(g, rows, r, y)
    requires Less(rows[r][v[0]].dist, rows[r][y].dist)
    requires forall i, j :: 0 <= i < j < |v| ==> Less(rows[r][v[j]].dist, rows[r][v[i]].dist)
    ensures ParentWalk(g, rows, r, [y] + v)
    ensures var w := [y] + v; forall i, j :: 0 <= i < j < |w| ==> Less(rows[r][w[j]].dist, rows[r][w[i]].dist)
  {
    var w := [y] + v;
    assert forall i :: 1 <= i < |w| ==> w[i] == v[i - 1];
  }

  /** With positive lengths, following parents from any node of the tree of r gets to r, by a shortest
      walk that visits no node twice. */
  lemma {:induction false} ParentWalkExists(g: Graph, rows: seq<seq<PLink>>, r: nat, y: nat) returns (w: seq<nat>)
    requires AllRows(g, rows) && Positive(g) && r < g.n && y < g.n && Reached(rows, r, y)
    ensures ParentWalk(g, rows, r, w) && w[0] == y && Joins(g, y, r, w) && Len(g, w) == rows[r][y].dist.v
    ensures forall i, j :: 0 <= i < j < |w| ==> Less(rows[r][w[j]].dist, rows[r][w[i]].dist)
    decreases |Nearer(g, rows[r], y)|
  {
    if y == r {
      w := [r];
    } else {
      ParentIsOneLinkNearer(g, rows, r, y);
      var p := MixedParent(g, rows, r, y);
      assert p in Nearer(g, rows[r], y);
      ProperSubsetSize(Nearer(g, rows[r], p), Nearer(g, rows[r], y), p);
      var v := ParentWalkExists(g, rows, r, p);
      w := [y] + v;
      LenCons(g, y, v);
      StepFirst(g, rows, r, y, v);
    }
  }

  lemma {:induction false} ParentWalkUnique(g: Graph, rows: seq<seq<PLink>>, r: nat, w: seq<nat>, v: seq<nat>)
    requires AllRows(g, rows) && r < g.n
    requires ParentWalk(g, rows, r, w) && ParentWalk(g, rows, r, v) && w[0] == v[0]
    ensures w == v
  {
    if |w| > 1 {
      ParentWalkUnique(g, rows, r, w[1..], v[1..]);
    }
  }

  /** The mixed table is, for every root, a genuine shortest-path tree: a node that can be walked to
      has exactly one parent walk, which ends at the root and is a shortest walk; the others have no
      parent. */
  lemma MixedIsShortestPathTree(g: Graph, rows: seq<seq<PLink>>, r: nat, y: nat)
    requires AllRows(g, rows) && Positive(g) && r < g.n && y < g.n
    ensures !Connected(g, y, r) <==> MixedParent(g, rows, r, y) == NIL
    ensures Connected(g, y, r) ==> exists w :: ParentWalk(g, rows, r, w) && w[0] == y
    ensures forall w :: ParentWalk(g, rows, r, w) && w[0] == y ==> IsShortest(g, y, r, w) && Simple(w)
  {
    RowDistance(g, y, rows[y], r);
    RowDistance(g, r, rows[r], y);
    DistSymmetric(g, rows, r, y);
    if Reached(rows, r, y) {
      var w := ParentWalkExists(g, rows, r, y);
      if y != r { ParentIsOneLinkNearer(g, rows, r, y); }
      forall v | ParentWalk(g, rows, r, v) && v[0] == y ensures IsShortest(g, y, r, v) && Simple(v) {
        ParentWalkUnique(g, rows, r, w, v);
      }
    } else {
      assert EntryOk(g, r, rows[r], y);
      forall v | ParentWalk(g, rows, r, v) && v[0] == y ensures false {
        NoParentWalk(g, rows, r, v);
      }
    }
  }

  lemma NoParentWalk(g: Graph, rows: seq<seq<PLink>>, r: nat, w: seq<nat>)
    requires AllRows(g, rows) && r < g.n && ParentWalk(g, rows, r, w)
    ensures Reached(rows, r, w[0])
  {
    if |w| > 1 {
      assert w[0] != r && MixedParent(g, rows, r, w[0]) == w[0 + 1];
      assert EntryOk(g, r, rows[r], w[0]);
      DistSymmetric(g, rows, r, w[0]);
    }
  }

  /** At most one walk without repeated nodes is shortest, for any two nodes. */
  ghost predicate UniqueShortest(g: Graph) {
    forall x: nat, y: nat, v, w :: IsShortest(g, x, y, v) && Simple(v) && IsShortest(g, x, y, w) && Simple(w) ==> v == w
  }

  /** When shortest paths are unique, going from x to y takes the same nodes as going from y to x, in
      the opposite order, and the stored hop count is the number of parent steps. */
  lemma UniquePathsAreSymmetric(g: Graph, rows: seq<seq<PLink>>, x: nat, y: nat, v: seq<nat>, w: seq<nat>)
    requires AllRows(g, rows) && Positive(g) && UniqueShortest(g) && x < g.n && y < g.n
    requires ParentWalk(g, rows, y, v) && v[0] == x && ParentWalk(g, rows, x, w) && w[0] == y
    ensures w == Reverse(v)
    ensures Reached(rows, x, y) && Reached(rows, y, x)
    ensures MixedHops(g, rows, x, y) == MixedHops(g, rows, y, x) == |v| - 1 == |w| - 1
  {
    MixedIsShortestPathTree(g, rows, y, x);
    MixedIsShortestPathTree(g, rows, x, y);
    ShortestReverse(g, x, y, v);
    assert IsShortest(g, y, x, Reverse(v)) && Simple(Reverse(v));
    NoParentWalk(g, rows, y, v);
    NoParentWalk(g, rows, x, w);
    if y >= x {
      var u := PathOf(g, x, rows[x], y);
      assert IsShortest(g, x, y, u) && Simple(u);
    } else {
      var u := PathOf(g, y, rows[y], x);
      assert IsShortest(g, y, x, u) && Simple(u);
    }
  }
}
