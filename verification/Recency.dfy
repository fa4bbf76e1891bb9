/** Least recently used replacement on plain sequences: the last element is the one used last. */
module Recency {

  datatype Chunk = Chunk(name: string, id: nat, size: nat)

  /** Sizes are in bits, capacity in thousands of bits. */
  function Units(c: Chunk): nat {
    c.size / 1000
  }

  ghost function Weight(s: seq<Chunk>): nat {
    if s == [] then 0 else Units(s[0]) + Weight(s[1..])
  }

  ghost predicate Distinct(s: seq<Chunk>) {
    forall i, j :: 0 <= i < j < |s| ==> s[i] != s[j]
  }

  ghost function Minus(s: seq<Chunk>, c: Chunk): seq<Chunk> {
    if s == [] then [] else if s[0] == c then s[1..] else [s[0]] + Minus(s[1..], c)
  }

  /** A use of c moves it to the back. */
  ghost function Used(s: seq<Chunk>, c: Chunk): seq<Chunk> {
    Minus(s, c) + [c]
  }

  /** What is left when chunks go from the front until there is room for need more. */
  ghost function Room(s: seq<Chunk>, need: nat, limit: nat): seq<Chunk> {
    if s == [] || Weight(s) + need <= limit then s else Room(s[1..], need, limit)
  }

  ghost function Searched(s: seq<Chunk>, c: Chunk): seq<Chunk> {
    if c in s then Used(s, c) else s
  }

  ghost function Added(s: seq<Chunk>, c: Chunk, limit: nat): seq<Chunk> {
    if c in s then Used(s, c) else Room(s, Units(c), limit) + [c]
  }

  lemma {:induction false} WeightConcat(a: seq<Chunk>, b: seq<Chunk>)
    ensures Weight(a + b) == Weight(a) + Weight(b)
  {
    if a == [] {
      assert a + b == b;
    } else {
      assert (a + b)[1..] == a[1..] + b;
      WeightConcat(a[1..], b);
    }
  }

  /** Eviction takes the shortest prefix that makes room. */
  lemma {:induction false} RoomIsShortest(s: seq<Chunk>, need: nat, limit: nat) returns (k: nat)
    requires need <= limit
    ensures k <= |s| && Room(s, need, limit) == s[k..] && Weight(s[k..]) + need <= limit
    ensures forall j :: 0 <= j < k ==> Weight(s[j..]) + need > limit
  {
    if s == [] || Weight(s) + need <= limit {
      k := 0;
    } else {
      var k' := RoomIsShortest(s[1..], need, limit);
      k := k' + 1;
      assert s[1..][k'..] == s[k..];
      forall j | 0 <= j < k ensures Weight(s[j..]) + need > limit {
        if j > 0 { assert s[1..][j - 1..] == s[j..]; }
      }
    }
  }

  lemma {:induction false} MinusAt(s: seq<Chunk>, i: nat)
    requires i < |s| && Distinct(s)
    ensures Minus(s, s[i]) == s[..i] + s[i + 1..]
  {
    if i == 0 {
      assert s[..0] + s[1..] == s[1..];
    } else {
      var rest := s[1..];
      assert s[0] != s[i] && rest[i - 1] == s[i];
      MinusAt(rest, i - 1);
      assert Minus(s, s[i]) == [s[0]] + Minus(rest, s[i]);
      TakenFromRest(s, i);
    }
  }

  lemma TakenFromRest(s: seq<Chunk>, i: nat)
    requires 0 < i < |s|
    ensures s[..i] + s[i + 1..] == [s[0]] + (s[1..][..i - 1] + s[1..][i..])
  {
  }

  lemma {:induction false} MinusAbsent(s: seq<Chunk>, c: Chunk)
    requires c !in s
    ensures Minus(s, c) == s
  {
    if s != [] { MinusAbsent(s[1..], c); }
  }

  lemma {:induction false} MinusMembers(s: seq<Chunk>, c: Chunk)
    requires Distinct(s)
    ensures forall x :: x in Minus(s, c) <==> x in s && x != c
  {
    if s != [] && s[0] != c { MinusMembers(s[1..], c); }
  }

  lemma {:induction false} MinusDistinct(s: seq<Chunk>, c: Chunk)
    requires Distinct(s)
    ensures Distinct(Minus(s, c))
  {
    if s != [] && s[0] != c {
      MinusDistinct(s[1..], c);
      MinusMembers(s[1..], c);
      assert forall i :: 0 < i < |Minus(s, c)| ==> Minus(s, c)[i] in Minus(s[1..], c);
    }
  }

  lemma {:induction false} MinusWeight(s: seq<Chunk>, c: Chunk)
    requires c in s
    ensures Weight(Minus(s, c)) + Units(c) == Weight(s)
  {
    if s[0] != c {
      MinusWeight(s[1..], c);
      assert Minus(s, c)[1..] == Minus(s[1..], c);
    }
  }

  lemma {:induction false} MinusConcat(a: seq<Chunk>, b: seq<Chunk>, c: Chunk)
    requires c !in a || c !in b
    ensures Minus(a + b, c) == Minus(a, c) + Minus(b, c)
  {
    if a == [] {
      assert a + b == b;
    } else if a[0] == c {
      assert (a + b)[1..] == a[1..] + b;
      MinusAbsent(b, c);
    } else {
      assert (a + b)[1..] == a[1..] + b;
      MinusConcat(a[1..], b, c);
    }
  }

  lemma UsedDistinct(s: seq<Chunk>, c: Chunk)
    requires Distinct(s)
    ensures Distinct(Used(s, c))
    ensures forall x :: x in Used(s, c) <==> x in s || x == c
  {
    MinusDistinct(s, c);
    MinusMembers(s, c);
    var m := Minus(s, c);
    assert forall i :: 0 <= i < |m| ==> Used(s, c)[i] == m[i] && m[i] in m;
  }

  lemma UsedWeight(s: seq<Chunk>, c: Chunk)
    requires c in s
    ensures Weight(Used(s, c)) == Weight(s)
  {
    MinusWeight(s, c);
    WeightConcat(Minus(s, c), [c]);
  }

  // The store against the history of all uses.

  /** s is the longest run of last used chunks of h that fits. */
  ghost predicate LongestFit(h: seq<Chunk>, s: seq<Chunk>, limit: nat) {
    && |s| <= |h| && s == h[|h| - |s|..]
    && Weight(s) <= limit
    && (|s| < |h| ==> Weight(h[|h| - |s| - 1..]) > limit)
  }

  lemma FitParts(h: seq<Chunk>, s: seq<Chunk>, limit: nat) returns (p: seq<Chunk>)
    requires LongestFit(h, s, limit)
    ensures h == p + s && Weight(s) <= limit
    ensures p != [] ==> Units(p[|p| - 1]) + Weight(s) > limit
  {
    p := h[..|h| - |s|];
    if p != [] {
      var t := h[|h| - |s| - 1..];
      assert t[1..] == s && t[0] == p[|p| - 1];
    }
  }

  lemma FitFrom(p: seq<Chunk>, s: seq<Chunk>, limit: nat)
    requires Weight(s) <= limit && (p != [] ==> Units(p[|p| - 1]) + Weight(s) > limit)
    ensures LongestFit(p + s, s, limit)
  {
    var h := p + s;
    assert h[|p|..] == s;
    if p != [] {
      var t := h[|p| - 1..];
      assert t == [p[|p| - 1]] + s && t[1..] == s;
    }
  }

  lemma DistinctParts(p: seq<Chunk>, s: seq<Chunk>, c: Chunk)
    requires Distinct(p + s) && c in s
    ensures c !in p && Distinct(s)
  {
    var h := p + s;
    var j :| 0 <= j < |s| && s[j] == c;
    assert h[|p| + j] == c;
    assert forall i :: 0 <= i < |p| ==> h[i] == p[i];
    assert forall i :: 0 <= i < |s| ==> s[i] == h[|p| + i];
  }

  lemma FrontDistinct(p: seq<Chunk>, s: seq<Chunk>)
    requires Distinct(p + s)
    ensures Distinct(p)
  {
    assert forall i :: 0 <= i < |p| ==> (p + s)[i] == p[i];
  }

  lemma UsedBehind(p: seq<Chunk>, s: seq<Chunk>, c: Chunk)
    requires c !in p
    ensures Used(p + s, c) == p + Used(s, c)
  {
    MinusConcat(p, s, c);
    MinusAbsent(p, c);
  }

  lemma UsedBefore(p: seq<Chunk>, s: seq<Chunk>, c: Chunk, k: nat)
    requires c !in s && k <= |s|
    ensures Used(p + s, c) == (Minus(p, c) + s[..k]) + (s[k..] + [c])
  {
    MinusConcat(p, s, c);
    MinusAbsent(s, c);
    assert s == s[..k] + s[k..];
  }

  /** A hit. */
  lemma HitKeepsFit(h: seq<Chunk>, s: seq<Chunk>, c: Chunk, limit: nat)
    requires LongestFit(h, s, limit) && Distinct(h) && c in s
    ensures LongestFit(Used(h, c), Used(s, c), limit) && Distinct(Used(h, c))
  {
    var p := FitParts(h, s, limit);
    DistinctParts(p, s, c);
    UsedBehind(p, s, c);
    UsedDistinct(h, c);
    UsedWeight(s, c);
    FitFrom(p, Used(s, c), limit);
  }

  lemma {:induction false} LastWeight(s: seq<Chunk>, k: nat)
    requires k < |s|
    ensures Weight(s[k..]) == Units(s[k]) + Weight(s[k + 1..])
  {
    assert s[k..][1..] == s[k + 1..];
  }

  /** The last chunk of p, after c is taken out, still does not fit together with s and c. */
  lemma StillTooMuch(p: seq<Chunk>, s: seq<Chunk>, c: Chunk, limit: nat)
    requires p != [] && Minus(p, c) != []
    requires Units(p[|p| - 1]) + Weight(s) > limit
    ensures Units(Minus(p, c)[|Minus(p, c)| - 1]) + Weight(s) + Units(c) > limit
  {
    MinusLast(p, c);
  }

  /** Taking c out leaves the last chunk the last one, unless it was c. */
  lemma {:induction false} MinusLast(p: seq<Chunk>, c: Chunk)
    requires p != [] && Minus(p, c) != []
    ensures p[|p| - 1] == c || Minus(p, c)[|Minus(p, c)| - 1] == p[|p| - 1]
  {
    if p[0] != c && |p| > 1 {
      if Minus(p[1..], c) == [] {
        assert p[1..][0] == c && |p[1..]| == 1;
      } else {
        MinusLast(p[1..], c);
      }
    }
  }

  /** A chunk that is not in the store. */
  lemma MissKeepsFit(h: seq<Chunk>, s: seq<Chunk>, c: Chunk, limit: nat)
    requires LongestFit(h, s, limit) && Distinct(h) && c !in s && Units(c) <= limit
    ensures LongestFit(Used(h, c), Added(s, c, limit), limit) && Distinct(Used(h, c))
  {
    var p := FitParts(h, s, limit);
    UsedDistinct(h, c);
    FrontDistinct(p, s);
    var k := RoomIsShortest(s, Units(c), limit);
    MissFits(p, s, c, k, limit);
    UsedBefore(p, s, c, k);
    FitFrom(Minus(p, c) + s[..k], s[k..] + [c], limit);
  }

  lemma MissFits(p: seq<Chunk>, s: seq<Chunk>, c: Chunk, k: nat, limit: nat)
    requires Distinct(p) && k <= |s| && (p != [] ==> Units(p[|p| - 1]) + Weight(s) > limit)
    requires Weight(s[k..]) + Units(c) <= limit
    requires k > 0 ==> Weight(s[k - 1..]) + Units(c) > limit
    ensures var front, kept := Minus(p, c) + s[..k], s[k..] + [c];
      Weight(kept) <= limit && (front != [] ==> Units(front[|front| - 1]) + Weight(kept) > limit)
  {
    WeightConcat(s[k..], [c]);
    if k > 0 {
      LastWeight(s, k - 1);
    } else if Minus(p, c) != [] {
      StillTooMuch(p, s, c, limit);
    }
  }

  datatype Access = Search(c: Chunk) | Add(c: Chunk)

  /** What is stored, and the order of all uses so far. */
  datatype Cache = Cache(stored: seq<Chunk>, used: seq<Chunk>)

  const EMPTY := Cache([], [])

  /** A search that misses is no use. */
  ghost function Step(s: Cache, a: Access, limit: nat): Cache {
    match a
    case Search(c) => Cache(Searched(s.stored, c), if c in s.stored then Used(s.used, c) else s.used)
    case Add(c) => Cache(Added(s.stored, c, limit), Used(s.used, c))
  }

  ghost function Run(s: Cache, uses: seq<Access>, limit: nat): Cache
    decreases |uses|
  {
    if uses == [] then s else Run(Step(s, uses[0], limit), uses[1..], limit)
  }

  ghost predicate HoldsLastUsed(s: Cache, limit: nat) {
    LongestFit(s.used, s.stored, limit) && Distinct(s.used)
  }

  /** In every run the store holds the longest run of last used chunks that fits, in order of use. */
  lemma {:induction false} StoreIsLongestFit(s: Cache, uses: seq<Access>, limit: nat)
    requires HoldsLastUsed(s, limit) && forall a :: a in uses ==> Units(a.c) <= limit
    ensures HoldsLastUsed(Run(s, uses, limit), limit)
    decreases |uses|
  {
    if uses != [] {
      var a := uses[0];
      if a.c in s.stored {
        HitKeepsFit(s.used, s.stored, a.c, limit);
      } else if a.Add? {
        MissKeepsFit(s.used, s.stored, a.c, limit);
      }
      StoreIsLongestFit(Step(s, a, limit), uses[1..], limit);
    }
  }

  /** t ends with all of s. */
  ghost predicate EndsWith(t: seq<Chunk>, s: seq<Chunk>) {
    |s| <= |t| && s == t[|t| - |s|..]
  }

  /** A larger store holds all that a smaller one holds, after the same additions. */
  lemma LargerHoldsMore(uses: seq<Access>, small: nat, large: nat)
    requires small <= large && forall a :: a in uses ==> a.Add? && Units(a.c) <= small
    ensures EndsWith(Run(EMPTY, uses, large).stored, Run(EMPTY, uses, small).stored)
  {
    StoreIsLongestFit(EMPTY, uses, small);
    StoreIsLongestFit(EMPTY, uses, large);
    SameHistory(EMPTY, EMPTY, uses, small, large);
    var a, b := Run(EMPTY, uses, small), Run(EMPTY, uses, large);
    LargerFits(a.used, a.stored, b.stored, small, large);
  }

  lemma LargerFits(h: seq<Chunk>, s: seq<Chunk>, t: seq<Chunk>, small: nat, large: nat)
    requires LongestFit(h, s, small) && LongestFit(h, t, large) && small <= large
    ensures EndsWith(t, s)
  {
    var i, j := |h| - |s|, |h| - |t|;
    if i < j {
      SuffixLighter(h, i, j - 1);
    } else {
      assert h[j..][i - j..] == h[i..];
    }
  }

  lemma {:induction false} SuffixLighter(h: seq<Chunk>, i: nat, j: nat)
    requires i <= j <= |h|
    ensures Weight(h[j..]) <= Weight(h[i..])
    decreases j - i
  {
    if i < j {
      LastWeight(h, i);
      SuffixLighter(h, i + 1, j);
    }
  }

  lemma {:induction false} SameHistory(s: Cache, t: Cache, uses: seq<Access>, small: nat, large: nat)
    requires s.used == t.used && forall a :: a in uses ==> a.Add?
    ensures Run(s, uses, small).used == Run(t, uses, large).used
    decreases |uses|
  {
    if uses != [] {
      assert uses[0] in uses;
      SameHistory(Step(s, uses[0], small), Step(t, uses[0], large), uses[1..], small, large);
    }
  }
}
