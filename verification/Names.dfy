/** Names of contents, chunks and flows, as the source builds them from a content name and a number. */
module Names {

  function Digit(d: nat): char
    requires d < 10
  {
    "0123456789"[d]
  }

  /** The decimal digits that a string stream prints for n. */
  function Decimal(n: nat): (s: string)
    ensures |s| > 0
  {
    if n < 10 then [Digit(n)] else Decimal(n / 10) + [Digit(n % 10)]
  }

  function ChunkName(contentName: string, chunkId: nat): string {
    contentName + "/" + Decimal(chunkId)
  }

  function FlowName(contentName: string, port: nat): string {
    contentName + "/port:" + Decimal(port)
  }

  lemma {:induction false} DecimalHasNoSlash(n: nat)
    ensures forall i :: 0 <= i < |Decimal(n)| ==> Decimal(n)[i] != '/' && Decimal(n)[i] != ':'
  {
    if n >= 10 { DecimalHasNoSlash(n / 10); }
  }

  lemma {:induction false} DecimalInjective(m: nat, n: nat)
    requires Decimal(m) == Decimal(n)
    ensures m == n
    decreases m
  {
    var s, t := Decimal(m), Decimal(n);
    assert s[|s| - 1] == Digit(m % 10) && t[|t| - 1] == Digit(n % 10);
    if m >= 10 && n >= 10 {
      assert s[..|s| - 1] == Decimal(m / 10) && t[..|t| - 1] == Decimal(n / 10);
      DecimalInjective(m / 10, n / 10);
    }
  }

  /** What follows a separator is the whole tail only if the tail has no separator. */
  lemma ShorterTail(a: string, x: string, b: string, y: string, c: char)
    requires a + [c] + x == b + [c] + y && |x| < |y|
    ensures exists i :: 0 <= i < |y| && y[i] == c
  {
    var i := |a| - |b| - 1;
    assert (a + [c] + x)[|a|] == c;
    assert (b + [c] + y)[|a|] == y[i];
  }

  /** A string splits in one way at its last separator. */
  lemma LastSeparator(a: string, x: string, b: string, y: string, c: char)
    requires a + [c] + x == b + [c] + y
    requires (forall i :: 0 <= i < |x| ==> x[i] != c) && (forall i :: 0 <= i < |y| ==> y[i] != c)
    ensures a == b && x == y
  {
    if |x| < |y| { ShorterTail(a, x, b, y, c); }
    if |y| < |x| { ShorterTail(b, y, a, x, c); }
    var s, t := a + [c] + x, b + [c] + y;
    assert a == s[..|a|] && b == t[..|b|];
    assert x == s[|a| + 1..] && y == t[|b| + 1..];
  }

  /** Two chunks have the same name only if they are the same chunk of the same content. */
  lemma ChunkNameInjective(a: string, m: nat, b: string, n: nat)
    requires ChunkName(a, m) == ChunkName(b, n)
    ensures a == b && m == n
  {
    DecimalHasNoSlash(m);
    DecimalHasNoSlash(n);
    LastSeparator(a, Decimal(m), b, Decimal(n), '/');
    DecimalInjective(m, n);
  }

  /** Two flows have the same name only if they have the same content and port. */
  lemma FlowNameInjective(a: string, m: nat, b: string, n: nat)
    requires FlowName(a, m) == FlowName(b, n)
    ensures a == b && m == n
  {
    DecimalHasNoSlash(m);
    DecimalHasNoSlash(n);
    var p, q := a + "/port", b + "/port";
    assert FlowName(a, m) == p + [':'] + Decimal(m) && FlowName(b, n) == q + [':'] + Decimal(n);
    LastSeparator(p, Decimal(m), q, Decimal(n), ':');
    assert p[..|a|] == a && q[..|b|] == b;
    DecimalInjective(m, n);
  }
}
