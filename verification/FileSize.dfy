/** Sizes that add up in unsigned words, and when a sum of chunk sizes tells how many chunks there are. */
module FileSize {

  const WORD: nat := 0x1_0000_0000

  ghost function Power(k: nat): (p: nat)
    ensures p > 0
  {
    if k == 0 then 1 else 2 * Power(k - 1)
  }

  /** The least number of chunks, above 0, whose sizes add up to 0 in k bits. */
  ghost function Period(size: nat, k: nat): (p: nat)
    ensures p > 0
  {
    if k == 0 then 1 else if size % 2 == 0 then Period(size / 2, k - 1) else Power(k)
  }

  lemma PowerIsWord()
    ensures Power(32) == WORD
  {
    assert Power(8) == 256;
    assert Power(16) == 256 * Power(8);
    assert Power(24) == 256 * Power(16);
    assert Power(32) == 256 * Power(24);
  }

  lemma Monotone(p: int, d: int)
    requires p > 0
    ensures d >= 1 ==> p * d >= p
    ensures d <= -1 ==> p * d <= -p
  {
    if d >= 1 { assert p * (d - 1) >= 0; }
    if d <= -1 { assert p * (-1 - d) >= 0; }
  }

  lemma RemainderIs(x: int, p: int, q: int, r: int)
    requires p > 0 && x == p * q + r && 0 <= r < p
    ensures x % p == r
  {
    var d := x / p - q;
    assert p * d == p * (x / p) - p * q;
    Monotone(p, d);
  }

  lemma Double(x: int, p: int)
    requires p > 0
    ensures 2 * x % (2 * p) == 0 <==> x % p == 0
  {
    var q, r := x / p, x % p;
    assert 2 * x == (2 * p) * q + 2 * r;
    RemainderIs(2 * x, 2 * p, q, 2 * r);
  }

  lemma OddRemainder(x: int, p: int)
    requires p > 0 && x % 2 == 1
    ensures x % (2 * p) % 2 == 1
  {
    var q := x / (2 * p);
    assert x == 2 * (p * q) + x % (2 * p);
  }

  lemma OddProduct(size: nat, m: nat)
    requires size % 2 == 1 && m % 2 == 1
    ensures size * m % 2 == 1
  {
    var a, b := size / 2, m / 2;
    assert size * m == (2 * a + 1) * (2 * b + 1) == 2 * (2 * (a * b) + a + b) + 1;
  }

  lemma {:induction false} OddMultiples(size: nat, m: nat, k: nat)
    requires size % 2 == 1
    ensures size * m % Power(k) == 0 <==> m % Power(k) == 0
    decreases k
  {
    if k == 0 {
    } else if m % 2 == 0 {
      EvenCase(size, m / 2, Power(k - 1));
      OddMultiples(size, m / 2, k - 1);
    } else {
      OddProduct(size, m);
      OddRemainder(size * m, Power(k - 1));
      OddRemainder(m, Power(k - 1));
    }
  }

  lemma EvenCase(size: nat, j: nat, p: nat)
    requires p > 0
    ensures size * (2 * j) % (2 * p) == 0 <==> size * j % p == 0
    ensures 2 * j % (2 * p) == 0 <==> j % p == 0
  {
    assert size * (2 * j) == 2 * (size * j);
    Double(size * j, p);
    Double(j, p);
  }

  lemma {:induction false} Multiples(size: nat, m: nat, k: nat)
    ensures size * m % Power(k) == 0 <==> m % Period(size, k) == 0
    decreases k
  {
    if k == 0 {
    } else if size % 2 == 0 {
      var h := size / 2;
      assert size * m == 2 * (h * m);
      Double(h * m, Power(k - 1));
      Multiples(h, m, k - 1);
    } else {
      OddMultiples(size, m, k);
    }
  }

  /** A size in one word, as the source keeps it. */
  function InWord(n: nat): nat {
    n % WORD
  }

  /** Equal sums in one word: the chunks that are missing add up to 0. */
  lemma SameWord(a: int, b: int)
    requires a <= b
    ensures a % WORD == b % WORD <==> (b - a) % WORD == 0
  {
  }

  /** The size received so far equals the size of the file, each in one word. */
  ghost predicate LooksComplete(size: nat, last: nat, count: nat) {
    InWord(size * count) == InWord(size * last)
  }

  lemma LooksCompleteAt(size: nat, count: nat, last: nat)
    requires count <= last
    ensures LooksComplete(size, last, count) <==> (last - count) % Period(size, 32) == 0
  {
    PowerIsWord();
    assert size * last - size * count == size * (last - count);
    Ordered(size, count, last);
    SameWord(size * count, size * last);
    Multiples(size, last - count, 32);
  }

  lemma Ordered(size: nat, count: nat, last: nat)
    requires count <= last
    ensures size * count <= size * last
  {
    assert size * (last - count) >= 0;
  }

  /**
   * The test of completion tells exactly whether all chunks are there, throughout a download, just if the
   * file has fewer chunks than the period of their size.
   */
  lemma CompletionTest(size: nat, last: nat)
    ensures (forall count :: 0 <= count <= last ==> (LooksComplete(size, last, count) <==> count == last))
      <==> last < Period(size, 32)
  {
    var p := Period(size, 32);
    if last >= p {
      LooksCompleteAt(size, last - p, last);
      RemainderIs(p, p, 1, 0);
      assert LooksComplete(size, last, last - p);
    } else {
      forall count | 0 <= count <= last ensures LooksComplete(size, last, count) <==> count == last {
        LooksCompleteAt(size, count, last);
        RemainderIs(last - count, p, 0, last - count);
      }
    }
  }

  /** The source asks only after data, when a chunk has been counted: there the test is right throughout a
      download just if the file has no more chunks than the period of their size. */
  lemma CompletionTestAfterData(size: nat, last: nat)
    ensures (forall count :: 1 <= count <= last ==> (LooksComplete(size, last, count) <==> count == last))
      <==> last <= Period(size, 32)
  {
    var p := Period(size, 32);
    if last > p {
      LooksCompleteAt(size, last - p, last);
      RemainderIs(p, p, 1, 0);
      assert LooksComplete(size, last, last - p);
    } else {
      forall count | 1 <= count <= last ensures LooksComplete(size, last, count) <==> count == last {
        LooksCompleteAt(size, count, last);
        RemainderIs(last - count, p, 0, last - count);
      }
    }
  }

  /** The file has fewer chunks than the period, or just as many and one has been counted. */
  ghost predicate Telling(size: nat, last: nat, count: nat) {
    last < Period(size, 32) || (last == Period(size, 32) && count > 0)
  }

  lemma TestHolds(size: nat, last: nat, count: nat)
    requires count <= last && Telling(size, last, count)
    ensures LooksComplete(size, last, count) <==> count == last
  {
    CompletionTest(size, last);
    CompletionTestAfterData(size, last);
  }

  /** A file of 65536 chunks of 65536 bits looks complete when nothing of it has arrived. */
  lemma EmptyLooksComplete()
    ensures LooksComplete(65536, 65536, 0)
  {
  }

  /** A file of 65537 chunks of 65536 bits looks complete after its first chunk. */
  lemma CompleteAfterFirst()
    ensures LooksComplete(65536, 65537, 1)
  {
  }
}
