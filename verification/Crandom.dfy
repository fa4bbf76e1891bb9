/** The congruential generator, in the form that does without products beyond 32 bits. */
module Crandom {

  const MODULE: int := 2147483647
  const A: int := 16807
  const LASTXN: int := 127773
  const UPTOMOD: int := -2836
  /** A * INVERSE is 1 modulo MODULE. */
  const INVERSE: int := 1407677000

  /** Signed 32 bits: that every step is of this type says that no step overflows. */
  newtype int32 = x: int | -0x8000_0000 <= x < 0x8000_0000

  type Seed = x: int32 | 1 <= x <= 2147483646 witness 1

  /** The next number of the sequence. */
  function Rnd32(seed: Seed): (r: Seed)
    ensures r as int == A * seed as int % MODULE
  {
    var times: int32 := seed / 127773;
    var rest: int32 := seed - times * 127773;
    var prod1: int32 := times * -2836;
    var prod2: int32 := rest * 16807;
    var next: int32 := prod1 + prod2;
    Congruent(seed as int, times as int);
    if next < 0 then next + 2147483647 else next
  }

  lemma Residue(x: int, k: int)
    requires 0 <= x < MODULE
    ensures (x + MODULE * k) % MODULE == x
  {
  }

  /** The sum of the two products is the product less a multiple of the module, and never a multiple of it. */
  lemma Congruent(seed: int, times: int)
    requires 1 <= seed < MODULE && times == seed / LASTXN
    ensures var s := times * UPTOMOD + (seed - times * LASTXN) * A;
      && -MODULE < s < MODULE && s != 0
      && A * seed % MODULE == if s < 0 then s + MODULE else s
  {
    var s := times * UPTOMOD + (seed - times * LASTXN) * A;
    assert s == A * seed - MODULE * times;
    var r := if s < 0 then s + MODULE else s;
    var k := if s < 0 then times - 1 else times;
    assert A * seed == r + MODULE * k;
    NoMultiple(seed, times);
    Residue(r, k);
  }

  lemma NoMultiple(seed: int, k: int)
    requires 1 <= seed < MODULE
    ensures A * seed != MODULE * k
  {
    // If the product were a multiple, so would be seed.
    var t := INVERSE * k - 11017 * seed;
    assert seed == MODULE * t + INVERSE * (A * seed - MODULE * k);
  }

  function Previous(r: Seed): (seed: Seed)
    ensures seed as int == INVERSE * r as int % MODULE
  {
    ProductNotZero(r as int);
    (INVERSE * r as int % MODULE) as int32
  }

  lemma ProductNotZero(r: int)
    requires 1 <= r < MODULE
    ensures INVERSE * r % MODULE != 0
  {
    var q := INVERSE * r / MODULE;
    var t := A * q - 11017 * r;
    assert r == MODULE * t + A * (INVERSE * r - MODULE * q);
  }

  /** The generator is a bijection on its seeds: each has one successor and one predecessor. */
  lemma Bijection(x: Seed)
    ensures Previous(Rnd32(x)) == x && Rnd32(Previous(x)) == x
  {
    var n := x as int;
    var r, q := A * n % MODULE, A * n / MODULE;
    assert INVERSE * r == n + MODULE * (11017 * n - INVERSE * q);
    Residue(n, 11017 * n - INVERSE * q);
    var p, k := INVERSE * n % MODULE, INVERSE * n / MODULE;
    assert A * p == n + MODULE * (11017 * n - A * k);
    Residue(n, 11017 * n - A * k);
  }

  lemma Injective(x: Seed, y: Seed)
    requires Rnd32(x) == Rnd32(y)
    ensures x == y
  {
    Bijection(x);
    Bijection(y);
  }
}
