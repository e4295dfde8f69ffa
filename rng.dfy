/**
  The deterministic piece generator: a linear congruential step with GCC's
  constants, and the scaling of a hash to a piece-catalog number.
  Arithmetic is on mathematical integers (see README for the difference from
  the double-precision original).
*/
module Rng {

  const Modulus: int := 0x8000_0000   // 2^31
  const Multiplier: int := 1103515245
  const Increment: int := 12345

  /**
    The remainder of the source language's `%`: it truncates towards zero,
    so it takes the sign of the dividend (Dafny's `%` is Euclidean).
  */
  function TruncRem(a: int, b: int): (r: int)
    requires b > 0
    ensures a >= 0 ==> 0 <= r < b
    ensures a < 0 ==> -b < r <= 0
    ensures (a - r) % b == 0
  {
    if a >= 0 then
      assert a - a % b == b * (a / b);
      RemainderOfMultiple(b, a / b);
      a % b
    else
      assert a + (-a) % b == b * -((-a) / b);
      RemainderOfMultiple(b, -((-a) / b));
      -((-a) % b)
  }

  /** A multiple of `b` leaves no remainder. */
  lemma RemainderOfMultiple(b: int, k: int)
    requires b > 0
    ensures (b * k) % b == 0
  {
    var q, m := (b * k) / b, (b * k) % b;
    assert b * (k - q) == m;
    ProductBounds(b, k - q);
  }

  /** A positive factor keeps a non-zero integer at least that far from zero. */
  lemma ProductBounds(b: int, x: int)
    requires b > 0
    ensures x >= 1 ==> b * x >= b
    ensures x <= -1 ==> b * x <= -b
  {
    if x >= 1 {
      assert b * x == b + b * (x - 1);
    } else if x <= -1 {
      assert b * x == -b + b * (x + 1);
    }
  }

  /** One step of the generator: (a * seed + c) rem m. */
  function Hash(seed: int): (r: int)
    ensures seed >= 0 ==> 0 <= r < Modulus
  {
    TruncRem(Multiplier * seed + Increment, Modulus)
  }

  /** Scales a hash to a catalog number: floor(7 * h / (m - 1)) + 1. */
  function Scale(h: int): (r: int)
    ensures 0 <= h < Modulus - 1 ==> 1 <= r <= 7
    ensures h == Modulus - 1 ==> r == 8
  {
    (7 * h) / (Modulus - 1) + 1
  }

  /** The first value generated from seed 0. */
  lemma HashOfZero()
    ensures Hash(0) == 12345
  {
  }

  /** Scale is non-decreasing in the hash. */
  lemma ScaleMonotone(h1: int, h2: int)
    requires h1 <= h2
    ensures Scale(h1) <= Scale(h2)
  {
    var q1, q2 := (7 * h1) / (Modulus - 1), (7 * h2) / (Modulus - 1);
    assert 7 * h1 == (Modulus - 1) * q1 + (7 * h1) % (Modulus - 1);
    assert 7 * h2 == (Modulus - 1) * q2 + (7 * h2) % (Modulus - 1);
  }

  /**
    The hash range contains m - 1, which the exact generator reaches (from
    seed 230538014), and Scale maps it to 8: outside the catalog's 1..7.
  */
  lemma ScaleLeavesCatalogAtTop()
    ensures Hash(230538014) == Modulus - 1
    ensures Scale(Hash(230538014)) == 8
  {
  }
}
