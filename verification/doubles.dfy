/** Products of a non-negative integer with a binary64 constant, truncated by `int(...)`,
    as Python evaluates `int(w * 0.35)`: the double constant is `m / 2^e` exactly, the product
    `w * m / 2^e` is rounded to the nearest double (53 significant bits, ties to even), and
    the truncation of the rounded value is taken. */
module Doubles {

  function Pow2(n: nat): (p: nat)
    ensures p >= 1
  {
    if n == 0 then 1 else 2 * Pow2(n - 1)
  }

  /** The number of binary digits of n (0 for 0). */
  function BitLength(n: nat): nat {
    if n == 0 then 0 else 1 + BitLength(n / 2)
  }

  /** n has k binary digits exactly when 2^(k-1) <= n < 2^k. */
  lemma {:induction false} BitLengthIs(n: nat, k: nat)
    requires 1 <= k && Pow2(k - 1) <= n < Pow2(k)
    ensures BitLength(n) == k
  {
    if k > 1 {
      BitLengthIs(n / 2, k - 1);
    }
  }

  /** 2^(a + b) = 2^a * 2^b. */
  lemma {:induction false} Pow2Add(a: nat, b: nat)
    ensures Pow2(a + b) == Pow2(a) * Pow2(b)
  {
    if a > 0 {
      Pow2Add(a - 1, b);
    }
  }

  /** 2^a <= 2^b for a <= b. */
  lemma {:induction false} Pow2Monotone(a: nat, b: nat)
    requires a <= b
    ensures Pow2(a) <= Pow2(b)
  {
    if a < b {
      Pow2Monotone(a, b - 1);
    }
  }

  /** A positive n with k binary digits lies in [2^(k-1), 2^k). */
  lemma {:induction false} BitLengthBounds(n: nat)
    requires n > 0
    ensures BitLength(n) >= 1 && Pow2(BitLength(n) - 1) <= n < Pow2(BitLength(n))
  {
    if n > 1 {
      BitLengthBounds(n / 2);
    }
  }

  /** The nearest double to the natural number p: p keeps its 53 leading binary digits, and
      the dropped part rounds to nearest, ties to even. */
  function RoundToDouble(p: nat): nat {
    if BitLength(p) > 53 then
      var k: nat := BitLength(p) - 53;
      RoundToUnit(p, Pow2(k), Pow2(k - 1))
    else
      p
  }

  /** p rounded to a multiple of unit = 2 * half: up exactly when the remainder is above
      half, or at half with an odd quotient (ties to even). */
  function RoundToUnit(p: nat, unit: nat, half: nat): nat
    requires unit > 0
  {
    var q, rem := NatDiv(p, unit), p % unit;
    var up := rem > half || (rem == half && q % 2 == 1);
    NatMul(if up then q + 1 else q, unit)
  }

  /** Rounding is exact below 2^53, and otherwise moves p by at most half a unit in the last
      place, which is at most p / 2^53. */
  lemma RoundError(p: nat)
    ensures p < Pow2(53) ==> RoundToDouble(p) == p
    ensures (RoundToDouble(p) - p) * Pow2(53) <= p
    ensures (p - RoundToDouble(p)) * Pow2(53) <= p
  {
    if BitLength(p) > 53 {
      BitLengthBounds(p);
      Pow2Monotone(53, BitLength(p) - 1);
      RoundErrorLong(p, BitLength(p) - 53);
    } else {
      assert (RoundToDouble(p) - p) * Pow2(53) == 0;
      assert (p - RoundToDouble(p)) * Pow2(53) == 0;
    }
  }

  /** A number of 53 + k digits, k >= 1, is rounded to a multiple of 2^k. */
  lemma RoundErrorLong(p: nat, k: nat)
    requires k >= 1 && BitLength(p) == k + 53 && Pow2(k + 52) <= p
    ensures (RoundToDouble(p) - p) * Pow2(53) <= p
    ensures (p - RoundToDouble(p)) * Pow2(53) <= p
  {
    Pow2Add(k - 1, 53);
    assert RoundToDouble(p) == RoundToUnit(p, Pow2(k), Pow2(k - 1));
    RoundNearest(p, Pow2(k), Pow2(k - 1), Pow2(53));
  }

  /** Rounding to a multiple of unit = 2 * half moves p by at most half, hence by at most
      p / n when half * n <= p. */
  lemma RoundNearest(p: nat, unit: nat, half: nat, n: nat)
    requires unit > 0 && unit == 2 * half && half * n <= p
    ensures (RoundToUnit(p, unit, half) - p) * n <= p && (p - RoundToUnit(p, unit, half)) * n <= p
  {
    var d := RoundToUnit(p, unit, half);
    var q, rem := p / unit, p % unit;
    assert p == q * unit + rem;
    if rem > half || (rem == half && q % 2 == 1) {
      assert (q + 1) * unit == q * unit + unit;
      assert 0 <= d - p <= half;
      MulMonotone(d - p, half, n);
      MulMonotone(p - d, 0, n);
    } else {
      assert 0 <= p - d <= half;
      MulMonotone(p - d, half, n);
      MulMonotone(d - p, 0, n);
    }
  }

  /** a <= b gives a * c <= b * c for c >= 0. */
  lemma MulMonotone(a: int, b: int, c: int)
    requires a <= b && c >= 0
    ensures a * c <= b * c
  {
  }

  /** `int(w * c)` for the double c = m / 2^e: the product `w * m` is rounded to a double and
      the quotient by 2^e is truncated. The result is the exact floor of `w * m / 2^e` while
      `w * m` is below 2^53, and otherwise lies within a relative 2^-53 of it. */
  function TruncatedProduct(w: nat, m: nat, e: nat): (r: nat)
    ensures w * m < Pow2(53) ==> r == w * m / Pow2(e)
    ensures r * Pow2(e) * Pow2(53) <= w * m * (Pow2(53) + 1)
    ensures w * m * (Pow2(53) - 1) < (r + 1) * Pow2(e) * Pow2(53)
  {
    var p := w * m;
    var d := RoundToDouble(p);
    RoundError(p);
    QuotientBounds(p, d, Pow2(e), Pow2(53));
    NatDiv(d, Pow2(e))
  }

  /** Truncating d / u, for d within p / n of p, stays within a relative 1 / n of p / u. */
  lemma QuotientBounds(p: nat, d: nat, u: nat, n: nat)
    requires u > 0 && n > 0
    requires (d - p) * n <= p && (p - d) * n <= p
    ensures d / u * u * n <= p * (n + 1)
    ensures p * (n - 1) < (d / u + 1) * u * n
  {
    var r := d / u;
    assert r * u <= d < (r + 1) * u;
    MulMonotone(r * u, d, n);
    MulMonotone(d, (r + 1) * u, n);
    assert d * n < (r + 1) * u * n by {
      assert (r + 1) * u * n - d * n == ((r + 1) * u - d) * n;
    }
    assert d * n - p * n == (d - p) * n;
    assert p * n - d * n == (p - d) * n;
  }

  /** The binary64 constant 0.35, as 6305039478318694 / 2^54 (slightly below 0.35: it is
      0.35 - 0.4 / 2^54). */
  const Point35: nat := 6305039478318694
  const Point35Exp: nat := 54

  /** A width bound (2^48) far beyond any image, under which the rounding error of
      `w * 0.35` stays below a hundredth. */
  const WidthBound: nat := 0x1_0000_0000_0000

  lemma Pow2Values()
    ensures Pow2(53) == 9007199254740992 && Pow2(54) == 18014398509481984
  {
    Pow2Add(27, 27);
    Pow2Add(26, 27);
    Pow2Add(13, 13);
    Pow2Add(13, 14);
    assert Pow2(13) == 8192;
  }

  /** Below the width bound, `int(w * 0.35)` is the floor of 35% of w or one less. */
  lemma Point35Floor(w: nat)
    ensures w < WidthBound ==>
      w * 35 / 100 - 1 <= TruncatedProduct(w, Point35, Point35Exp) <= w * 35 / 100
  {
    if w < WidthBound {
      Pow2Values();
      var r := TruncatedProduct(w, Point35, Point35Exp);
      assert r * 18014398509481984 * 9007199254740992 <= w * 6305039478318694 * 9007199254740993;
      assert w * 6305039478318694 * 9007199254740991 < (r + 1) * 18014398509481984 * 9007199254740992;
    }
  }

  function NatMul(a: nat, b: nat): nat {
    a * b
  }

  function NatDiv(a: nat, b: nat): nat
    requires b > 0
  {
    a / b
  }

  /** The double product of 180 and 0.35 is 62.99999999999999 (the exact product lies just
      below 63 and rounds down), so `int(180 * 0.35)` is 62, whereas 35% of 180 is 63. */
  lemma Width180Counterexample()
    ensures TruncatedProduct(180, Point35, Point35Exp) == 62
    ensures 180 * 35 / 100 == 63
  {
    assert Pow2(10) == 1024;
    assert Pow2(20) == 1048576;
    assert Pow2(30) == 1073741824;
    assert Pow2(40) == 1099511627776;
    assert Pow2(50) == 1125899906842624;
    assert Pow2(54) == 18014398509481984;
    assert Pow2(59) == 576460752303423488;
    assert Pow2(60) == 1152921504606846976;
    var p := 180 * Point35;
    assert p == 1134907106097364920;
    BitLengthIs(p, 60);
    assert Pow2(7) == 128 && Pow2(6) == 64;
    assert p / 128 == 8866461766385663 && p % 128 == 56;
  }
}
