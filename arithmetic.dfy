/**
 * Integer and rational arithmetic the fixed-point model is stated in:
 * powers of ten, C++'s truncating integer division, and the rational
 * number n / d together with the few identities the proofs use.
 */
module Arithmetic {

  function Pow10(n: nat): (r: nat)
    ensures r >= 1
  {
    if n == 0 then 1 else 10 * Pow10(n - 1)
  }

  lemma {:induction false} Pow10Add(m: nat, n: nat)
    ensures Pow10(m + n) == Pow10(m) * Pow10(n)
  {
    if n > 0 {
      Pow10Add(m, n - 1);
      calc {
        Pow10(m + n);
        10 * Pow10(m + (n - 1));
        10 * (Pow10(m) * Pow10(n - 1));
        { MulCommutes3(10, Pow10(m), Pow10(n - 1)); }
        Pow10(m) * (10 * Pow10(n - 1));
      }
    }
  }

  lemma MulCommutes3(x: int, y: int, z: int)
    ensures x * (y * z) == y * (x * z)
  {
  }

  function Abs(n: int): nat { if n < 0 then -n else n }

  function Max(a: nat, b: nat): nat { if a >= b then a else b }

  function Min(a: nat, b: nat): nat { if a <= b then a else b }

  predicate IsDigit(c: char) { '0' <= c <= '9' }

  /** The character of decimal digit d. */
  function DigitChar(d: nat): (c: char)
    requires d < 10
    ensures IsDigit(c) && c as int - '0' as int == d
  {
    ('0' as int + d) as char
  }

  /** The rational number n / d. */
  ghost function Ratio(n: int, d: int): real
    requires d != 0
  {
    n as real / d as real
  }

  /** q is x with its fractional part dropped: x truncated toward zero. */
  ghost predicate TowardZero(x: real, q: int)
  {
    if x >= 0.0 then q as real <= x < q as real + 1.0
    else q as real - 1.0 < x <= q as real
  }

  /** At most one integer is x truncated toward zero, so a TowardZero contract fixes its result. */
  lemma TowardZeroUnique(x: real, q1: int, q2: int)
    requires TowardZero(x, q1) && TowardZero(x, q2)
    ensures q1 == q2
  {
  }

  /** C++ integer division `n / d`: the quotient truncated toward zero. */
  function TruncDiv(n: int, d: int): (q: int)
    requires d != 0
    ensures TowardZero(Ratio(n, d), q)
  {
    var m := Abs(n) / Abs(d);
    NatQuotientBounds(Abs(n), Abs(d));
    SignedRatio(n, d);
    if (n >= 0) == (d > 0) then m else -m
  }

  // ---------------------------------------------------------------------
  // Identities on Ratio. Each is proved on plain reals so that callers
  // only substitute equals for equals.

  lemma CastProduct(x: int, y: int)
    ensures (x * y) as real == x as real * y as real
  {
  }

  lemma MulMonotone(a: real, b: real, k: real)
    requires k > 0.0
    ensures a < b <==> a * k < b * k
  {
  }

  lemma RealQuotientBounds(m: real, k: real, q: real, r: real)
    requires k > 0.0 && m == q * k + r && 0.0 <= r < k
    ensures q <= m / k < q + 1.0
  {
    var x := m / k;
    assert x * k == m;
    MulMonotone(q, x, k);
    MulMonotone(x, q + 1.0, k);
  }

  lemma NatQuotientBounds(m: nat, k: nat)
    requires k > 0
    ensures (m / k) as real <= Ratio(m, k) < (m / k) as real + 1.0
  {
    var q, r := m / k, m % k;
    CastProduct(q, k);
    RealQuotientBounds(m as real, k as real, q as real, r as real);
  }

  lemma SignedRatio(n: int, d: int)
    requires d != 0
    ensures (n >= 0) == (d > 0) ==> Ratio(n, d) == Ratio(Abs(n), Abs(d))
    ensures (n >= 0) != (d > 0) ==> Ratio(n, d) == -Ratio(Abs(n), Abs(d))
  {
  }

  lemma RatioNonzero(n: int, d: int)
    requires n != 0 && d != 0
    ensures Ratio(n, d) != 0.0
  {
  }

  lemma RatioScale(v: int, c: int, d: int)
    requires c > 0 && d > 0
    ensures c * d > 0
    ensures Ratio(v * c, c * d) == Ratio(v, d)
  {
    var x := v as real / d as real;
    assert x * d as real == v as real;
    CastProduct(c, d);
    CastProduct(v, c);
    assert x * (c * d) as real == (v * c) as real;
  }

  lemma RatioSum(x: int, y: int, d: int)
    requires d > 0
    ensures Ratio(x + y, d) == Ratio(x, d) + Ratio(y, d)
  {
  }

  lemma RatioDifference(x: int, y: int, d: int)
    requires d > 0
    ensures Ratio(x - y, d) == Ratio(x, d) - Ratio(y, d)
  {
  }

  lemma RatioOrder(x: int, y: int, d: int)
    requires d > 0
    ensures x < y <==> Ratio(x, d) < Ratio(y, d)
    ensures x == y <==> Ratio(x, d) == Ratio(y, d)
    ensures x > y <==> Ratio(x, d) > Ratio(y, d)
  {
    var rx, ry := x as real / d as real, y as real / d as real;
    assert rx * d as real == x as real;
    assert ry * d as real == y as real;
    MulMonotone(rx, ry, d as real);
    MulMonotone(ry, rx, d as real);
  }

  lemma RatioProduct(x: int, y: int, c: int, d: int)
    requires c > 0 && d > 0
    ensures c * d > 0
    ensures Ratio(x * y, c * d) == Ratio(x, c) * Ratio(y, d)
  {
    var u, w := x as real / c as real, y as real / d as real;
    assert u * c as real == x as real;
    assert w * d as real == y as real;
    assert (u * w) * (c as real * d as real) == x as real * y as real;
    CastProduct(c, d);
    CastProduct(x, y);
  }

  /** (x / pa) / (y / pb) * ps == (x * pb * ps) / (y * pa) */
  lemma RatioQuotient(x: int, y: int, pa: int, pb: int, ps: int)
    requires pa > 0 && pb > 0 && ps > 0 && y != 0
    ensures y * pa != 0 && Ratio(y, pb) != 0.0
    ensures Ratio(x, pa) / Ratio(y, pb) * ps as real == Ratio(x * (pb * ps), y * pa)
  {
    CastProduct(pb, ps);
    CastProduct(x, pb * ps);
    CastProduct(y, pa);
    RealQuotientOfQuotients(x as real, pa as real, y as real, pb as real, ps as real);
  }

  lemma RealQuotientOfQuotients(va: real, pa: real, vb: real, pb: real, ps: real)
    requires pa > 0.0 && pb > 0.0 && vb != 0.0
    ensures vb / pb != 0.0
    ensures (va / pa) / (vb / pb) * ps == (va * (pb * ps)) / (vb * pa)
  {
    var ra, rb := va / pa, vb / pb;
    assert ra * pa == va;
    assert rb * pb == vb;
    var lhs := ra / rb * ps;
    assert lhs * rb == ra * ps;
    assert lhs * (vb * pa) == lhs * rb * pb * pa;
    assert lhs * (vb * pa) == va * (pb * ps);
  }
}
