/**
  Facts about real arithmetic that the geometry and the monitor share:
  monotonicity and cancellation of multiplication, signs of products and
  quotients, and the ceiling of a real.
*/
module Arith {

  lemma MulMonotone(x: real, y: real, c: real)
    requires x <= y && c >= 0.0
    ensures x * c <= y * c
  {
  }

  lemma MulStrict(x: real, y: real, c: real)
    requires x < y && c > 0.0
    ensures x * c < y * c
  {
  }

  lemma MulCancel(x: real, y: real, c: real)
    requires x * c <= y * c && c > 0.0
    ensures x <= y
  {
    if x > y {
      MulStrict(y, x, c);
    }
  }

  lemma MulBoth(x: real, y: real, c: real)
    requires x == y
    ensures x * c == y * c
  {
  }

  lemma MulCancelNonZero(x: real, y: real, c: real)
    requires x * c == y * c && c != 0.0
    ensures x == y
  {
    if c > 0.0 {
      MulCancel(x, y, c);
      MulCancel(y, x, c);
    } else {
      MulCancel(x, y, -c);
      MulCancel(y, x, -c);
    }
  }

  lemma PosMul(x: real, y: real)
    requires x > 0.0 && y > 0.0
    ensures x * y > 0.0
  {
  }

  /** A factor can be taken out of a quotient. */
  lemma MulDiv(p: real, b: real, y: real, u: real)
    requires u != 0.0 && p == b * y
    ensures p / u == b * (y / u)
  {
    var q := y / u;
    assert q * u == y;
    assert (b * q) * u == p;
    MulCancelNonZero(p / u, b * q, u);
  }

  lemma NonNegMul(x: real, y: real)
    requires x >= 0.0 && y >= 0.0
    ensures x * y >= 0.0
  {
  }

  /** Squaring is strictly increasing on the non-negative reals. */
  lemma SquareStrict(x: real, y: real)
    requires 0.0 <= x < y
    ensures x * x < y * y
  {
    PosMul(y - x, y + x);
    assert y * y - x * x == (y - x) * (y + x);
  }

  lemma QuotientPositive(x: real, d: real)
    requires x > 0.0 && d > 0.0
    ensures x / d > 0.0
  {
    var q := x / d;
    assert q * d == x;
    if q <= 0.0 {
      MulMonotone(q, 0.0, d);
    }
  }

  lemma QuotientAtLeastOne(x: real, d: real)
    requires d > 0.0 && x >= d
    ensures x / d >= 1.0
  {
    var q := x / d;
    assert q * d == x;
    if q < 1.0 {
      MulStrict(q, 1.0, d);
    }
  }

  /** Dividing twice by u and multiplying twice by u gives x back. */
  lemma DivideTwice(x: real, u: real)
    requires u != 0.0
    ensures x / u / u * u * u == x
  {
    var f1 := x / u;
    assert x / u / u * u == f1;
    assert f1 * u == x;
  }

  lemma DivideByLength(x: real, len: real)
    requires len > 0.0
    ensures x / len == 1.0 / len * x
  {
  }

  lemma InverseSquare(len: real)
    requires len > 0.0
    ensures 1.0 / len * (1.0 / len) * (len * len) == 1.0
  {
    var u := 1.0 / len;
    assert u * len == 1.0;
    MulBoth(u * len, 1.0, u * len);
    assert u * len * u * len == 1.0;
  }

  /** Consecutive fractions k / N and (k + 1) / N are 1 / N apart. */
  lemma FractionStep(k: real, N: real)
    requires N > 0.0
    ensures (k + 1.0) / N - k / N == 1.0 / N
  {
  }

  /** The smallest integer not below x (numpy's ceil). */
  function Ceil(x: real): (n: int)
    ensures x <= n as real < x + 1.0
  {
    -((-x).Floor)
  }

  lemma ShiftQuotient(a: real, d: real)
    requires d > 0.0
    ensures (a - d) / d == a / d - 1.0
  {
    var q := a / d;
    var p := (a - d) / d;
    assert q * d == a;
    assert p * d == a - d;
    assert (q - 1.0) * d == a - d;
    MulCancelNonZero(p, q - 1.0, d);
  }

  lemma QuotientBelowOne(x: real, d: real)
    requires 0.0 < x < d
    ensures x / d < 1.0
  {
    var q := x / d;
    assert q * d == x;
    if q >= 1.0 {
      MulMonotone(1.0, q, d);
    }
  }
}
