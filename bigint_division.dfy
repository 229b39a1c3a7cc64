/**
 * Division of arbitrary-precision integers as JavaScript's `bigint` performs
 * it: the quotient is truncated toward zero, so the remainder takes the sign
 * of the dividend. Dafny's own `/` on `int` is Euclidean (the remainder is
 * never negative). The two agree for every non-negative dividend and on
 * every exact division, and differ when the dividend is negative and the
 * division is not exact, so the truncating quotient is defined here
 * explicitly.
 */
module BigIntDivision {

  function Abs(x: int): nat
  {
    if x < 0 then -x else x
  }

  /** The product of two integers has the product of their magnitudes as magnitude. */
  lemma AbsMul(x: int, y: int)
    ensures Abs(x * y) == Abs(x) * Abs(y)
  {
    if x < 0 && y < 0 {
      assert x * y == (-x) * (-y);
    } else if x < 0 {
      assert x * y == -((-x) * y);
    } else if y < 0 {
      assert x * y == -(x * (-y));
    }
  }

  lemma MulLeMono(a: int, b: int, c: int)
    requires a <= b && 0 <= c
    ensures a * c <= b * c
  {
    assert b * c - a * c == (b - a) * c;
  }

  lemma MulLtCancel(a: int, b: int, c: int)
    requires 0 < c && a * c < b * c
    ensures a < b
  {
    if b <= a {
      MulLeMono(b, a, c);
    }
  }

  /** The only multiple of `b` that is smaller than `b` in magnitude is zero. */
  lemma SmallMultipleIsZero(k: int, b: int)
    requires b != 0
    requires Abs(k * b) < Abs(b)
    ensures k == 0
  {
    AbsMul(k, b);
    if k != 0 {
      MulLeMono(1, Abs(k), Abs(b));
    }
  }

  /** The quotient and remainder of Euclidean division of naturals. */
  lemma EuclidBounds(n: nat, d: nat)
    requires 0 < d
    ensures 0 <= (n / d) * d <= n < (n / d) * d + d
  {
  }

  /**
   * `a / b` on `bigint`: the quotient truncated toward zero. Its meaning: the
   * multiple `q * b` lies between zero and `a` (inclusive), and what is left
   * over, `a - q * b`, is smaller than `b` in magnitude.
   */
  function TruncDiv(a: int, b: int): (q: int)
    requires b != 0
    ensures 0 <= q * b <= a || a <= q * b <= 0
    ensures Abs(a - q * b) < Abs(b)
  {
    var m := Abs(a) / Abs(b);
    EuclidBounds(Abs(a), Abs(b));
    if (a < 0) == (b < 0) then
      assert m * b == if b < 0 then -(m * Abs(b)) else m * Abs(b);
      m
    else
      assert (-m) * b == if b < 0 then m * Abs(b) else -(m * Abs(b));
      -m
  }

  /**
   * The two properties in TruncDiv's contract determine the quotient: any
   * `q` that has them is the truncated quotient.
   */
  lemma TruncDivUnique(a: int, b: int, q: int)
    requires b != 0
    requires 0 <= q * b <= a || a <= q * b <= 0
    requires Abs(a - q * b) < Abs(b)
    ensures q == TruncDiv(a, b)
  {
    var r := TruncDiv(a, b);
    assert (r - q) * b == (a - q * b) - (a - r * b);
    SmallMultipleIsZero(r - q, b);
  }

  /**
   * For a non-negative dividend truncation agrees with Dafny's Euclidean
   * division, whatever the divisor's sign.
   */
  lemma TruncDivNonNegative(a: int, b: int)
    requires 0 <= a && b != 0
    ensures TruncDiv(a, b) == a / b
  {
    var q := a / b;
    assert a == q * b + a % b && 0 <= a % b < Abs(b);
    TruncDivUnique(a, b, q);
  }

  /** For a negative dividend and an inexact division the two quotients differ by one. */
  lemma TruncDivNegativeInexact(a: int, b: int)
    requires a < 0 && b != 0 && a % b != 0
    ensures TruncDiv(a, b) == a / b + (if b > 0 then 1 else -1)
  {
    var q := a / b + (if b > 0 then 1 else -1);
    assert a == (a / b) * b + a % b && 0 < a % b < Abs(b);
    assert q * b == (a / b) * b + Abs(b);
    TruncDivUnique(a, b, q);
  }

  /**
   * Floor quotients by `d` of two dividends less than `e <= d` apart differ
   * by at most one.
   */
  lemma QuotientsOfCloseDividends(m: int, p: int, e: int, d: int, x: int, y: int)
    requires 0 < e <= d
    requires p - e < m <= p
    requires d * x <= m < d * (x + 1)
    requires d * y <= p < d * (y + 1)
    ensures y - 1 <= x <= y
  {
    MulLtCancel(x, y + 1, d);
    assert d * (y - 1) == d * y - d;
    MulLtCancel(y - 1, x + 1, d);
  }
}
