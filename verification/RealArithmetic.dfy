/** Functions of reals, and sign and ratio facts about their products. */
module RealArithmetic {

  function Abs(r: real): real { if r < 0.0 then -r else r }

  function Lerp(a: real, b: real, t: real): real { a + (b - a) * t }

  /** The conversion of a floating-point number to an integer: towards zero. */
  function Truncated(r: real): int {
    if r >= 0.0 then r.Floor else -((-r).Floor)
  }

  lemma Distribute(a: real, b: real, c: real)
    ensures (a + b) * c == a * c + b * c
    ensures c * (a + b) == c * a + c * b
  {
  }

  lemma NonnegativeProduct(a: real, b: real)
    requires a >= 0.0 && b >= 0.0
    ensures a * b >= 0.0
  {
  }

  /** Multiplication by a positive factor keeps the order, both ways. */
  lemma Scale(a: real, b: real, d: real)
    requires d > 0.0
    ensures a < b <==> a * d < b * d
    ensures a == b <==> a * d == b * d
  {
    assert (b - a) * d == b * d - a * d;
    if a < b {
      assert (b - a) * d > 0.0;
    } else if a > b {
      assert (a - b) * d > 0.0;
      assert (a - b) * d == a * d - b * d;
    }
  }

  lemma NonzeroProduct(a: real, d: real)
    requires d != 0.0
    ensures a * d == 0.0 <==> a == 0.0
  {
    if d > 0.0 {
      Scale(a, 0.0, d);
    } else {
      Scale(a, 0.0, -d);
      assert a * -d == -(a * d);
    }
  }

  lemma Quotient(n: real, d: real)
    requires d != 0.0
    ensures (n / d) * d == n
  {
  }

  /** How a quotient compares with a bound. */
  lemma QuotientOrder(n: real, d: real, b: real)
    requires d > 0.0
    ensures n / d < b <==> n < b * d
    ensures n / d == b <==> n == b * d
  {
    Quotient(n, d);
    Scale(n / d, b, d);
  }

  lemma FlipQuotient(n: real, d: real)
    requires d != 0.0
    ensures n / d == -n / -d
  {
    Quotient(n, d);
    Quotient(-n, -d);
    assert (n / d - -n / -d) * d == 0.0;
    NonzeroProduct(n / d - -n / -d, d);
  }

  /** The quotient of two numbers of like sign, the divisor the larger one. */
  lemma ProperFraction(n: real, d: real)
    requires 0.0 <= n <= d || d <= n <= 0.0
    requires d != 0.0
    ensures 0.0 <= n / d <= 1.0
    ensures 0.0 < n < d || d < n < 0.0 ==> 0.0 < n / d < 1.0
  {
    if d > 0.0 {
      QuotientOrder(n, d, 0.0);
      QuotientOrder(n, d, 1.0);
    } else {
      FlipQuotient(n, d);
      QuotientOrder(-n, -d, 0.0);
      QuotientOrder(-n, -d, 1.0);
    }
  }

  lemma UnitQuotient(n: real, d: real)
    requires d != 0.0 && Abs(n) <= Abs(d)
    ensures -1.0 <= n / d <= 1.0
  {
    if d > 0.0 {
      QuotientOrder(n, d, -1.0);
      QuotientOrder(n, d, 1.0);
    } else {
      FlipQuotient(n, d);
      QuotientOrder(-n, -d, -1.0);
      QuotientOrder(-n, -d, 1.0);
    }
  }

  lemma ShrinkingFactorPositive(r: real, d: real)
    requires -1.0 <= r <= 1.0 && d > 0.0
    ensures -d <= r * d <= d
  {
    var t, u := r + 1.0, 1.0 - r;
    assert t * d >= 0.0 && t * d == r * d + d;
    assert u * d >= 0.0 && u * d == d - r * d;
  }

  /** Scaling by a factor of at most 1 does not lengthen. */
  lemma ShrinkingFactor(r: real, d: real)
    requires -1.0 <= r <= 1.0
    ensures -Abs(d) <= r * d <= Abs(d)
  {
    if d > 0.0 {
      ShrinkingFactorPositive(r, d);
    } else if d < 0.0 {
      var e := -d;
      ShrinkingFactorPositive(r, e);
      assert r * e == -(r * d);
    }
  }
}
