/** Small facts about products and quotients of reals that the solver does
    not find on its own; the colour conversions are built from them. */
module Arith {

  lemma MulNonneg(a: real, b: real)
    requires 0.0 <= a && 0.0 <= b
    ensures 0.0 <= a * b
  {
  }

  /** Scaling by a fraction never enlarges a non-negative quantity. */
  lemma MulAtMost(x: real, y: real)
    requires 0.0 <= x <= 1.0 && 0.0 <= y
    ensures 0.0 <= x * y <= y
  {
    MulNonneg(x, y);
    MulNonneg(1.0 - x, y);
    assert (1.0 - x) * y == y - x * y;
  }

  /** A quotient of integers 0 <= n < m lies in [0, 1). */
  lemma Fraction(n: int, m: int)
    requires 0 <= n < m
    ensures 0.0 <= n as real / m as real < 1.0
  {
    var x := n as real / m as real;
    assert x * m as real == n as real;
  }

  lemma MulPositive(a: real, b: real)
    requires 0.0 < a && 0.0 < b
    ensures 0.0 < a * b
  {
  }

  /** Multiplying by a non-negative factor keeps an order. */

  /** A quotient of 0 <= a <= b by b > 0 is a fraction. */
  lemma Quotient(a: real, b: real)
    requires 0.0 <= a <= b && 0.0 < b
    ensures 0.0 <= a / b <= 1.0
  {
    var q := a / b;
    assert q * b == a;
    if q < 0.0 {
      MulPositive(-q, b);
    }
    if q > 1.0 {
      MulPositive(q - 1.0, b);
    }
  }

  lemma DivMulCancel(a: real, b: real)
    requires b != 0.0
    ensures a / b * b == a
  {
  }

  lemma DivCancel(a: real, b: real)
    requires b != 0.0
    ensures a * b / b == a
  {
  }
}
