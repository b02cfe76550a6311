/** Small facts about real arithmetic used by the rate-law proofs. The solver
    reasons poorly about the sign of a square, so squares are kept behind Sq
    and their sign is established once here, from a product of two distinct
    factors. */
module RealArith {

  /** The square of a number, as the utility `ExtraMath.sq` computes it. */
  function Sq(x: real): real { x * x }

  function Product(a: real, b: real): real { a * b }

  lemma ProductPositive(a: real, b: real)
    requires a > 0.0 && b > 0.0
    ensures Product(a, b) > 0.0
  {
  }

  lemma ProductNonNegative(a: real, b: real)
    requires a >= 0.0 && b >= 0.0
    ensures a * b >= 0.0
  {
  }

  lemma SqNonNegative(x: real)
    ensures Sq(x) >= 0.0
  {
  }

  lemma SqPositive(x: real)
    requires x != 0.0
    ensures Sq(x) > 0.0
  {
    if x < 0.0 {
      assert Sq(x) == Product(-x, -x);
      ProductPositive(-x, -x);
    } else {
      assert Sq(x) == Product(x, x);
      ProductPositive(x, x);
    }
  }

  /** A quotient is the one number that gives the dividend when multiplied by the divisor. */
  lemma DivUnique(z: real, n: real, m: real)
    requires m != 0.0 && z * m == n
    ensures z == n / m
  {
  }

  lemma DivMul(a: real, b: real, c: real)
    requires c != 0.0
    ensures a * (b / c) == (a * b) / c
  {
    var q := b / c;
    assert (a * q) * c == a * (q * c);
    DivUnique(a * q, a * b, c);
  }

  /** (a / b) / a == 1 / b */
  lemma DivCancel(a: real, b: real)
    requires a != 0.0 && b != 0.0
    ensures (a / b) / a == 1.0 / b
  {
    DivMul(a, 1.0, b);
    DivUnique(1.0 / b, a * (1.0 / b), a);
  }

  /** ((h * n) / m) / h == n / m */
  lemma CancelFactor(h: real, n: real, m: real)
    requires h != 0.0 && m != 0.0
    ensures ((h * n) / m) / h == n / m
  {
    DivMul(h, n, m);
    DivUnique(n / m, h * (n / m), h);
  }

  /** Dividing the cross-multiplied difference of two fractions by h. */
  lemma DifferenceQuotient(x0: real, x1: real, d0: real, d1: real, h: real, n: real)
    requires d0 != 0.0 && d1 != 0.0 && h != 0.0
    requires x1 * d0 - x0 * d1 == h * n
    ensures (x1 / d1 - x0 / d0) / h == n / (d0 * d1)
  {
    SubFractions(x1, d1, x0, d0);
    assert d1 * d0 == d0 * d1;
    assert x1 / d1 - x0 / d0 == (h * n) / (d0 * d1);
    CancelFactor(h, n, d0 * d1);
  }

  lemma SubFractions(a: real, b: real, c: real, d: real)
    requires b != 0.0 && d != 0.0
    ensures a / b - c / d == (a * d - c * b) / (b * d)
  {
    var x, y := a / b, c / d;
    assert x * b == a && y * d == c;
    assert (x - y) * (b * d) == (x * b) * d - (y * d) * b;
    DivUnique(x - y, a * d - c * b, b * d);
  }

  lemma QuotientNonNegative(a: real, b: real)
    requires a >= 0.0 && b > 0.0
    ensures a / b >= 0.0
  {
  }

  lemma QuotientBelowOne(a: real, b: real)
    requires 0.0 <= a < b
    ensures a / b < 1.0
  {
  }

  lemma QuotientAntitone(a: real, b: real, c: real)
    requires a >= 0.0 && 0.0 < b <= c
    ensures a / c <= a / b
  {
  }

  lemma SignOfProduct(q: real, p: real)
    requires p > 0.0
    ensures q * p > 0.0 <==> q > 0.0
    ensures q * p == 0.0 <==> q == 0.0
    ensures q * p < 0.0 <==> q < 0.0
  {
  }

  lemma CrossMultiply(a: real, b: real, c: real, d: real)
    requires b > 0.0 && d > 0.0 && a * d <= c * b
    ensures a / b <= c / d
  {
  }
}
