/** The Haldane substrate-inhibition rate law
      rate(S) = S / (Ks + S + S^2/Ki)
    and its closed-form derivative with respect to the solute concentration S,
    over the reals as an idealisation of Java doubles. Both parameter-storage
    modes of the kinetic factor are specified in terms of Rate and Diff, so the
    formula is defined exactly once. */
module HaldaneLaw {
  import opened RealArith

  /** The Haldane denominator Ks + S + S^2/Ki. */
  function Denominator(ks: real, ki: real, s: real): real
    requires ki != 0.0
  {
    ks + s + Sq(s) / ki
  }

  /** The inputs for which the rate and its derivative involve no division by zero. */
  predicate Defined(ks: real, ki: real, s: real) {
    ki != 0.0 && Denominator(ks, ki, s) != 0.0
  }

  /** Physically meaningful inputs: positive half-saturation and inhibition
      concentrations and a non-negative solute concentration. */
  predicate Physical(ks: real, ki: real, s: real) {
    ks > 0.0 && ki > 0.0 && s >= 0.0
  }

  /** The rate is the number that, multiplied by the denominator, gives the solute. */
  function Rate(ks: real, ki: real, s: real): (r: real)
    requires Defined(ks, ki, s)
    ensures r * Denominator(ks, ki, s) == s
  {
    s / Denominator(ks, ki, s)
  }

  /** The closed-form derivative (Ks - S^2/Ki) / (Ks + S + S^2/Ki)^2: the number
      that, multiplied by the squared denominator, gives Ks - S^2/Ki. */
  function Diff(ks: real, ki: real, s: real): (d: real)
    requires Defined(ks, ki, s)
    ensures d * Sq(Denominator(ks, ki, s)) == ks - Sq(s) / ki
  {
    SqPositive(Denominator(ks, ki, s));
    (ks - Sq(s) / ki) / Sq(Denominator(ks, ki, s))
  }

  /** The derivative of the denominator with respect to S: 1 + 2S/Ki. */
  function DenominatorSlope(ki: real, s: real): real
    requires ki != 0.0
  {
    1.0 + 2.0 * s / ki
  }

  /** The quotient rule applied to S / D(S): (1 * D - S * D') / D^2. */
  function QuotientRule(ks: real, ki: real, s: real): real
    requires Defined(ks, ki, s)
  {
    SqPositive(Denominator(ks, ki, s));
    (1.0 * Denominator(ks, ki, s) - s * DenominatorSlope(ki, s)) / Sq(Denominator(ks, ki, s))
  }

  /** The slope of the secant of the rate curve between S and S + h, written
      as a rational function of h that stays defined at h = 0. */
  function SecantSlope(ks: real, ki: real, s: real, h: real): real
    requires Defined(ks, ki, s) && Defined(ks, ki, s + h)
  {
    (ks - s * (s + h) / ki) / (Denominator(ks, ki, s) * Denominator(ks, ki, s + h))
  }

  /** For physical inputs the denominator exceeds S by at least Ks, so the rate
      law is defined. */
  lemma DenominatorBound(ks: real, ki: real, s: real)
    requires Physical(ks, ki, s)
    ensures Defined(ks, ki, s)
    ensures Denominator(ks, ki, s) >= ks + s
  {
    SqNonNegative(s);
    QuotientNonNegative(Sq(s), ki);
  }

  /** No solute, no rate. */
  lemma RateAtZero(ks: real, ki: real)
    requires ks != 0.0 && ki != 0.0
    ensures Defined(ks, ki, 0.0)
    ensures Rate(ks, ki, 0.0) == 0.0
  {
  }

  /** For physical inputs the rate is a fraction in [0, 1), and never above
      the uninhibited (Monod) factor S / (Ks + S). */
  lemma RateBounds(ks: real, ki: real, s: real)
    requires Physical(ks, ki, s)
    ensures Defined(ks, ki, s)
    ensures 0.0 <= Rate(ks, ki, s) < 1.0
    ensures Rate(ks, ki, s) <= s / (ks + s)
  {
    DenominatorBound(ks, ki, s);
    var d := Denominator(ks, ki, s);
    assert Rate(ks, ki, s) == s / d;
    QuotientNonNegative(s, d);
    QuotientBelowOne(s, d);
    QuotientAntitone(s, ks + s, d);
  }

  /** Near S = 0 the law is linear with slope 1/Ks: Rate(S)/S lies below 1/Ks
      by at most S (1 + S/Ki) / Ks^2, a bound that vanishes as S tends to 0. */
  lemma RateLinearNearZero(ks: real, ki: real, s: real)
    requires Physical(ks, ki, s) && s > 0.0
    ensures Defined(ks, ki, s)
    ensures 0.0 <= 1.0 / ks - Rate(ks, ki, s) / s <= s * (1.0 + s / ki) / Sq(ks)
  {
    DenominatorBound(ks, ki, s);
    var d := Denominator(ks, ki, s);
    var e := s + Sq(s) / ki;
    DivMul(s, s, ki);
    assert e == s * (1.0 + s / ki);
    SqNonNegative(s);
    QuotientNonNegative(Sq(s), ki);
    DivCancel(s, d);
    assert Rate(ks, ki, s) / s == 1.0 / d;
    SubFractions(1.0, ks, 1.0, d);
    assert 1.0 / ks - 1.0 / d == e / (ks * d);
    assert ks * d - Sq(ks) == ks * e;
    ProductNonNegative(ks, e);
    SqPositive(ks);
    QuotientNonNegative(e, ks * d);
    QuotientAntitone(e, Sq(ks), ks * d);
  }

  /** The closed-form derivative is what the quotient rule gives for S / D(S). */
  lemma DiffIsQuotientRule(ks: real, ki: real, s: real)
    requires Defined(ks, ki, s)
    ensures Diff(ks, ki, s) == QuotientRule(ks, ki, s)
  {
    assert 1.0 * Denominator(ks, ki, s) - s * DenominatorSlope(ki, s) == ks - Sq(s) / ki;
  }

  /** The difference quotient of the rate between S and S + h equals the
      secant slope, a rational function of h, and the secant slope at h = 0 is
      the closed-form derivative. (That the secant slope is continuous at
      h = 0, and hence that Diff is the limit, is not stated here.) */
  lemma DiffIsSecantLimit(ks: real, ki: real, s: real, h: real)
    requires Defined(ks, ki, s) && Defined(ks, ki, s + h)
    ensures h != 0.0 ==> (Rate(ks, ki, s + h) - Rate(ks, ki, s)) / h == SecantSlope(ks, ki, s, h)
    ensures SecantSlope(ks, ki, s, 0.0) == Diff(ks, ki, s)
  {
    if h != 0.0 {
      SecantQuotient(ks, ki, s, h);
    }
    SecantAtZero(ks, ki, s);
  }

  lemma SecantAtZero(ks: real, ki: real, s: real)
    requires Defined(ks, ki, s)
    ensures Defined(ks, ki, s + 0.0)
    ensures SecantSlope(ks, ki, s, 0.0) == Diff(ks, ki, s)
  {
    var d0 := Denominator(ks, ki, s);
    var n := ks - Sq(s) / ki;
    assert s + 0.0 == s;
    assert Denominator(ks, ki, s + 0.0) == d0;
    assert ks - s * (s + 0.0) / ki == n;
    SqPositive(d0);
    assert Sq(d0) == d0 * d0;
    assert SecantSlope(ks, ki, s, 0.0) == n / (d0 * d0);
  }

  /** The cross-multiplied difference of the rates at S + h and at S. */
  lemma SecantNumerator(ks: real, ki: real, s: real, h: real)
    requires ki != 0.0
    ensures (s + h) * Denominator(ks, ki, s) - s * Denominator(ks, ki, s + h)
            == h * (ks - s * (s + h) / ki)
  {
  }

  lemma SecantQuotient(ks: real, ki: real, s: real, h: real)
    requires Defined(ks, ki, s) && Defined(ks, ki, s + h) && h != 0.0
    ensures (Rate(ks, ki, s + h) - Rate(ks, ki, s)) / h == SecantSlope(ks, ki, s, h)
  {
    var d0 := Denominator(ks, ki, s);
    var d1 := Denominator(ks, ki, s + h);
    var n := ks - s * (s + h) / ki;
    SecantNumerator(ks, ki, s, h);
    assert (s + h) * d0 - s * d1 == h * n;
    assert Rate(ks, ki, s + h) == (s + h) / d1;
    assert Rate(ks, ki, s) == s / d0;
    DifferenceQuotient(s, s + h, d0, d1, h, n);
    assert SecantSlope(ks, ki, s, h) == n / (d0 * d1);
  }

  /** The derivative is positive exactly below S^2 = Ks Ki, zero exactly there
      and negative above: the rate rises, peaks and then falls (substrate
      inhibition). */
  lemma DiffSign(ks: real, ki: real, s: real)
    requires Defined(ks, ki, s) && ki > 0.0
    ensures Diff(ks, ki, s) > 0.0 <==> Sq(s) < ks * ki
    ensures Diff(ks, ki, s) == 0.0 <==> Sq(s) == ks * ki
    ensures Diff(ks, ki, s) < 0.0 <==> Sq(s) > ks * ki
  {
    var d := Denominator(ks, ki, s);
    var q := Diff(ks, ki, s);
    var numerator := ks - Sq(s) / ki;
    SqPositive(d);
    SignOfProduct(q, Sq(d));
    assert numerator * ki == ks * ki - Sq(s);
    SignOfProduct(numerator, ki);
  }

  /** Where S^2 = Ks Ki the rate reaches its maximum over all non-negative
      concentrations. */
  lemma RatePeak(ks: real, ki: real, s: real, t: real)
    requires Physical(ks, ki, s) && t >= 0.0
    requires Sq(s) == ks * ki
    ensures Defined(ks, ki, s) && Defined(ks, ki, t)
    ensures Rate(ks, ki, t) <= Rate(ks, ki, s)
  {
    DenominatorBound(ks, ki, s);
    DenominatorBound(ks, ki, t);
    var ds := Denominator(ks, ki, s);
    var dt := Denominator(ks, ki, t);
    // with Ks Ki = S^2 the cross difference is S (S - T)^2 / Ki
    assert Sq(s) / ki == ks;
    assert s * dt - t * ds == s * Sq(s - t) / ki;
    SqNonNegative(s - t);
    ProductNonNegative(s, Sq(s - t));
    QuotientNonNegative(s * Sq(s - t), ki);
    CrossMultiply(t, dt, s, ds);
  }

  /** The worked example: Ks = 2, Ki = 50, S = 5 gives rate 2/3 and slope 2/75. */
  lemma WorkedExample()
    ensures Defined(2.0, 50.0, 5.0)
    ensures Rate(2.0, 50.0, 5.0) == 2.0 / 3.0
    ensures Diff(2.0, 50.0, 5.0) == 2.0 / 75.0
  {
  }
}
