/**
 * Conversions between the two usual parameterisations of a beta
 * distribution: its shape parameters (a, b) and its mode and
 * concentration. Python floats are modelled as exact reals.
 */
module Stats {

  /** The shape parameters, alpha and beta. */
  datatype Shape = Shape(a: real, b: real)

  /** The mode and the concentration. */
  datatype ModeConcentration = ModeConcentration(mode: real, concentration: real)

  /** The outcome of a conversion guarded by an `assert`. */
  datatype Checked<T> = Ok(value: T) | AssertionFailed

  /** `beta_a_b_from_mode_concentration`: (mode, concentration) to (a, b). It checks nothing. */
  function BetaABFromModeConcentration(mode: real, concentration: real): (r: Shape)
    // the concentration is shared out between the two shape parameters
    ensures r.a + r.b == concentration
    // the mode is the share of a - 1 in a + b - 2, as for a beta distribution's mode
    ensures r.a - 1.0 == mode * (r.a + r.b - 2.0)
    ensures r.b - 1.0 == (1.0 - mode) * (r.a + r.b - 2.0)
  {
    Shape(mode * (concentration - 2.0) + 1.0, (1.0 - mode) * (concentration - 2.0) + 1.0)
  }

  /**
   * `beta_mode_concentration_from_a_b`: (a, b) to (mode, concentration);
   * the assertion `a > 1 and b > 1` fails otherwise.
   */
  function BetaModeConcentrationFromAB(a: real, b: real): (r: Checked<ModeConcentration>)
    ensures r.Ok? <==> a > 1.0 && b > 1.0
    ensures r.Ok? ==> r.value.concentration == a + b && r.value.concentration > 2.0
    ensures r.Ok? ==> 0.0 < r.value.mode < 1.0
    ensures r.Ok? ==> r.value.mode * (r.value.concentration - 2.0) == a - 1.0
  {
    if a > 1.0 && b > 1.0 then
      QuotientInUnitInterval(a - 1.0, a + b - 2.0);
      Ok(ModeConcentration((a - 1.0) / (a + b - 2.0), a + b))
    else
      AssertionFailed
  }

  lemma QuotientInUnitInterval(x: real, y: real)
    requires 0.0 < x < y
    ensures 0.0 < x / y < 1.0
    ensures x / y * y == x
  {
    var q := x / y;
    assert q * y == x;
    assert y / y == 1.0;
    assert x / y < y / y;
  }

  lemma CancelFactor(x: real, y: real)
    requires y != 0.0
    ensures x * y / y == x
  {
  }

  /** For a concentration above 2, the shape parameters both exceed 1 exactly when the mode is strictly inside (0, 1). */
  lemma ForwardMeetsInverseGuard(mode: real, concentration: real)
    requires concentration > 2.0
    ensures var s := BetaABFromModeConcentration(mode, concentration);
      s.a > 1.0 && s.b > 1.0 <==> 0.0 < mode < 1.0
  {
    var k := concentration - 2.0;
    var s := BetaABFromModeConcentration(mode, concentration);
    var rest := 1.0 - mode;
    assert s.a - 1.0 == mode * k && s.b - 1.0 == rest * k;
    PositiveProduct(mode, k);
    PositiveProduct(rest, k);
  }

  lemma PositiveProduct(x: real, y: real)
    requires y > 0.0
    ensures x * y > 0.0 <==> x > 0.0
  {
    if x > 0.0 {
      assert x * y > 0.0 * y;
    } else {
      assert x * y <= 0.0 * y;
    }
  }

  /** Converting (mode, concentration) to (a, b) and back gives back (mode, concentration). */
  lemma RoundTripFromModeConcentration(mode: real, concentration: real)
    requires 0.0 < mode < 1.0 && concentration > 2.0
    ensures var s := BetaABFromModeConcentration(mode, concentration);
      BetaModeConcentrationFromAB(s.a, s.b) == Ok(ModeConcentration(mode, concentration))
  {
    ForwardMeetsInverseGuard(mode, concentration);
    var s := BetaABFromModeConcentration(mode, concentration);
    var k := concentration - 2.0;
    assert s.a + s.b - 2.0 == k;
    assert s.a - 1.0 == mode * k;
    CancelFactor(mode, k);
  }

  /** For a concentration above 2, the round trip succeeds exactly when the mode is strictly inside (0, 1). */
  lemma RoundTripSucceedsIffModeInside(mode: real, concentration: real)
    requires concentration > 2.0
    ensures var s := BetaABFromModeConcentration(mode, concentration);
      BetaModeConcentrationFromAB(s.a, s.b).Ok? <==> 0.0 < mode < 1.0
  {
    ForwardMeetsInverseGuard(mode, concentration);
  }

  /** Converting (a, b) to (mode, concentration) and back gives back (a, b). */
  lemma RoundTripFromShape(a: real, b: real)
    requires a > 1.0 && b > 1.0
    ensures var mc := BetaModeConcentrationFromAB(a, b);
      mc.Ok? && BetaABFromModeConcentration(mc.value.mode, mc.value.concentration) == Shape(a, b)
  {
  }
}
