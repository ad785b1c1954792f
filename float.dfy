/**
 * The f64 arithmetic the renderer relies on, modelled over the reals.
 *
 * Every f64 value of the geometry is a finite `real` here. The few
 * transcendental functions the source calls into (`f64::sqrt`, `f64::tan`,
 * `f64::to_radians`) are not computed: they are fields of a `Libm` value that
 * every operation needing them receives as a parameter, and the one law the
 * proofs use (the square-root law) is stated point by point with `SqrtAt`.
 */
module Float {

  /** The platform's maths library, as far as the renderer uses it. */
  datatype Libm = Libm(sqrt: real -> real, tan: real -> real, toRadians: real -> real)

  /** The square-root law at one argument: `sqrt(d)` is the non-negative root of `d`. */
  ghost predicate SqrtAt(lib: Libm, d: real) {
    d >= 0.0 ==> lib.sqrt(d) >= 0.0 && lib.sqrt(d) * lib.sqrt(d) == d
  }

  /** The square-root law at every argument. */
  ghost predicate SqrtLaw(lib: Libm) {
    forall d :: SqrtAt(lib, d)
  }

  /**
   * f64 division. IEEE division by zero yields an infinity or NaN, which the
   * real-valued model cannot hold; the model yields 0 there.
   */
  function Quot(a: real, b: real): (q: real)
    ensures b != 0.0 ==> q * b == a
  {
    if b == 0.0 then 0.0 else a / b
  }

  /** `f64::min` on non-NaN operands. */
  function Min(a: real, b: real): (m: real)
    ensures m <= a && m <= b
    ensures m == a || m == b
  {
    if a <= b then a else b
  }

  /** `f64::powi(x, 5)`: an exact product of five factors. */
  function Pow5(x: real): real {
    x * x * x * x * x
  }

  /** The `usize as f64` cast, exact for the sizes the renderer uses. */
  function FromNat(n: nat): real {
    n as real
  }

  lemma Pow5Unit(x: real)
    requires 0.0 <= x <= 1.0
    ensures 0.0 <= Pow5(x) <= 1.0
  {
    assert 0.0 <= x * x <= 1.0 by { MulUnit(x, x); }
    assert 0.0 <= x * x * x <= 1.0 by { MulUnit(x * x, x); }
    assert 0.0 <= x * x * x * x <= 1.0 by { MulUnit(x * x * x, x); }
    MulUnit(x * x * x * x, x);
  }

  lemma MulUnit(a: real, b: real)
    requires 0.0 <= a <= 1.0 && 0.0 <= b <= 1.0
    ensures 0.0 <= a * b <= b
  {
    assert a * b <= 1.0 * b by {
      assert (1.0 - a) * b >= 0.0;
    }
  }

  lemma MulPos(a: real, b: real)
    requires a > 0.0 && b > 0.0
    ensures a * b > 0.0
  {
  }

  /** A positive `d` scaled by a fraction in [0, 1) stays in [0, d). */
  lemma FractionOfPositive(d: real, u: real)
    requires d > 0.0 && 0.0 <= u < 1.0
    ensures 0.0 <= d * u < d
  {
    MulPos(d, 1.0 - u);
    if u > 0.0 { MulPos(d, u); }
  }

  /** A negative `d` scaled by a fraction in [0, 1) stays in (d, 0]. */
  lemma FractionOfNegative(d: real, u: real)
    requires d < 0.0 && 0.0 <= u < 1.0
    ensures d < d * u <= 0.0
  {
    MulPos(-d, 1.0 - u);
    if u > 0.0 { MulPos(-d, u); }
  }
}
