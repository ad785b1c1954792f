/**
 * `Interval` of src/util/interval.rs. Its bounds and the values it is asked
 * about are f64 values that may be infinite or NaN, so they are extended
 * reals here, compared as IEEE 754 compares them: every comparison with NaN
 * is false, -inf is below and +inf above every other non-NaN value.
 */
module Intervals {

  datatype ExtReal = NaN | NegInf | Fin(v: real) | PosInf

  /** IEEE `a <= b`. */
  predicate Le(a: ExtReal, b: ExtReal) {
    match (a, b)
    case (NaN, _) => false
    case (_, NaN) => false
    case (NegInf, _) => true
    case (_, PosInf) => true
    case (Fin(x), Fin(y)) => x <= y
    case _ => false
  }

  /** IEEE `a < b`. */
  predicate Lt(a: ExtReal, b: ExtReal) {
    match (a, b)
    case (NaN, _) => false
    case (_, NaN) => false
    case (NegInf, NegInf) => false
    case (PosInf, PosInf) => false
    case (NegInf, _) => true
    case (_, PosInf) => true
    case (Fin(x), Fin(y)) => x < y
    case _ => false
  }

  /** `f64::MAX`. */
  const F64_MAX: real := 179769313486231570814527423731704356798070567525844996598917476803157260780028538760589558632766878171540458953514382464234321326889464182768467546703537516986049910576551282076245490090389328944075868508455133942304583236903222948165808559332123348274797826204144723168738177180919299881250404026184124858368.0

  /** `f64::MIN_POSITIVE`, 2^-1022. */
  const F64_MIN_POSITIVE: real := 1.0 / 44942328371557897693232629769725618340449424473557664318357520289433168951375240783177119330601884005280028469967848339414697442203604155623211857659868531094441973356216371319075554900311523529863270738021251442209537670585615720368478277635206809290837627671146574559986811484619929076208839082406056034304.0

  datatype Interval = Interval(min: ExtReal, max: ExtReal)

  /** `Interval::new(min, max)`. */
  function New(min: ExtReal, max: ExtReal): (i: Interval)
    ensures i.min == min && i.max == max
  {
    Interval(min, max)
  }

  /** `Interval::empty()`: from +inf down to -inf. */
  function Empty(): Interval {
    Interval(PosInf, NegInf)
  }

  /** `Interval::universe()`: from -inf up to +inf. */
  function Universe(): Interval {
    Interval(NegInf, PosInf)
  }

  /** `Interval::from(min)`: from `min` up to +inf. */
  function From(min: ExtReal): Interval {
    Interval(min, PosInf)
  }

  /** `Interval::till(max)`: from -inf up to `max`. */
  function Till(max: ExtReal): Interval {
    Interval(NegInf, max)
  }

  /** `Interval::default()`, which the source defines as `empty()`. */
  function Default(): Interval {
    Empty()
  }

  /** `contains_inc(x)`: `min <= x && x <= max`. */
  predicate ContainsInc(i: Interval, x: ExtReal) {
    Le(i.min, x) && Le(x, i.max)
  }

  /** `contains_ex(x)`: `min < x && x < max`. */
  predicate ContainsEx(i: Interval, x: ExtReal) {
    Lt(i.min, x) && Lt(x, i.max)
  }

  /** On finite bounds and values the two tests are the mathematical closed and open intervals. */
  lemma FiniteContains(lo: real, hi: real, x: real)
    ensures ContainsInc(New(Fin(lo), Fin(hi)), Fin(x)) <==> lo <= x <= hi
    ensures ContainsEx(New(Fin(lo), Fin(hi)), Fin(x)) <==> lo < x < hi
  {
  }

  /** Exclusive containment implies inclusive containment. */
  lemma ExImpliesInc(i: Interval, x: ExtReal)
    ensures ContainsEx(i, x) ==> ContainsInc(i, x)
  {
  }

  /** NaN is contained by no interval, whatever its bounds. */
  lemma NaNNeverContained(i: Interval)
    ensures !ContainsInc(i, NaN) && !ContainsEx(i, NaN)
  {
  }

  /** `empty()`, and so `default()`, contains nothing, not even the infinities. */
  lemma EmptyContainsNothing(x: ExtReal)
    ensures !ContainsInc(Empty(), x) && !ContainsEx(Empty(), x)
    ensures Default() == Empty()
  {
  }

  /**
   * `universe()` contains every value but NaN inclusively, and exactly the
   * finite values exclusively.
   */
  lemma UniverseContains(x: ExtReal)
    ensures ContainsInc(Universe(), x) <==> x != NaN
    ensures ContainsEx(Universe(), x) <==> x.Fin?
  {
  }

  /** `from(m)` holds exactly the non-NaN values at or above `m`; `till(m)` those at or below it. */
  lemma FromTill(m: ExtReal, x: ExtReal)
    ensures ContainsInc(From(m), x) <==> Le(m, x)
    ensures ContainsInc(Till(m), x) <==> Le(x, m)
    ensures m.Fin? && x.Fin? ==> (ContainsInc(From(m), x) <==> m.v <= x.v)
  {
  }

  /** The test cases of `universe_contains_inc` and `universe_contains_ex`. */
  lemma UniverseCases()
    ensures ContainsInc(Universe(), Fin(0.0)) && ContainsInc(Universe(), PosInf)
    ensures ContainsInc(Universe(), NegInf) && ContainsInc(Universe(), Fin(F64_MIN_POSITIVE))
    ensures ContainsInc(Universe(), Fin(F64_MAX)) && !ContainsInc(Universe(), NaN)
    ensures ContainsEx(Universe(), Fin(0.0)) && ContainsEx(Universe(), Fin(F64_MIN_POSITIVE))
    ensures ContainsEx(Universe(), Fin(F64_MAX))
    ensures !ContainsEx(Universe(), PosInf) && !ContainsEx(Universe(), NegInf) && !ContainsEx(Universe(), NaN)
  {
  }

  /** The test cases of `range_contains_inc` and `range_contains_ex` on `new(-10, 0.3)`. */
  lemma RangeCases()
    ensures var i := New(Fin(-10.0), Fin(0.3));
      ContainsInc(i, Fin(-10.0)) && ContainsInc(i, Fin(0.3)) && ContainsInc(i, Fin(0.0))
      && ContainsInc(i, Fin(F64_MIN_POSITIVE))
      && !ContainsInc(i, Fin(-11.0)) && !ContainsInc(i, Fin(0.301)) && !ContainsInc(i, NegInf)
      && !ContainsInc(i, PosInf) && !ContainsInc(i, Fin(F64_MAX)) && !ContainsInc(i, NaN)
    ensures var i := New(Fin(-10.0), Fin(0.3));
      ContainsEx(i, Fin(-9.99)) && ContainsEx(i, Fin(0.299)) && ContainsEx(i, Fin(0.0))
      && ContainsEx(i, Fin(F64_MIN_POSITIVE))
      && !ContainsEx(i, Fin(-11.0)) && !ContainsEx(i, Fin(0.301)) && !ContainsEx(i, Fin(-10.0))
      && !ContainsEx(i, Fin(0.3)) && !ContainsEx(i, NegInf) && !ContainsEx(i, PosInf)
      && !ContainsEx(i, Fin(F64_MAX)) && !ContainsEx(i, NaN)
  {
  }
}
