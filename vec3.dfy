/**
 * `Vec3` of src/space/vec3.rs: the component-wise vector algebra of the
 * renderer, and the rejection samplers that draw random vectors from the
 * XorShift generator.
 *
 * `Point3` is the same three-component value with the same operators, so it
 * is a synonym of `Vec3` here.
 */
module Vectors {
  import Float
  import Random

  datatype Vec3 = Vec3(x: real, y: real, z: real)

  type Point3 = Vec3

  /** `Vec3 + Vec3` (an operand of any type convertible to `Vec3` is converted first). */
  function Add(a: Vec3, b: Vec3): Vec3 {
    Vec3(a.x + b.x, a.y + b.y, a.z + b.z)
  }

  /** `Vec3 - Vec3`. */
  function Sub(a: Vec3, b: Vec3): Vec3 {
    Vec3(a.x - b.x, a.y - b.y, a.z - b.z)
  }

  /** `-Vec3`. */
  function Neg(a: Vec3): Vec3 {
    Vec3(-a.x, -a.y, -a.z)
  }

  /** `Vec3 * f64`. */
  function Mul(v: Vec3, s: real): Vec3 {
    Vec3(v.x * s, v.y * s, v.z * s)
  }

  /** `f64 * Vec3`, which the source defines by swapping the operands. */
  function ScalarMul(s: real, v: Vec3): Vec3 {
    Mul(v, s)
  }

  /** `Vec3 * usize` and `usize * Vec3`: the count is cast to f64 first. */
  function MulCount(v: Vec3, n: nat): Vec3 {
    Mul(v, Float.FromNat(n))
  }

  /** `Vec3 / f64`. */
  function Div(v: Vec3, s: real): Vec3 {
    Vec3(Float.Quot(v.x, s), Float.Quot(v.y, s), Float.Quot(v.z, s))
  }

  function LenSquared(v: Vec3): real {
    v.x * v.x + v.y * v.y + v.z * v.z
  }

  function Len(lib: Float.Libm, v: Vec3): real {
    lib.sqrt(LenSquared(v))
  }

  function Dot(a: Vec3, b: Vec3): real {
    a.x * b.x + a.y * b.y + a.z * b.z
  }

  function Cross(a: Vec3, b: Vec3): Vec3 {
    Vec3(a.y * b.z - a.z * b.y, a.z * b.x - a.x * b.z, a.x * b.y - a.y * b.x)
  }

  /** `unit`: the vector divided by its length. */
  function Unit(lib: Float.Libm, v: Vec3): Vec3 {
    Div(v, Len(lib, v))
  }

  /** `is_unit(delta)`: every component differs from the unit vector's by at most `delta`. */
  function IsUnit(lib: Float.Libm, v: Vec3, delta: real): bool {
    var u := Unit(lib, v);
    -delta <= v.x - u.x <= delta && -delta <= v.y - u.y <= delta && -delta <= v.z - u.z <= delta
  }

  /** The threshold of `near_zero`. */
  const NEAR_ZERO_DELTA: real := 0.00000001

  /** `near_zero`: each component is below the threshold. The source takes no absolute value. */
  function NearZero(v: Vec3): bool {
    v.x < NEAR_ZERO_DELTA && v.y < NEAR_ZERO_DELTA && v.z < NEAR_ZERO_DELTA
  }

  /** `reflect(n)`: `v - 2 * (dot(v, n) * n)`. */
  function Reflect(v: Vec3, n: Vec3): Vec3 {
    Sub(v, ScalarMul(2.0, ScalarMul(Dot(v, n), n)))
  }

  /** `refract(n, ratio)`: the perpendicular part plus the parallel part. */
  function Refract(lib: Float.Libm, v: Vec3, n: Vec3, ratio: real): Vec3 {
    var cosTheta := Float.Min(Dot(Neg(v), n), 1.0);
    var perpendicular := ScalarMul(ratio, Add(v, ScalarMul(cosTheta, n)));
    var parallelLen := lib.sqrt(Abs(1.0 - LenSquared(perpendicular)));
    var parallel := ScalarMul(-parallelLen, n);
    Add(perpendicular, parallel)
  }

  function Abs(a: real): (r: real)
    ensures r >= 0.0 && (r == a || r == -a)
  {
    if a < 0.0 then -a else a
  }

  // ---------------------------------------------------------------------
  // Algebra

  /** Subtracting what was added gives the vector back: `Sub` is the inverse of `Add`. */
  lemma AddSubInverse(a: Vec3, b: Vec3)
    ensures Sub(Add(a, b), b) == a
    ensures Add(Sub(a, b), b) == a
  {
  }

  /** Negation is its own inverse and is the scaling by -1. */
  lemma NegInvolution(a: Vec3)
    ensures Neg(Neg(a)) == a
    ensures Neg(a) == Mul(a, -1.0)
    ensures Add(a, Neg(a)) == Vec3(0.0, 0.0, 0.0)
  {
  }

  /** `f64 * Vec3` equals `Vec3 * f64`, and `usize` scaling is the scaling by the cast count. */
  lemma ScalarMulCommutes(s: real, v: Vec3, n: nat)
    ensures ScalarMul(s, v) == Mul(v, s)
    ensures ScalarMul(s, v) == Vec3(s * v.x, s * v.y, s * v.z)
    ensures MulCount(v, n) == Mul(v, n as real)
  {
  }

  /** Division by a non-zero scalar undoes scaling by it. */
  lemma DivUndoesMul(v: Vec3, s: real)
    requires s != 0.0
    ensures Div(Mul(v, s), s) == v
  {
    assert Float.Quot(v.x * s, s) == v.x;
    assert Float.Quot(v.y * s, s) == v.y;
    assert Float.Quot(v.z * s, s) == v.z;
  }

  /** `dot` is symmetric and `dot(v, v)` is `len_squared`, which is never negative. */
  lemma DotSymmetric(a: Vec3, b: Vec3)
    ensures Dot(a, b) == Dot(b, a)
    ensures Dot(a, a) == LenSquared(a)
    ensures LenSquared(a) >= 0.0
  {
  }

  /** `dot` is linear in its first argument. */
  lemma DotLinear(a: Vec3, b: Vec3, c: Vec3, k: real)
    ensures Dot(Add(a, b), c) == Dot(a, c) + Dot(b, c)
    ensures Dot(Sub(a, b), c) == Dot(a, c) - Dot(b, c)
    ensures Dot(ScalarMul(k, a), c) == k * Dot(a, c)
    ensures Dot(Neg(a), c) == -Dot(a, c)
  {
  }

  /** `cross(a, b)` is orthogonal to both `a` and `b`. */
  lemma CrossOrthogonal(a: Vec3, b: Vec3)
    ensures Dot(Cross(a, b), a) == 0.0
    ensures Dot(Cross(a, b), b) == 0.0
  {
  }

  /** Lagrange's identity: `|a x b|^2 = |a|^2 |b|^2 - dot(a, b)^2`. */
  lemma CrossLength(a: Vec3, b: Vec3)
    ensures LenSquared(Cross(a, b)) == LenSquared(a) * LenSquared(b) - Dot(a, b) * Dot(a, b)
  {
  }

  /** Reflection in a unit normal flips the normal component of the vector. */
  lemma ReflectFlipsNormal(v: Vec3, n: Vec3)
    requires LenSquared(n) == 1.0
    ensures Dot(Reflect(v, n), n) == -Dot(v, n)
  {
    var d := Dot(v, n);
    var b := ScalarMul(d, n);
    DotLinear(v, ScalarMul(2.0, b), n, 2.0);
    DotLinear(b, b, n, 2.0);
    DotLinear(n, n, n, d);
    DotSymmetric(n, n);
    assert Dot(b, n) == d;
  }

  /** Reflection in a unit normal preserves the squared length. */
  lemma ReflectPreservesLength(v: Vec3, n: Vec3)
    requires LenSquared(n) == 1.0
    ensures LenSquared(Reflect(v, n)) == LenSquared(v)
  {
    var d := Dot(v, n);
    var t := 2.0 * d;
    var m := ScalarMul(t, n);
    ScaleTwice(2.0, d, n);
    assert Reflect(v, n) == Sub(v, m);
    SubSquare(v, m);
    ScaledDot(t, v, n);
    ScaledSquare(t, n);
    ReflectAlgebra(LenSquared(v), d, t);
  }

  lemma ScaleTwice(j: real, k: real, n: Vec3)
    ensures ScalarMul(j, ScalarMul(k, n)) == ScalarMul(j * k, n)
  {
  }

  lemma SubSquare(v: Vec3, m: Vec3)
    ensures LenSquared(Sub(v, m)) == LenSquared(v) - 2.0 * Dot(v, m) + LenSquared(m)
  {
  }

  lemma ScaledDot(k: real, v: Vec3, n: Vec3)
    ensures Dot(v, ScalarMul(k, n)) == k * Dot(v, n)
  {
  }

  lemma ScaledSquare(k: real, n: Vec3)
    ensures LenSquared(ScalarMul(k, n)) == k * k * LenSquared(n)
  {
  }

  lemma ReflectAlgebra(l: real, d: real, t: real)
    requires t == 2.0 * d
    ensures l - 2.0 * (t * d) + t * t * 1.0 == l
  {
  }

  /** For a non-zero vector, `unit` has length 1 (given the square-root law at its squared length). */
  lemma UnitHasLengthOne(lib: Float.Libm, v: Vec3)
    requires LenSquared(v) > 0.0 && Float.SqrtAt(lib, LenSquared(v))
    ensures LenSquared(Unit(lib, v)) == 1.0
  {
    var l := Len(lib, v);
    var ll := l * l;
    var u := Unit(lib, v);
    QuotSquare(v.x, l);
    QuotSquare(v.y, l);
    QuotSquare(v.z, l);
    SumScaled(LenSquared(u), u.x * u.x, u.y * u.y, u.z * u.z, ll, v.x * v.x, v.y * v.y, v.z * v.z);
    assert LenSquared(u) * ll == v.x * v.x + v.y * v.y + v.z * v.z;
    assert v.x * v.x + v.y * v.y + v.z * v.z == LenSquared(v);
    assert LenSquared(v) == ll;
    assert LenSquared(u) * ll == ll;
    CancelPositive(LenSquared(u), ll);
  }

  lemma SumScaled(s: real, a: real, b: real, c: real, p: real, a': real, b': real, c': real)
    requires s == a + b + c
    requires a * p == a' && b * p == b' && c * p == c'
    ensures s * p == a' + b' + c'
  {
  }

  lemma QuotSquare(a: real, l: real)
    requires l != 0.0
    ensures Float.Quot(a, l) * Float.Quot(a, l) * (l * l) == a * a
  {
    var q := Float.Quot(a, l);
    assert q * l == a;
    assert q * q * (l * l) == (q * l) * (q * l);
  }

  lemma CancelPositive(x: real, p: real)
    requires p > 0.0 && x * p == p
    ensures x == 1.0
  {
    assert (x - 1.0) * p == 0.0;
  }

  /** As written, `near_zero` holds of every vector with no positive component, however long. */
  lemma NearZeroWithoutAbs(v: Vec3)
    requires v.x <= 0.0 && v.y <= 0.0 && v.z <= 0.0
    ensures NearZero(v)
    ensures NearZero(Vec3(-1.0, -1.0, -1.0)) && LenSquared(Vec3(-1.0, -1.0, -1.0)) == 3.0
  {
  }

  /** A vector whose squared length is below the squared threshold is `near_zero`. */
  lemma ShortIsNearZero(v: Vec3)
    requires LenSquared(v) < NEAR_ZERO_DELTA * NEAR_ZERO_DELTA
    ensures NearZero(v)
  {
    Square(v.x);
    Square(v.y);
    Square(v.z);
    SquareBelow(v.x);
    SquareBelow(v.y);
    SquareBelow(v.z);
  }

  lemma Square(c: real)
    ensures c * c >= 0.0
  {
    if c < 0.0 {
      Float.MulPos(-c, -c);
    } else if c > 0.0 {
      Float.MulPos(c, c);
    }
  }

  lemma SquarePos(c: real)
    requires c != 0.0
    ensures c * c > 0.0
  {
    if c < 0.0 {
      Float.MulPos(-c, -c);
    } else {
      Float.MulPos(c, c);
    }
  }

  /** Only 0 squares to 0 (stated over two equal variables, which the solver handles better than a square). */
  lemma ZeroSquare(s: real, t: real)
    requires s == t && s * t == 0.0
    ensures s == 0.0
  {
    if s > 0.0 {
      Float.MulPos(s, t);
    } else if s < 0.0 {
      Float.MulPos(-s, -t);
    }
  }

  /** Only the zero vector has squared length 0. */
  lemma SquareZero(x: real, y: real, z: real)
    requires x * x + y * y + z * z == 0.0
    ensures x == 0.0 && y == 0.0 && z == 0.0
  {
    Square(x);
    Square(y);
    Square(z);
    assert x * x == 0.0 && y * y == 0.0 && z * z == 0.0;
    ZeroSquare(x, x);
    ZeroSquare(y, y);
    ZeroSquare(z, z);
  }

  /** Dividing by a non-zero `l` divides the squared length by `l * l`. */
  lemma DivLenSquared(v: Vec3, l: real)
    requires l != 0.0
    ensures LenSquared(Div(v, l)) * (l * l) == LenSquared(v)
  {
    var u := Div(v, l);
    QuotSquare(v.x, l);
    QuotSquare(v.y, l);
    QuotSquare(v.z, l);
    SumScaled(LenSquared(u), u.x * u.x, u.y * u.y, u.z * u.z, l * l, v.x * v.x, v.y * v.y, v.z * v.z);
  }

  /** A vector of length `|l|`, divided by `l`, has length 1. */
  lemma ScaledToUnit(v: Vec3, l: real)
    requires l != 0.0 && LenSquared(v) == l * l
    ensures LenSquared(Div(v, l)) == 1.0
  {
    var x := LenSquared(Div(v, l));
    DivLenSquared(v, l);
    assert (x * l - l) * l == 0.0;
    assert x * l - l == 0.0;
    assert (x - 1.0) * l == 0.0;
  }

  /** The non-negative square root of 1 is 1. */
  lemma OneRoot(l: real)
    requires l >= 0.0 && l * l == 1.0
    ensures l == 1.0
  {
    if l > 1.0 {
      Float.MulPos(l - 1.0, l + 1.0);
    } else if 0.0 < l < 1.0 {
      Float.MulPos(1.0 - l, l);
    }
  }

  /** A vector of length 1 is its own `unit`, so it passes `is_unit` for every tolerance. */
  lemma UnitOfUnit(lib: Float.Libm, v: Vec3, delta: real)
    requires LenSquared(v) == 1.0 && Float.SqrtAt(lib, 1.0) && delta >= 0.0
    ensures Unit(lib, v) == v && IsUnit(lib, v, delta)
  {
    OneRoot(lib.sqrt(1.0));
  }

  /** A component whose square is below the squared threshold is below the threshold. */
  lemma SquareBelow(c: real)
    requires c * c < NEAR_ZERO_DELTA * NEAR_ZERO_DELTA
    ensures c < NEAR_ZERO_DELTA
  {
    if c >= NEAR_ZERO_DELTA {
      SquareMonotone(NEAR_ZERO_DELTA, c);
    }
  }

  lemma SquareMonotone(a: real, b: real)
    requires 0.0 <= a <= b
    ensures a * a <= b * b
  {
    assert a * a <= a * b;
    assert a * b <= b * b;
  }

  // ---------------------------------------------------------------------
  // Random vectors, as functions of the generator state

  /** `random_bounded(min, max)`: three `next_01` draws, each scaled to `min + r * (max - min)`. */
  function RandomBoundedDraw(s: Random.U128, min: real, max: real): (r: (Vec3, Random.U128))
    ensures r.1 == Random.Iterate(s, 3)
    ensures min <= max ==> InBox(r.0, min, max)
  {
    var diff := max - min;
    var (ux, s1) := Random.Draw01(s);
    var (uy, s2) := Random.Draw01(s1);
    var (uz, s3) := Random.Draw01(s2);
    Random.ScaleBounds(min, max, diff, ux);
    Random.ScaleBounds(min, max, diff, uy);
    Random.ScaleBounds(min, max, diff, uz);
    Random.IterateSucc(s, 0);
    Random.IterateSucc(s, 1);
    Random.IterateSucc(s, 2);
    (Vec3(Random.Scale(min, diff, ux), Random.Scale(min, diff, uy), Random.Scale(min, diff, uz)), s3)
  }

  /** Every component lies in [min, max), or equals both bounds when they coincide. */
  ghost predicate InBox(v: Vec3, min: real, max: real) {
    (min <= v.x < max || min == max == v.x)
    && (min <= v.y < max || min == max == v.y)
    && (min <= v.z < max || min == max == v.z)
  }

  /**
   * `random_in_unit_sphere`: draw points of the cube [-1, 1)^3 until one has
   * `len_squared <= 1`. The source loops without bound; the model gives up
   * with `Stalled` after `fuel` rejected draws. No cube point has x
   * coordinate 0 (`CubeDrawXNonZero`), so the accepted point is never the
   * origin and `random_unit_vec` never divides by a zero length.
   */
  function InUnitSphereDraw(s: Random.U128, fuel: nat): (r: Random.Sampled<Vec3>)
    ensures r.Sample? ==> LenSquared(r.value) <= 1.0
    ensures r.Sample? ==> r.value.x != 0.0
    decreases fuel
  {
    if fuel == 0 then Random.Stalled
    else
      CubeDrawXNonZero(s);
      var (point, s') := RandomBoundedDraw(s, -1.0, 1.0);
      if LenSquared(point) <= 1.0 then Random.Sample(point, s')
      else InUnitSphereDraw(s', fuel - 1)
  }

  /** `random_unit_vec`: the unit vector of a point drawn in the unit sphere. */
  function UnitVecDraw(lib: Float.Libm, s: Random.U128, fuel: nat): Random.Sampled<Vec3> {
    match InUnitSphereDraw(s, fuel)
    case Stalled => Random.Stalled
    case Sample(p, s') => Random.Sample(Unit(lib, p), s')
  }

  /**
   * `random_vec_on_hemishpere(normal)`: a random unit vector, negated when it
   * does not point into the normal's half-space.
   */
  function HemisphereDraw(lib: Float.Libm, s: Random.U128, normal: Vec3, fuel: nat): (r: Random.Sampled<Vec3>)
    ensures r.Sample? <==> UnitVecDraw(lib, s, fuel).Sample?
    ensures r.Sample? ==> var u := UnitVecDraw(lib, s, fuel).value;
      (r.value == u || r.value == Neg(u)) && r.state == UnitVecDraw(lib, s, fuel).state
    ensures r.Sample? ==> Dot(r.value, normal) >= 0.0
  {
    match UnitVecDraw(lib, s, fuel)
    case Stalled => Random.Stalled
    case Sample(u, s') =>
      DotLinear(u, u, normal, 0.0);
      if Dot(u, normal) > 0.0 then Random.Sample(u, s') else Random.Sample(Neg(u), s')
  }

  /** The x coordinate of `random_bounded` comes from the first `next_01` draw. */
  lemma BoundedDrawX(s: Random.U128, min: real, max: real)
    ensures RandomBoundedDraw(s, min, max).0.x == Random.Scale(min, max - min, Random.Unit01(Random.Step(s)))
  {
  }

  /** A cube point drawn over [-1, 1) never has x coordinate 0. */
  lemma CubeDrawXNonZero(s: Random.U128)
    ensures RandomBoundedDraw(s, -1.0, 1.0).0.x != 0.0
  {
    BoundedDrawX(s, -1.0, 1.0);
    Random.MidpointNeverDrawn(Random.Step(s));
  }

  /** A vector with a non-zero x coordinate has a positive squared length. */
  lemma NonZeroXLength(p: Vec3)
    requires p.x != 0.0
    ensures LenSquared(p) > 0.0
  {
    Square(p.x);
    Square(p.y);
    Square(p.z);
    if LenSquared(p) <= 0.0 {
      SquareZero(p.x, p.y, p.z);
    }
  }

  /** `random_unit_vec` returns a vector of length exactly 1 (given the square-root law). */
  lemma UnitVecIsUnit(lib: Float.Libm, s: Random.U128, fuel: nat)
    requires Float.SqrtLaw(lib)
    ensures var r := UnitVecDraw(lib, s, fuel);
      r.Sample? ==> LenSquared(r.value) == 1.0
  {
    var d := InUnitSphereDraw(s, fuel);
    if d.Sample? {
      NonZeroXLength(d.value);
      assert Float.SqrtAt(lib, LenSquared(d.value));
      UnitHasLengthOne(lib, d.value);
    }
  }

  /** A vector of length 1 and its negation both pass `is_unit(0.01)`. */
  lemma NegUnit(lib: Float.Libm, u: Vec3, v: Vec3)
    requires Float.SqrtAt(lib, 1.0)
    requires LenSquared(u) == 1.0 && (v == u || v == Neg(u))
    ensures LenSquared(v) == 1.0 && IsUnit(lib, v, 0.01)
  {
    assert LenSquared(Neg(u)) == LenSquared(u);
    UnitOfUnit(lib, v, 0.01);
  }

  /**
   * `random_vec_on_hemishpere` returns a vector of length exactly 1, so its
   * `debug_assert!(is_unit(0.01))` holds.
   */
  lemma HemisphereIsUnit(lib: Float.Libm, s: Random.U128, normal: Vec3, fuel: nat)
    requires Float.SqrtLaw(lib)
    ensures var r := HemisphereDraw(lib, s, normal, fuel);
      r.Sample? ==> LenSquared(r.value) == 1.0 && IsUnit(lib, r.value, 0.01)
  {
    var r := HemisphereDraw(lib, s, normal, fuel);
    if r.Sample? {
      UnitVecIsUnit(lib, s, fuel);
      assert Float.SqrtAt(lib, 1.0);
      NegUnit(lib, UnitVecDraw(lib, s, fuel).value, r.value);
    }
  }

  /**
   * `random_vec_in_unit_disk`: draw `(next_bound(-1, 1), next_bound(-1, 1), 0)`
   * until its `len_squared` is below 1; `Stalled` after `fuel` rejected draws.
   */
  function InUnitDiskDraw(s: Random.U128, fuel: nat): (r: Random.Sampled<Vec3>)
    ensures r.Sample? ==> r.value.z == 0.0 && LenSquared(r.value) < 1.0
    decreases fuel
  {
    if fuel == 0 then Random.Stalled
    else
      var (x, s1) := Random.DrawBound(s, -1.0, 1.0);
      var (y, s2) := Random.DrawBound(s1, -1.0, 1.0);
      var v := Vec3(x, y, 0.0);
      if LenSquared(v) < 1.0 then Random.Sample(v, s2)
      else InUnitDiskDraw(s2, fuel - 1)
  }

  // ---------------------------------------------------------------------
  // The same samplers as in-place updates of a generator object

  /** `random_bounded` on a generator object. */
  method RandomBounded(rand: Random.XorShift, min: real, max: real) returns (v: Vec3)
    modifies rand
    ensures (v, rand.state) == RandomBoundedDraw(old(rand.state), min, max)
  {
    ghost var s0 := rand.state;
    var diff := max - min;
    var ux := rand.Next01();
    ghost var s1 := rand.state;
    var x := min + diff * ux;
    assert x == Random.Scale(min, diff, ux);
    var uy := rand.Next01();
    ghost var s2 := rand.state;
    var y := min + diff * uy;
    assert y == Random.Scale(min, diff, uy);
    var uz := rand.Next01();
    var z := min + diff * uz;
    assert z == Random.Scale(min, diff, uz);
    v := Vec3(x, y, z);
    assert (ux, s1) == Random.Draw01(s0);
    assert (uy, s2) == Random.Draw01(s1);
    assert (uz, rand.state) == Random.Draw01(s2);
  }

  /**
   * The rejection loop of `random_in_unit_sphere`, run for at most `fuel`
   * draws; `found` is false when every draw was rejected.
   */
  method RandomInUnitSphere(rand: Random.XorShift, fuel: nat) returns (found: bool, point: Vec3)
    modifies rand
    ensures InUnitSphereDraw(old(rand.state), fuel) == if found then Random.Sample(point, rand.state) else Random.Stalled
    ensures found ==> LenSquared(point) <= 1.0
  {
    found := false;
    point := Vec3(0.0, 0.0, 0.0);
    var tries := 0;
    while tries < fuel && !found
      invariant 0 <= tries <= fuel
      invariant found ==> InUnitSphereDraw(old(rand.state), fuel) == Random.Sample(point, rand.state)
      invariant !found ==> InUnitSphereDraw(old(rand.state), fuel) == InUnitSphereDraw(rand.state, fuel - tries)
      decreases fuel - tries, !found
    {
      var candidate := RandomBounded(rand, -1.0, 1.0);
      tries := tries + 1;
      if LenSquared(candidate) <= 1.0 {
        found, point := true, candidate;
      }
    }
  }

  /**
   * The rejection loop of `random_vec_in_unit_disk`, run for at most `fuel`
   * draws; `found` is false when every draw was rejected.
   */
  method RandomVecInUnitDisk(rand: Random.XorShift, fuel: nat) returns (found: bool, vec: Vec3)
    modifies rand
    ensures InUnitDiskDraw(old(rand.state), fuel) == if found then Random.Sample(vec, rand.state) else Random.Stalled
    ensures found ==> vec.z == 0.0 && LenSquared(vec) < 1.0
  {
    found := false;
    vec := Vec3(0.0, 0.0, 0.0);
    var tries := 0;
    while tries < fuel && !found
      invariant 0 <= tries <= fuel
      invariant found ==> InUnitDiskDraw(old(rand.state), fuel) == Random.Sample(vec, rand.state)
      invariant !found ==> InUnitDiskDraw(old(rand.state), fuel) == InUnitDiskDraw(rand.state, fuel - tries)
      decreases fuel - tries, !found
    {
      var x := rand.NextBound(-1.0, 1.0);
      var y := rand.NextBound(-1.0, 1.0);
      var candidate := Vec3(x, y, 0.0);
      tries := tries + 1;
      if LenSquared(candidate) < 1.0 {
        found, vec := true, candidate;
      }
    }
  }
}
