/** `Sphere` of src/raytracing/shapes/sphere.rs and its ray intersection. */
module Spheres {
  import Float
  import Vectors
  import Rays
  import Intervals
  import Options
  import Materials
  import HitRecords

  datatype Sphere = Sphere(center: Vectors.Point3, radius: real, mat: Materials.Material)

  /** `Sphere::new(center, radius, mat)`. */
  function NewSphere(center: Vectors.Point3, radius: real, mat: Materials.Material): Sphere {
    Sphere(center, radius, mat)
  }

  /** `Sphere::new_world_obj(x, y, z, radius, mat)`: the centre is `(x, y, z)`. */
  function NewWorldObj(x: real, y: real, z: real, radius: real, mat: Materials.Material): (sp: Sphere)
    ensures sp.center == Vectors.Vec3(x, y, z) && sp.radius == radius && sp.mat == mat
  {
    Sphere(Vectors.Vec3(x, y, z), radius, mat)
  }

  /** `a`, `half_b` and `c` of the quadratic `a t^2 + 2 half_b t + c = 0` of a ray against a sphere. */
  function A(r: Rays.Ray): real {
    Vectors.LenSquared(r.dir)
  }

  function HalfB(sp: Sphere, r: Rays.Ray): real {
    Vectors.Dot(Vectors.Sub(r.orig, sp.center), r.dir)
  }

  function C(sp: Sphere, r: Rays.Ray): real {
    Vectors.LenSquared(Vectors.Sub(r.orig, sp.center)) - sp.radius * sp.radius
  }

  /** The discriminant `half_b^2 - a c`. */
  function Discriminant(sp: Sphere, r: Rays.Ray): real {
    HalfB(sp, r) * HalfB(sp, r) - A(r) * C(sp, r)
  }

  /**
   * The two candidate roots, in the order tried: `(-sqrtd - half_b) / a`,
   * then `(sqrtd - half_b) / a`. `a` is 0 only for a zero direction
   * (`ZeroLengthDirection`), where both roots are `0 / 0`
   * (`ZeroDirectionRoots`): NaN in f64, which no interval contains, so
   * neither is a candidate.
   */
  function Candidates(lib: Float.Libm, sp: Sphere, r: Rays.Ray): (cands: seq<real>)
    ensures A(r) == 0.0 ==> cands == []
    ensures A(r) != 0.0 ==> |cands| == 2
  {
    if A(r) == 0.0 then []
    else
      var sqrtd := lib.sqrt(Discriminant(sp, r));
      [Float.Quot(-sqrtd - HalfB(sp, r), A(r)), Float.Quot(sqrtd - HalfB(sp, r), A(r))]
  }

  /** `find`: the first candidate inclusively inside the interval. */
  function FirstInside(cands: seq<real>, inter: Intervals.Interval): (r: Options.Option<real>)
    ensures r.Some? ==> r.value in cands && Intervals.ContainsInc(inter, Intervals.Fin(r.value))
    ensures r.None? <==> forall k :: 0 <= k < |cands| ==> !Intervals.ContainsInc(inter, Intervals.Fin(cands[k]))
    ensures r.Some? ==> exists i :: (0 <= i < |cands| && cands[i] == r.value
      && forall j :: 0 <= j < i ==> !Intervals.ContainsInc(inter, Intervals.Fin(cands[j])))
    decreases |cands|
  {
    if |cands| == 0 then Options.None
    else if Intervals.ContainsInc(inter, Intervals.Fin(cands[0])) then Options.Some(cands[0])
    else
      var rest := FirstInside(cands[1..], inter);
      assert rest.Some? ==> exists i :: (0 <= i < |cands| - 1 && cands[1..][i] == rest.value
        && forall j :: 0 <= j < i ==> !Intervals.ContainsInc(inter, Intervals.Fin(cands[1..][j])));
      assert forall k :: 1 <= k < |cands| ==> cands[k] == cands[1..][k - 1];
      rest
  }

  /**
   * `Sphere::hit`: no hit when the discriminant is negative or when neither
   * root lies in the interval; otherwise the record at the first root inside
   * it, with outward normal `(point - center) / radius`. A ray with a zero
   * direction has no candidate roots, so it hits nothing.
   */
  function Hit(lib: Float.Libm, sp: Sphere, r: Rays.Ray, inter: Intervals.Interval): (h: Options.Option<HitRecords.HitRecord>)
    ensures Discriminant(sp, r) < 0.0 ==> h.None?
    ensures r.dir == Vectors.Vec3(0.0, 0.0, 0.0) ==> h.None?
    ensures Discriminant(sp, r) >= 0.0 ==> (h.None? <==> FirstInside(Candidates(lib, sp, r), inter).None?)
    ensures h.Some? ==>
      var root := FirstInside(Candidates(lib, sp, r), inter).value;
      var point := Rays.At(r, root);
      h.value == HitRecords.NewHitRecord(point, Vectors.Div(Vectors.Sub(point, sp.center), sp.radius), root, r, sp.mat)
  {
    if Discriminant(sp, r) < 0.0 then Options.None
    else
      match FirstInside(Candidates(lib, sp, r), inter)
      case None => Options.None
      case Some(root) =>
        var point := Rays.At(r, root);
        var normal := Vectors.Div(Vectors.Sub(point, sp.center), sp.radius);
        Options.Some(HitRecords.NewHitRecord(point, normal, root, r, sp.mat))
  }

  /** `a` is 0 exactly for a ray with a zero direction. */
  lemma ZeroLengthDirection(r: Rays.Ray)
    ensures A(r) == 0.0 <==> r.dir == Vectors.Vec3(0.0, 0.0, 0.0)
  {
    if A(r) == 0.0 {
      Vectors.SquareZero(r.dir.x, r.dir.y, r.dir.z);
    }
  }

  /**
   * A zero direction makes `a` and `half_b` 0, so the discriminant is
   * `0 * 0 - 0 * c = 0`, `sqrt(0)` is 0, and both roots are `0 / 0`.
   */
  lemma ZeroDirectionRoots(sp: Sphere, r: Rays.Ray)
    requires r.dir == Vectors.Vec3(0.0, 0.0, 0.0)
    ensures A(r) == 0.0 && HalfB(sp, r) == 0.0
  {
  }

  /**
   * With `a > 0` the first candidate is never the larger, so the root the
   * sphere reports is the smallest candidate lying in the interval.
   */
  lemma CandidatesOrdered(lib: Float.Libm, sp: Sphere, r: Rays.Ray, inter: Intervals.Interval)
    requires A(r) > 0.0 && Float.SqrtAt(lib, Discriminant(sp, r))
    requires Hit(lib, sp, r, inter).Some?
    ensures Candidates(lib, sp, r)[0] <= Candidates(lib, sp, r)[1]
    ensures forall t :: t in Candidates(lib, sp, r) && Intervals.ContainsInc(inter, Intervals.Fin(t)) ==>
      Hit(lib, sp, r, inter).value.time <= t
  {
    var cands := Candidates(lib, sp, r);
    SmallerRootFirst(lib.sqrt(Discriminant(sp, r)), HalfB(sp, r), A(r));
    var root := FirstInside(cands, inter).value;
    assert Hit(lib, sp, r, inter).value.time == root;
  }

  /** With `a > 0` and `sqrtd >= 0`, `(-sqrtd - half_b) / a` is at most `(sqrtd - half_b) / a`. */
  lemma SmallerRootFirst(sqrtd: real, hb: real, a: real)
    requires a > 0.0 && sqrtd >= 0.0
    ensures Float.Quot(-sqrtd - hb, a) <= Float.Quot(sqrtd - hb, a)
  {
    var lo, hi := Float.Quot(-sqrtd - hb, a), Float.Quot(sqrtd - hb, a);
    assert lo * a == -sqrtd - hb && hi * a == sqrtd - hb;
    assert (hi - lo) * a == 2.0 * sqrtd;
    if hi < lo {
      Float.MulPos(lo - hi, a);
    }
  }

  /**
   * A root the sphere reports lies on the sphere: the hit point is at
   * distance `radius` from the centre.
   */
  lemma HitPointOnSphere(lib: Float.Libm, sp: Sphere, r: Rays.Ray, inter: Intervals.Interval)
    requires A(r) > 0.0 && Float.SqrtAt(lib, Discriminant(sp, r))
    requires Hit(lib, sp, r, inter).Some?
    ensures var p := Hit(lib, sp, r, inter).value.point;
      Vectors.LenSquared(Vectors.Sub(p, sp.center)) == sp.radius * sp.radius
  {
    var cands := Candidates(lib, sp, r);
    var t := FirstInside(cands, inter).value;
    assert t == cands[0] || t == cands[1];
    var sqrtd := lib.sqrt(Discriminant(sp, r));
    if t == cands[0] {
      RootOnSphere(sp, r, t, -sqrtd);
    } else {
      RootOnSphere(sp, r, t, sqrtd);
    }
  }

  /**
   * The outward normal a sphere of non-zero radius passes to `face_normal`
   * has length 1, so `face_normal`'s `debug_assert!(is_unit(0.1))` holds.
   */
  lemma OutwardNormalIsUnit(lib: Float.Libm, sp: Sphere, r: Rays.Ray, inter: Intervals.Interval)
    requires A(r) > 0.0 && Float.SqrtAt(lib, Discriminant(sp, r)) && Float.SqrtAt(lib, 1.0)
    requires sp.radius != 0.0
    requires Hit(lib, sp, r, inter).Some?
    ensures var n := Vectors.Div(Vectors.Sub(Hit(lib, sp, r, inter).value.point, sp.center), sp.radius);
      Vectors.LenSquared(n) == 1.0 && Vectors.IsUnit(lib, n, 0.1)
  {
    HitPointOnSphere(lib, sp, r, inter);
    var v := Vectors.Sub(Hit(lib, sp, r, inter).value.point, sp.center);
    var n := Vectors.Div(v, sp.radius);
    Vectors.ScaledToUnit(v, sp.radius);
    Vectors.UnitOfUnit(lib, n, 0.1);
  }

  /** A time `t` with `a t + half_b = m` and `m^2` the discriminant solves the sphere's quadratic. */
  lemma RootOnSphere(sp: Sphere, r: Rays.Ray, t: real, m: real)
    requires A(r) > 0.0
    requires m * m == Discriminant(sp, r)
    requires t == Float.Quot(m - HalfB(sp, r), A(r))
    ensures Vectors.LenSquared(Vectors.Sub(Rays.At(r, t), sp.center)) == sp.radius * sp.radius
  {
    RootSolves(A(r), HalfB(sp, r), C(sp, r), t, m);
    QuadraticAt(r.orig, sp.center, r.dir, sp.radius, t);
  }

  /** A root `(m - b) / a` with `m^2 = b^2 - a c` solves `a t^2 + 2 b t + c = 0`. */
  lemma RootSolves(a: real, b: real, c: real, t: real, m: real)
    requires a > 0.0 && m * m == b * b - a * c
    requires t == Float.Quot(m - b, a)
    ensures a * t * t + 2.0 * b * t + c == 0.0
  {
    assert t * a == m - b;
    assert a * t + b == m;
    SquareOfLinear(a, t, b, c, m);
    ZeroProduct(a, a * t * t + 2.0 * b * t + c);
  }

  /** `a (a t^2 + 2 b t + c) = (a t + b)^2 - (b^2 - a c)`. */
  lemma SquareOfLinear(a: real, t: real, b: real, c: real, m: real)
    requires a * t + b == m && m * m == b * b - a * c
    ensures a * (a * t * t + 2.0 * b * t + c) == 0.0
  {
    assert m * m == a * t * (a * t) + 2.0 * (a * t) * b + b * b;
    assert a * (a * t * t + 2.0 * b * t + c) == m * m - (b * b - a * c);
  }

  /** `|o + t d - c|^2 - radius^2 = a t^2 + 2 half_b t + c` with the sphere's `a`, `half_b`, `c`. */
  lemma QuadraticAt(o: Vectors.Vec3, center: Vectors.Vec3, d: Vectors.Vec3, radius: real, t: real)
    ensures var oc := Vectors.Sub(o, center);
      Vectors.LenSquared(Vectors.Sub(Rays.At(Rays.Ray(o, d), t), center)) - radius * radius
        == Vectors.LenSquared(d) * t * t + 2.0 * Vectors.Dot(oc, d) * t + (Vectors.LenSquared(oc) - radius * radius)
  {
    var oc := Vectors.Sub(o, center);
    ShiftedPoint(o, center, d, t);
    LenSquaredShift(oc, d, t);
  }

  lemma ShiftedPoint(o: Vectors.Vec3, center: Vectors.Vec3, d: Vectors.Vec3, t: real)
    ensures var oc := Vectors.Sub(o, center);
      Vectors.Sub(Rays.At(Rays.Ray(o, d), t), center) == Vectors.Vec3(oc.x + d.x * t, oc.y + d.y * t, oc.z + d.z * t)
  {
  }

  lemma LenSquaredShift(u: Vectors.Vec3, d: Vectors.Vec3, t: real)
    ensures Vectors.LenSquared(Vectors.Vec3(u.x + d.x * t, u.y + d.y * t, u.z + d.z * t))
      == Vectors.LenSquared(d) * t * t + 2.0 * Vectors.Dot(u, d) * t + Vectors.LenSquared(u)
  {
    ExpandSum(u.x, u.y, u.z, d.x, d.y, d.z, t);
  }

  lemma ExpandSum(ox: real, oy: real, oz: real, dx: real, dy: real, dz: real, t: real)
    ensures (ox + dx * t) * (ox + dx * t) + (oy + dy * t) * (oy + dy * t) + (oz + dz * t) * (oz + dz * t)
      == (dx * dx + dy * dy + dz * dz) * t * t + 2.0 * (ox * dx + oy * dy + oz * dz) * t + (ox * ox + oy * oy + oz * oz)
  {
    Expand(ox, dx, t);
    Expand(oy, dy, t);
    Expand(oz, dz, t);
    var tt := t * t;
    assert (dx * dx + dy * dy + dz * dz) * t * t == dx * dx * tt + dy * dy * tt + dz * dz * tt;
  }

  lemma Expand(o: real, d: real, t: real)
    ensures (o + d * t) * (o + d * t) == d * d * t * t + 2.0 * (o * d) * t + o * o
  {
  }

  lemma ZeroProduct(a: real, q: real)
    requires a > 0.0 && a * q == 0.0
    ensures q == 0.0
  {
    if q > 0.0 {
      Float.MulPos(a, q);
    } else if q < 0.0 {
      Float.MulPos(a, -q);
    }
  }
}
