/**
 * A worked case of `Sphere::hit` (src/raytracing/shapes/sphere.rs): a ray
 * fired straight at a sphere, with the intersection worked out by hand.
 */
module SphereExample {
  import Float
  import Vectors
  import Rays
  import Intervals
  import Options
  import Spheres

  /**
   * A sphere of radius 0.5 at the origin, hit by a ray from (0, 0, 1) along
   * (0, 0, -1), is hit at time 0.5 at the point (0, 0, 0.5).
   */
  lemma UnitExampleHit(lib: Float.Libm, sp: Spheres.Sphere, r: Rays.Ray, inter: Intervals.Interval)
    requires Float.SqrtAt(lib, 0.25)
    requires sp.center == Vectors.Vec3(0.0, 0.0, 0.0) && sp.radius == 0.5
    requires r == Rays.Ray(Vectors.Vec3(0.0, 0.0, 1.0), Vectors.Vec3(0.0, 0.0, -1.0))
    requires inter == Intervals.From(Intervals.Fin(0.01))
    ensures Spheres.Hit(lib, sp, r, inter).Some?
    ensures Spheres.Hit(lib, sp, r, inter).value.time == 0.5
    ensures Spheres.Hit(lib, sp, r, inter).value.point == Vectors.Vec3(0.0, 0.0, 0.5)
  {
    SqrtOfQuarter(lib);
    ExampleHitAtHalf(lib, sp, r, inter);
  }

  /** The example's hit, once `sqrt(0.25) = 0.5` is known. */
  lemma ExampleHitAtHalf(lib: Float.Libm, sp: Spheres.Sphere, r: Rays.Ray, inter: Intervals.Interval)
    requires lib.sqrt(0.25) == 0.5
    requires sp.center == Vectors.Vec3(0.0, 0.0, 0.0) && sp.radius == 0.5
    requires r == Rays.Ray(Vectors.Vec3(0.0, 0.0, 1.0), Vectors.Vec3(0.0, 0.0, -1.0))
    requires inter == Intervals.From(Intervals.Fin(0.01))
    ensures Spheres.Hit(lib, sp, r, inter).Some?
    ensures Spheres.Hit(lib, sp, r, inter).value.time == 0.5
    ensures Spheres.Hit(lib, sp, r, inter).value.point == Vectors.Vec3(0.0, 0.0, 0.5)
  {
    ExampleQuadratic(lib, sp, r);
    ExampleFirstInside(Spheres.Candidates(lib, sp, r), inter);
    HitAtRoot(lib, sp, r, inter, 0.5);
    ExampleAt(r);
  }

  /** When the discriminant is not negative and `root` is the first candidate inside, the hit is at `root`. */
  lemma HitAtRoot(lib: Float.Libm, sp: Spheres.Sphere, r: Rays.Ray, inter: Intervals.Interval, root: real)
    requires Spheres.Discriminant(sp, r) >= 0.0
    requires Spheres.FirstInside(Spheres.Candidates(lib, sp, r), inter) == Options.Some(root)
    ensures Spheres.Hit(lib, sp, r, inter).Some?
    ensures Spheres.Hit(lib, sp, r, inter).value.time == root
    ensures Spheres.Hit(lib, sp, r, inter).value.point == Rays.At(r, root)
  {
  }

  /** Of the roots 0.5 and 1.5, the first one in `[0.01, +inf]` is 0.5. */
  lemma ExampleFirstInside(cands: seq<real>, inter: Intervals.Interval)
    requires cands == [0.5, 1.5] && inter == Intervals.From(Intervals.Fin(0.01))
    ensures Spheres.FirstInside(cands, inter) == Options.Some(0.5)
  {
    assert Intervals.ContainsInc(inter, Intervals.Fin(0.5));
  }

  lemma ExampleQuadratic(lib: Float.Libm, sp: Spheres.Sphere, r: Rays.Ray)
    requires lib.sqrt(0.25) == 0.5
    requires sp.center == Vectors.Vec3(0.0, 0.0, 0.0) && sp.radius == 0.5
    requires r == Rays.Ray(Vectors.Vec3(0.0, 0.0, 1.0), Vectors.Vec3(0.0, 0.0, -1.0))
    ensures Spheres.Discriminant(sp, r) == 0.25
    ensures Spheres.Candidates(lib, sp, r) == [0.5, 1.5]
  {
    ExampleDiscriminant(sp, r);
    ExampleA(r);
    ExampleHalfB(sp, r);
    ExampleRoots(lib.sqrt(0.25), Spheres.HalfB(sp, r), Spheres.A(r));
  }

  /** The two roots of the example's equation, from `sqrt(d) = 0.5`, `half_b = -1` and `a = 1`. */
  lemma ExampleRoots(sqrtd: real, hb: real, a: real)
    requires sqrtd == 0.5 && hb == -1.0 && a == 1.0
    ensures Float.Quot(-sqrtd - hb, a) == 0.5 && Float.Quot(sqrtd - hb, a) == 1.5
  {
  }

  lemma ExampleDiscriminant(sp: Spheres.Sphere, r: Rays.Ray)
    requires sp.center == Vectors.Vec3(0.0, 0.0, 0.0) && sp.radius == 0.5
    requires r == Rays.Ray(Vectors.Vec3(0.0, 0.0, 1.0), Vectors.Vec3(0.0, 0.0, -1.0))
    ensures Spheres.Discriminant(sp, r) == 0.25
  {
    ExampleA(r);
    ExampleHalfB(sp, r);
    ExampleC(sp, r);
    DiscriminantOf(Spheres.A(r), Spheres.HalfB(sp, r), Spheres.C(sp, r));
  }

  lemma ExampleA(r: Rays.Ray)
    requires r == Rays.Ray(Vectors.Vec3(0.0, 0.0, 1.0), Vectors.Vec3(0.0, 0.0, -1.0))
    ensures Spheres.A(r) == 1.0
  {
  }

  lemma ExampleHalfB(sp: Spheres.Sphere, r: Rays.Ray)
    requires sp.center == Vectors.Vec3(0.0, 0.0, 0.0)
    requires r == Rays.Ray(Vectors.Vec3(0.0, 0.0, 1.0), Vectors.Vec3(0.0, 0.0, -1.0))
    ensures Spheres.HalfB(sp, r) == -1.0
  {
  }

  lemma ExampleC(sp: Spheres.Sphere, r: Rays.Ray)
    requires sp.center == Vectors.Vec3(0.0, 0.0, 0.0) && sp.radius == 0.5
    requires r == Rays.Ray(Vectors.Vec3(0.0, 0.0, 1.0), Vectors.Vec3(0.0, 0.0, -1.0))
    ensures Spheres.C(sp, r) == 0.75
  {
  }

  lemma DiscriminantOf(a: real, hb: real, c: real)
    requires a == 1.0 && hb == -1.0 && c == 0.75
    ensures hb * hb - a * c == 0.25
  {
  }

  lemma ExampleAt(r: Rays.Ray)
    requires r == Rays.Ray(Vectors.Vec3(0.0, 0.0, 1.0), Vectors.Vec3(0.0, 0.0, -1.0))
    ensures Rays.At(r, 0.5) == Vectors.Vec3(0.0, 0.0, 0.5)
  {
  }

  /** The square root law at 0.25 pins the root down: `sqrt(0.25) = 0.5`. */
  lemma SqrtOfQuarter(lib: Float.Libm)
    requires Float.SqrtAt(lib, 0.25)
    ensures lib.sqrt(0.25) == 0.5
  {
    SquareRootOfQuarter(lib.sqrt(0.25));
  }

  lemma SquareRootOfQuarter(s: real)
    requires s >= 0.0 && s * s == 0.25
    ensures s == 0.5
  {
    assert (0.5 + s) * (0.5 - s) == 0.25 - s * s;
    Spheres.ZeroProduct(0.5 + s, 0.5 - s);
  }
}


