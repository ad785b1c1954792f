/** `Ray` of src/raytracing/ray.rs: an origin and a direction. */
module Rays {
  import Float
  import Vectors

  datatype Ray = Ray(orig: Vectors.Point3, dir: Vectors.Vec3)

  /** `Ray::new(point, vec)`: `orig()` and `dir()` give back exactly what was stored. */
  function NewRay(point: Vectors.Point3, vec: Vectors.Vec3): (r: Ray)
    ensures r.orig == point && r.dir == vec
  {
    Ray(point, vec)
  }

  /** `at(t)`: the point reached after travelling `t` times the direction. */
  function At(r: Ray, t: real): Vectors.Point3 {
    Vectors.Add(Vectors.Mul(r.dir, t), r.orig)
  }

  /** `offset(o)`: the same origin, the direction turned towards `dir + o` and normalised. */
  function Offset(lib: Float.Libm, r: Ray, offset: Vectors.Vec3): Ray {
    Ray(r.orig, Vectors.Unit(lib, Vectors.Add(r.dir, offset)))
  }

  /** `at(t) = orig + t * dir`, so `at(0)` is the origin. */
  lemma AtIsAffine(r: Ray, t: real)
    ensures At(r, t) == Vectors.Add(r.orig, Vectors.ScalarMul(t, r.dir))
    ensures At(r, 0.0) == r.orig
  {
  }

  /** Moving along a ray adds up: `at(s + t)` is `at(s)` moved by `t * dir`. */
  lemma AtAdditive(r: Ray, s: real, t: real)
    ensures At(r, s + t) == Vectors.Add(At(r, s), Vectors.Mul(r.dir, t))
  {
    assert r.dir.x * (s + t) == r.dir.x * s + r.dir.x * t;
    assert r.dir.y * (s + t) == r.dir.y * s + r.dir.y * t;
    assert r.dir.z * (s + t) == r.dir.z * s + r.dir.z * t;
  }

  /**
   * `offset` keeps the origin, and its direction has length 1 whenever
   * `dir + o` is not the zero vector.
   */
  lemma OffsetIsUnit(lib: Float.Libm, r: Ray, offset: Vectors.Vec3)
    requires Vectors.LenSquared(Vectors.Add(r.dir, offset)) > 0.0
    requires Float.SqrtAt(lib, Vectors.LenSquared(Vectors.Add(r.dir, offset)))
    ensures Offset(lib, r, offset).orig == r.orig
    ensures Vectors.LenSquared(Offset(lib, r, offset).dir) == 1.0
  {
    Vectors.UnitHasLengthOne(lib, Vectors.Add(r.dir, offset));
  }
}
