/**
 * The materials of src/raytracing/materials.rs and how each scatters a ray.
 *
 * `Materials` holds the three materials and the Schlick reflectance of a
 * dielectric; `Scattering` holds `scatter`, which needs the hit record of
 * src/raytracing/hittable.rs (whose record in turn holds a material).
 */
module Materials {
  import Float
  import Colors
  import Options

  /** The three implementors of the `Material` trait. */
  datatype Material =
    | Lambertian(albedo: Colors.Color)
    | Metal(albedo: Colors.Color, fuzz: real)
    | Dielectric(ir: real)

  /** `Lambertian::new(albedo)`. */
  function NewLambertian(albedo: Colors.Color): Material {
    Lambertian(albedo)
  }

  /** `Metal::new(albedo, fuzz)`, which panics when the fuzz exceeds 1; the panic is `None` here. */
  function NewMetal(albedo: Colors.Color, fuzz: real): (m: Options.Option<Material>)
    ensures m.None? <==> fuzz > 1.0
    ensures m.Some? ==> m.value.Metal? && m.value.albedo == albedo && m.value.fuzz == fuzz && fuzz <= 1.0
  {
    if fuzz <= 1.0 then Options.Some(Metal(albedo, fuzz)) else Options.None
  }

  /** `Dielectric::new(ir)`. */
  function NewDielectric(ir: real): Material {
    Dielectric(ir)
  }

  /** `r0` of Schlick's approximation: `(1 - ir) / (1 + ir)`. */
  function R0(ir: real): real {
    Float.Quot(1.0 - ir, 1.0 + ir)
  }

  /** `reflectance(cos)`: `r0^2 + (1 - r0^2) * (1 - cos)^5`. */
  function Reflectance(ir: real, cos: real): real {
    var r0 := R0(ir);
    var r0sq := r0 * r0;
    r0sq + (1.0 - r0sq) * Float.Pow5(1.0 - cos)
  }

  /** Head-on (`cos = 1`) the reflectance is `r0^2`; at grazing incidence (`cos = 0`) it is 1. */
  lemma ReflectanceEnds(ir: real)
    ensures Reflectance(ir, 1.0) == R0(ir) * R0(ir)
    ensures Reflectance(ir, 0.0) == 1.0
  {
    assert Float.Pow5(0.0) == 0.0;
    assert Float.Pow5(1.0) == 1.0;
  }

  /** For a positive index of refraction and a cosine in [0, 1], the reflectance is a probability. */
  lemma ReflectanceIsProbability(ir: real, cos: real)
    requires ir > 0.0 && 0.0 <= cos <= 1.0
    ensures 0.0 <= Reflectance(ir, cos) <= 1.0
  {
    var r0 := R0(ir);
    assert r0 * (1.0 + ir) == 1.0 - ir;
    assert -1.0 < r0 < 1.0 by {
      if r0 >= 1.0 {
        assert false;
      } else if r0 <= -1.0 {
        assert false;
      }
    }
    var r0sq := r0 * r0;
    assert 0.0 <= r0sq <= 1.0 by {
      if r0 >= 0.0 {
        Float.MulUnit(r0, r0);
      } else {
        Float.MulUnit(-r0, -r0);
      }
    }
    var p := Float.Pow5(1.0 - cos);
    Float.Pow5Unit(1.0 - cos);
    var rest := (1.0 - r0sq) * p;
    Float.MulUnit(p, 1.0 - r0sq);
    assert 0.0 <= rest <= 1.0 - r0sq;
  }
}

module Scattering {
  import Float
  import Random
  import Vectors
  import Rays
  import Colors
  import Options
  import Materials
  import HitRecords

  /** The attenuation of a dielectric: white. */
  function White(): Colors.Color {
    Colors.Color(1.0, 1.0, 1.0)
  }

  /**
   * `Lambertian::scatter`: towards `normal + random_unit_vec`, or along the
   * normal when that sum is `near_zero`; the attenuation is the albedo.
   */
  function LambertianScatter(lib: Float.Libm, albedo: Colors.Color, rec: HitRecords.HitRecord, s: Random.U128, fuel: nat)
    : Random.Sampled<Options.Option<(Rays.Ray, Colors.Color)>>
  {
    match Vectors.UnitVecDraw(lib, s, fuel)
    case Stalled => Random.Stalled
    case Sample(u, s') =>
      var dir := Vectors.Add(rec.normal, u);
      var dir := if Vectors.NearZero(dir) then rec.normal else dir;
      Random.Sample(Options.Some((Rays.NewRay(rec.point, dir), albedo)), s')
  }

  /** `Metal::scatter`: the reflected unit direction plus `fuzz` times a random unit vector. */
  function MetalScatter(lib: Float.Libm, albedo: Colors.Color, fuzz: real, ray: Rays.Ray, rec: HitRecords.HitRecord, s: Random.U128, fuel: nat)
    : Random.Sampled<Options.Option<(Rays.Ray, Colors.Color)>>
  {
    var reflected := Vectors.Reflect(Vectors.Unit(lib, ray.dir), rec.normal);
    match Vectors.UnitVecDraw(lib, s, fuel)
    case Stalled => Random.Stalled
    case Sample(u, s') =>
      Random.Sample(Options.Some((Rays.NewRay(rec.point, Vectors.Add(reflected, Vectors.ScalarMul(fuzz, u))), albedo)), s')
  }

  /** The refraction ratio of a dielectric: `1 / ir` entering the front face, `ir` leaving. */
  function RefractionRatio(ir: real, frontFace: bool): real {
    if frontFace then Float.Quot(1.0, ir) else ir
  }

  /** `cos_theta` of `Dielectric::scatter`: `min(dot(-unit_direction, normal), 1)`. */
  function CosTheta(lib: Float.Libm, ray: Rays.Ray, rec: HitRecords.HitRecord): real {
    Float.Min(Vectors.Dot(Vectors.Neg(Vectors.Unit(lib, ray.dir)), rec.normal), 1.0)
  }

  /** `cant_refract` of `Dielectric::scatter`: `ratio * sin_theta > 1`. */
  function CantRefract(lib: Float.Libm, ir: real, ray: Rays.Ray, rec: HitRecords.HitRecord): bool {
    var cos := CosTheta(lib, ray, rec);
    var sin := lib.sqrt(1.0 - cos * cos);
    RefractionRatio(ir, rec.frontFace) * sin > 1.0
  }

  /**
   * `Dielectric::scatter`: reflect when refraction is impossible or when a
   * `next_01` draw falls below the reflectance, otherwise refract. The draw
   * happens only when refraction is possible (the `||` short-circuits).
   */
  function DielectricScatter(lib: Float.Libm, ir: real, ray: Rays.Ray, rec: HitRecords.HitRecord, s: Random.U128)
    : Random.Sampled<Options.Option<(Rays.Ray, Colors.Color)>>
  {
    var ratio := RefractionRatio(ir, rec.frontFace);
    var unitDir := Vectors.Unit(lib, ray.dir);
    var cos := CosTheta(lib, ray, rec);
    if CantRefract(lib, ir, ray, rec) then
      Random.Sample(Options.Some((Rays.NewRay(rec.point, Vectors.Reflect(unitDir, rec.normal)), White())), s)
    else
      var (u, s') := Random.Draw01(s);
      var dir := if Materials.Reflectance(ir, cos) > u then Vectors.Reflect(unitDir, rec.normal)
                 else Vectors.Refract(lib, unitDir, rec.normal, ratio);
      Random.Sample(Options.Some((Rays.NewRay(rec.point, dir), White())), s')
  }

  /** `Material::scatter`, dispatched on the material. */
  function Scatter(lib: Float.Libm, m: Materials.Material, ray: Rays.Ray, rec: HitRecords.HitRecord, s: Random.U128, fuel: nat)
    : Random.Sampled<Options.Option<(Rays.Ray, Colors.Color)>>
  {
    match m
    case Lambertian(albedo) => LambertianScatter(lib, albedo, rec, s, fuel)
    case Metal(albedo, fuzz) => MetalScatter(lib, albedo, fuzz, ray, rec, s, fuel)
    case Dielectric(ir) => DielectricScatter(lib, ir, ray, rec, s)
  }

  /**
   * No material absorbs: every scatter that completes returns a ray, which
   * starts at the hit point. Only the two materials that sample a random unit
   * vector can stall.
   */
  lemma ScatterNeverAbsorbs(lib: Float.Libm, m: Materials.Material, ray: Rays.Ray, rec: HitRecords.HitRecord, s: Random.U128, fuel: nat)
    ensures var r := Scatter(lib, m, ray, rec, s, fuel);
      r.Sample? ==> r.value.Some? && r.value.value.0.orig == rec.point
    ensures Scatter(lib, m, ray, rec, s, fuel).Stalled? ==> !m.Dielectric? && Vectors.UnitVecDraw(lib, s, fuel).Stalled?
  {
  }

  /**
   * A Lambertian surface attenuates by its albedo and scatters towards the
   * normal plus the drawn unit vector, falling back to the normal when that
   * sum is `near_zero`.
   */
  lemma LambertianScatterIs(lib: Float.Libm, albedo: Colors.Color, ray: Rays.Ray, rec: HitRecords.HitRecord, s: Random.U128, fuel: nat)
    requires Vectors.UnitVecDraw(lib, s, fuel).Sample?
    ensures var u := Vectors.UnitVecDraw(lib, s, fuel);
      var sum := Vectors.Add(rec.normal, u.value);
      Scatter(lib, Materials.Lambertian(albedo), ray, rec, s, fuel)
        == Random.Sample(Options.Some((Rays.Ray(rec.point, if Vectors.NearZero(sum) then rec.normal else sum), albedo)), u.state)
  {
  }

  /** A metal attenuates by its albedo and scatters along `reflect(unit(dir), normal) + fuzz * u`. */
  lemma MetalScatterIs(lib: Float.Libm, albedo: Colors.Color, fuzz: real, ray: Rays.Ray, rec: HitRecords.HitRecord, s: Random.U128, fuel: nat)
    requires Vectors.UnitVecDraw(lib, s, fuel).Sample?
    ensures var u := Vectors.UnitVecDraw(lib, s, fuel);
      var dir := Vectors.Add(Vectors.Reflect(Vectors.Unit(lib, ray.dir), rec.normal), Vectors.ScalarMul(fuzz, u.value));
      Scatter(lib, Materials.Metal(albedo, fuzz), ray, rec, s, fuel)
        == Random.Sample(Options.Some((Rays.Ray(rec.point, dir), albedo)), u.state)
  {
  }

  /**
   * A dielectric always attenuates by white. When refraction is impossible it
   * reflects and leaves the generator untouched; otherwise it consumes exactly
   * one `next_01` draw and reflects iff the reflectance exceeds that draw.
   */
  lemma DielectricScatterIs(lib: Float.Libm, ir: real, ray: Rays.Ray, rec: HitRecords.HitRecord, s: Random.U128, fuel: nat)
    ensures var r := Scatter(lib, Materials.Dielectric(ir), ray, rec, s, fuel);
      r.Sample? && r.value.Some? && r.value.value.1 == White()
    ensures var r := Scatter(lib, Materials.Dielectric(ir), ray, rec, s, fuel);
      var reflected := Vectors.Reflect(Vectors.Unit(lib, ray.dir), rec.normal);
      CantRefract(lib, ir, ray, rec) ==> r.state == s && r.value.value.0 == Rays.Ray(rec.point, reflected)
    ensures var r := Scatter(lib, Materials.Dielectric(ir), ray, rec, s, fuel);
      var reflected := Vectors.Reflect(Vectors.Unit(lib, ray.dir), rec.normal);
      var u := Random.Draw01(s).0;
      !CantRefract(lib, ir, ray, rec) ==>
        r.state == Random.Step(s)
        && (r.value.value.0.dir == reflected <== Materials.Reflectance(ir, CosTheta(lib, ray, rec)) > u)
        && (Materials.Reflectance(ir, CosTheta(lib, ray, rec)) <= u ==>
              r.value.value.0.dir == Vectors.Refract(lib, Vectors.Unit(lib, ray.dir), rec.normal, RefractionRatio(ir, rec.frontFace)))
  {
  }

  /** The refraction ratio is `1 / ir` on the front face and `ir` on the back face; for `ir = 1.5` it is 2/3 entering. */
  lemma RefractionRatioCases(ir: real)
    requires ir != 0.0
    ensures RefractionRatio(ir, true) * ir == 1.0
    ensures RefractionRatio(ir, false) == ir
    ensures RefractionRatio(1.5, true) == 2.0 / 3.0
  {
  }
}
