/**
 * `Camera` of src/raytracing/camera.rs: the viewing basis, the rays it casts
 * through each pixel, the colour a ray gathers by bouncing through the scene,
 * the stratified lattice of per-pixel sample offsets, and the image grid the
 * rendered pixels are written into.
 *
 * The camera's event channel to the preview window is not part of this model.
 */
module Cameras {
  import Float
  import Random
  import Vectors
  import Rays
  import Colors
  import Intervals
  import Options
  import Materials
  import HitRecords
  import Hittables
  import Spheres
  import Scattering

  datatype Camera = Camera(
    height: nat,
    width: nat,
    maxDepth: nat,
    focalLength: real,
    fov: real,
    viewportHeight: real,
    viewportWidth: real,
    lookFrom: Vectors.Point3,
    lookTo: Vectors.Point3,
    vup: Vectors.Vec3,
    u: Vectors.Vec3,
    v: Vectors.Vec3,
    w: Vectors.Vec3,
    pixel00: Vectors.Point3,
    pixelDeltaU: Vectors.Vec3,
    pixelDeltaV: Vectors.Vec3,
    defocusAngle: real,
    focusDist: real,
    defocusDiskU: Vectors.Vec3,
    defocusDiskV: Vectors.Vec3)

  /** A rendered pixel sent back from a job: its colour and its column and row. */
  datatype PixelRender = PixelRender(color: Colors.Color, xLoc: nat, yLoc: nat)

  /** `Camera::new`: the viewport, the orthonormal basis `u, v, w`, the pixel grid and the defocus disk. */
  function NewCamera(
    lib: Float.Libm, imgHeight: nat, imgWidth: nat, maxDepth: nat, focalLength: real, fov: real,
    lookFrom: Vectors.Point3, lookTo: Vectors.Point3, vup: Vectors.Vec3, defocusAngle: real, focusDist: real)
    : (cam: Camera)
    ensures cam.height == imgHeight && cam.width == imgWidth && cam.maxDepth == maxDepth
    ensures cam.lookFrom == lookFrom && cam.lookTo == lookTo && cam.vup == vup
    ensures cam.defocusAngle == defocusAngle && cam.focusDist == focusDist
    ensures cam.w == Vectors.Unit(lib, Vectors.Sub(lookFrom, lookTo))
    ensures cam.u == Vectors.Unit(lib, Vectors.Cross(vup, cam.w))
    ensures cam.v == Vectors.Cross(cam.w, cam.u)
    ensures cam.pixel00 == Corner(Vectors.Sub(lookFrom, Vectors.ScalarMul(focusDist, cam.w)), ViewportU(cam), ViewportV(cam))
    ensures cam.pixelDeltaU == Vectors.Div(ViewportU(cam), Float.FromNat(imgWidth))
    ensures cam.pixelDeltaV == Vectors.Div(ViewportV(cam), Float.FromNat(imgHeight))
  {
    var theta := lib.toRadians(fov);
    var h := lib.tan(theta / 2.0);
    var viewportHeight := 2.0 * h * focusDist;
    var viewportWidth := viewportHeight * Float.Quot(Float.FromNat(imgWidth), Float.FromNat(imgHeight));
    var w := Vectors.Unit(lib, Vectors.Sub(lookFrom, lookTo));
    var u := Vectors.Unit(lib, Vectors.Cross(vup, w));
    var v := Vectors.Cross(w, u);
    var viewportU := Vectors.ScalarMul(viewportWidth, u);
    var viewportV := Vectors.ScalarMul(viewportHeight, Vectors.Neg(v));
    var pixelDeltaU := Vectors.Div(viewportU, Float.FromNat(imgWidth));
    var pixelDeltaV := Vectors.Div(viewportV, Float.FromNat(imgHeight));
    var pixel00 := Corner(Vectors.Sub(lookFrom, Vectors.ScalarMul(focusDist, w)), viewportU, viewportV);
    var defocusRadius := focusDist * lib.tan(lib.toRadians(defocusAngle / 2.0));
    Camera(imgHeight, imgWidth, maxDepth, focalLength, fov, viewportHeight, viewportWidth,
      lookFrom, lookTo, vup, u, v, w, pixel00, pixelDeltaU, pixelDeltaV, defocusAngle, focusDist,
      Vectors.Mul(u, defocusRadius), Vectors.Mul(v, defocusRadius))
  }

  /** The upper-left corner of a viewport with centre `centre` and edges `viewportU`, `viewportV`. */
  function Corner(centre: Vectors.Point3, viewportU: Vectors.Vec3, viewportV: Vectors.Vec3): Vectors.Point3 {
    Vectors.Sub(Vectors.Sub(centre, Vectors.Div(viewportU, 2.0)), Vectors.Div(viewportV, 2.0))
  }

  /** The viewport's horizontal edge, `viewport_width * u`. */
  function ViewportU(cam: Camera): Vectors.Vec3 {
    Vectors.ScalarMul(cam.viewportWidth, cam.u)
  }

  /** The viewport's vertical edge, `viewport_height * -v`, running down the image. */
  function ViewportV(cam: Camera): Vectors.Vec3 {
    Vectors.ScalarMul(cam.viewportHeight, Vectors.Neg(cam.v))
  }

  /** The dot product with a scaled vector is the scaled dot product. */
  lemma DotDiv(a: Vectors.Vec3, b: Vectors.Vec3, s: real)
    requires s != 0.0
    ensures Vectors.Dot(Vectors.Div(a, s), b) * s == Vectors.Dot(a, b)
  {
    var q := Vectors.Div(a, s);
    assert q.x * s == a.x && q.y * s == a.y && q.z * s == a.z;
    assert Vectors.Dot(q, b) * s == (q.x * s) * b.x + (q.y * s) * b.y + (q.z * s) * b.z;
  }

  lemma ZeroQuotient(q: real, s: real)
    requires s != 0.0 && q * s == 0.0
    ensures q == 0.0
  {
    if q > 0.0 && s > 0.0 { Float.MulPos(q, s); }
    else if q > 0.0 && s < 0.0 { Float.MulPos(q, -s); }
    else if q < 0.0 && s > 0.0 { Float.MulPos(-q, s); }
    else if q < 0.0 && s < 0.0 { Float.MulPos(-q, -s); }
  }

  /**
   * The camera basis is orthogonal: `v` is orthogonal to `u` and `w` by
   * construction as their cross product, and `u`, a multiple of
   * `cross(vup, w)`, is orthogonal to `w`.
   */
  lemma BasisOrthogonal(lib: Float.Libm, imgHeight: nat, imgWidth: nat, maxDepth: nat, focalLength: real, fov: real,
    lookFrom: Vectors.Point3, lookTo: Vectors.Point3, vup: Vectors.Vec3, defocusAngle: real, focusDist: real)
    ensures var cam := NewCamera(lib, imgHeight, imgWidth, maxDepth, focalLength, fov, lookFrom, lookTo, vup, defocusAngle, focusDist);
      Vectors.Dot(cam.v, cam.w) == 0.0 && Vectors.Dot(cam.v, cam.u) == 0.0 && Vectors.Dot(cam.u, cam.w) == 0.0
  {
    var cam := NewCamera(lib, imgHeight, imgWidth, maxDepth, focalLength, fov, lookFrom, lookTo, vup, defocusAngle, focusDist);
    Vectors.CrossOrthogonal(cam.w, cam.u);
    var c := Vectors.Cross(vup, cam.w);
    var l := Vectors.Len(lib, c);
    Vectors.CrossOrthogonal(vup, cam.w);
    if l != 0.0 {
      DotDiv(c, cam.w, l);
      ZeroQuotient(Vectors.Dot(cam.u, cam.w), l);
    }
  }

  /**
   * The camera basis is orthonormal: `w` and `u` are unit vectors by
   * construction, and `v = cross(w, u)` of two orthogonal unit vectors has
   * length 1. This needs `look_from != look_to`, `vup` not parallel to `w`
   * and the square-root law at the two lengths.
   */
  lemma BasisUnit(lib: Float.Libm, imgHeight: nat, imgWidth: nat, maxDepth: nat, focalLength: real, fov: real,
    lookFrom: Vectors.Point3, lookTo: Vectors.Point3, vup: Vectors.Vec3, defocusAngle: real, focusDist: real)
    requires Vectors.LenSquared(Vectors.Sub(lookFrom, lookTo)) > 0.0
    requires Float.SqrtAt(lib, Vectors.LenSquared(Vectors.Sub(lookFrom, lookTo)))
    requires var w := Vectors.Unit(lib, Vectors.Sub(lookFrom, lookTo));
      Vectors.LenSquared(Vectors.Cross(vup, w)) > 0.0 && Float.SqrtAt(lib, Vectors.LenSquared(Vectors.Cross(vup, w)))
    ensures var cam := NewCamera(lib, imgHeight, imgWidth, maxDepth, focalLength, fov, lookFrom, lookTo, vup, defocusAngle, focusDist);
      Vectors.LenSquared(cam.w) == 1.0 && Vectors.LenSquared(cam.u) == 1.0 && Vectors.LenSquared(cam.v) == 1.0
  {
    var cam := NewCamera(lib, imgHeight, imgWidth, maxDepth, focalLength, fov, lookFrom, lookTo, vup, defocusAngle, focusDist);
    Vectors.UnitHasLengthOne(lib, Vectors.Sub(lookFrom, lookTo));
    Vectors.UnitHasLengthOne(lib, Vectors.Cross(vup, cam.w));
    BasisOrthogonal(lib, imgHeight, imgWidth, maxDepth, focalLength, fov, lookFrom, lookTo, vup, defocusAngle, focusDist);
    Vectors.CrossLength(cam.w, cam.u);
    Vectors.DotSymmetric(cam.w, cam.u);
  }

  /**
   * `pixel00` is the upper-left corner of the viewport, not the centre of the
   * first pixel: half a viewport right and half a viewport down from it is
   * the viewport's centre, `focus_dist` in front of `look_from`.
   */
  lemma PixelZeroIsCorner(lib: Float.Libm, imgHeight: nat, imgWidth: nat, maxDepth: nat, focalLength: real, fov: real,
    lookFrom: Vectors.Point3, lookTo: Vectors.Point3, vup: Vectors.Vec3, defocusAngle: real, focusDist: real)
    ensures var cam := NewCamera(lib, imgHeight, imgWidth, maxDepth, focalLength, fov, lookFrom, lookTo, vup, defocusAngle, focusDist);
      Vectors.Add(Vectors.Add(cam.pixel00, Vectors.Div(ViewportU(cam), 2.0)), Vectors.Div(ViewportV(cam), 2.0))
        == Vectors.Sub(cam.lookFrom, Vectors.ScalarMul(cam.focusDist, cam.w))
  {
    var cam := NewCamera(lib, imgHeight, imgWidth, maxDepth, focalLength, fov, lookFrom, lookTo, vup, defocusAngle, focusDist);
    HalvesCancel(Vectors.Sub(lookFrom, Vectors.ScalarMul(focusDist, cam.w)), ViewportU(cam), ViewportV(cam));
  }

  lemma HalvesCancel(c: Vectors.Vec3, a: Vectors.Vec3, b: Vectors.Vec3)
    ensures Vectors.Add(Vectors.Add(Corner(c, a, b), Vectors.Div(a, 2.0)), Vectors.Div(b, 2.0)) == c
  {
  }

  /**
   * The pixel steps tile the viewport: `width` steps of `pixel_delta_u` are
   * the viewport's horizontal edge, `height` steps of `pixel_delta_v` its
   * vertical edge.
   */
  lemma PixelDeltasSpanViewport(lib: Float.Libm, imgHeight: nat, imgWidth: nat, maxDepth: nat, focalLength: real, fov: real,
    lookFrom: Vectors.Point3, lookTo: Vectors.Point3, vup: Vectors.Vec3, defocusAngle: real, focusDist: real)
    ensures var cam := NewCamera(lib, imgHeight, imgWidth, maxDepth, focalLength, fov, lookFrom, lookTo, vup, defocusAngle, focusDist);
      (imgWidth > 0 ==> Vectors.MulCount(cam.pixelDeltaU, imgWidth) == ViewportU(cam))
      && (imgHeight > 0 ==> Vectors.MulCount(cam.pixelDeltaV, imgHeight) == ViewportV(cam))
  {
    var cam := NewCamera(lib, imgHeight, imgWidth, maxDepth, focalLength, fov, lookFrom, lookTo, vup, defocusAngle, focusDist);
    if imgWidth > 0 {
      QuotTimes(ViewportU(cam), Float.FromNat(imgWidth));
    }
    if imgHeight > 0 {
      QuotTimes(ViewportV(cam), Float.FromNat(imgHeight));
    }
  }

  lemma QuotTimes(a: Vectors.Vec3, n: real)
    requires n != 0.0
    ensures Vectors.Mul(Vectors.Div(a, n), n) == a
  {
    assert Float.Quot(a.x, n) * n == a.x;
    assert Float.Quot(a.y, n) * n == a.y;
    assert Float.Quot(a.z, n) * n == a.z;
  }

  // ---------------------------------------------------------------------
  // Rays through a pixel

  /** The point `pixel00 + i * pixel_delta_u + j * pixel_delta_v + offset` that the ray for pixel `(i, j)` aims at. */
  function PixelSample(cam: Camera, i: nat, j: nat, offset: Vectors.Vec3): Vectors.Point3 {
    Vectors.Add(Vectors.Add(Vectors.Add(cam.pixel00, Vectors.MulCount(cam.pixelDeltaU, i)),
      Vectors.MulCount(cam.pixelDeltaV, j)), offset)
  }

  /** The point of the defocus disk at disk coordinates `(a, b)`. */
  function DiskPoint(cam: Camera, a: real, b: real): Vectors.Point3 {
    Vectors.Add(Vectors.Add(cam.lookFrom, Vectors.ScalarMul(a, cam.defocusDiskU)), Vectors.ScalarMul(b, cam.defocusDiskV))
  }

  /** `defocus_disk_sample`: the disk point at a random point of the unit disk. */
  function DefocusDiskSample(cam: Camera, s: Random.U128, fuel: nat): (r: Random.Sampled<Vectors.Point3>)
    ensures r.Sample? <==> Vectors.InUnitDiskDraw(s, fuel).Sample?
    ensures r.Sample? ==> var p := Vectors.InUnitDiskDraw(s, fuel).value;
      p.z == 0.0 && Vectors.LenSquared(p) < 1.0 && r.value == DiskPoint(cam, p.x, p.y)
      && r.state == Vectors.InUnitDiskDraw(s, fuel).state
  {
    match Vectors.InUnitDiskDraw(s, fuel)
    case Stalled => Random.Stalled
    case Sample(p, s') => Random.Sample(DiskPoint(cam, p.x, p.y), s')
  }

  /**
   * `get_ray(i, j, offset)`: from `look_from` when `defocus_angle <= 0`
   * (leaving the generator untouched), from a random point of the defocus
   * disk otherwise, always towards the pixel sample, which the ray reaches
   * at `t = 1`.
   */
  function GetRay(cam: Camera, i: nat, j: nat, offset: Vectors.Vec3, s: Random.U128, fuel: nat): (r: Random.Sampled<Rays.Ray>)
    ensures cam.defocusAngle <= 0.0 ==> r.Sample? && r.value.orig == cam.lookFrom && r.state == s
    ensures cam.defocusAngle > 0.0 ==> (r.Sample? <==> DefocusDiskSample(cam, s, fuel).Sample?)
    ensures cam.defocusAngle > 0.0 && r.Sample? ==>
      r.value.orig == DefocusDiskSample(cam, s, fuel).value && r.state == DefocusDiskSample(cam, s, fuel).state
    ensures r.Sample? ==> Rays.At(r.value, 1.0) == PixelSample(cam, i, j, offset)
  {
    var pixelSample := PixelSample(cam, i, j, offset);
    if cam.defocusAngle <= 0.0 then
      Random.Sample(Rays.NewRay(cam.lookFrom, Vectors.Sub(pixelSample, cam.lookFrom)), s)
    else
      match DefocusDiskSample(cam, s, fuel)
      case Stalled => Random.Stalled
      case Sample(origin, s') => Random.Sample(Rays.NewRay(origin, Vectors.Sub(pixelSample, origin)), s')
  }

  // ---------------------------------------------------------------------
  // The colour of a ray

  /** The lower end of the hit interval of `ray_color`: `Interval::from(0.01)`. */
  const HIT_TIME_MIN: real := 0.01

  /** The sky colour `(1 - a) * white + a * (0.5, 0.7, 1)` at blend factor `a`. */
  function SkyBlend(a: real): Colors.Color {
    Colors.Add(Colors.ScalarMul(1.0 - a, Colors.Color(1.0, 1.0, 1.0)), Colors.ScalarMul(a, Colors.Color(0.5, 0.7, 1.0)))
  }

  /** The blend factor `a = 0.5 * (unit_dir.y + 1)` of a ray that hits nothing. */
  function SkyFactor(lib: Float.Libm, r: Rays.Ray): real {
    0.5 * (Vectors.Unit(lib, r.dir).y + 1.0)
  }

  /**
   * `ray_color(r, world, rand, depth)`: black once `depth` reaches
   * `max_depth`; on a hit, the scattered ray's colour times the attenuation
   * (black for an absorbed ray); on a miss, the sky. Each bounce raises the
   * depth by one, so the recursion is at most `max_depth - depth` deep.
   */
  function RayColor(lib: Float.Libm, cam: Camera, world: Hittables.Hittable, r: Rays.Ray, s: Random.U128, depth: nat, fuel: nat)
    : (c: Random.Sampled<Colors.Color>)
    ensures depth >= cam.maxDepth ==> c == Random.Sample(Colors.Black(), s)
    ensures depth < cam.maxDepth && Hittables.Hit(lib, world, r, Intervals.From(Intervals.Fin(HIT_TIME_MIN))).None?
      ==> c == Random.Sample(SkyBlend(SkyFactor(lib, r)), s)
    ensures depth < cam.maxDepth && Hittables.Hit(lib, world, r, Intervals.From(Intervals.Fin(HIT_TIME_MIN))).Some? ==>
      var rec := Hittables.Hit(lib, world, r, Intervals.From(Intervals.Fin(HIT_TIME_MIN))).value;
      var sc := Scattering.Scatter(lib, rec.mat, r, rec, s, fuel);
      (sc.Stalled? ==> c.Stalled?)
      && (sc.Sample? && sc.value.None? ==> c == Random.Sample(Colors.Black(), sc.state))
      && (sc.Sample? && sc.value.Some? ==>
        var inner := RayColor(lib, cam, world, sc.value.value.0, sc.state, depth + 1, fuel);
        (inner.Stalled? ==> c.Stalled?)
        && (inner.Sample? ==> c == Random.Sample(Colors.Mul(sc.value.value.1, inner.value), inner.state)))
    decreases cam.maxDepth - depth
  {
    if depth >= cam.maxDepth then Random.Sample(Colors.Black(), s)
    else
      match Hittables.Hit(lib, world, r, Intervals.From(Intervals.Fin(HIT_TIME_MIN)))
      case None => Random.Sample(SkyBlend(SkyFactor(lib, r)), s)
      case Some(rec) =>
        match Scattering.Scatter(lib, rec.mat, r, rec, s, fuel)
        case Stalled => Random.Stalled
        case Sample(None, s') => Random.Sample(Colors.Black(), s')
        case Sample(Some((scattered, attenuation)), s') =>
          match RayColor(lib, cam, world, scattered, s', depth + 1, fuel)
          case Stalled => Random.Stalled
          case Sample(c, s'') => Random.Sample(Colors.Mul(attenuation, c), s'')
  }

  /** Every channel in [0, 1]. */
  ghost predicate InUnitCube(c: Colors.Color) {
    0.0 <= c.r <= 1.0 && 0.0 <= c.g <= 1.0 && 0.0 <= c.b <= 1.0
  }

  /** A material whose albedo, if it has one, is in the unit cube. */
  ghost predicate AlbedoBounded(m: Materials.Material) {
    match m
    case Lambertian(albedo) => InUnitCube(albedo)
    case Metal(albedo, _) => InUnitCube(albedo)
    case Dielectric(_) => true
  }

  /** Every sphere of the object, at any depth of nesting, has a bounded albedo. */
  ghost predicate MaterialsBounded(h: Hittables.Hittable)
    decreases h
  {
    match h
    case SphereObj(sp) => AlbedoBounded(sp.mat)
    case SceneObj(objects) => forall o :: o in objects ==> MaterialsBounded(o)
  }

  /** The sky blend stays between white and (0.5, 0.7, 1) for a factor in [0, 1]. */
  lemma SkyBlendBounds(a: real)
    requires 0.0 <= a <= 1.0
    ensures var c := SkyBlend(a);
      0.5 <= c.r <= 1.0 && 0.7 <= c.g <= 1.0 && c.b == 1.0
    ensures SkyBlend(0.0) == Colors.Color(1.0, 1.0, 1.0) && SkyBlend(1.0) == Colors.Color(0.5, 0.7, 1.0)
  {
  }

  /** Given the square-root law at the direction's squared length, the sky factor lies in [0, 1]. */
  lemma SkyFactorBounds(lib: Float.Libm, r: Rays.Ray)
    requires Float.SqrtAt(lib, Vectors.LenSquared(r.dir))
    ensures 0.0 <= SkyFactor(lib, r) <= 1.0
  {
    var d := r.dir;
    var l := Vectors.Len(lib, d);
    Vectors.DotSymmetric(d, d);
    var y := Vectors.Unit(lib, d).y;
    if l != 0.0 {
      assert y * l == d.y;
      Vectors.Square(d.x);
      Vectors.Square(d.z);
      assert d.y * d.y <= l * l;
      ComponentOfLength(y, l, d.y);
    }
  }

  /** If `y * l = c` with `c^2 <= l^2` and `l > 0`, then `-1 <= y <= 1`. */
  lemma ComponentOfLength(y: real, l: real, c: real)
    requires l > 0.0 && y * l == c && c * c <= l * l
    ensures -1.0 <= y <= 1.0
  {
    if y > 1.0 {
      Float.MulPos(y - 1.0, l);
      assert c > l;
      Float.MulPos(c - l, c + l);
    } else if y < -1.0 {
      Float.MulPos(-1.0 - y, l);
      assert c < -l;
      Float.MulPos(-l - c, l - c);
    }
  }

  lemma MulUnitCube(a: Colors.Color, b: Colors.Color)
    requires InUnitCube(a) && InUnitCube(b)
    ensures InUnitCube(Colors.Mul(a, b))
  {
    Float.MulUnit(a.r, b.r);
    Float.MulUnit(a.g, b.g);
    Float.MulUnit(a.b, b.b);
  }

  /** A hit record's material is one of the object's materials, so it shares their bound. */
  lemma {:induction false} HitMaterialBounded(lib: Float.Libm, h: Hittables.Hittable, r: Rays.Ray, inter: Intervals.Interval)
    requires MaterialsBounded(h)
    requires Hittables.Hit(lib, h, r, inter).Some?
    ensures AlbedoBounded(Hittables.Hit(lib, h, r, inter).value.mat)
    decreases h
  {
    match h
    case SphereObj(sp) =>
      assert Hittables.Hit(lib, h, r, inter).value.mat == sp.mat;
    case SceneObj(objects) =>
      Hittables.SceneHitIsNearest(lib, objects, r, inter);
      var k :| 0 <= k < |objects| && Hittables.Hit(lib, objects[k], r, inter) == Hittables.Hit(lib, h, r, inter);
      assert objects[k] in objects;
      HitMaterialBounded(lib, objects[k], r, inter);
  }

  /** The attenuation of a completed scatter is the albedo, or white for a dielectric. */
  lemma AttenuationBounded(lib: Float.Libm, m: Materials.Material, ray: Rays.Ray, rec: HitRecords.HitRecord, s: Random.U128, fuel: nat)
    requires AlbedoBounded(m)
    requires Scattering.Scatter(lib, m, ray, rec, s, fuel).Sample? && Scattering.Scatter(lib, m, ray, rec, s, fuel).value.Some?
    ensures InUnitCube(Scattering.Scatter(lib, m, ray, rec, s, fuel).value.value.1)
  {
  }

  /**
   * In a world whose albedos are all in [0, 1], every colour `ray_color`
   * returns is in [0, 1] on every channel, given the square-root law.
   */
  lemma {:induction false} RayColorBounded(lib: Float.Libm, cam: Camera, world: Hittables.Hittable, r: Rays.Ray, s: Random.U128, depth: nat, fuel: nat)
    requires forall d :: Float.SqrtAt(lib, d)
    requires MaterialsBounded(world)
    requires RayColor(lib, cam, world, r, s, depth, fuel).Sample?
    ensures InUnitCube(RayColor(lib, cam, world, r, s, depth, fuel).value)
    decreases cam.maxDepth - depth, 1
  {
    if depth < cam.maxDepth {
      var inter := Intervals.From(Intervals.Fin(HIT_TIME_MIN));
      if Hittables.Hit(lib, world, r, inter).None? {
        SkyColorBounded(lib, r);
        MissColorBounded(lib, cam, world, r, s, depth, fuel);
      } else {
        HitColorBounded(lib, cam, world, r, s, depth, fuel);
      }
    }
  }

  /** The miss case of `RayColorBounded`: the sky colour is bounded. */
  lemma MissColorBounded(lib: Float.Libm, cam: Camera, world: Hittables.Hittable, r: Rays.Ray, s: Random.U128, depth: nat, fuel: nat)
    requires InUnitCube(SkyBlend(SkyFactor(lib, r)))
    requires depth < cam.maxDepth
    requires Hittables.Hit(lib, world, r, Intervals.From(Intervals.Fin(HIT_TIME_MIN))).None?
    ensures InUnitCube(RayColor(lib, cam, world, r, s, depth, fuel).value)
  {
  }

  /** Given the square-root law at the direction's squared length, the sky colour is in the unit cube. */
  lemma SkyColorBounded(lib: Float.Libm, r: Rays.Ray)
    requires Float.SqrtAt(lib, Vectors.LenSquared(r.dir))
    ensures InUnitCube(SkyBlend(SkyFactor(lib, r)))
  {
    SkyFactorBounds(lib, r);
    SkyBlendInCube(SkyFactor(lib, r));
  }

  lemma SkyBlendInCube(a: real)
    requires 0.0 <= a <= 1.0
    ensures InUnitCube(SkyBlend(a))
  {
    SkyBlendBounds(a);
  }

  /** The hit case of `RayColorBounded`: the scattered ray's colour is bounded by induction on the remaining depth. */
  lemma {:induction false} HitColorBounded(lib: Float.Libm, cam: Camera, world: Hittables.Hittable, r: Rays.Ray, s: Random.U128, depth: nat, fuel: nat)
    requires forall d :: Float.SqrtAt(lib, d)
    requires MaterialsBounded(world)
    requires depth < cam.maxDepth
    requires Hittables.Hit(lib, world, r, Intervals.From(Intervals.Fin(HIT_TIME_MIN))).Some?
    requires RayColor(lib, cam, world, r, s, depth, fuel).Sample?
    ensures InUnitCube(RayColor(lib, cam, world, r, s, depth, fuel).value)
    decreases cam.maxDepth - depth, 0
  {
    var inter := Intervals.From(Intervals.Fin(HIT_TIME_MIN));
    var rec := Hittables.Hit(lib, world, r, inter).value;
    HitMaterialBounded(lib, world, r, inter);
    var scatter := Scattering.Scatter(lib, rec.mat, r, rec, s, fuel);
    Scattering.ScatterNeverAbsorbs(lib, rec.mat, r, rec, s, fuel);
    assert scatter.Sample?;
    var (scattered, attenuation) := scatter.value.value;
    AttenuationBounded(lib, rec.mat, r, rec, s, fuel);
    if RayColor(lib, cam, world, scattered, scatter.state, depth + 1, fuel).Sample? {
      RayColorBounded(lib, cam, world, scattered, scatter.state, depth + 1, fuel);
    }
    BounceBounded(lib, cam, world, r, s, depth, fuel, rec, scattered, attenuation, scatter.state);
  }

  /** One bounce of `ray_color`: the product of a bounded attenuation and a bounded colour is bounded. */
  lemma BounceBounded(lib: Float.Libm, cam: Camera, world: Hittables.Hittable, r: Rays.Ray, s: Random.U128, depth: nat, fuel: nat,
    rec: HitRecords.HitRecord, scattered: Rays.Ray, attenuation: Colors.Color, s': Random.U128)
    requires depth < cam.maxDepth
    requires Hittables.Hit(lib, world, r, Intervals.From(Intervals.Fin(HIT_TIME_MIN))) == Options.Some(rec)
    requires Scattering.Scatter(lib, rec.mat, r, rec, s, fuel) == Random.Sample(Options.Some((scattered, attenuation)), s')
    requires InUnitCube(attenuation)
    requires RayColor(lib, cam, world, scattered, s', depth + 1, fuel).Sample? ==>
      InUnitCube(RayColor(lib, cam, world, scattered, s', depth + 1, fuel).value)
    requires RayColor(lib, cam, world, r, s, depth, fuel).Sample?
    ensures InUnitCube(RayColor(lib, cam, world, r, s, depth, fuel).value)
  {
    var next := RayColor(lib, cam, world, scattered, s', depth + 1, fuel);
    assert next.Sample?;
    assert RayColor(lib, cam, world, r, s, depth, fuel).value == Colors.Mul(attenuation, next.value);
    MulUnitCube(attenuation, next.value);
  }

  // ---------------------------------------------------------------------
  // The lattice of sample offsets

  /**
   * The offset of `offset_lattice(dx, dy, n)` (n > 0) in row `y`, column `x`:
   * `pos0 + (dy / n) * y + (dx / n) * x` with `pos0 = (dx / n) / 2 + (dy / n) / 2`.
   */
  function LatticePoint(dx: Vectors.Vec3, dy: Vectors.Vec3, n: nat, y: nat, x: nat): Vectors.Vec3 {
    var stepX := Vectors.Div(dx, Float.FromNat(n));
    var stepY := Vectors.Div(dy, Float.FromNat(n));
    var pos0 := Vectors.Add(Vectors.Div(stepX, 2.0), Vectors.Div(stepY, 2.0));
    Vectors.Add(Vectors.Add(pos0, Vectors.Mul(stepY, Float.FromNat(y))), Vectors.Mul(stepX, Float.FromNat(x)))
  }

  /** What `offset_lattice(dx, dy, n)` returns: one centred offset for `n = 0`, else the `n * n` points row by row. */
  function Lattice(dx: Vectors.Vec3, dy: Vectors.Vec3, n: nat): seq<Vectors.Vec3> {
    if n == 0 then [Vectors.Add(Vectors.Div(dx, 2.0), Vectors.Div(dy, 2.0))]
    else seq(n * n, k requires 0 <= k < n * n => LatticePoint(dx, dy, n, k / n, k % n))
  }

  /** `offset_lattice(dx, dy, num_layers)`: two nested loops pushing one offset per lattice point. */
  method OffsetLattice(dx: Vectors.Vec3, dy: Vectors.Vec3, numLayers: nat) returns (offsets: seq<Vectors.Vec3>)
    ensures offsets == Lattice(dx, dy, numLayers)
  {
    if numLayers == 0 {
      return [Vectors.Add(Vectors.Div(dx, 2.0), Vectors.Div(dy, 2.0))];
    }
    var n := numLayers;
    var stepX := Vectors.Div(dx, Float.FromNat(n));
    var stepY := Vectors.Div(dy, Float.FromNat(n));
    var pos0 := Vectors.Add(Vectors.Div(stepX, 2.0), Vectors.Div(stepY, 2.0));
    offsets := [];
    for y := 0 to n
      invariant |offsets| == y * n
      invariant LatticePrefix(offsets, dx, dy, n)
    {
      var pos := Vectors.Add(pos0, Vectors.Mul(stepY, Float.FromNat(y)));
      offsets := LatticeRow(dx, dy, n, y, pos, offsets);
      assert (y + 1) * n == y * n + n;
    }
    assert offsets == Lattice(dx, dy, n);
  }

  /** The offsets are the lattice points of `n` layers, row by row, as far as they go. */
  predicate LatticePrefix(offsets: seq<Vectors.Vec3>, dx: Vectors.Vec3, dy: Vectors.Vec3, n: nat)
    requires n > 0
  {
    forall k :: 0 <= k < |offsets| ==> offsets[k] == LatticePoint(dx, dy, n, k / n, k % n)
  }

  /** The inner loop of `offset_lattice`: the `n` offsets of row `y`, from the row's first point `pos`. */
  method LatticeRow(dx: Vectors.Vec3, dy: Vectors.Vec3, n: nat, y: nat, pos: Vectors.Vec3, offsets0: seq<Vectors.Vec3>)
    returns (offsets: seq<Vectors.Vec3>)
    requires n > 0 && |offsets0| == y * n && LatticePrefix(offsets0, dx, dy, n)
    requires pos == Vectors.Add(Vectors.Add(Vectors.Div(Vectors.Div(dx, Float.FromNat(n)), 2.0), Vectors.Div(Vectors.Div(dy, Float.FromNat(n)), 2.0)),
      Vectors.Mul(Vectors.Div(dy, Float.FromNat(n)), Float.FromNat(y)))
    ensures |offsets| == y * n + n && LatticePrefix(offsets, dx, dy, n)
  {
    var stepX := Vectors.Div(dx, Float.FromNat(n));
    offsets := offsets0;
    for x := 0 to n
      invariant |offsets| == y * n + x
      invariant LatticePrefix(offsets, dx, dy, n)
    {
      RowMajor(n, y, x);
      var point := Vectors.Add(pos, Vectors.Mul(stepX, Float.FromNat(x)));
      assert point == LatticePoint(dx, dy, n, y, x);
      offsets := offsets + [point];
    }
  }

  /** Row-major indexing: index `y * n + x` is row `y`, column `x`. */
  lemma RowMajor(n: nat, y: nat, x: nat)
    requires x < n
    ensures (y * n + x) / n == y && (y * n + x) % n == x
  {
    var k := y * n + x;
    var q, r := k / n, k % n;
    assert q * n + r == y * n + x;
    assert (q - y) * n == x - r;
    if q > y {
      AtLeastOnce(q - y, n);
    } else if q < y {
      AtLeastOnce(y - q, n);
    }
  }

  /** An index below `n * n` splits into a row and a column below `n`. */
  lemma Split(n: nat, k: nat)
    requires n > 0
    ensures k == (k / n) * n + k % n && k % n < n
    ensures k < n * n ==> k / n < n
  {
    var y := k / n;
    if k < n * n && y >= n {
      AtLeastOnce(y - n + 1, n);
    }
  }

  /** A position `y * n + x` below `n * n` lies in a row below `n`. */
  lemma RowBelow(n: nat, y: nat, x: nat)
    requires y * n + x < n * n
    ensures y < n
  {
    if y >= n {
      assert y * n == n * n + (y - n) * n;
      AtLeastOnce(1, (y - n) * n);
    }
  }

  lemma AtLeastOnce(a: int, n: int)
    requires a >= 1 && n >= 0
    ensures a * n >= n
  {
    assert a * n == (a - 1) * n + n;
  }

  /** The lattice holds one offset for `n = 0` and `n * n` otherwise: 1, 1, 4 and 9 offsets for `n` = 0, 1, 2, 3. */
  lemma LatticeSize(dx: Vectors.Vec3, dy: Vectors.Vec3, n: nat)
    ensures |Lattice(dx, dy, n)| == if n == 0 then 1 else n * n
    ensures |Lattice(dx, dy, 0)| == 1 && |Lattice(dx, dy, 1)| == 1
    ensures |Lattice(dx, dy, 2)| == 4 && |Lattice(dx, dy, 3)| == 9
  {
  }

  /** The lattice coefficient `(2k + 1) / (2n)` of row or column `k`. */
  function Coef(n: nat, k: nat): real {
    Float.Quot((2 * k + 1) as real, (2 * n) as real)
  }

  /** Every coefficient of an `n`-layer lattice lies strictly between 0 and 1. */
  lemma CoefInside(n: nat, k: nat)
    requires k < n
    ensures 0.0 < Coef(n, k) < 1.0
  {
    var num, den := (2 * k + 1) as real, (2 * n) as real;
    assert 0.0 < num < den;
    var c := Coef(n, k);
    assert c * den == num;
    if c <= 0.0 {
      assert false;
    } else if c >= 1.0 {
      assert false;
    }
  }

  /**
   * The offset in row `y`, column `x` sits at index `y * n + x` and is
   * `dx * (2x + 1) / (2n) + dy * (2y + 1) / (2n)`: the centre of its cell
   * when the pixel is cut into `n` by `n` cells.
   */
  lemma LatticeCells(dx: Vectors.Vec3, dy: Vectors.Vec3, n: nat, y: nat, x: nat)
    requires y < n && x < n
    ensures y * n + x < |Lattice(dx, dy, n)|
    ensures Lattice(dx, dy, n)[y * n + x] == Vectors.Add(Vectors.Mul(dx, Coef(n, x)), Vectors.Mul(dy, Coef(n, y)))
  {
    RowMajor(n, y, x);
    assert y * n + x < n * n by {
      AtLeastOnce(n - y, n);
      assert (n - y) * n == n * n - y * n;
    }
    assert Lattice(dx, dy, n)[y * n + x] == LatticePoint(dx, dy, n, y, x);
    PointIsCellCentre(dx, dy, n, y, x);
  }
  /**
   * Swapping the two step vectors transposes the lattice: the offset in row
   * `y`, column `x` becomes the offset in row `x`, column `y`. The same
   * offsets are produced, in another order.
   */
  lemma SwappedLatticeTransposes(a: Vectors.Vec3, b: Vectors.Vec3, n: nat, y: nat, x: nat)
    requires y < n && x < n
    ensures y * n + x < |Lattice(a, b, n)| && x * n + y < |Lattice(b, a, n)|
    ensures Lattice(a, b, n)[y * n + x] == Lattice(b, a, n)[x * n + y]
  {
    LatticeCells(a, b, n, y, x);
    LatticeCells(b, a, n, x, y);
  }


  lemma PointIsCellCentre(dx: Vectors.Vec3, dy: Vectors.Vec3, n: nat, y: nat, x: nat)
    requires n > 0
    ensures LatticePoint(dx, dy, n, y, x) == Vectors.Add(Vectors.Mul(dx, Coef(n, x)), Vectors.Mul(dy, Coef(n, y)))
  {
    var stepX := Vectors.Div(dx, Float.FromNat(n));
    var stepY := Vectors.Div(dy, Float.FromNat(n));
    Regroup(Vectors.Div(stepX, 2.0), Vectors.Div(stepY, 2.0), Vectors.Mul(stepY, Float.FromNat(y)), Vectors.Mul(stepX, Float.FromNat(x)));
    CellStep(dx, n, x);
    CellStep(dy, n, y);
  }

  /** `(a + b + c) + d = (a + d) + (b + c)` on vectors. */
  lemma Regroup(a: Vectors.Vec3, b: Vectors.Vec3, c: Vectors.Vec3, d: Vectors.Vec3)
    ensures Vectors.Add(Vectors.Add(Vectors.Add(a, b), c), d) == Vectors.Add(Vectors.Add(a, d), Vectors.Add(b, c))
  {
  }

  /** `(v / n) / 2 + (v / n) * k = v * (2k + 1) / (2n)`, coordinate by coordinate. */
  lemma CellStep(v: Vectors.Vec3, n: nat, k: nat)
    requires n > 0
    ensures var step := Vectors.Div(v, Float.FromNat(n));
      Vectors.Add(Vectors.Div(step, 2.0), Vectors.Mul(step, Float.FromNat(k))) == Vectors.Mul(v, Coef(n, k))
  {
    CellTerm(v.x, n, k);
    CellTerm(v.y, n, k);
    CellTerm(v.z, n, k);
  }

  /** `(a / n) / 2 + (a / n) * k = a * (2k + 1) / (2n)`. */
  lemma CellTerm(a: real, n: nat, k: nat)
    requires n > 0
    ensures Float.Quot(Float.Quot(a, n as real), 2.0) + Float.Quot(a, n as real) * (k as real) == a * Coef(n, k)
  {
    var q := Float.Quot(a, n as real);
    var c := Coef(n, k);
    assert q * (n as real) == a;
    assert c * (2 * n) as real == (2 * k + 1) as real;
    assert (n as real) * c == (2 * k + 1) as real / 2.0;
    calc {
      a * c;
      q * (n as real) * c;
      q * ((n as real) * c);
      q * ((2 * k + 1) as real / 2.0);
      q / 2.0 + q * (k as real);
    }
  }

  /** The sum of a sequence of vectors, from the first. */
  function VecSum(s: seq<Vectors.Vec3>): Vectors.Vec3
    decreases |s|
  {
    if |s| == 0 then Vectors.Vec3(0.0, 0.0, 0.0) else Vectors.Add(VecSum(s[..|s| - 1]), s[|s| - 1])
  }

  /** The sum of the first `m` coefficients of an `n`-layer lattice. */
  function CoefSum(n: nat, m: nat): real
    decreases m
  {
    if m == 0 then 0.0 else CoefSum(n, m - 1) + Coef(n, m - 1)
  }

  /** The first `m` odd numbers add up to `m^2`, so the first `m` coefficients add up to `m^2 / (2n)`. */
  lemma {:induction false} CoefSumClosed(n: nat, m: nat)
    requires n > 0
    ensures CoefSum(n, m) == (m * m) as real / (2 * n) as real
    decreases m
  {
    if m > 0 {
      CoefSumClosed(n, m - 1);
      assert (m * m) as real == ((m - 1) * (m - 1)) as real + (2 * (m - 1) + 1) as real;
    }
  }

  /** The dx and dy coefficients of the sum of the offsets before row `y`, column `x`. */
  function PrefixCoefX(n: nat, y: nat, x: nat): real {
    (y as real) * CoefSum(n, n) + CoefSum(n, x)
  }

  function PrefixCoefY(n: nat, y: nat, x: nat): real {
    (n as real) * CoefSum(n, y) + (x as real) * Coef(n, y)
  }

  /** Adding the offset of row `y`, column `x` (not the last of its row) moves to column `x + 1`. */
  lemma SameRowStep(n: nat, y: nat, x: nat)
    ensures PrefixCoefX(n, y, x + 1) == PrefixCoefX(n, y, x) + Coef(n, x)
    ensures PrefixCoefY(n, y, x + 1) == PrefixCoefY(n, y, x) + Coef(n, y)
  {
  }

  /** Adding the last offset of row `y` moves to the start of row `y + 1`. */
  lemma NextRowStep(n: nat, y: nat)
    requires n > 0
    ensures PrefixCoefX(n, y + 1, 0) == PrefixCoefX(n, y, n - 1) + Coef(n, n - 1)
    ensures PrefixCoefY(n, y + 1, 0) == PrefixCoefY(n, y, n - 1) + Coef(n, y)
  {
    assert (n as real) * Coef(n, y) == ((n - 1) as real) * Coef(n, y) + Coef(n, y);
  }

  lemma Combine(dx: Vectors.Vec3, dy: Vectors.Vec3, a: real, b: real, c: real, d: real)
    ensures Vectors.Add(Vectors.Add(Vectors.Mul(dx, a), Vectors.Mul(dy, b)), Vectors.Add(Vectors.Mul(dx, c), Vectors.Mul(dy, d)))
      == Vectors.Add(Vectors.Mul(dx, a + c), Vectors.Mul(dy, b + d))
  {
  }

  /** The sum of the offsets before row `y`, column `x`, for `n > 0`. */
  lemma {:induction false} LatticePrefixSum(dx: Vectors.Vec3, dy: Vectors.Vec3, n: nat, y: nat, x: nat)
    requires n > 0 && x < n && y * n + x <= n * n
    ensures VecSum(Lattice(dx, dy, n)[..y * n + x])
      == Vectors.Add(Vectors.Mul(dx, PrefixCoefX(n, y, x)), Vectors.Mul(dy, PrefixCoefY(n, y, x)))
    decreases y * n + x
  {
    if x > 0 {
      // the last offset of the prefix is in the same row
      LatticePrefixSum(dx, dy, n, y, x - 1);
      SameRowSum(dx, dy, n, y, x);
    } else if y > 0 {
      // the last offset of the prefix ends the previous row
      assert (y - 1) * n + (n - 1) + 1 == y * n;
      LatticePrefixSum(dx, dy, n, y - 1, n - 1);
      NextRowSum(dx, dy, n, y);
    } else {
      EmptyPrefixSum(dx, dy, n);
    }
  }

  lemma SameRowSum(dx: Vectors.Vec3, dy: Vectors.Vec3, n: nat, y: nat, x: nat)
    requires n > 0 && 0 < x < n && y * n + x <= n * n
    requires VecSum(Lattice(dx, dy, n)[..y * n + (x - 1)])
      == Vectors.Add(Vectors.Mul(dx, PrefixCoefX(n, y, x - 1)), Vectors.Mul(dy, PrefixCoefY(n, y, x - 1)))
    ensures VecSum(Lattice(dx, dy, n)[..y * n + x])
      == Vectors.Add(Vectors.Mul(dx, PrefixCoefX(n, y, x)), Vectors.Mul(dy, PrefixCoefY(n, y, x)))
  {
    PrefixExtend(dx, dy, n, y, x - 1);
    SameRowStep(n, y, x - 1);
  }

  lemma NextRowSum(dx: Vectors.Vec3, dy: Vectors.Vec3, n: nat, y: nat)
    requires n > 0 && 0 < y && y * n <= n * n
    requires (y - 1) * n + (n - 1) + 1 == y * n
    requires VecSum(Lattice(dx, dy, n)[..(y - 1) * n + (n - 1)])
      == Vectors.Add(Vectors.Mul(dx, PrefixCoefX(n, y - 1, n - 1)), Vectors.Mul(dy, PrefixCoefY(n, y - 1, n - 1)))
    ensures VecSum(Lattice(dx, dy, n)[..y * n])
      == Vectors.Add(Vectors.Mul(dx, PrefixCoefX(n, y, 0)), Vectors.Mul(dy, PrefixCoefY(n, y, 0)))
  {
    PrefixExtend(dx, dy, n, y - 1, n - 1);
    NextRowStep(n, y - 1);
  }

  lemma EmptyPrefixSum(dx: Vectors.Vec3, dy: Vectors.Vec3, n: nat)
    requires n > 0
    ensures VecSum(Lattice(dx, dy, n)[..0])
      == Vectors.Add(Vectors.Mul(dx, PrefixCoefX(n, 0, 0)), Vectors.Mul(dy, PrefixCoefY(n, 0, 0)))
  {
    assert CoefSum(n, 0) == 0.0;
    assert PrefixCoefX(n, 0, 0) == 0.0 && PrefixCoefY(n, 0, 0) == 0.0;
    assert Lattice(dx, dy, n)[..0] == [];
  }

  /** Extending the prefix before row `y`, column `x` by the offset at that cell adds its coefficients. */
  lemma PrefixExtend(dx: Vectors.Vec3, dy: Vectors.Vec3, n: nat, y: nat, x: nat)
    requires n > 0 && x < n && y * n + x < n * n
    requires VecSum(Lattice(dx, dy, n)[..y * n + x])
      == Vectors.Add(Vectors.Mul(dx, PrefixCoefX(n, y, x)), Vectors.Mul(dy, PrefixCoefY(n, y, x)))
    ensures VecSum(Lattice(dx, dy, n)[..y * n + x + 1])
      == Vectors.Add(Vectors.Mul(dx, PrefixCoefX(n, y, x) + Coef(n, x)), Vectors.Mul(dy, PrefixCoefY(n, y, x) + Coef(n, y)))
  {
    var l := Lattice(dx, dy, n);
    var k := y * n + x + 1;
    RowBelow(n, y, x);
    LatticeCells(dx, dy, n, y, x);
    assert l[..k][..k - 1] == l[..k - 1];
    assert VecSum(l[..k]) == Vectors.Add(VecSum(l[..k - 1]), l[k - 1]);
    assert l[k - 1] == Vectors.Add(Vectors.Mul(dx, Coef(n, x)), Vectors.Mul(dy, Coef(n, y)));
    Combine(dx, dy, PrefixCoefX(n, y, x), PrefixCoefY(n, y, x), Coef(n, x), Coef(n, y));
  }

  /**
   * The lattice is centred: its offsets add up to its size times the single
   * offset `dx / 2 + dy / 2` of the zero-layer lattice, so their mean is that
   * offset.
   */
  lemma LatticeMean(dx: Vectors.Vec3, dy: Vectors.Vec3, n: nat)
    ensures VecSum(Lattice(dx, dy, n)) == Vectors.Mul(Lattice(dx, dy, 0)[0], |Lattice(dx, dy, n)| as real)
  {
    var l := Lattice(dx, dy, n);
    if n > 0 {
      LatticePrefixSum(dx, dy, n, n, 0);
      assert l[..n * n] == l;
      CoefSumClosed(n, n);
      CoefSumClosed(n, 0);
      var half := (n * n) as real / 2.0;
      assert PrefixCoefX(n, n, 0) == half;
      assert PrefixCoefY(n, n, 0) == half;
      HalfComponents(dx, dy, (n * n) as real);
    }
  }

  lemma HalfComponents(dx: Vectors.Vec3, dy: Vectors.Vec3, m: real)
    ensures Vectors.Add(Vectors.Mul(dx, m / 2.0), Vectors.Mul(dy, m / 2.0))
      == Vectors.Mul(Vectors.Add(Vectors.Div(dx, 2.0), Vectors.Div(dy, 2.0)), m)
  {
  }

  // ---------------------------------------------------------------------
  // The colour of a pixel

  /**
   * The `map`/`fold` of `ray_colors_lattice`: for each offset in order, cast
   * the pixel's ray through it and add its colour to the running sum,
   * threading the generator through every draw.
   */
  function SampleFold(lib: Float.Libm, cam: Camera, world: Hittables.Hittable, i: nat, j: nat,
    offsets: seq<Vectors.Vec3>, acc: Colors.Color, s: Random.U128, fuel: nat): Random.Sampled<Colors.Color>
    decreases |offsets|
  {
    if |offsets| == 0 then Random.Sample(acc, s)
    else
      match GetRay(cam, i, j, offsets[0], s, fuel)
      case Stalled => Random.Stalled
      case Sample(r, s1) =>
        match RayColor(lib, cam, world, r, s1, 0, fuel)
        case Stalled => Random.Stalled
        case Sample(c, s2) => SampleFold(lib, cam, world, i, j, offsets[1..], Colors.Add(acc, c), s2, fuel)
  }

  /** `ray_colors_lattice(width, height, world, offsets, rand)`: the mean colour of the pixel's samples. */
  function RayColorsLattice(lib: Float.Libm, cam: Camera, world: Hittables.Hittable, i: nat, j: nat,
    offsets: seq<Vectors.Vec3>, s: Random.U128, fuel: nat): Random.Sampled<Colors.Color>
  {
    match SampleFold(lib, cam, world, i, j, offsets, Colors.Black(), s, fuel)
    case Stalled => Random.Stalled
    case Sample(sum, s') => Random.Sample(Colors.Div(sum, Float.FromNat(|offsets|)), s')
  }

  /** Every channel in [0, m]. */
  ghost predicate Within(c: Colors.Color, m: real) {
    0.0 <= c.r <= m && 0.0 <= c.g <= m && 0.0 <= c.b <= m
  }

  /** Adding `k` colours of the unit cube to a sum within `m` gives a sum within `m + k`. */
  lemma {:induction false} SampleFoldBounded(lib: Float.Libm, cam: Camera, world: Hittables.Hittable, i: nat, j: nat,
    offsets: seq<Vectors.Vec3>, acc: Colors.Color, m: real, s: Random.U128, fuel: nat)
    requires forall d :: Float.SqrtAt(lib, d)
    requires MaterialsBounded(world)
    requires Within(acc, m)
    requires SampleFold(lib, cam, world, i, j, offsets, acc, s, fuel).Sample?
    ensures Within(SampleFold(lib, cam, world, i, j, offsets, acc, s, fuel).value, m + |offsets| as real)
    decreases |offsets|
  {
    if |offsets| > 0 {
      var ray := GetRay(cam, i, j, offsets[0], s, fuel);
      var c := RayColor(lib, cam, world, ray.value, ray.state, 0, fuel);
      RayColorBounded(lib, cam, world, ray.value, ray.state, 0, fuel);
      SampleFoldBounded(lib, cam, world, i, j, offsets[1..], Colors.Add(acc, c.value), m + 1.0, c.state, fuel);
    }
  }

  /**
   * In a world whose albedos are in [0, 1], a pixel's colour is in [0, 1] on
   * every channel whenever it has at least one sample offset (the source
   * asserts that the offsets are not empty).
   */
  lemma PixelColorBounded(lib: Float.Libm, cam: Camera, world: Hittables.Hittable, i: nat, j: nat,
    offsets: seq<Vectors.Vec3>, s: Random.U128, fuel: nat)
    requires forall d :: Float.SqrtAt(lib, d)
    requires MaterialsBounded(world)
    requires |offsets| > 0
    requires RayColorsLattice(lib, cam, world, i, j, offsets, s, fuel).Sample?
    ensures InUnitCube(RayColorsLattice(lib, cam, world, i, j, offsets, s, fuel).value)
  {
    SampleFoldBounded(lib, cam, world, i, j, offsets, Colors.Black(), 0.0, s, fuel);
    var sum := SampleFold(lib, cam, world, i, j, offsets, Colors.Black(), s, fuel).value;
    var n := |offsets| as real;
    MeanInUnit(sum.r, n);
    MeanInUnit(sum.g, n);
    MeanInUnit(sum.b, n);
  }

  lemma MeanInUnit(a: real, n: real)
    requires n > 0.0 && 0.0 <= a <= 0.0 + n
    ensures 0.0 <= Float.Quot(a, n) <= 1.0
  {
    var q := Float.Quot(a, n);
    assert q * n == a;
    if q < 0.0 {
      Float.MulPos(-q, n);
    } else if q > 1.0 {
      Float.MulPos(q - 1.0, n);
    }
  }

  /** With a single offset the pixel's colour is the colour of its one ray. */
  lemma OneSamplePixel(lib: Float.Libm, cam: Camera, world: Hittables.Hittable, i: nat, j: nat,
    offset: Vectors.Vec3, s: Random.U128, fuel: nat)
    requires GetRay(cam, i, j, offset, s, fuel).Sample?
    ensures var ray := GetRay(cam, i, j, offset, s, fuel);
      RayColorsLattice(lib, cam, world, i, j, [offset], s, fuel) == RayColor(lib, cam, world, ray.value, ray.state, 0, fuel)
  {
    var ray := GetRay(cam, i, j, offset, s, fuel);
    var c := RayColor(lib, cam, world, ray.value, ray.state, 0, fuel);
    assert [offset][1..] == [];
    if c.Sample? {
      var v := c.value;
      assert SampleFold(lib, cam, world, i, j, [offset], Colors.Black(), s, fuel)
        == SampleFold(lib, cam, world, i, j, [], Colors.Add(Colors.Black(), v), c.state, fuel);
      assert Float.FromNat(|[offset]|) == 1.0;
      assert Colors.Div(Colors.Add(Colors.Black(), v), 1.0) == v;
    }
  }
}
