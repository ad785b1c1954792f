# Ray tracing in a weekend, in Dafny

A model of the live rendering engine of NicoElbers/Raytracing_in_a_weekend_rust.
It covers:

- the vector, ray and colour algebra (`src/space/vec3.rs`, `src/raytracing/ray.rs`, `src/raytracing/color.rs`);
- intervals over IEEE values with infinities and NaN (`src/util/interval.rs`);
- hit records, scenes and spheres (`src/raytracing/hittable.rs`, `src/raytracing/shapes/sphere.rs`);
- the three materials and Schlick's reflectance (`src/raytracing/materials.rs`);
- the camera: its basis, `get_ray`, the depth-bounded `ray_color`, the sample lattice, the per-pixel job submission and the image grid (`src/raytracing/camera.rs`);
- the XorShift generator (`src/util/random.rs`);
- the counter bookkeeping of both thread pools (`src/util/thread_pool.rs`, `src/raytracing/render_pool.rs`);
- the progress bar's counter, ETA and line-layout arithmetic (`src/util/progress.rs`);
- the preview window's four-byte frame-buffer write (`src/application/mod.rs`).

How the model is built:

- Every `f64` of the geometry is a Dafny `real`. f64 division is `Float.Quot`.
- `sqrt`, `tan` and `to_radians` are the fields of a `Float.Libm` value passed as a parameter. The square-root law is a lemma precondition. Most lemmas assume it only at the points they use (`Float.SqrtAt`). Lemmas about drawn vectors assume it at every point (`Float.SqrtLaw`): `Vectors.UnitVecIsUnit`, `Vectors.HemisphereIsUnit`, `Cameras.RayColorBounded`, `Cameras.HitColorBounded`, `Cameras.SampleFoldBounded` and `Cameras.PixelColorBounded`.
- A `u128` is a `nat` below 2^128. Shifts truncate modulo 2^128, and `^` is a bitwise function on naturals.
- The generator is a class, `Random.XorShift`, whose methods update `state` in place. Each method is proved against a function on the state (`Step`, `Draw01`, `DrawBound`, `Mix`). The pure parts of the model thread that state through and return the state they leave behind.
- The two rejection loops draw until they accept. They carry a `fuel` bound and return `Random.Stalled` when it runs out.
- Object state that the source mutates is a class with `modifies` frames: `Scene`, `XorShift`, both `SharedState`s, `ProgressBar`, the image grid, and the frame buffer (an `array`).
- The loops of the source (`offset_lattice`, the image fill and gather loops, the job submission, the worker loops, `update_by`) are methods with loop invariants, proved against specification functions.
- The two thread pools are also transition systems. Each statement of `send_job` or of a worker's loop that touches shared data is one event. A schedule is any sequence of events, and an explicit count of jobs in the channel makes the two pools' different `send_job` orderings visible.

Where the code does something other than its names or comments suggest, the model follows the code:

- `pixel00` is the upper-left corner of the viewport, not the centre of the first pixel. The code says so explicitly at `src/raytracing/camera.rs:167-169`.
- `threaded_render` calls `offset_lattice(pixel_delta_v, pixel_delta_u, n)`, with the two step vectors swapped relative to the parameter names (`src/raytracing/camera.rs:225-226`). `Cameras.SwappedLatticeTransposes` shows that this produces the same offsets in transposed order.
- `near_zero` takes no absolute value, so every vector with no positive component counts as near zero (`Vectors.NearZeroWithoutAbs`).
- `camera.rs` imports `render_pool::ThreadPool`, which that file does not define. The pool of `render_pool.rs` is `RenderPool`, and the render model uses it.
- `Color::black` is referenced and not defined. It is (0, 0, 0) here.

## Model

| member | source | states |
|---|---|---|
| `Float.Quot` | src/space/vec3.rs:110-120 | f64 division: for a non-zero divisor the quotient times the divisor is the dividend |
| `Float.Min` | src/raytracing/materials.rs:93 | `f64::min` is at most both operands and equal to one of them |
| `Vectors.AddSubInverse` | src/space/vec3.rs:28-58 | subtraction undoes addition and addition undoes subtraction, component-wise |
| `Vectors.NegInvolution` | src/space/vec3.rs:60-70 | negation is its own inverse, is scaling by -1, and `a + -a` is the zero vector |
| `Vectors.ScalarMulCommutes` | src/space/vec3.rs:72-108 | `f64 * Vec3` equals `Vec3 * f64` and scales each component; `Vec3 * usize` is scaling by the cast count |
| `Vectors.DivUndoesMul` | src/space/vec3.rs:110-120 | dividing by a non-zero scalar undoes multiplying by it |
| `Vectors.DotSymmetric` | src/space/vec3.rs:150-167 | `dot` is symmetric, `dot(v, v)` is `len_squared`, and `len_squared` is never negative |
| `Vectors.DotLinear` | src/space/vec3.rs:160-167 | `dot` is linear in its first argument over `+`, `-`, scaling and negation |
| `Vectors.CrossOrthogonal` | src/space/vec3.rs:170-180 | `cross(a, b)` is orthogonal to both `a` and `b` |
| `Vectors.CrossLength` | src/space/vec3.rs:170-180 | Lagrange's identity: `len_squared(cross(a, b)) = len_squared(a) * len_squared(b) - dot(a, b)^2` |
| `Vectors.ReflectFlipsNormal` | src/space/vec3.rs:252-257 | for a unit normal, `dot(reflect(v, n), n) == -dot(v, n)` |
| `Vectors.ReflectPreservesLength` | src/space/vec3.rs:252-257 | for a unit normal, reflection keeps `len_squared` |
| `Vectors.UnitHasLengthOne` | src/space/vec3.rs:183-185 | `unit` of a non-zero vector has squared length 1, given the square-root law at its squared length |
| `Vectors.NearZeroWithoutAbs` | src/space/vec3.rs:246-250 | every vector with no positive component is `near_zero`, e.g. (-1, -1, -1) of squared length 3 |
| `Vectors.ShortIsNearZero` | src/space/vec3.rs:246-250 | a vector shorter than the 1e-8 threshold is `near_zero` |
| `Vectors.RandomBoundedDraw` | src/space/vec3.rs:208-216 | three `next_01` draws advance the state three times; with `min <= max` each component lies in `[min, max)`, or equals both bounds when they coincide |
| `Vectors.RandomBounded` | src/space/vec3.rs:208-216 | the method on a generator object yields the vector and new state of `RandomBoundedDraw` |
| `Vectors.InUnitSphereDraw` | src/space/vec3.rs:219-227 | an accepted point has `len_squared <= 1` and a non-zero x coordinate, so it is never the origin |
| `Vectors.CubeDrawXNonZero` | src/space/vec3.rs:208-221 | a `random_bounded(-1, 1)` point never has x coordinate 0 |
| `Vectors.UnitVecIsUnit` | src/space/vec3.rs:229-232 | `random_unit_vec` returns a vector of squared length 1, given the square-root law |
| `Vectors.RandomInUnitSphere` | src/space/vec3.rs:219-227 | the rejection loop on a generator object agrees with `InUnitSphereDraw` and returns only points with `len_squared <= 1` |
| `Vectors.HemisphereDraw` | src/space/vec3.rs:234-244 | the result is the drawn unit vector or its negation, and its dot product with the normal is never negative |
| `Vectors.HemisphereIsUnit` | src/space/vec3.rs:234-244 | given the square-root law, the result has squared length 1 and passes `is_unit(0.01)`, so the `debug_assert!` never fires |
| `Vectors.InUnitDiskDraw` | src/space/vec3.rs:270-277 | an accepted point has `z == 0` and `len_squared < 1` |
| `Vectors.RandomVecInUnitDisk` | src/space/vec3.rs:270-277 | the rejection loop on a generator object agrees with `InUnitDiskDraw` and returns only points with `z == 0` and `len_squared < 1` |
| `Rays.NewRay` | src/raytracing/ray.rs:12-33 | `orig()` and `dir()` give back exactly what `new` stored |
| `Rays.AtIsAffine` | src/raytracing/ray.rs:20-23 | `at(t) = orig + t * dir`, and `at(0)` is the origin |
| `Rays.AtAdditive` | src/raytracing/ray.rs:20-23 | `at(s + t)` is `at(s)` moved by `t * dir` |
| `Rays.OffsetIsUnit` | src/raytracing/ray.rs:36-44 | `offset` keeps the origin, and its direction has squared length 1 when `dir + offset` is non-zero |
| `Colors.NewColor` | src/raytracing/color.rs:92-109 | the accessors `r`, `g`, `b` give back the constructor's arguments |
| `Colors.ConversionRoundTrip` | src/raytracing/color.rs:17-21 | Color to Vec3 to Color, and Vec3 to Color to Vec3, are identities |
| `Colors.AddToVecIsVectorAdd` | src/raytracing/color.rs:23-38 | `Color + Vec3` adds channel-wise and yields the right operand's type |
| `Colors.AddCommutes` | src/raytracing/color.rs:23-38 | colour addition is commutative, with black as its identity |
| `Colors.ScaleCommutes` | src/raytracing/color.rs:40-58 | `c * s` and `s * c` are equal and scale every channel by `s` |
| `Colors.MulCommutes` | src/raytracing/color.rs:60-70 | `Color * Color` is commutative, with white as identity and black absorbing |
| `Colors.DivUndoesScale` | src/raytracing/color.rs:72-82 | dividing by a non-zero scalar undoes scaling by it |
| `Intervals.New` | src/util/interval.rs:15-17 | `new(min, max)` stores both bounds as given |
| `Intervals.FiniteContains` | src/util/interval.rs:52-59 | on finite values `contains_inc` is `lo <= x <= hi` and `contains_ex` is `lo < x < hi`, both directions |
| `Intervals.ExImpliesInc` | src/util/interval.rs:52-59 | exclusive containment implies inclusive containment |
| `Intervals.NaNNeverContained` | src/util/interval.rs:52-59 | no interval contains NaN, inclusively or exclusively |
| `Intervals.EmptyContainsNothing` | src/util/interval.rs:7-25 | `empty()` contains no value, not even the infinities, and `default()` is `empty()` |
| `Intervals.UniverseContains` | src/util/interval.rs:28-33 | `universe()` inclusively contains exactly the non-NaN values, and exclusively exactly the finite ones |
| `Intervals.FromTill` | src/util/interval.rs:36-49 | `from(m)` inclusively holds exactly the values at or above `m`, and `till(m)` those at or below it |
| `Intervals.UniverseCases` | src/util/interval.rs:62-113 | the cases of the `universe_contains_inc` and `universe_contains_ex` tests |
| `Intervals.RangeCases` | src/util/interval.rs:86-142 | the cases of the range tests on `new(-10, 0.3)`: both endpoints are in inclusively and out exclusively |
| `HitRecords.FaceNormal` | src/raytracing/hittable.rs:62-79 | `front_face` iff `dot(dir, outward) < 0`; the normal is the outward one when front-facing and its negation otherwise, so `dot(dir, normal) <= 0` |
| `HitRecords.NewHitRecord` | src/raytracing/hittable.rs:26-36 | the record keeps point, time and material, and takes its face and normal from `face_normal` |
| `Hittables.NearestHitIsFirstMinimum` | src/raytracing/hittable.rs:116-119 | `min_by` on time is `None` only on no records; otherwise it returns a record with the least time, and every earlier record is strictly later, so ties go to the first |
| `Hittables.SomesMembers` | src/raytracing/hittable.rs:112-115 | `filter_map` keeps exactly the reported records, and is empty iff every object missed |
| `Hittables.SceneMissesIffAllMiss` | src/raytracing/hittable.rs:112-115 | `Scene::hit` is `None` iff no object reports a hit for the same interval |
| `Hittables.SceneHitIsNearest` | src/raytracing/hittable.rs:112-120 | a scene hit is the record of some object `k` such that every earlier object that hit reported a strictly later time (ties go to the first), and no object reported a smaller time |
| `Hittables.Scene.constructor` | src/raytracing/hittable.rs:91-95 | a new scene has no objects |
| `Hittables.Scene.Clear` | src/raytracing/hittable.rs:102-104 | `clear` removes every object |
| `Hittables.Scene.Add` | src/raytracing/hittable.rs:106-108 | `add` appends the object and leaves the earlier objects unchanged |
| `Spheres.NewWorldObj` | src/raytracing/shapes/sphere.rs:29-36 | the sphere has centre `(x, y, z)`, the given radius and the given material |
| `Spheres.FirstInside` | src/raytracing/shapes/sphere.rs:61-64 | `find` returns the first candidate inclusively inside the interval, and is `None` iff no candidate is inside |
| `Spheres.Hit` | src/raytracing/shapes/sphere.rs:40-71 | no hit when the discriminant is negative or the direction is zero; otherwise no hit iff neither root is inside the interval; a hit carries the first root inside, `r.at(root)`, and outward normal `(point - center) / radius` |
| `Spheres.ZeroLengthDirection` | src/raytracing/shapes/sphere.rs:47 | `a = len_squared(dir)` is 0 exactly when the direction is the zero vector |
| `Spheres.ZeroDirectionRoots` | src/raytracing/shapes/sphere.rs:47-63 | with a zero direction both `a` and `half_b` are 0, so both roots are `0 / 0` |
| `Spheres.CandidatesOrdered` | src/raytracing/shapes/sphere.rs:59-64 | with `a > 0` the root tried first is not the larger one, and the reported time is at most every root inside the interval |
| `Spheres.SmallerRootFirst` | src/raytracing/shapes/sphere.rs:61-63 | for `a > 0` and `sqrtd >= 0`, `(-sqrtd - half_b) / a <= (sqrtd - half_b) / a` |
| `Spheres.OutwardNormalIsUnit` | src/raytracing/shapes/sphere.rs:66-70 | for a non-zero radius the normal `(point - center) / radius` handed to `face_normal` has squared length 1 and passes its `debug_assert!(is_unit(0.1))` (src/raytracing/hittable.rs:63-68) |
| `Spheres.HitPointOnSphere` | src/raytracing/shapes/sphere.rs:66-70 | the reported point lies on the sphere: its squared distance from the centre is `radius^2` |
| `Spheres.RootOnSphere` | src/raytracing/shapes/sphere.rs:42-64 | each of the two roots solves the ray-sphere quadratic |
| `SphereExample.UnitExampleHit` | src/raytracing/shapes/sphere.rs:40-70 | given the square-root law at 0.25, a radius-0.5 sphere at the origin, hit from (0,0,1) along (0,0,-1) over `from(0.01)`, is hit at time 0.5 at (0, 0, 0.5) |
| `SphereExample.HitAtRoot` | src/raytracing/shapes/sphere.rs:66-70 | when the first root inside is `root`, the record has time `root` and point `r.at(root)` |
| `Materials.NewMetal` | src/raytracing/materials.rs:46-49 | `Metal::new` fails exactly when `fuzz > 1`, and otherwise stores albedo and fuzz |
| `Materials.ReflectanceEnds` | src/raytracing/materials.rs:75-80 | `reflectance(1) = ((1 - ir) / (1 + ir))^2` and `reflectance(0) = 1` |
| `Materials.ReflectanceIsProbability` | src/raytracing/materials.rs:75-80 | for `ir > 0` and a cosine in [0, 1] the reflectance is in [0, 1] |
| `Scattering.ScatterNeverAbsorbs` | src/raytracing/materials.rs:22-110 | every completed scatter returns `Some` ray starting at the hit point; only Lambertian and Metal can stall, through their unit-vector draw |
| `Scattering.LambertianScatterIs` | src/raytracing/materials.rs:23-36 | attenuation is the albedo; the direction is `normal + u`, or the normal when that sum is `near_zero` |
| `Scattering.MetalScatterIs` | src/raytracing/materials.rs:53-62 | attenuation is the albedo; the direction is `reflect(unit(dir), normal) + fuzz * u` |
| `Scattering.DielectricScatterIs` | src/raytracing/materials.rs:84-110 | attenuation is white; when refraction is impossible it reflects without drawing; otherwise it draws once and reflects iff the reflectance exceeds the draw, else refracts |
| `Scattering.RefractionRatioCases` | src/raytracing/materials.rs:85-89 | the ratio is `1 / ir` on the front face and `ir` on the back face |
| `Cameras.NewCamera` | src/raytracing/camera.rs:120-203 | the stored parameters; `w = unit(look_from - look_to)`, `u = unit(cross(vup, w))`, `v = cross(w, u)`; `pixel00` is the viewport's upper-left corner; the pixel steps are the viewport edges divided by the image size |
| `Cameras.BasisOrthogonal` | src/raytracing/camera.rs:144-149 | `v` is orthogonal to `u` and `w`, and `u` is orthogonal to `w` |
| `Cameras.BasisUnit` | src/raytracing/camera.rs:144-149 | for `look_from != look_to` and `vup` not parallel to `w`, `u`, `v` and `w` all have squared length 1, given the square-root law at the two lengths, so the basis is orthonormal |
| `Cameras.PixelZeroIsCorner` | src/raytracing/camera.rs:167-169 | half a viewport right and half down from `pixel00` is the viewport centre, `focus_dist` in front of `look_from` |
| `Cameras.PixelDeltasSpanViewport` | src/raytracing/camera.rs:151-165 | `width` horizontal pixel steps make the viewport's horizontal edge, and `height` vertical steps its vertical edge |
| `Cameras.DefocusDiskSample` | src/raytracing/camera.rs:410-414 | the disk point is `look_from + p.x * disk_u + p.y * disk_v` for the drawn unit-disk point `p` |
| `Cameras.GetRay` | src/raytracing/camera.rs:358-378 | the origin is `look_from` iff `defocus_angle <= 0` (and then nothing is drawn), a disk sample otherwise; the ray reaches `pixel00 + i * du + j * dv + offset` at `t = 1` |
| `Cameras.RayColor` | src/raytracing/camera.rs:334-356 | black once `depth >= max_depth`; the sky blend on a miss; on a hit over `from(0.01)`, the attenuation times the colour of the scattered ray one level deeper, black when the material absorbs, and `Stalled` when the scatter or the bounce stalls |
| `Cameras.SkyBlendBounds` | src/raytracing/camera.rs:353-355 | the sky is white at `a = 0` and (0.5, 0.7, 1) at `a = 1`, and stays between them |
| `Cameras.SkyFactorBounds` | src/raytracing/camera.rs:353-354 | the blend factor `0.5 * (unit_dir.y + 1)` lies in [0, 1] |
| `Cameras.RayColorBounded` | src/raytracing/camera.rs:334-356 | in a world whose albedos lie in [0, 1], every colour `ray_color` returns lies in [0, 1] on every channel |
| `Cameras.OffsetLattice` | src/raytracing/camera.rs:380-408 | the nested loops build exactly `Lattice(dx, dy, n)`: one centred offset for `n = 0`, else the `n * n` lattice points row by row |
| `Cameras.LatticeRow` | src/raytracing/camera.rs:399-404 | the inner loop appends the `n` points of row `y` and keeps the whole prefix equal to the lattice |
| `Cameras.LatticeSize` | src/raytracing/camera.rs:439-446 | the lattice holds 1 offset for `n = 0` and `n * n` otherwise: 1, 1, 4 and 9 for `n` = 0 to 3 |
| `Cameras.CoefInside` | src/raytracing/camera.rs:388-405 | every lattice coefficient `(2k + 1) / (2n)` lies strictly between 0 and 1 |
| `Cameras.LatticeCells` | src/raytracing/camera.rs:388-404 | the offset at index `y * n + x` is `dx * (2x + 1) / (2n) + dy * (2y + 1) / (2n)`, the centre of its cell |
| `Cameras.SwappedLatticeTransposes` | src/raytracing/camera.rs:225-226 | swapping the step vectors transposes the lattice: row `y`, column `x` becomes row `x`, column `y` |
| `Cameras.LatticeMean` | src/raytracing/camera.rs:380-405 | the offsets add up to their count times the `n = 0` offset, so their mean is that offset |
| `Cameras.SampleFoldBounded` | src/raytracing/camera.rs:323-330 | folding `k` unit-cube sample colours onto a sum within `m` gives a sum within `m + k` |
| `Cameras.PixelColorBounded` | src/raytracing/camera.rs:312-332 | with at least one offset and bounded albedos, the averaged pixel colour lies in [0, 1] |
| `Cameras.OneSamplePixel` | src/raytracing/camera.rs:312-332 | with a single offset the pixel colour is that one ray's colour |
| `Images.BlankImage` | src/raytracing/camera.rs:275-281 | `height` rows of `width` black cells |
| `Images.Written` | src/raytracing/camera.rs:292 | writing a pixel keeps every row's length and changes only cell `[y_loc][x_loc]` |
| `Images.WrittenAllCells` | src/raytracing/camera.rs:290-298 | after a sequence of writes each cell holds the last colour received for it, or its old colour |
| `Images.ImageGrid.constructor` | src/raytracing/camera.rs:266-281 | the fill loops build `BlankImage(height, width)` |
| `Images.ImageGrid.Write` | src/raytracing/camera.rs:292 | an in-bounds write is `Written`; it reports failure exactly where the index would panic |
| `Images.ImageGrid.Gather` | src/raytracing/camera.rs:290-298 | the gathering loop writes the pixels in order and stops only at the first out-of-bounds one |
| `RenderJobs.SubmitJobs` | src/raytracing/camera.rs:242-264 | one job per pixel, row-major: job `k` is column `k % width` of row `k / width` with the `k`-th split-off seed; the generator advances once per pixel |
| `RenderJobs.SubmitRow` | src/raytracing/camera.rs:244-263 | the inner loop appends the jobs of row `y` and keeps every job at its row-major position and seed |
| `RenderJobs.SeedOfCopy` | src/raytracing/camera.rs:245 | the `k`-th `copy_reset` leaves the generator at its `k + 1`-th state and hands out the `k`-th seed |
| `RenderJobs.JobPixel` | src/raytracing/camera.rs:251-261 | a job sends back exactly the lattice-averaged colour of its own column and row, drawn from its own seed, and leaves the generator where that computation does; it fails only when that computation stalls |
| `RenderJobs.JobsInsideGrid` | src/raytracing/camera.rs:242-292 | every submitted job addresses a cell of the image grid, so its write is in bounds |
| `RenderJobs.JobsDistinct` | src/raytracing/camera.rs:242-264 | different jobs address different pixels |
| `Random.XorWord` | src/util/random.rs:34-36 | `^` of two `u128`s is the bitwise xor and stays below 2^128 |
| `Random.Bounded` | src/util/random.rs:43-45 | `next % u32::MAX` is below `u32::MAX`, so the `u32` conversion never fails |
| `Random.Unit01` | src/util/random.rs:47-49 | `next_u32 / u32::MAX` lies in [0, 1) |
| `Random.Draw01` | src/util/random.rs:40-52 | `next_01` gives a value in [0, 1) and advances the state by one `next_int` |
| `Random.MidpointNeverDrawn` | src/util/random.rs:40-58 | a `next_01` draw scaled onto [-1, 1) is never 0, because half of `u32::MAX` is not a whole number |
| `Random.ScaleBounds` | src/util/random.rs:54-58 | `min + diff * u` for `u` in [0, 1) lies in [min, max), or in (max, min] when the bounds are swapped |
| `Random.DrawBound` | src/util/random.rs:54-59 | `next_bound` advances the state once and, with `min <= max`, lands in [min, max) |
| `Random.ZeroIsFixedPoint` | src/util/random.rs:33-38 | state 0 stays 0 under any number of `next_int` calls |
| `Random.ZeroDrawsZero` | src/util/random.rs:40-52 | from state 0 every `next_01` draw is 0 |
| `Random.ZeroCopiesZero` | src/util/random.rs:61-69 | `copy_reset` of a generator at state 0 gives a copy at state 0 |
| `Random.IterateSucc` | src/util/random.rs:33-38 | `k + 1` calls of `next_int` are one more call after `k` calls |
| `Random.XorShift.constructor` | src/util/random.rs:29-31 | `new(seed)` sets the state to `seed` |
| `Random.XorShift.NextInt` | src/util/random.rs:33-38 | the three in-place xor-shifts give `Step(old state)`, which is stored and returned |
| `Random.XorShift.Next01` | src/util/random.rs:40-52 | the method's value and new state are those of `Draw01` |
| `Random.XorShift.NextBound` | src/util/random.rs:54-59 | the method's value and new state are those of `DrawBound` |
| `Random.XorShift.CopyReset` | src/util/random.rs:61-69 | `self` advances by exactly one `next_int`; the fresh copy's state is `old ^ new`, mixed with `>>13`, `<<5`, `>>11` |
| `Random.ClonesAgree` | src/util/random.rs:3-5 | two generators in equal states (a derived clone) draw the same value and stay equal; the new state is one `next_int` step, and that is the value both return |
| `Random.ClonesAgreeFor` | src/util/random.rs:3-38 | two generators in equal states produce identical sequences of `k` `next_int` values, both equal to `Random.Outputs` (the `i`-th is the state after `i + 1` steps), and end in the same state, `k` steps on |
| `ThreadPools.NewCounters` | src/util/thread_pool.rs:32-38 | a fresh state has all three counters 0, so it is finished and has not panicked |
| `ThreadPools.StartJob` | src/util/thread_pool.rs:40-45 | `job_starting` needs a queued job and moves it from queued to running |
| `ThreadPools.FinishJob` | src/util/thread_pool.rs:47-51 | `job_finished` needs a running job and only decrements the running count |
| `ThreadPools.QueueJob` | src/util/thread_pool.rs:53-55 | `job_queued` only increments the queued count |
| `ThreadPools.CountPanic` | src/util/thread_pool.rs:57-59 | `job_paniced` only increments the panic count |
| `ThreadPools.WorkerJob` | src/util/thread_pool.rs:113-129 | per job: start, finish, then a panic count on `Err`; the running count is restored even when the job panics |
| `ThreadPools.WorkerJobs` | src/util/thread_pool.rs:108-140 | after a series of jobs the running count is unchanged, each job has left the queue, and each failure was counted |
| `ThreadPools.SharedState.constructor` | src/util/thread_pool.rs:32-38 | the fields start as `NewCounters()` |
| `ThreadPools.SharedState.JobStarting` | src/util/thread_pool.rs:40-45 | the in-place update is `StartJob` |
| `ThreadPools.SharedState.JobFinished` | src/util/thread_pool.rs:47-51 | the in-place update is `FinishJob` |
| `ThreadPools.SharedState.JobQueued` | src/util/thread_pool.rs:53-55 | the in-place update is `QueueJob` |
| `ThreadPools.SharedState.JobPaniced` | src/util/thread_pool.rs:57-59 | the in-place update is `CountPanic` |
| `ThreadPools.WorkerLoop` | src/util/thread_pool.rs:108-140 | the worker loop on the shared state performs `WorkerJobs` |
| `ThreadPools.ThreadPool.constructor` | src/util/thread_pool.rs:76-102 | the pool keeps the thread count and starts with fresh counters |
| `ThreadPools.InitInv` | src/util/thread_pool.rs:32-38 | a fresh pool satisfies the bookkeeping invariant and is finished |
| `ThreadPools.StepPreserves` | src/util/thread_pool.rs:143-156 | with `job_queued` before the send, every enabled event passes its debug assertion and keeps the invariant |
| `ThreadPools.NeverViolated` | src/util/thread_pool.rs:147-154 | no schedule fails a debug assertion, and the queued count always covers the jobs in the channel |
| `ThreadPools.FinishedIffIdle` | src/util/thread_pool.rs:183-185 | under the invariant, `is_finished` holds exactly when no job is being sent, in the channel, or held by a worker |
| `ThreadPools.RunStep` | src/util/thread_pool.rs:104-156 | a schedule whose first event can run continues from the state that event leaves |
| `ThreadPools.LifecycleReturnsToFinished` | src/util/thread_pool.rs:104-156 | one job sent and handled to completion returns a finished pool to finished, with one more panic exactly when the job failed |
| `RenderPools.NewCounters` | src/raytracing/render_pool.rs:41-46 | a fresh state has both counters 0 and is finished |
| `RenderPools.StartJob` | src/raytracing/render_pool.rs:48-53 | `job_starting` needs a queued job and moves it from queued to running |
| `RenderPools.FinishJob` | src/raytracing/render_pool.rs:55-59 | `job_finished` needs a running job and only decrements the running count |
| `RenderPools.QueueJob` | src/raytracing/render_pool.rs:61-63 | `job_queued` only increments the queued count |
| `RenderPools.SharedState.constructor` | src/raytracing/render_pool.rs:41-46 | the fields start as `NewCounters()` |
| `RenderPools.SharedState.JobStarting` | src/raytracing/render_pool.rs:48-53 | the in-place update is `StartJob` |
| `RenderPools.SharedState.JobFinished` | src/raytracing/render_pool.rs:55-59 | the in-place update is `FinishJob` |
| `RenderPools.SharedState.JobQueued` | src/raytracing/render_pool.rs:61-63 | the in-place update is `QueueJob` |
| `RenderPools.WorkerLoop` | src/raytracing/render_pool.rs:100-122 | with no panic catch, the worker dies at the first panicking job, which stays counted as running |
| `RenderPools.RenderPool.constructor` | src/raytracing/render_pool.rs:81-130 | `threads()` gives back the count passed to `new`, and the counters start fresh |
| `RenderPools.InitInv` | src/raytracing/render_pool.rs:41-46 | a fresh pool satisfies the bookkeeping invariant and is finished |
| `RenderPools.StepPreserves` | src/raytracing/render_pool.rs:132-142 | every event that runs and passes its assertion keeps the invariant |
| `RenderPools.StartFailsOnlyInRace` | src/raytracing/render_pool.rs:132-142 | `job_starting`'s assertion fails exactly when a sent job is received before the caller counted it |
| `RenderPools.RaceViolatesAssertion` | src/raytracing/render_pool.rs:136-140 | the schedule send, receive, `job_starting` reaches `job_starting` with `jobs_queued == 0` for any number of workers |
| `RenderPools.PanicBlocksFinish` | src/raytracing/render_pool.rs:106-117 | once a job has panicked, no schedule brings the pool back to `is_finished` |
| `RenderPools.ViolationIsRace` | src/raytracing/render_pool.rs:132-142 | every schedule keeps the invariant, and a failed assertion is always `job_starting` in the race window |
| `RenderPools.RunStep` | src/raytracing/render_pool.rs:100-142 | a schedule whose first event can run continues from the state that event leaves |
| `Progress.GetMessage` | src/util/progress.rs:15-20 | the tag is bracketed, 8 characters for `Info` and 9 for `Error` |
| `Progress.Rounds` | src/util/progress.rs:113-128 | the number of whole steps `update_by` takes off: none below the step, else the `k` with `k` steps fitting and `k + 1` not |
| `Progress.NonPositiveStepDiverges` | src/util/progress.rs:116-121 | with a step of at most 0 that has been reached, subtracting it leaves the count still at or above it: the recursion never stops |
| `Progress.SmallGoalDiverges` | src/util/progress.rs:36 | for `goal <= 1` the step `(goal - 1) / 100` is at most 0, so `update()` from a fresh bar finds the count at or above the step after every subtraction |
| `Progress.IntendedStep` | src/util/progress.rs:36 | the step `goal / 100` is positive for every positive goal, and counting up to `goal` moves the bar exactly 100 percent |
| `Progress.ProgressBar.constructor` | src/util/progress.rs:35-52 | nothing counted, percent 0, one percent every `(goal - 1) / 100` steps |
| `Progress.ProgressBar.UpdateBy` | src/util/progress.rs:113-128 | the percent rises by `Rounds(count + by, step)` and the count keeps what is left after that many steps |
| `Progress.ProgressBar.Update` | src/util/progress.rs:130-132 | `update()` is `update_by(1)` |
| `Progress.LeftoverBelowStep` | src/util/progress.rs:116-121 | after an update that moved the percentage, the leftover count lies in [0, step) |
| `Progress.Eta` | src/util/progress.rs:62-74 | 0 at 100 percent or more; otherwise the integer estimate is within one nanosecond per remaining percent of the proportional estimate, never above it |
| `Progress.Split` | src/util/progress.rs:76-81 | hours, minutes, seconds and millis add back up to the ETA, with millis < 1000 and seconds, minutes < 60 |
| `Progress.EtaClock` | src/util/progress.rs:62-83 | the clock fields of the status line add up to the ETA in milliseconds, and are all 0 once the bar is full |
| `Progress.LeftSide` | src/util/progress.rs:85 | the left side is the tag, a space, the message and a space |
| `Progress.PaddingAmount` | src/util/progress.rs:88-91 | without a terminal 1; otherwise the free columns, and underflow exactly when the two sides do not fit |
| `Progress.Repeat` | src/util/progress.rs:93 | `glyph.repeat(n)` has `n` times the glyph's length and repeats it character by character |
| `Progress.Line` | src/util/progress.rs:95 | the line is the left side, the padding and the right side |
| `Progress.LineOverflowsAsWritten` | src/util/progress.rs:88-95 | with the two-character padding as written, a padded line is longer than the terminal by its padding amount |
| `Progress.LineOverflowsExample` | src/util/progress.rs:88-95 | a 20-column terminal with an 8- and a 2-character side gets a 30-character line |
| `Progress.LineFitsTerminal` | src/util/progress.rs:88-95 | with a one-character glyph the line is exactly as wide as the terminal |
| `Application.ToByte` | src/application/mod.rs:133-138 | the saturating `f64 as u8` cast: 0 at or below 0, 255 at or above 255, the floor in between |
| `Application.ToByteMonotone` | src/application/mod.rs:133-138 | a brighter channel never gives a smaller byte |
| `Application.PixelBytesEnds` | src/application/mod.rs:130-138 | a black pixel is written as the bytes 0, 0, 0, 255 and a white one as 255, 255, 255, 255 |
| `Application.PixelBytes` | src/application/mod.rs:130-144 | the four bytes are the r, g, b channels times 255 cast to `u8`, then 0xFF |
| `Application.Drawn` | src/application/mod.rs:140-144 | writing four bytes at `pos` replaces exactly the existing bytes in `pos .. pos + 4` |
| `Application.Draw` | src/application/mod.rs:116-145 | the frame becomes `Drawn` at `4 * (y * width + x)`; success exactly when `pos + 3` is inside the frame |
| `Application.HandleUserEvent` | src/application/mod.rs:153-160 | a `RenderPixel` event draws exactly that pixel and touches nothing else |
| `Application.GridPixelInBounds` | src/application/mod.rs:124-128 | every pixel of a `width` by `height` image is written inside a frame of `4 * width * height` bytes |
| `Application.DistinctPixelsDisjoint` | src/application/mod.rs:124-128 | two different pixels of a row get disjoint four-byte slots |
| `Application.ColumnPastRowWraps` | src/application/mod.rs:124-128 | the offset does not check the column: column `width` of row `y` is column 0 of row `y + 1` |

## Left out

- Threads, `mpsc` channels, `Mutex` locking and `catch_unwind` are not executed. The pools are modelled by their counter transitions and by a schedule of events. The race between `threaded_render`'s `is_finished` poll and the pixel receiver is not modelled.
- A worker's `Err(_) => break` on a closed channel is not an event of the transition systems: it touches no shared counter.
- For the camera's `render_pool::ThreadPool` import the model uses `RenderPool`, which is what `render_pool.rs` defines; `RenderPool::default` reads `available_parallelism` and is not modelled.
- Floating point: rounding, NaN and infinities outside `Interval` are not modelled. `Float.Quot` returns 0 on division by zero, where f64 gives an infinity or NaN. Where a result depends on that case, the lines below say how the model differs.
- `Spheres.Hit`: for a zero direction `a` is 0 and both roots are `0 / 0`, which is NaN in f64, so no root is inside any interval. The model gives such a ray no candidate roots instead of computing them, so it also hits nothing.
- `Cameras.RayColor`: for a ray with a zero direction that misses, the source's `unit` divides by a zero length and the sky colour is NaN. In the model that division gives 0, so the sky is the finite blend at `a = 0.5`. `Cameras.RayColorBounded` covers that finite colour.
- `Spheres.OutwardNormalIsUnit`: a sphere of radius 0 is not covered; its normal divides by zero.
- `Vectors.HemisphereIsUnit`, `Vectors.UnitVecIsUnit`, `Cameras.RayColorBounded`, `Cameras.HitColorBounded`, `Cameras.SampleFoldBounded` and `Cameras.PixelColorBounded`: they need the square-root law at every point (`forall d :: Float.SqrtAt(lib, d)`), because the drawn points are not known in advance.
- `sqrt`, `tan` and `to_radians` are not computed. `powi(5)` is the exact real product `Float.Pow5`, without rounding. `unit`, `len`, `is_unit`, `refract`'s magnitude, the viewport size and the defocus radius are specified only through their definitions and the square-root law.
- The rejection loops of `random_in_unit_sphere` and `random_vec_in_unit_disk` run until they accept; the model bounds them by `fuel` and reports `Stalled` when the fuel runs out.
- `usize` overflow is not modelled: counts, pixel coordinates and frame offsets are unbounded naturals.
- `Duration` arithmetic is modelled in whole nanoseconds with floor division; `as_millis` is whole milliseconds.
- `debug_assert!`s are preconditions of the functions that model the counter updates, and failed assertions are the `Violated` outcome of a schedule. The `debug_assert!(output <= 1.)` of `next_01` holds for every draw (`Random.Unit01`). The `is_unit(0.01)` check of `random_vec_on_hemishpere` (`Vectors.HemisphereIsUnit`) and the `is_unit(0.1)` check of `face_normal` on a sphere's normal (`Spheres.OutwardNormalIsUnit`) are proved under the square-root law. `HitRecords.FaceNormal` itself does not require a unit normal.
- `Progress.ProgressBar.UpdateBy`: requires a positive step or a count that stays below the step, because the source recurses forever otherwise (`Progress.NonPositiveStepDiverges`).
- `Application.ToByte`: NaN is not a `real`, so the cast's NaN-to-0 case is not modelled.
- `Images.ImageGrid.Write`: an out-of-bounds index panics in the source; the model reports `ok == false` and leaves the grid unchanged.
- `Application.Draw`: an out-of-bounds index panics in the source; the model reports `ok == false` after the writes that were in bounds.
- I/O: `Color::write`, `gamma_correct`, `wire_full_file`, the image file, every `println!`/`eprintln!`, the progress bar's terminal writes and `terminal_size`. The clock (`Instant`) becomes an `elapsed` parameter, and the terminal width an optional parameter.
- `XorShift::default` reads the system clock and is not modelled.
- `Vec3::random` (three plain `next_01` draws) is not used by the renderer and is not modelled.
- The `Display` implementations are not modelled.
- The preview's event transmitter, `Application::create`, `run`, `render` and `request_redraw` are not modelled. `handle_user_event` is modelled only as the call to `draw`.
- The demo scenes of `src/raytracing/mod.rs`, `src/main.rs` and the orphaned root-level modules (`src/vec3.rs`, `src/point3.rs`, `src/color.rs`, `src/ray.rs`, `src/shapes.rs`, `src/hittable.rs`) are not part of this model.
- `Point3` (`src/space/point3.rs`) is not part of this model; it is taken to be `Vec3`.
- `Material` is a closed datatype of the three materials rather than an open trait.

## Findings

| source | as written | input that shows it | evidently intended | confidence | as-written member | corrected member |
|---|---|---|---|---|---|---|
| src/util/progress.rs:93 | the padding glyph is the two characters `Â·` (a UTF-8 middle dot read as Latin-1), while the padding amount counts one column per glyph | a 20-column terminal with sides of 8 and 2 characters: 10 glyphs make a 30-column line | one single-column glyph `·` per free column, so the line fills the terminal exactly | medium, not executed | `Progress.LineOverflowsAsWritten`, `Progress.LineOverflowsExample` | `Progress.LineFitsTerminal` |
| src/util/progress.rs:36 | `update_at_count = (goal - 1) / 100`, which is at most 0 when `goal <= 1`; `update_by` (lines 116-121) then subtracts a non-positive step and recurses as long as the count is at or above it | the "Sending jobs" bar of an image one row high (src/raytracing/camera.rs:239-244) has goal 1 and step 0: its first `update()` never returns | one percent of the goal, `goal / 100`, which is positive and gives exactly 100 rounds at the goal | high, not executed | `Progress.SmallGoalDiverges`, `Progress.NonPositiveStepDiverges` | `Progress.IntendedStep` |
