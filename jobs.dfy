/**
 * The job submission of `Camera::threaded_render` (src/raytracing/camera.rs):
 * one job per pixel, rows top to bottom and columns left to right, each
 * carrying its own generator split off the render's generator with
 * `copy_reset`, and each sending back the pixel's colour with its column and
 * row.
 */
module RenderJobs {
  import Float
  import Random
  import Vectors
  import Hittables
  import Cameras
  import Images

  /** One pixel job: its column, its row and the seed of its own generator. */
  datatype Job = Job(x: nat, y: nat, seed: Random.U128)

  /**
   * The seed of the `k`-th generator copy: `copy_reset` on a generator that
   * has already been advanced `k` times mixes its state before and after one
   * more `next_int`.
   */
  function JobSeed(s0: Random.U128, k: nat): Random.U128 {
    Random.Mix(Random.XorWord(Random.Iterate(s0, k), Random.Iterate(s0, k + 1)))
  }

  /**
   * The pixel of the `k`-th job for an image `width` pixels wide, counted
   * row by row without division: its column and its row.
   */
  function Position(k: nat, width: nat): (nat, nat)
    requires width > 0
    decreases k
  {
    if k < width then (k, 0)
    else
      var p := Position(k - width, width);
      (p.0, p.1 + 1)
  }

  /** Position `y * width + x` of a row-major grid is column `x` of row `y`. */
  lemma {:induction false} PositionOf(width: nat, y: nat, x: nat)
    requires x < width
    decreases y
    ensures Position(y * width + x, width) == (x, y)
  {
    if y > 0 {
      assert y * width + x - width == (y - 1) * width + x;
      PositionOf(width, y - 1, x);
    }
  }

  /** The position of job `k` is its remainder and quotient by the width. */
  lemma PositionIsDivMod(k: nat, width: nat)
    requires width > 0
    ensures Position(k, width) == (k % width, k / width)
  {
    Cameras.Split(width, k);
    PositionOf(width, k / width, k % width);
  }

  /**
   * The two nested loops that send the jobs, with the pool left out: the
   * jobs in the order sent. The job at position `k` is column `k % width`
   * of row `k / width` and carries the `k`-th split-off seed; the render's
   * generator ends up advanced once per pixel.
   */
  method SubmitJobs(rand: Random.XorShift, height: nat, width: nat) returns (jobs: seq<Job>)
    modifies rand
    ensures |jobs| == height * width
    ensures |jobs| > 0 ==> width > 0
    ensures forall k :: 0 <= k < |jobs| ==> jobs[k].x == k % width && jobs[k].y == k / width
    ensures forall k :: 0 <= k < |jobs| ==> jobs[k].seed == JobSeed(old(rand.state), k)
    ensures rand.state == Random.Iterate(old(rand.state), height * width)
  {
    ghost var s0 := rand.state;
    jobs := [];
    for y := 0 to height
      invariant |jobs| == y * width
      invariant Placed(jobs, width) && Seeded(jobs, s0)
      invariant rand.state == Random.Iterate(s0, |jobs|)
    {
      jobs := SubmitRow(rand, y, width, jobs, s0);
      assert (y + 1) * width == y * width + width;
    }
    PlacedMeans(jobs, width);
  }

  /** The inner loop of the submission: the jobs of row `y`, appended column by column. */
  method SubmitRow(rand: Random.XorShift, y: nat, width: nat, jobs0: seq<Job>, ghost s0: Random.U128)
    returns (jobs: seq<Job>)
    requires |jobs0| == y * width
    requires Placed(jobs0, width) && Seeded(jobs0, s0)
    requires rand.state == Random.Iterate(s0, |jobs0|)
    modifies rand
    ensures |jobs| == y * width + width
    ensures Placed(jobs, width) && Seeded(jobs, s0)
    ensures rand.state == Random.Iterate(s0, |jobs|)
  {
    jobs := jobs0;
    for x := 0 to width
      invariant |jobs| == y * width + x
      invariant Placed(jobs, width) && Seeded(jobs, s0)
      invariant rand.state == Random.Iterate(s0, |jobs|)
    {
      ghost var before := rand.state;
      var copy := rand.CopyReset();
      SeedOfCopy(s0, |jobs|, before, rand.state, copy.state);
      var job := Job(x, y, copy.state);
      PlacedSnoc(jobs, width, y, x, job);
      SeededSnoc(jobs, s0, job);
      jobs := jobs + [job];
    }
  }

  /** Job `k` addresses the pixel at `Position(k, width)`. */
  predicate Placed(jobs: seq<Job>, width: nat) {
    forall k :: 0 <= k < |jobs| ==> width > 0 && (jobs[k].x, jobs[k].y) == Position(k, width)
  }

  /** Job `k` carries the `k`-th split-off seed. */
  predicate Seeded(jobs: seq<Job>, s0: Random.U128) {
    forall k :: 0 <= k < |jobs| ==> jobs[k].seed == JobSeed(s0, k)
  }

  /** Appending the job for column `x` of row `y` keeps the jobs in row-major order. */
  lemma PlacedSnoc(jobs: seq<Job>, width: nat, y: nat, x: nat, job: Job)
    requires x < width && |jobs| == y * width + x
    requires Placed(jobs, width)
    requires job.x == x && job.y == y
    ensures Placed(jobs + [job], width)
  {
    PositionOf(width, y, x);
  }

  /** Appending a job with the next seed keeps every job on its own seed. */
  lemma SeededSnoc(jobs: seq<Job>, s0: Random.U128, job: Job)
    requires Seeded(jobs, s0)
    requires job.seed == JobSeed(s0, |jobs|)
    ensures Seeded(jobs + [job], s0)
  {
  }

  /** `Placed` in terms of division: job `k` is column `k % width` of row `k / width`. */
  lemma PlacedMeans(jobs: seq<Job>, width: nat)
    requires Placed(jobs, width)
    ensures |jobs| > 0 ==> width > 0
    ensures forall k :: 0 <= k < |jobs| ==> jobs[k].x == k % width && jobs[k].y == k / width
  {
    if |jobs| > 0 {
      var first := jobs[0];
      assert width > 0;
      forall k | 0 <= k < |jobs|
        ensures jobs[k].x == k % width && jobs[k].y == k / width
      {
        PositionIsDivMod(k, width);
      }
    }
  }

  /** The `k`-th `copy_reset` leaves the generator at its `k + 1`-th state and hands out the `k`-th seed. */
  lemma SeedOfCopy(s0: Random.U128, k: nat, before: Random.U128, after: Random.U128, seed: Random.U128)
    requires before == Random.Iterate(s0, k) && after == Random.Step(before)
    requires seed == Random.Mix(Random.XorWord(before, after))
    ensures after == Random.Iterate(s0, k + 1) && seed == JobSeed(s0, k)
  {
    Random.IterateSucc(s0, k);
  }

  /**
   * The pixel a job sends back: the lattice-averaged colour of its pixel,
   * drawn with its own generator, tagged with its column and row. `None`
   * when a rejection loop ran out of fuel.
   */
  function JobPixel(lib: Float.Libm, cam: Cameras.Camera, world: Hittables.Hittable,
    offsets: seq<Vectors.Vec3>, job: Job, fuel: nat): (pr: Random.Sampled<Cameras.PixelRender>)
    ensures pr.Sample? <==> Cameras.RayColorsLattice(lib, cam, world, job.x, job.y, offsets, job.seed, fuel).Sample?
    ensures pr.Sample? ==> pr.value.xLoc == job.x && pr.value.yLoc == job.y
    ensures pr.Sample? ==>
      pr.value.color == Cameras.RayColorsLattice(lib, cam, world, job.x, job.y, offsets, job.seed, fuel).value
      && pr.state == Cameras.RayColorsLattice(lib, cam, world, job.x, job.y, offsets, job.seed, fuel).state
  {
    match Cameras.RayColorsLattice(lib, cam, world, job.x, job.y, offsets, job.seed, fuel)
    case Stalled => Random.Stalled
    case Sample(color, s) => Random.Sample(Cameras.PixelRender(color, job.x, job.y), s)
  }

  /**
   * Every submitted job addresses a cell of the `height` by `width` image
   * grid, so writing the pixel it sends back never goes out of bounds.
   */
  lemma JobsInsideGrid(height: nat, width: nat, jobs: seq<Job>, k: nat, pr: Cameras.PixelRender)
    requires |jobs| == height * width && width > 0
    requires forall i :: 0 <= i < |jobs| ==> jobs[i].x == i % width && jobs[i].y == i / width
    requires k < |jobs| && pr.xLoc == jobs[k].x && pr.yLoc == jobs[k].y
    ensures Images.InBounds(Images.BlankImage(height, width), pr)
  {
    Cameras.Split(width, k);
    assert k / width < height;
  }

  /** Different jobs address different pixels. */
  lemma JobsDistinct(width: nat, jobs: seq<Job>, i: nat, j: nat)
    requires width > 0 && i < j < |jobs|
    requires forall k :: 0 <= k < |jobs| ==> jobs[k].x == k % width && jobs[k].y == k / width
    ensures (jobs[i].x, jobs[i].y) != (jobs[j].x, jobs[j].y)
  {
    Cameras.Split(width, i);
    Cameras.Split(width, j);
  }
}
