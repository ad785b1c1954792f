/**
 * src/raytracing/hittable.rs: the record of a ray hitting a surface, and the
 * scene, a list of hittable objects of which a ray hits the nearest.
 */
module HitRecords {
  import Vectors
  import Rays
  import Materials

  datatype HitRecord = HitRecord(
    point: Vectors.Point3,
    normal: Vectors.Vec3,
    mat: Materials.Material,
    time: real,
    frontFace: bool)

  /**
   * `face_normal(ray, outward)`: the ray meets the front face iff it runs
   * against the outward normal, and the normal returned always faces the ray.
   */
  function FaceNormal(r: Rays.Ray, outward: Vectors.Vec3): (res: (bool, Vectors.Vec3))
    ensures res.0 <==> Vectors.Dot(r.dir, outward) < 0.0
    ensures res.1 == outward || res.1 == Vectors.Neg(outward)
    ensures res.0 ==> res.1 == outward
    ensures Vectors.Dot(r.dir, res.1) <= 0.0
  {
    var frontFace := Vectors.Dot(r.dir, outward) < 0.0;
    if frontFace then (true, outward)
    else
      Vectors.DotSymmetric(r.dir, outward);
      Vectors.DotSymmetric(r.dir, Vectors.Neg(outward));
      Vectors.DotLinear(outward, outward, r.dir, 0.0);
      (false, Vectors.Neg(outward))
  }

  /**
   * `HitRecord::new(point, normal, time, ray, mat)`: the point, time and
   * material are stored unchanged; the normal is oriented against the ray.
   */
  function NewHitRecord(point: Vectors.Point3, normal: Vectors.Vec3, time: real, ray: Rays.Ray, mat: Materials.Material)
    : (h: HitRecord)
    ensures h.point == point && h.time == time && h.mat == mat
    ensures h.frontFace <==> Vectors.Dot(ray.dir, normal) < 0.0
    ensures h.normal == if h.frontFace then normal else Vectors.Neg(normal)
    ensures Vectors.Dot(ray.dir, h.normal) <= 0.0
  {
    var (frontFace, n) := FaceNormal(ray, normal);
    HitRecord(point, n, mat, time, frontFace)
  }
}

module Hittables {
  import Float
  import Rays
  import Intervals
  import Options
  import HitRecords
  import Spheres

  /** The implementors of `Hittable`: a sphere, or a scene of further objects. */
  datatype Hittable =
    | SphereObj(sphere: Spheres.Sphere)
    | SceneObj(objects: seq<Hittable>)

  /** `min_by` on the hit time: the later-listed record wins only when strictly nearer. */
  function Nearer(a: HitRecords.HitRecord, b: HitRecords.HitRecord): HitRecords.HitRecord {
    if a.time > b.time then b else a
  }

  /** `min_by` over the records, folding from the first: `None` on no records. */
  function NearestHit(hits: seq<HitRecords.HitRecord>): (r: Options.Option<HitRecords.HitRecord>)
    decreases |hits|
  {
    if |hits| == 0 then Options.None
    else
      match NearestHit(hits[..|hits| - 1])
      case None => Options.Some(hits[|hits| - 1])
      case Some(best) => Options.Some(Nearer(best, hits[|hits| - 1]))
  }

  /** `filter_map(|obj| obj.hit(ray, inter))`: the records of the objects that report a hit, in list order. */
  function Somes(results: seq<Options.Option<HitRecords.HitRecord>>): (hits: seq<HitRecords.HitRecord>)
    ensures |hits| <= |results|
    decreases |results|
  {
    if |results| == 0 then []
    else
      var rest := Somes(results[..|results| - 1]);
      match results[|results| - 1]
      case None => rest
      case Some(h) => rest + [h]
  }

  /** `Hittable::hit` on either kind of object. */
  function Hit(lib: Float.Libm, h: Hittable, r: Rays.Ray, inter: Intervals.Interval): Options.Option<HitRecords.HitRecord>
    decreases h, 1
  {
    match h
    case SphereObj(sp) => Spheres.Hit(lib, sp, r, inter)
    case SceneObj(objects) => NearestHit(Somes(ChildHits(lib, objects, r, inter)))
  }

  /** The child objects' own answers, one per object, in list order. */
  function ChildHits(lib: Float.Libm, objects: seq<Hittable>, r: Rays.Ray, inter: Intervals.Interval)
    : (results: seq<Options.Option<HitRecords.HitRecord>>)
    ensures |results| == |objects|
    decreases SceneObj(objects), 0
  {
    seq(|objects|, i requires 0 <= i < |objects| => Hit(lib, objects[i], r, inter))
  }

  /** The minimum found by `NearestHit` is one of the records, none is strictly nearer, and every earlier one is strictly farther. */
  lemma {:induction false} NearestHitIsFirstMinimum(hits: seq<HitRecords.HitRecord>)
    ensures NearestHit(hits).None? <==> |hits| == 0
    ensures NearestHit(hits).Some? ==>
      exists i :: 0 <= i < |hits| && hits[i] == NearestHit(hits).value
        && (forall j :: 0 <= j < i ==> hits[j].time > hits[i].time)
    ensures NearestHit(hits).Some? ==> forall j :: 0 <= j < |hits| ==> NearestHit(hits).value.time <= hits[j].time
    decreases |hits|
  {
    if |hits| > 0 {
      var init := hits[..|hits| - 1];
      var last := hits[|hits| - 1];
      NearestHitIsFirstMinimum(init);
      match NearestHit(init)
      case None =>
        assert NearestHit(hits).value == hits[|hits| - 1];
      case Some(best) =>
        var i :| 0 <= i < |init| && init[i] == best && (forall j :: 0 <= j < i ==> init[j].time > init[i].time);
        if best.time > last.time {
          assert NearestHit(hits).value == hits[|hits| - 1];
          forall j | 0 <= j < |hits| - 1 ensures hits[j].time > last.time {
            assert hits[j] == init[j];
          }
        } else {
          assert NearestHit(hits).value == hits[i];
          assert forall j :: 0 <= j < i ==> hits[j] == init[j];
          forall j | 0 <= j < |hits| ensures best.time <= hits[j].time {
            if j < |hits| - 1 {
              assert hits[j] == init[j];
            }
          }
        }
    }
  }

  /** A record is among the `Somes` of a list iff some entry of the list is that record. */
  lemma {:induction false} SomesMembers(results: seq<Options.Option<HitRecords.HitRecord>>)
    ensures forall h :: h in Somes(results) <==> Options.Some(h) in results
    ensures |Somes(results)| == 0 <==> forall k :: 0 <= k < |results| ==> results[k].None?
    decreases |results|
  {
    if |results| > 0 {
      var init := results[..|results| - 1];
      SomesMembers(init);
      assert results == init + [results[|results| - 1]];
      if |Somes(results)| == 0 {
        forall k | 0 <= k < |results| ensures results[k].None? {
          if k < |results| - 1 {
            assert results[k] == init[k];
          }
        }
      }
    }
  }

  /** `Scene::hit` is `None` iff no object reports a hit for the same interval. */
  lemma SceneMissesIffAllMiss(lib: Float.Libm, objects: seq<Hittable>, r: Rays.Ray, inter: Intervals.Interval)
    ensures Hit(lib, SceneObj(objects), r, inter).None?
      <==> forall k :: 0 <= k < |objects| ==> Hit(lib, objects[k], r, inter).None?
  {
    var results := ChildHits(lib, objects, r, inter);
    SomesMembers(results);
    NearestHitIsFirstMinimum(Somes(results));
    assert forall k :: 0 <= k < |objects| ==> results[k] == Hit(lib, objects[k], r, inter);
  }

  /** `filter_map` keeps a prefix's records as a prefix of the whole list's records. */
  lemma {:induction false} SomesPrefix(results: seq<Options.Option<HitRecords.HitRecord>>, m: nat)
    requires m <= |results|
    ensures Somes(results[..m]) <= Somes(results)
    decreases |results|
  {
    if m < |results| {
      var init := results[..|results| - 1];
      assert results[..m] == init[..m];
      SomesPrefix(init, m);
    } else {
      assert results[..m] == results;
    }
  }

  /**
   * `filter_map` keeps the list order: the record of entry `k` is the
   * `c`-th record, `c` being the number of records before it.
   */
  lemma SomesAt(results: seq<Options.Option<HitRecords.HitRecord>>, k: nat)
    requires k < |results| && results[k].Some?
    ensures |Somes(results[..k])| < |Somes(results)| && Somes(results)[|Somes(results[..k])|] == results[k].value
  {
    var upTo := results[..k + 1];
    assert upTo[..k] == results[..k];
    assert Somes(upTo) == Somes(results[..k]) + [results[k].value];
    SomesPrefix(results, k + 1);
  }

  /** Every record position `i` is reached by some entry with `i` records before it. */
  lemma {:induction false} SomesFrom(results: seq<Options.Option<HitRecords.HitRecord>>, i: nat)
    requires i < |Somes(results)|
    ensures exists k :: 0 <= k < |results| && results[k].Some? && |Somes(results[..k])| == i
    decreases |results|
  {
    var init := results[..|results| - 1];
    if i < |Somes(init)| {
      SomesFrom(init, i);
      var k :| 0 <= k < |init| && init[k].Some? && |Somes(init[..k])| == i;
      assert init[..k] == results[..k];
    } else {
      assert results[..|results| - 1] == init;
    }
  }

  /**
   * When the scene is hit, the record is one that an object reported, no
   * object reported a record with a smaller time, and every object listed
   * before the one reporting it reported no hit or a strictly later one: on
   * ties the earliest object wins.
   */
  lemma SceneHitIsNearest(lib: Float.Libm, objects: seq<Hittable>, r: Rays.Ray, inter: Intervals.Interval)
    requires Hit(lib, SceneObj(objects), r, inter).Some?
    ensures var h := Hit(lib, SceneObj(objects), r, inter).value;
      exists k :: 0 <= k < |objects| && Hit(lib, objects[k], r, inter) == Options.Some(h)
        && forall j :: 0 <= j < k && Hit(lib, objects[j], r, inter).Some? ==> Hit(lib, objects[j], r, inter).value.time > h.time
    ensures var h := Hit(lib, SceneObj(objects), r, inter).value;
      forall k :: 0 <= k < |objects| && Hit(lib, objects[k], r, inter).Some? ==>
        h.time <= Hit(lib, objects[k], r, inter).value.time
  {
    SceneHitReporter(lib, objects, r, inter);
    SceneHitNoLater(lib, objects, r, inter);
  }

  /** The scene's record is the one of an object before which every object missed or hit strictly later. */
  lemma SceneHitReporter(lib: Float.Libm, objects: seq<Hittable>, r: Rays.Ray, inter: Intervals.Interval)
    requires Hit(lib, SceneObj(objects), r, inter).Some?
    ensures var h := Hit(lib, SceneObj(objects), r, inter).value;
      exists k :: 0 <= k < |objects| && Hit(lib, objects[k], r, inter) == Options.Some(h)
        && forall j :: 0 <= j < k && Hit(lib, objects[j], r, inter).Some? ==> Hit(lib, objects[j], r, inter).value.time > h.time
  {
    var results := ChildHits(lib, objects, r, inter);
    assert forall k :: 0 <= k < |objects| ==> results[k] == Hit(lib, objects[k], r, inter);
    FirstReporter(results);
  }

  /** No object of the scene reported a hit earlier than the scene's record. */
  lemma SceneHitNoLater(lib: Float.Libm, objects: seq<Hittable>, r: Rays.Ray, inter: Intervals.Interval)
    requires Hit(lib, SceneObj(objects), r, inter).Some?
    ensures var h := Hit(lib, SceneObj(objects), r, inter).value;
      forall k :: 0 <= k < |objects| && Hit(lib, objects[k], r, inter).Some? ==>
        h.time <= Hit(lib, objects[k], r, inter).value.time
  {
    var results := ChildHits(lib, objects, r, inter);
    assert forall k :: 0 <= k < |objects| ==> results[k] == Hit(lib, objects[k], r, inter);
    NearestOfAll(results);
  }

  /** The nearest record comes from an entry before which every entry is empty or strictly later. */
  lemma FirstReporter(results: seq<Options.Option<HitRecords.HitRecord>>)
    requires NearestHit(Somes(results)).Some?
    ensures var h := NearestHit(Somes(results)).value;
      exists k :: 0 <= k < |results| && results[k] == Options.Some(h)
        && forall j :: 0 <= j < k && results[j].Some? ==> results[j].value.time > h.time
  {
    var i := FirstMinimumIndex(Somes(results));
    var k := ReporterIndex(results, i);
    forall j | 0 <= j < k && results[j].Some?
      ensures results[j].value.time > Somes(results)[i].time
    {
      ReportedBefore(results, i, j, k);
    }
  }

  /** The position of the nearest record: every record before it is strictly later. */
  lemma FirstMinimumIndex(hits: seq<HitRecords.HitRecord>) returns (i: nat)
    requires NearestHit(hits).Some?
    ensures i < |hits| && hits[i] == NearestHit(hits).value
    ensures forall j :: 0 <= j < i ==> hits[j].time > hits[i].time
  {
    NearestHitIsFirstMinimum(hits);
    i :| 0 <= i < |hits| && hits[i] == NearestHit(hits).value && (forall j :: 0 <= j < i ==> hits[j].time > hits[i].time);
  }

  /** The entry that the `i`-th record comes from, with `i` records before it. */
  lemma ReporterIndex(results: seq<Options.Option<HitRecords.HitRecord>>, i: nat) returns (k: nat)
    requires i < |Somes(results)|
    ensures k < |results| && results[k] == Options.Some(Somes(results)[i]) && |Somes(results[..k])| == i
  {
    SomesFrom(results, i);
    k :| 0 <= k < |results| && results[k].Some? && |Somes(results[..k])| == i;
    SomesAt(results, k);
  }

  /**
   * With every record before the `i`-th strictly later than it, an entry
   * before the one holding the `i`-th record is empty or strictly later.
   */
  lemma ReportedBefore(results: seq<Options.Option<HitRecords.HitRecord>>, i: nat, j: nat, k: nat)
    requires i < |Somes(results)|
    requires forall c :: 0 <= c < i ==> Somes(results)[c].time > Somes(results)[i].time
    requires j < k <= |results| && |Somes(results[..k])| == i && results[j].Some?
    ensures results[j].value.time > Somes(results)[i].time
  {
    EarlierRecord(results, j, k);
  }

  /** The record of an entry before entry `k` comes before the records counted up to `k`. */
  lemma EarlierRecord(results: seq<Options.Option<HitRecords.HitRecord>>, j: nat, k: nat)
    requires j < k <= |results| && results[j].Some?
    ensures |Somes(results[..j])| < |Somes(results[..k])|
    ensures |Somes(results[..j])| < |Somes(results)| && Somes(results)[|Somes(results[..j])|] == results[j].value
  {
    SomesAt(results[..k], j);
    assert results[..k][..j] == results[..j];
    SomesAt(results, j);
  }

  /** The nearest record is no later than any entry's record. */
  lemma NearestOfAll(results: seq<Options.Option<HitRecords.HitRecord>>)
    requires NearestHit(Somes(results)).Some?
    ensures var h := NearestHit(Somes(results)).value;
      forall k :: 0 <= k < |results| && results[k].Some? ==> h.time <= results[k].value.time
  {
    var hits := Somes(results);
    SomesMembers(results);
    NearestHitIsFirstMinimum(hits);
    forall k | 0 <= k < |results| && results[k].Some?
      ensures NearestHit(hits).value.time <= results[k].value.time
    {
      assert Options.Some(results[k].value) in results;
      assert results[k].value in hits;
    }
  }

  /** `Scene`: a list of objects that `add` and `clear` update in place. */
  class Scene {
    var objects: seq<Hittable>

    /** `Scene::new()`: no objects. */
    constructor ()
      ensures objects == []
    {
      objects := [];
    }

    /** `objects()`. */
    function Objects(): seq<Hittable>
      reads this
    {
      objects
    }

    /** `clear()`: every object is removed. */
    method Clear()
      modifies this
      ensures objects == []
    {
      objects := [];
    }

    /** `add(obj)`: the object is appended; the earlier objects are unchanged. */
    method Add(obj: Hittable)
      modifies this
      ensures objects == old(objects) + [obj]
      ensures |objects| == |old(objects)| + 1 && objects[..|old(objects)|] == old(objects)
    {
      objects := objects + [obj];
    }

    /** `Scene::hit`: the scene's current objects, hit as a scene object. */
    function Hit(lib: Float.Libm, r: Rays.Ray, inter: Intervals.Interval): Options.Option<HitRecords.HitRecord>
      reads this
    {
      NearestHit(Somes(ChildHits(lib, objects, r, inter)))
    }
  }
}
