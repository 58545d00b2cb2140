/**
  The world: a list of spheres hit as one object by scanning it in order
  and narrowing the accepted interval after every hit.
*/
module Worlds {
  import opened Wrappers
  import opened Numeric
  import opened Vectors
  import opened Rays
  import opened MaterialKinds
  import opened Hits
  import opened Spheres

  type World = seq<Sphere>

  /** `closest` while the scan holds `best`: the last accepted `t`, else `tMax`. */
  function Closest(tMax: Bound, best: Option<HitData>): Bound {
    if best.Some? then Finite(best.value.t) else tMax
  }

  /**
    `tmp_rec` after the scan has visited the first `k` objects: each object
    is asked for a hit on `[tMin, closest]`, and a hit replaces the record.
  */
  function NearestPrefix(sqrt: real -> real, world: World, r: Ray, tMin: real, tMax: Bound, k: nat): (best: Option<HitData>)
    requires k <= |world|
    ensures best.Some? ==> InRange(best.value.t, tMin, tMax)
    ensures AtMost(Closest(tMax, best), tMax)
    decreases k
  {
    if k == 0 then None
    else
      var prev := NearestPrefix(sqrt, world, r, tMin, tMax, k - 1);
      var h := Intersect(sqrt, world[k - 1], r, tMin, Closest(tMax, prev));
      if h.Some? then h else prev
  }

  /** The record `World::hit` returns. */
  function NearestHit(sqrt: real -> real, world: World, r: Ray, tMin: real, tMax: Bound): Option<HitData> {
    NearestPrefix(sqrt, world, r, tMin, tMax, |world|)
  }

  /** `World::hit`: the closest-hit scan. */
  method Hit(sqrt: real -> real, world: World, r: Ray, tMin: real, tMax: Bound) returns (rec: Option<HitRecord>)
    ensures rec.None? <==> NearestHit(sqrt, world, r, tMin, tMax).None?
    ensures rec.Some? ==> rec.value.Data() == NearestHit(sqrt, world, r, tMin, tMax).value
    ensures rec.Some? ==> InRange(rec.value.t, tMin, tMax)
    ensures |world| == 0 ==> rec.None?
  {
    var tmpRec: Option<HitRecord> := None;
    var closest := tMax;
    for i := 0 to |world|
      invariant closest == Closest(tMax, NearestPrefix(sqrt, world, r, tMin, tMax, i))
      invariant tmpRec.None? <==> NearestPrefix(sqrt, world, r, tMin, tMax, i).None?
      invariant tmpRec.Some? ==> tmpRec.value.Data() == NearestPrefix(sqrt, world, r, tMin, tMax, i).value
    {
      var h := Spheres.Hit(sqrt, world[i], r, tMin, closest);
      if h.Some? {
        closest := Finite(h.value.t);
        tmpRec := h;
      }
    }
    return tmpRec;
  }

  // ---------------------------------------------------------------------
  // Properties of the scan

  /** Once the scan holds a record it keeps one, and `closest` never grows. */
  lemma {:induction false} ScanNarrows(sqrt: real -> real, world: World, r: Ray, tMin: real, tMax: Bound, j: nat, k: nat)
    requires j <= k <= |world|
    ensures NearestPrefix(sqrt, world, r, tMin, tMax, j).Some? ==> NearestPrefix(sqrt, world, r, tMin, tMax, k).Some?
    ensures AtMost(Closest(tMax, NearestPrefix(sqrt, world, r, tMin, tMax, k)),
                   Closest(tMax, NearestPrefix(sqrt, world, r, tMin, tMax, j)))
    decreases k - j
  {
    if j < k {
      ScanNarrows(sqrt, world, r, tMin, tMax, j, k - 1);
    }
  }

  /**
    The scan finds nothing exactly when no object reports a hit on the
    whole interval `[tMin, tMax]`.
  */
  lemma {:induction false} MissIffNoObjectHits(sqrt: real -> real, world: World, r: Ray, tMin: real, tMax: Bound, k: nat)
    requires k <= |world|
    ensures NearestPrefix(sqrt, world, r, tMin, tMax, k).None? <==>
      forall j :: 0 <= j < k ==> Intersect(sqrt, world[j], r, tMin, tMax).None?
  {
    if NearestPrefix(sqrt, world, r, tMin, tMax, k).None? {
      MissMeansNoObjectHits(sqrt, world, r, tMin, tMax, k);
    } else {
      var j := HitComesFromAnObject(sqrt, world, r, tMin, tMax, k);
    }
  }

  lemma {:induction false} MissMeansNoObjectHits(sqrt: real -> real, world: World, r: Ray, tMin: real, tMax: Bound, k: nat)
    requires k <= |world|
    requires NearestPrefix(sqrt, world, r, tMin, tMax, k).None?
    ensures forall j :: 0 <= j < k ==> Intersect(sqrt, world[j], r, tMin, tMax).None?
    decreases k
  {
    if k > 0 {
      MissStep(sqrt, world, r, tMin, tMax, k);
      MissMeansNoObjectHits(sqrt, world, r, tMin, tMax, k - 1);
      forall j | 0 <= j < k
        ensures Intersect(sqrt, world[j], r, tMin, tMax).None?
      {
        if j == k - 1 {
          assert world[j] == world[k - 1];
        }
      }
    }
  }

  /** A scan that ends without a record had none one object earlier, and the last object missed. */
  lemma MissStep(sqrt: real -> real, world: World, r: Ray, tMin: real, tMax: Bound, k: nat)
    requires 0 < k <= |world|
    requires NearestPrefix(sqrt, world, r, tMin, tMax, k).None?
    ensures NearestPrefix(sqrt, world, r, tMin, tMax, k - 1).None?
    ensures Intersect(sqrt, world[k - 1], r, tMin, tMax).None?
  {
    var prev := NearestPrefix(sqrt, world, r, tMin, tMax, k - 1);
    assert prev.None? && Closest(tMax, prev) == tMax;
  }

  /** A record held after `k` objects means one of them hits on `[tMin, tMax]`. */
  lemma {:induction false} HitComesFromAnObject(sqrt: real -> real, world: World, r: Ray, tMin: real, tMax: Bound, k: nat)
    returns (j: nat)
    requires k <= |world|
    requires NearestPrefix(sqrt, world, r, tMin, tMax, k).Some?
    ensures j < k && Intersect(sqrt, world[j], r, tMin, tMax).Some?
    decreases k
  {
    var prev := NearestPrefix(sqrt, world, r, tMin, tMax, k - 1);
    if prev.Some? {
      j := HitComesFromAnObject(sqrt, world, r, tMin, tMax, k - 1);
    } else {
      j := k - 1;
    }
  }

  /**
    Given that spheres return their nearest root, the record returned is no
    farther than any object's own hit on `[tMin, tMax]`.
  */
  lemma {:induction false} NearestIsNoFarther(sqrt: real -> real, world: World, r: Ray, tMin: real, tMax: Bound, k: nat, j: nat)
    requires j < k <= |world|
    requires Intersect(sqrt, world[j], r, tMin, tMax).Some?
    ensures NearestPrefix(sqrt, world, r, tMin, tMax, k).Some?
    ensures NearestPrefix(sqrt, world, r, tMin, tMax, k).value.t <= Intersect(sqrt, world[j], r, tMin, tMax).value.t
    decreases k
  {
    if j < k - 1 {
      NearestIsNoFarther(sqrt, world, r, tMin, tMax, k - 1, j);
      var prev := NearestPrefix(sqrt, world, r, tMin, tMax, k - 1);
      var h := Intersect(sqrt, world[k - 1], r, tMin, Finite(prev.value.t));
      if h.Some? {
        assert h.value.t <= prev.value.t;
      }
    } else {
      var prev := NearestPrefix(sqrt, world, r, tMin, tMax, j);
      var own := Intersect(sqrt, world[j], r, tMin, tMax).value;
      var closest := Closest(tMax, prev);
      if closest.Finite? && own.t > closest.value {
        var h := Intersect(sqrt, world[j], r, tMin, closest);
        if h.Some? {
          assert h.value.t <= closest.value;
        }
      } else if closest.Finite? {
        IntersectShrink(sqrt, world[j], r, tMin, tMax, closest.value);
      }
    }
  }

  /**
    An object whose own hit is no farther than the record held so far
    replaces it, so on equal `t` the later object wins.
  */
  lemma {:induction false} LaterObjectWinsTie(sqrt: real -> real, world: World, r: Ray, tMin: real, tMax: Bound, k: nat)
    requires k < |world|
    requires Intersect(sqrt, world[k], r, tMin, tMax).Some?
    requires NearestPrefix(sqrt, world, r, tMin, tMax, k).Some? ==>
      Intersect(sqrt, world[k], r, tMin, tMax).value.t <= NearestPrefix(sqrt, world, r, tMin, tMax, k).value.t
    ensures NearestPrefix(sqrt, world, r, tMin, tMax, k + 1) == Intersect(sqrt, world[k], r, tMin, tMax)
  {
    var prev := NearestPrefix(sqrt, world, r, tMin, tMax, k);
    if prev.Some? {
      IntersectShrink(sqrt, world[k], r, tMin, tMax, prev.value.t);
    }
  }

  /**
    The record returned is some object's own hit on the whole interval
    `[tMin, tMax]`, and no later object has a hit that near.
  */
  lemma {:induction false} NearestIsLastClosestObject(sqrt: real -> real, world: World, r: Ray, tMin: real, tMax: Bound, k: nat)
    returns (j: nat)
    requires IsSqrt(sqrt)
    requires k <= |world|
    requires NearestPrefix(sqrt, world, r, tMin, tMax, k).Some?
    ensures j < k
    ensures NearestPrefix(sqrt, world, r, tMin, tMax, k) == Intersect(sqrt, world[j], r, tMin, tMax)
    ensures forall i :: j < i < k && Intersect(sqrt, world[i], r, tMin, tMax).Some? ==>
      Intersect(sqrt, world[i], r, tMin, tMax).value.t > NearestPrefix(sqrt, world, r, tMin, tMax, k).value.t
    decreases k
  {
    var prev := NearestPrefix(sqrt, world, r, tMin, tMax, k - 1);
    var h := Intersect(sqrt, world[k - 1], r, tMin, Closest(tMax, prev));
    if h.Some? {
      LastHitIsOwnHit(sqrt, world, r, tMin, tMax, k);
      j := k - 1;
    } else {
      j := NearestIsLastClosestObject(sqrt, world, r, tMin, tMax, k - 1);
      SkippedObjectIsFarther(sqrt, world, r, tMin, tMax, k);
      assert NearestPrefix(sqrt, world, r, tMin, tMax, k) == prev;
      forall i | j < i < k && Intersect(sqrt, world[i], r, tMin, tMax).Some?
        ensures Intersect(sqrt, world[i], r, tMin, tMax).value.t > prev.value.t
      {
        if i == k - 1 {
          assert world[i] == world[k - 1];
        }
      }
    }
  }

  /** An object that replaces the record does so with its own hit on `[tMin, tMax]`. */
  lemma LastHitIsOwnHit(sqrt: real -> real, world: World, r: Ray, tMin: real, tMax: Bound, k: nat)
    requires IsSqrt(sqrt)
    requires 0 < k <= |world|
    requires Intersect(sqrt, world[k - 1], r, tMin, Closest(tMax, NearestPrefix(sqrt, world, r, tMin, tMax, k - 1))).Some?
    ensures NearestPrefix(sqrt, world, r, tMin, tMax, k) == Intersect(sqrt, world[k - 1], r, tMin, tMax)
  {
    var prev := NearestPrefix(sqrt, world, r, tMin, tMax, k - 1);
    if prev.Some? {
      IntersectGrow(sqrt, world[k - 1], r, tMin, tMax, prev.value.t);
    }
  }

  /** An object that does not replace the held record has no hit on `[tMin, tMax]` that near. */
  lemma SkippedObjectIsFarther(sqrt: real -> real, world: World, r: Ray, tMin: real, tMax: Bound, k: nat)
    requires 0 < k <= |world|
    requires NearestPrefix(sqrt, world, r, tMin, tMax, k - 1).Some?
    requires Intersect(sqrt, world[k - 1], r, tMin, Closest(tMax, NearestPrefix(sqrt, world, r, tMin, tMax, k - 1))).None?
    ensures Intersect(sqrt, world[k - 1], r, tMin, tMax).Some? ==>
      Intersect(sqrt, world[k - 1], r, tMin, tMax).value.t > NearestPrefix(sqrt, world, r, tMin, tMax, k - 1).value.t
  {
    var prev := NearestPrefix(sqrt, world, r, tMin, tMax, k - 1);
    var own := Intersect(sqrt, world[k - 1], r, tMin, tMax);
    if own.Some? && own.value.t <= prev.value.t {
      IntersectShrink(sqrt, world[k - 1], r, tMin, tMax, prev.value.t);
      assert false;
    }
  }

  /** The material of the record the world returns is the material of one of its spheres. */
  lemma {:induction false} NearestMaterialBelongsToObject(sqrt: real -> real, world: World, r: Ray, tMin: real, tMax: Bound, k: nat)
    returns (j: nat)
    requires k <= |world|
    requires NearestPrefix(sqrt, world, r, tMin, tMax, k).Some?
    ensures j < k && NearestPrefix(sqrt, world, r, tMin, tMax, k).value.mat == world[j].mat
    decreases k
  {
    var prev := NearestPrefix(sqrt, world, r, tMin, tMax, k - 1);
    var h := Intersect(sqrt, world[k - 1], r, tMin, Closest(tMax, prev));
    if h.Some? {
      j := k - 1;
    } else {
      j := NearestMaterialBelongsToObject(sqrt, world, r, tMin, tMax, k - 1);
    }
  }

  /**
    With every sphere returning its nearest root, the world's record is the
    nearest point along the ray, within `[tMin, tMax]`, on any sphere.
  */
  lemma {:induction false} NearestIsClosestSurfacePoint(sqrt: real -> real, world: World, r: Ray, tMin: real, tMax: Bound, j: nat, t': real)
    requires IsSqrt(sqrt)
    requires r.dir != Zero()
    requires j < |world|
    requires InRange(t', tMin, tMax) && OnSphere(world[j], At(r, t'))
    ensures NearestHit(sqrt, world, r, tMin, tMax).Some?
    ensures NearestHit(sqrt, world, r, tMin, tMax).value.t <= t'
  {
    IntersectIsNearestSurfacePoint(sqrt, world[j], r, tMin, tMax, t');
    NearestIsNoFarther(sqrt, world, r, tMin, tMax, |world|, j);
  }
}
