/**
 * `HitableList::hit`: the scene (the list's `LinkedList<Sphere>`, here a
 * `seq<Sphere>`) is scanned front to back; each sphere is tested on
 * `(tMin, closest_so_far)`, and every hit shrinks `closest_so_far` to its `t`.
 */
module Hitables {
  import opened Wrappers
  import opened Rays
  import opened Materials
  import opened Spheres

  /** The two variables the scan updates: the last accepted hit and `closest_so_far`. */
  datatype ScanState = ScanState(hit: Option<HitRecord>, closest: real)

  /** One iteration of the scan: test `s` on `(tMin, closest)` and keep its hit if there is one. */
  function Step(state: ScanState, s: Sphere, ray: Ray, tMin: real, sqrt: real -> real): ScanState {
    var h := Hit(s, ray, tMin, state.closest, sqrt);
    if h.Some? then ScanState(h, h.value.t) else state
  }

  /**
   * The state after scanning `list`.  A result holds a record inside
   * `(tMin, tMax)` with a material, and `closest` is its `t`; no result
   * leaves `closest` at `tMax`.
   */
  function Scan(list: seq<Sphere>, ray: Ray, tMin: real, tMax: real, sqrt: real -> real): (r: ScanState)
    ensures r.closest <= tMax
    ensures r.hit.None? ==> r.closest == tMax
    ensures r.hit.Some? ==> r.closest == r.hit.value.t && tMin < r.hit.value.t < tMax
    ensures r.hit.Some? ==> r.hit.value.material.Some?
    decreases |list|
  {
    if list == [] then ScanState(None, tMax)
    else Step(Scan(list[..|list| - 1], ray, tMin, tMax, sqrt), list[|list| - 1], ray, tMin, sqrt)
  }

  /** `HitableList::hit` as the source writes it: a loop over the spheres updating two variables. */
  method HitList(list: seq<Sphere>, ray: Ray, tMin: real, tMax: real, sqrt: real -> real) returns (hitRecord: Option<HitRecord>)
    ensures hitRecord == Scan(list, ray, tMin, tMax, sqrt).hit
  {
    hitRecord := None;
    var closestSoFar := tMax;
    for i := 0 to |list|
      invariant ScanState(hitRecord, closestSoFar) == Scan(list[..i], ray, tMin, tMax, sqrt)
      invariant closestSoFar <= tMax
    {
      var hit := SphereHit(list[i], ray, tMin, closestSoFar, sqrt);
      if hit.Some? {
        closestSoFar := hit.value.t;
        hitRecord := hit;
      }
      assert list[..i + 1][..i] == list[..i];
    }
    assert list[..|list|] == list;
  }

  /** `closest_so_far` never increases: scanning more spheres can only lower it. */
  lemma {:induction false} ClosestNeverIncreases(list: seq<Sphere>, ray: Ray, tMin: real, tMax: real, sqrt: real -> real, i: nat)
    requires i <= |list|
    ensures Scan(list, ray, tMin, tMax, sqrt).closest <= Scan(list[..i], ray, tMin, tMax, sqrt).closest
    decreases |list|
  {
    if i < |list| {
      var init := list[..|list| - 1];
      assert init[..i] == list[..i];
      ClosestNeverIncreases(init, ray, tMin, tMax, sqrt, i);
    } else {
      assert list[..i] == list;
    }
  }

  /** The scan finds nothing exactly when every sphere, tested alone on `(tMin, tMax)`, misses. */
  lemma {:induction false} ScanMissesAll(list: seq<Sphere>, ray: Ray, tMin: real, tMax: real, sqrt: real -> real)
    ensures Scan(list, ray, tMin, tMax, sqrt).hit.None? <==>
            forall i | 0 <= i < |list| :: Hit(list[i], ray, tMin, tMax, sqrt).None?
    decreases |list|
  {
    if list != [] {
      var init := list[..|list| - 1];
      ScanMissesAll(init, ray, tMin, tMax, sqrt);
      assert forall i | 0 <= i < |init| :: init[i] == list[i];
    }
  }

  /**
   * A sphere hit later on a narrower interval `(tMin, c)` reports the same
   * record as on `(tMin, tMax)`, provided that record's `t` is below `c`.
   */
  lemma HitNarrowed(s: Sphere, ray: Ray, tMin: real, tMax: real, c: real, sqrt: real -> real)
    requires c <= tMax
    requires Hit(s, ray, tMin, tMax, sqrt).Some? && Hit(s, ray, tMin, tMax, sqrt).value.t < c
    ensures Hit(s, ray, tMin, c, sqrt) == Hit(s, ray, tMin, tMax, sqrt)
  {
  }

  /**
   * The scan reports the nearest hit: whenever some sphere, tested alone on
   * `(tMin, tMax)`, is hit at `t`, the scan has a hit no further than `t`.
   */
  lemma {:induction false} ScanIsNearest(list: seq<Sphere>, ray: Ray, tMin: real, tMax: real, sqrt: real -> real, i: nat)
    requires i < |list| && Hit(list[i], ray, tMin, tMax, sqrt).Some?
    ensures Scan(list, ray, tMin, tMax, sqrt).hit.Some?
    ensures Scan(list, ray, tMin, tMax, sqrt).closest <= Hit(list[i], ray, tMin, tMax, sqrt).value.t
    decreases |list|
  {
    var init := list[..|list| - 1];
    var prev := Scan(init, ray, tMin, tMax, sqrt);
    if i < |list| - 1 {
      assert init[i] == list[i];
      ScanIsNearest(init, ray, tMin, tMax, sqrt, i);
    } else if Hit(list[i], ray, tMin, tMax, sqrt).value.t < prev.closest {
      HitNarrowed(list[i], ray, tMin, tMax, prev.closest, sqrt);
    }
  }

  /** The `t` of every hit the scan accepts, in the order it accepts them. */
  function Accepted(list: seq<Sphere>, ray: Ray, tMin: real, tMax: real, sqrt: real -> real): seq<real>
    decreases |list|
  {
    if list == [] then []
    else
      var init := list[..|list| - 1];
      var h := Hit(list[|list| - 1], ray, tMin, Scan(init, ray, tMin, tMax, sqrt).closest, sqrt);
      if h.Some? then Accepted(init, ray, tMin, tMax, sqrt) + [h.value.t]
      else Accepted(init, ray, tMin, tMax, sqrt)
  }

  predicate StrictlyDecreasing(ts: seq<real>) {
    forall i, j | 0 <= i < j < |ts| :: ts[j] < ts[i]
  }

  /**
   * Accepted hits come in strictly decreasing order, all above `tMin`, and
   * the scan's result is the last one accepted (none accepted: no result).
   */
  lemma {:induction false} AcceptedDecrease(list: seq<Sphere>, ray: Ray, tMin: real, tMax: real, sqrt: real -> real)
    ensures var ts := Accepted(list, ray, tMin, tMax, sqrt);
            StrictlyDecreasing(ts) && (forall k | 0 <= k < |ts| :: tMin < ts[k] < tMax)
    ensures var ts := Accepted(list, ray, tMin, tMax, sqrt);
            (ts == [] <==> Scan(list, ray, tMin, tMax, sqrt).hit.None?) &&
            (ts != [] ==> Scan(list, ray, tMin, tMax, sqrt).closest == ts[|ts| - 1])
    decreases |list|
  {
    if list != [] {
      AcceptedDecrease(list[..|list| - 1], ray, tMin, tMax, sqrt);
    }
  }

  /** The record the scan reports is the record of one of the spheres, at one of its roots. */
  lemma {:induction false} ScanSource(list: seq<Sphere>, ray: Ray, tMin: real, tMax: real, sqrt: real -> real) returns (i: nat)
    requires Scan(list, ray, tMin, tMax, sqrt).hit.Some?
    ensures i < |list|
    ensures var rec := Scan(list, ray, tMin, tMax, sqrt).hit.value;
            rec == RecordAt(list[i], ray, rec.t) && rec.material == Some(list[i].material)
    ensures var t := Scan(list, ray, tMin, tMax, sqrt).hit.value.t;
            QuadA(ray) != 0.0 && (t == NearRoot(list[i], ray, sqrt) || t == FarRoot(list[i], ray, sqrt))
    decreases |list|
  {
    var init := list[..|list| - 1];
    var h := Hit(list[|list| - 1], ray, tMin, Scan(init, ray, tMin, tMax, sqrt).closest, sqrt);
    if h.Some? {
      i := |list| - 1;
    } else {
      i := ScanSource(init, ray, tMin, tMax, sqrt);
      assert init[i] == list[i];
    }
  }
}
