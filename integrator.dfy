/**
 * `get_color`: the colour seen along a ray.  The scene is queried on
 * `(0.001, f64::MAX)`; on a miss the sky gradient is returned, on a hit the
 * material scatters and the colour recurses while `depth < 50`.
 *
 * The sky gradient and the square root are parameters, and `noise(depth)`
 * stands for the `random_in_unit_sphere()` vector drawn at that depth.
 */
module Integrator {
  import opened Wrappers
  import opened Vectors
  import opened Rays
  import opened Materials
  import opened Spheres
  import opened Hitables

  /** The lower end of the query interval, which keeps a bounce from re-hitting its own surface. */
  const HitMin: real := 0.001

  /** `f64::MAX`, `(2 - 2^-52) * 2^1023`, written out exactly. */
  const F64Max: real := 179769313486231570814527423731704356798070567525844996598917476803157260780028538760589558632766878171540458953514382464234321326889464182768467546703537516986049910576551282076245490090389328944075868508455133942304583236903222948165808559332123348274797826204144723168738177180919299881250404026184124858368.0

  /** Recursion continues only while `depth` is below this bound. */
  const MaxDepth: int := 50

  /** The nearest hit of the scene on `(HitMin, F64Max)`. */
  function SceneHit(list: seq<Sphere>, ray: Ray, sqrt: real -> real): (r: Option<HitRecord>)
    ensures r.Some? ==> HitMin < r.value.t < F64Max && r.value.material.Some?
  {
    Scan(list, ray, HitMin, F64Max, sqrt).hit
  }

  /** The ray `get_color` recurses on from `depth`, if it recurses. */
  function Bounce(list: seq<Sphere>, ray: Ray, depth: int, sqrt: real -> real, noise: int -> Vec3): Option<Ray> {
    var hit := SceneHit(list, ray, sqrt);
    if hit.Some? && depth < MaxDepth then Scattered(hit.value.material.value, ray, hit.value, noise(depth))
    else None
  }

  /**
   * `get_color(ray, hit_list, depth)`.  The `unwrap` of the hit's material
   * never fails: every record the scene reports carries one.
   */
  function GetColor(list: seq<Sphere>, ray: Ray, depth: int, sqrt: real -> real, sky: Vec3 -> Vec3, noise: int -> Vec3): Vec3
    decreases MaxDepth - depth
  {
    var hit := SceneHit(list, ray, sqrt);
    if hit.Some? then
      var rec := hit.value;
      var scattered := Scattered(rec.material.value, ray, rec, noise(depth));
      if depth < MaxDepth && scattered.Some? then
        Mul(rec.material.value.albedo, GetColor(list, scattered.value, depth + 1, sqrt, sky, noise))
      else
        Black
    else
      sky(ray.direction)
  }

  /** The depths of every `get_color` call one evaluation makes, the first call included. */
  function CallDepths(list: seq<Sphere>, ray: Ray, depth: int, sqrt: real -> real, noise: int -> Vec3): seq<int>
    decreases MaxDepth - depth
  {
    var next := Bounce(list, ray, depth, sqrt, noise);
    if next.Some? then [depth] + CallDepths(list, next.value, depth + 1, sqrt, noise) else [depth]
  }

  /**
   * Each call is one level deeper than its caller, and from a depth of at
   * most 50 no call goes beyond depth 50: from depth 0 there are at most 51 calls.
   */
  lemma {:induction false} DepthBounded(list: seq<Sphere>, ray: Ray, depth: int, sqrt: real -> real, noise: int -> Vec3)
    requires depth <= MaxDepth
    ensures var ds := CallDepths(list, ray, depth, sqrt, noise);
            1 <= |ds| <= MaxDepth - depth + 1 && (forall k | 0 <= k < |ds| :: ds[k] == depth + k)
    ensures forall d | d in CallDepths(list, ray, depth, sqrt, noise) :: depth <= d <= MaxDepth
    decreases MaxDepth - depth
  {
    var next := Bounce(list, ray, depth, sqrt, noise);
    if next.Some? {
      DepthBounded(list, next.value, depth + 1, sqrt, noise);
    }
  }

  /** The colour is the albedo times the colour of the bounce when there is one, black on a dead hit, the sky on a miss. */
  lemma ColorCases(list: seq<Sphere>, ray: Ray, depth: int, sqrt: real -> real, sky: Vec3 -> Vec3, noise: int -> Vec3)
    ensures SceneHit(list, ray, sqrt).None? ==> GetColor(list, ray, depth, sqrt, sky, noise) == sky(ray.direction)
    ensures SceneHit(list, ray, sqrt).Some? && Bounce(list, ray, depth, sqrt, noise).None? ==>
            GetColor(list, ray, depth, sqrt, sky, noise) == Black
    ensures Bounce(list, ray, depth, sqrt, noise).Some? ==>
            GetColor(list, ray, depth, sqrt, sky, noise) ==
            Mul(SceneHit(list, ray, sqrt).value.material.value.albedo,
                GetColor(list, Bounce(list, ray, depth, sqrt, noise).value, depth + 1, sqrt, sky, noise))
  {
  }

  /** Once the depth is exhausted nothing recurses: the colour is the sky or black. */
  lemma ColorAtMaxDepth(list: seq<Sphere>, ray: Ray, depth: int, sqrt: real -> real, sky: Vec3 -> Vec3, noise: int -> Vec3)
    requires MaxDepth <= depth
    ensures Bounce(list, ray, depth, sqrt, noise).None?
    ensures GetColor(list, ray, depth, sqrt, sky, noise) in {sky(ray.direction), Black}
  {
  }

  /** An empty scene shows only the sky. */
  lemma EmptySceneIsSky(ray: Ray, depth: int, sqrt: real -> real, sky: Vec3 -> Vec3, noise: int -> Vec3)
    ensures GetColor([], ray, depth, sqrt, sky, noise) == sky(ray.direction)
  {
  }

  predicate InUnitCube(v: Vec3) {
    0.0 <= v.x <= 1.0 && 0.0 <= v.y <= 1.0 && 0.0 <= v.z <= 1.0
  }

  lemma UnitProduct(a: real, b: real)
    requires 0.0 <= a <= 1.0 && 0.0 <= b <= 1.0
    ensures 0.0 <= a * b <= 1.0
  {
    NonNegativeProduct(a, b);
    NonNegativeProduct(a, 1.0 - b);
  }

  lemma NonNegativeProduct(a: real, b: real)
    requires 0.0 <= a && 0.0 <= b
    ensures 0.0 <= a * b
  {
  }

  lemma UnitMul(u: Vec3, v: Vec3)
    requires InUnitCube(u) && InUnitCube(v)
    ensures InUnitCube(Mul(u, v))
  {
    UnitProduct(u.x, v.x);
    UnitProduct(u.y, v.y);
    UnitProduct(u.z, v.z);
  }

  /**
   * With albedos and sky colours in `[0, 1]` per channel, every colour
   * `get_color` returns is in `[0, 1]` per channel.
   */
  lemma {:induction false} ColorInUnitCube(list: seq<Sphere>, ray: Ray, depth: int, sqrt: real -> real, sky: Vec3 -> Vec3, noise: int -> Vec3)
    requires forall i | 0 <= i < |list| :: InUnitCube(list[i].material.albedo)
    requires forall v :: InUnitCube(sky(v))
    ensures InUnitCube(GetColor(list, ray, depth, sqrt, sky, noise))
    decreases MaxDepth - depth
  {
    var hit := SceneHit(list, ray, sqrt);
    if hit.Some? {
      var scattered := Scattered(hit.value.material.value, ray, hit.value, noise(depth));
      if depth < MaxDepth && scattered.Some? {
        var i := ScanSource(list, ray, HitMin, F64Max, sqrt);
        ColorInUnitCube(list, scattered.value, depth + 1, sqrt, sky, noise);
        UnitMul(hit.value.material.value.albedo, GetColor(list, scattered.value, depth + 1, sqrt, sky, noise));
      }
    }
  }
}
