/**
 * `Sphere` and `Sphere::hit`: the ray parameter `t` where the ray meets the
 * sphere is a root of `a t^2 + 2 b t + c`, with `a = d.d`, `b = d.oc`,
 * `c = oc.oc - r^2` (`d` the direction, `oc` the origin relative to the
 * centre).  The square root is a parameter: `f64::sqrt` is not modelled.
 */
module Spheres {
  import opened Wrappers
  import opened Vectors
  import opened Rays
  import opened Materials

  /** The source divides by the radius; a zero radius is left out. */
  type Radius = r: real | r != 0.0 witness 1.0

  datatype Sphere = Sphere(center: Vec3, radius: Radius, material: Material)

  function QuadA(ray: Ray): real {
    Dot(ray.direction, ray.direction)
  }

  function QuadB(s: Sphere, ray: Ray): real {
    Dot(ray.direction, Sub(ray.origin, s.center))
  }

  function QuadC(s: Sphere, ray: Ray): real {
    Dot(Sub(ray.origin, s.center), Sub(ray.origin, s.center)) - s.radius * s.radius
  }

  function Discriminant(s: Sphere, ray: Ray): real {
    QuadB(s, ray) * QuadB(s, ray) - QuadA(ray) * QuadC(s, ray)
  }

  /** The root tried first, `(-b - sqrt(b*b - a*c)) / a`. */
  function NearRoot(s: Sphere, ray: Ray, sqrt: real -> real): real
    requires QuadA(ray) != 0.0
  {
    (-QuadB(s, ray) - sqrt(Discriminant(s, ray))) / QuadA(ray)
  }

  /** The root tried second, `(-b + sqrt(b*b - a*c)) / a`. */
  function FarRoot(s: Sphere, ray: Ray, sqrt: real -> real): real
    requires QuadA(ray) != 0.0
  {
    (-QuadB(s, ray) + sqrt(Discriminant(s, ray))) / QuadA(ray)
  }

  /** The strict interval test of the source, `t < t_max && t > t_min`. */
  predicate Inside(t: real, tMin: real, tMax: real) {
    t < tMax && t > tMin
  }

  /** The ray meets the sphere at a parameter strictly inside `(tMin, tMax)`. */
  predicate HasRootIn(s: Sphere, ray: Ray, tMin: real, tMax: real, sqrt: real -> real) {
    0.0 <= Discriminant(s, ray) && QuadA(ray) != 0.0 &&
    (Inside(NearRoot(s, ray, sqrt), tMin, tMax) || Inside(FarRoot(s, ray, sqrt), tMin, tMax))
  }

  /** The record filled in for a hit at `t`: point on the ray, normal scaled by the radius, the material. */
  function RecordAt(s: Sphere, ray: Ray, t: real): HitRecord {
    HitRecord(t, PointAt(ray, t), DivScalar(Sub(PointAt(ray, t), s.center), s.radius), Some(s.material))
  }

  /**
   * `Sphere::hit`.  With `a == 0` (a zero direction) IEEE division makes both
   * roots NaN or infinite, so both strict tests fail and the result is `None`.
   */
  function Hit(s: Sphere, ray: Ray, tMin: real, tMax: real, sqrt: real -> real): (r: Option<HitRecord>)
    ensures r.Some? <==> HasRootIn(s, ray, tMin, tMax, sqrt)
    ensures r.Some? ==> tMin < r.value.t < tMax && r.value == RecordAt(s, ray, r.value.t)
    ensures r.Some? ==> r.value.t == NearRoot(s, ray, sqrt) || r.value.t == FarRoot(s, ray, sqrt)
    ensures r.Some? && Inside(NearRoot(s, ray, sqrt), tMin, tMax) ==> r.value.t == NearRoot(s, ray, sqrt)
    ensures Discriminant(s, ray) < 0.0 ==> r.None?
  {
    if Discriminant(s, ray) < 0.0 || QuadA(ray) == 0.0 then
      None
    else if Inside(NearRoot(s, ray, sqrt), tMin, tMax) then
      Some(RecordAt(s, ray, NearRoot(s, ray, sqrt)))
    else if Inside(FarRoot(s, ray, sqrt), tMin, tMax) then
      Some(RecordAt(s, ray, FarRoot(s, ray, sqrt)))
    else
      None
  }

  /**
   * `Sphere::hit` as the source writes it: a default record whose fields are
   * overwritten once a root passes the interval test.
   */
  method SphereHit(s: Sphere, ray: Ray, tMin: real, tMax: real, sqrt: real -> real) returns (hit: Option<HitRecord>)
    ensures hit == Hit(s, ray, tMin, tMax, sqrt)
  {
    var oc := Sub(ray.origin, s.center);
    var a := Dot(ray.direction, ray.direction);
    var b := Dot(ray.direction, oc);
    var c := Dot(oc, oc) - s.radius * s.radius;
    var discriminant := b * b - a * c;
    if discriminant < 0.0 {
      return None;
    }
    var hitRecord := DefaultHitRecord;
    hitRecord := hitRecord.(material := Some(s.material));
    if a == 0.0 {
      return None;
    }
    assert a == QuadA(ray) && b == QuadB(s, ray) && c == QuadC(s, ray);
    assert b * b - a * c == Discriminant(s, ray);
    var temp := (-b - sqrt(b * b - a * c)) / a;
    assert temp == NearRoot(s, ray, sqrt);
    if temp < tMax && temp > tMin {
      hitRecord := hitRecord.(t := temp);
      hitRecord := hitRecord.(p := PointAt(ray, temp));
      hitRecord := hitRecord.(normal := DivScalar(Sub(hitRecord.p, s.center), s.radius));
      assert hitRecord == RecordAt(s, ray, temp);
      return Some(hitRecord);
    }
    temp := (-b + sqrt(b * b - a * c)) / a;
    assert temp == FarRoot(s, ray, sqrt);
    if temp < tMax && temp > tMin {
      hitRecord := hitRecord.(t := temp);
      hitRecord := hitRecord.(p := PointAt(ray, temp));
      hitRecord := hitRecord.(normal := DivScalar(Sub(hitRecord.p, s.center), s.radius));
      assert hitRecord == RecordAt(s, ray, temp);
      return Some(hitRecord);
    }
    return None;
  }

  /** Both roots solve `a t^2 + 2 b t + c = 0` when `sq` is a square root of `b*b - a*c`. */
  lemma QuadraticRoot(a: real, b: real, c: real, sq: real, t: real)
    requires a != 0.0 && sq * sq == b * b - a * c
    requires t == (-b - sq) / a || t == (-b + sq) / a
    ensures a * t * t + 2.0 * b * t + c == 0.0
  {
    var e := if t == (-b - sq) / a then -sq else sq;
    assert a * t == -b + e;
    assert e * e == b * b - a * c;
    calc {
      a * (a * t * t + 2.0 * b * t + c);
      (a * t) * (a * t) + 2.0 * b * (a * t) + a * c;
      (-b + e) * (-b + e) + 2.0 * b * (-b + e) + a * c;
      e * e - b * b + a * c;
      0.0;
    }
  }

  /** The squared distance from the centre of the point at parameter `t`, as a quadratic in `t`. */
  lemma DistanceAlongRay(s: Sphere, ray: Ray, t: real)
    ensures Dot(Sub(PointAt(ray, t), s.center), Sub(PointAt(ray, t), s.center))
            == QuadA(ray) * t * t + 2.0 * QuadB(s, ray) * t + QuadC(s, ray) + s.radius * s.radius
  {
    var d, oc := ray.direction, Sub(ray.origin, s.center);
    assert Sub(PointAt(ray, t), s.center) == Vec3(oc.x + t * d.x, oc.y + t * d.y, oc.z + t * d.z);
    assert (oc.x + t * d.x) * (oc.x + t * d.x) == oc.x * oc.x + 2.0 * t * (d.x * oc.x) + t * t * (d.x * d.x);
    assert (oc.y + t * d.y) * (oc.y + t * d.y) == oc.y * oc.y + 2.0 * t * (d.y * oc.y) + t * t * (d.y * d.y);
    assert (oc.z + t * d.z) * (oc.z + t * d.z) == oc.z * oc.z + 2.0 * t * (d.z * oc.z) + t * t * (d.z * d.z);
  }

  /** A root of the quadratic is a parameter at which the ray is on the sphere's surface. */
  lemma RootOnSphere(s: Sphere, ray: Ray, sqrt: real -> real, t: real)
    requires QuadA(ray) != 0.0
    requires sqrt(Discriminant(s, ray)) * sqrt(Discriminant(s, ray)) == Discriminant(s, ray)
    requires t == NearRoot(s, ray, sqrt) || t == FarRoot(s, ray, sqrt)
    ensures Dot(Sub(PointAt(ray, t), s.center), Sub(PointAt(ray, t), s.center)) == s.radius * s.radius
  {
    QuadraticRoot(QuadA(ray), QuadB(s, ray), QuadC(s, ray), sqrt(Discriminant(s, ray)), t);
    DistanceAlongRay(s, ray, t);
  }

  /**
   * When `sqrt` returns a true square root of the discriminant, a reported
   * hit point lies on the sphere's surface, and the normal has unit length.
   */
  lemma HitIsOnSphere(s: Sphere, ray: Ray, tMin: real, tMax: real, sqrt: real -> real)
    requires sqrt(Discriminant(s, ray)) * sqrt(Discriminant(s, ray)) == Discriminant(s, ray)
    requires Hit(s, ray, tMin, tMax, sqrt).Some?
    ensures var p := Hit(s, ray, tMin, tMax, sqrt).value.p;
            Dot(Sub(p, s.center), Sub(p, s.center)) == s.radius * s.radius
    ensures var n := Hit(s, ray, tMin, tMax, sqrt).value.normal;
            Dot(n, n) == 1.0
  {
    var rec := Hit(s, ray, tMin, tMax, sqrt).value;
    RootOnSphere(s, ray, sqrt, rec.t);
    UnitNormal(Sub(rec.p, s.center), s.radius);
  }

  /** A vector of length `r`, divided by `r`, has unit length. */
  lemma UnitNormal(v: Vec3, r: Radius)
    requires Dot(v, v) == r * r
    ensures Dot(DivScalar(v, r), DivScalar(v, r)) == 1.0
  {
    ScaledLength(v, r);
    CancelSquare(Dot(DivScalar(v, r), DivScalar(v, r)), r, Dot(v, v));
  }

  lemma ScaledLength(v: Vec3, r: Radius)
    ensures Dot(DivScalar(v, r), DivScalar(v, r)) * (r * r) == Dot(v, v)
  {
    QuotientSquare(v.x, r);
    QuotientSquare(v.y, r);
    QuotientSquare(v.z, r);
  }

  lemma QuotientSquare(a: real, r: real)
    requires r != 0.0
    ensures (a / r) * (a / r) * (r * r) == a * a
  {
    var q := a / r;
    assert q * r == a;
  }

  /** `x * r^2 == r^2` with `r` non-zero forces `x == 1`; split on the sign of `r`. */
  lemma CancelSquare(x: real, r: real, y: real)
    requires r != 0.0 && x * (r * r) == y && y == r * r
    ensures x == 1.0
  {
    if r > 0.0 {
      CancelPositive(x, r, r, y);
    } else {
      CancelNegative(x, r, r, y);
    }
  }

  lemma CancelPositive(x: real, a: real, b: real, y: real)
    requires a > 0.0 && b > 0.0 && x * (a * b) == y && y == a * b
    ensures x == 1.0
  {
  }

  lemma CancelNegative(x: real, a: real, b: real, y: real)
    requires a < 0.0 && b < 0.0 && x * (a * b) == y && y == a * b
    ensures x == 1.0
  {
  }

  /** A non-zero direction has positive squared length. */
  lemma QuadAPositive(ray: Ray)
    requires QuadA(ray) != 0.0
    ensures QuadA(ray) > 0.0
  {
    var d := ray.direction;
    assert d.x * d.x >= 0.0 && d.y * d.y >= 0.0 && d.z * d.z >= 0.0;
  }

  /** With a non-negative square root, the near root is never beyond the far root. */
  lemma NearBeforeFar(s: Sphere, ray: Ray, sqrt: real -> real)
    requires QuadA(ray) != 0.0 && 0.0 <= sqrt(Discriminant(s, ray))
    ensures NearRoot(s, ray, sqrt) <= FarRoot(s, ray, sqrt)
  {
    QuadAPositive(ray);
    var a, b, sq := QuadA(ray), QuadB(s, ray), sqrt(Discriminant(s, ray));
    assert NearRoot(s, ray, sqrt) * a == -b - sq;
    assert FarRoot(s, ray, sqrt) * a == -b + sq;
  }

  /**
   * With a non-negative square root, a hit is the nearest root in the
   * interval: no root of the sphere lies in `(tMin, t)`.
   */
  lemma HitIsNearest(s: Sphere, ray: Ray, tMin: real, tMax: real, sqrt: real -> real)
    requires 0.0 <= sqrt(Discriminant(s, ray))
    requires Hit(s, ray, tMin, tMax, sqrt).Some?
    ensures Hit(s, ray, tMin, tMax, sqrt).value.t <= NearRoot(s, ray, sqrt) ||
            NearRoot(s, ray, sqrt) <= tMin
    ensures Hit(s, ray, tMin, tMax, sqrt).value.t <= FarRoot(s, ray, sqrt)
  {
    NearBeforeFar(s, ray, sqrt);
  }
}
