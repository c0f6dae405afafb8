/**
 * The `Material` enum (`Metal | Lambertian`), `HitRecord`, `Metal::new` and
 * the two `scatter` implementations.  The random vector each `scatter` draws
 * with `random_in_unit_sphere()` is passed in as `noise`.
 */
module Materials {
  import opened Wrappers
  import opened Vectors
  import opened Rays

  datatype Material = Metal(albedo: Vec3, fuzz: real) | Lambertian(albedo: Vec3)

  /** What a hit reports: ray parameter, point, outward normal, and the material hit. */
  datatype HitRecord = HitRecord(t: real, p: Vec3, normal: Vec3, material: Option<Material>)

  /** `HitRecord::default()`: zero parameter, zero vectors, no material. */
  const DefaultHitRecord: HitRecord := HitRecord(0.0, Origin, Origin, None)

  lemma DefaultHitRecordIsEmpty()
    ensures DefaultHitRecord.t == 0.0 && DefaultHitRecord.p == Vec3(0.0, 0.0, 0.0)
    ensures DefaultHitRecord.normal == Vec3(0.0, 0.0, 0.0) && DefaultHitRecord.material.None?
  {
  }

  /** `Metal::new`: the fuzz is clamped from above at 1.0 and kept otherwise, with no lower bound. */
  function NewMetal(albedo: Vec3, fuzz: real): (m: Material)
    ensures m.Metal? && m.albedo == albedo
    ensures m.fuzz <= 1.0
    ensures fuzz < 1.0 ==> m.fuzz == fuzz
    ensures 1.0 <= fuzz ==> m.fuzz == 1.0
  {
    if fuzz < 1.0 then Metal(albedo, fuzz) else Metal(albedo, 1.0)
  }

  /** Building a metal from an already-built metal's fields changes nothing. */
  lemma NewMetalIdempotent(albedo: Vec3, fuzz: real)
    ensures NewMetal(NewMetal(albedo, fuzz).albedo, NewMetal(albedo, fuzz).fuzz) == NewMetal(albedo, fuzz)
  {
  }

  /** The direction `Metal::scatter` tries: the mirror direction perturbed by `fuzz * noise`. */
  function MetalDirection(albedo: Vec3, fuzz: real, rayIn: Ray, rec: HitRecord, noise: Vec3): Vec3 {
    Add(Reflect(rayIn.direction, rec.normal), Scale(noise, fuzz))
  }

  /**
   * The ray `scatter` returns.  A Lambertian surface always scatters, towards
   * `p + normal + noise`; a metal scatters only when the perturbed mirror
   * direction points to the normal's side of the surface.
   */
  function Scattered(m: Material, rayIn: Ray, rec: HitRecord, noise: Vec3): (r: Option<Ray>)
    ensures r.Some? ==> r.value.origin == rec.p
    ensures m.Lambertian? ==> r.Some?
    ensures m.Metal? ==> (r.Some? <==> Dot(MetalDirection(m.albedo, m.fuzz, rayIn, rec, noise), rec.normal) > 0.0)
    ensures m.Metal? && r.Some? ==> Dot(r.value.direction, rec.normal) > 0.0
  {
    match m
    case Metal(albedo, fuzz) =>
      var scattered := Ray(rec.p, MetalDirection(albedo, fuzz, rayIn, rec, noise));
      if Dot(scattered.direction, rec.normal) > 0.0 then Some(scattered) else None
    case Lambertian(albedo) =>
      var target := Add(Add(rec.p, rec.normal), noise);
      Some(Ray(rec.p, Sub(target, rec.p)))
  }

  /**
   * `MaterialTrait::scatter`: writes the albedo through the `attenuation`
   * out-parameter and returns the scattered ray, if any.
   */
  method Scatter(m: Material, rayIn: Ray, rec: HitRecord, noise: Vec3) returns (attenuation: Vec3, scattered: Option<Ray>)
    ensures attenuation == m.albedo
    ensures scattered == Scattered(m, rayIn, rec, noise)
  {
    match m {
      case Metal(albedo, fuzz) =>
        var reflected := Reflect(rayIn.direction, rec.normal);
        var candidate := Ray(rec.p, Add(reflected, Scale(noise, fuzz)));
        attenuation := albedo;
        if Dot(candidate.direction, rec.normal) > 0.0 {
          scattered := Some(candidate);
        } else {
          scattered := None;
        }
      case Lambertian(albedo) =>
        var target := Add(Add(rec.p, rec.normal), noise);
        scattered := Some(Ray(rec.p, Sub(target, rec.p)));
        attenuation := albedo;
    }
  }

  /** Over exact arithmetic the Lambertian direction is `normal + noise`. */
  lemma LambertianDirection(albedo: Vec3, rayIn: Ray, rec: HitRecord, noise: Vec3)
    ensures Scattered(Lambertian(albedo), rayIn, rec, noise) == Some(Ray(rec.p, Add(rec.normal, noise)))
  {
  }

  /**
   * A perfect mirror (`fuzz` 0) with a unit normal scatters exactly the rays
   * that arrive against the normal.
   */
  lemma MirrorScattersIncoming(albedo: Vec3, rayIn: Ray, rec: HitRecord, noise: Vec3)
    requires Dot(rec.normal, rec.normal) == 1.0
    ensures Scattered(Metal(albedo, 0.0), rayIn, rec, noise).Some? <==> Dot(rayIn.direction, rec.normal) < 0.0
  {
    var d := MetalDirection(albedo, 0.0, rayIn, rec, noise);
    assert d == Reflect(rayIn.direction, rec.normal);
    ReflectFlipsNormal(rayIn.direction, rec.normal);
  }
}
