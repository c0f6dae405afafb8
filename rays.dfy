/**
 * `Ray` and the free function `reflect` of `main.rs`.
 */
module Rays {
  import opened Vectors

  datatype Ray = Ray(origin: Vec3, direction: Vec3)

  /** `Ray::point_at_parameter`: the point `t` direction-lengths along the ray. */
  function PointAt(ray: Ray, t: real): (p: Vec3)
    ensures Sub(p, ray.origin) == Scale(ray.direction, t)
    ensures t == 0.0 ==> p == ray.origin
  {
    Add(ray.origin, Scale(ray.direction, t))
  }

  /** `reflect(v, n)`: `v` minus twice its component along `n`. */
  function Reflect(v: Vec3, n: Vec3): Vec3 {
    Sub(v, Scale(n, 2.0 * Dot(v, n)))
  }

  /** `Dot` is linear in its first argument. */
  lemma DotSubScale(v: Vec3, n: Vec3, k: real, u: Vec3)
    ensures Dot(Sub(v, Scale(n, k)), u) == Dot(v, u) - k * Dot(n, u)
  {
  }

  /** Against a unit normal, reflection flips the normal component. */
  lemma ReflectFlipsNormal(v: Vec3, n: Vec3)
    requires Dot(n, n) == 1.0
    ensures Dot(Reflect(v, n), n) == -Dot(v, n)
  {
    DotSubScale(v, n, 2.0 * Dot(v, n), n);
  }

  /** Reflection keeps every component orthogonal to the normal. */
  lemma ReflectKeepsTangent(v: Vec3, n: Vec3, u: Vec3)
    requires Dot(n, u) == 0.0
    ensures Dot(Reflect(v, n), u) == Dot(v, u)
  {
    DotSubScale(v, n, 2.0 * Dot(v, n), u);
  }

  /** Reflecting twice in the same unit normal gives the vector back. */
  lemma ReflectInvolution(v: Vec3, n: Vec3)
    requires Dot(n, n) == 1.0
    ensures Reflect(Reflect(v, n), n) == v
  {
    ReflectFlipsNormal(v, n);
    var k := 2.0 * Dot(v, n);
    assert Reflect(Reflect(v, n), n) == Sub(Sub(v, Scale(n, k)), Scale(n, -k));
  }
}
