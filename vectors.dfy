/**
 * `Vec3` of `vectors.rs`, as a triple of reals.  The operators are evaluated
 * exactly over the reals; the model relies on them only through the values
 * they produce, never on an algebraic identity of floating point.
 */
module Vectors {
  datatype Vec3 = Vec3(x: real, y: real, z: real)

  /** `Vec3::default()` and `Vec3::from_color(0.0, 0.0, 0.0)`: the origin, and black. */
  const Origin: Vec3 := Vec3(0.0, 0.0, 0.0)
  const Black: Vec3 := Origin

  function Add(a: Vec3, b: Vec3): Vec3 {
    Vec3(a.x + b.x, a.y + b.y, a.z + b.z)
  }

  function Sub(a: Vec3, b: Vec3): Vec3 {
    Vec3(a.x - b.x, a.y - b.y, a.z - b.z)
  }

  /** Component-wise product `Vec3 * Vec3` (used for colours). */
  function Mul(a: Vec3, b: Vec3): Vec3 {
    Vec3(a.x * b.x, a.y * b.y, a.z * b.z)
  }

  /** `v * k` and `k * v`: both operand orders compute the same triple. */
  function Scale(v: Vec3, k: real): Vec3 {
    Vec3(v.x * k, v.y * k, v.z * k)
  }

  /** `v / k` for a non-zero scalar. */
  function DivScalar(v: Vec3, k: real): Vec3
    requires k != 0.0
  {
    Vec3(v.x / k, v.y / k, v.z / k)
  }

  function Dot(a: Vec3, b: Vec3): real {
    a.x * b.x + a.y * b.y + a.z * b.z
  }
}
