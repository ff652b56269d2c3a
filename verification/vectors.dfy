/** The minimal real-valued vector algebra the core relies on: points, vectors and
    rays as exact 3-tuples of reals (src/algebra and src/utils/vec.cpp are not part
    of this model; only dot, cross, add, subtract and scale are defined here). */
module Vectors {

  /** An axis index: 0 is x, 1 is y, 2 is z. */
  type Axis = i: nat | i < 3

  datatype Vec3 = Vec3(x: real, y: real, z: real)

  function Component(v: Vec3, axis: Axis): real {
    if axis == 0 then v.x else if axis == 1 then v.y else v.z
  }

  function Add(a: Vec3, b: Vec3): Vec3 {
    Vec3(a.x + b.x, a.y + b.y, a.z + b.z)
  }

  function Sub(a: Vec3, b: Vec3): Vec3 {
    Vec3(a.x - b.x, a.y - b.y, a.z - b.z)
  }

  function Neg(a: Vec3): Vec3 {
    Vec3(-a.x, -a.y, -a.z)
  }

  function Scale(s: real, a: Vec3): Vec3 {
    Vec3(s * a.x, s * a.y, s * a.z)
  }

  function Dot(a: Vec3, b: Vec3): real {
    a.x * b.x + a.y * b.y + a.z * b.z
  }

  function Cross(a: Vec3, b: Vec3): Vec3 {
    Vec3(a.y * b.z - a.z * b.y, a.z * b.x - a.x * b.z, a.x * b.y - a.y * b.x)
  }

  function NormSquared(a: Vec3): real {
    Dot(a, a)
  }

  const Zero: Vec3 := Vec3(0.0, 0.0, 0.0)

  function Abs(x: real): real {
    if x < 0.0 then -x else x
  }

  /** No component of `v` is zero: the slab tests divide by every component. */
  predicate NoZeroComponent(v: Vec3) {
    v.x != 0.0 && v.y != 0.0 && v.z != 0.0
  }

  lemma DotNeg(a: Vec3, b: Vec3)
    ensures Dot(a, Neg(b)) == -Dot(a, b)
  {}

  lemma MulPositive(a: real, b: real)
    requires a > 0.0 && b > 0.0
    ensures a * b > 0.0
  {}

  lemma MulNonNegative(a: real, b: real)
    requires a >= 0.0 && b >= 0.0
    ensures a * b >= 0.0
  {
    if a > 0.0 && b > 0.0 { MulPositive(a, b); }
  }

  /** A square is non-negative, and positive unless its root is zero. */
  lemma SquareNonNegative(x: real)
    ensures x * x >= 0.0
    ensures x != 0.0 ==> x * x > 0.0
  {
    if x > 0.0 { MulPositive(x, x); }
    if x < 0.0 { MulPositive(-x, -x); assert x * x == (-x) * (-x); }
  }

  /** Squaring is strictly increasing on the non-negative reals. */
  lemma SquareIncreasing(a: real, b: real)
    requires 0.0 <= a < b
    ensures a * a < b * b
  {
    MulPositive(b - a, b + a);
    assert (b - a) * (b + a) == b * b - a * a;
  }

  datatype Ray = Ray(origin: Vec3, direction: Vec3)

  /** `Ray::at`: the point reached after travelling `t` along the direction. Its
      component along any vector `n` moves linearly in `t`, and at `t = 0` it is the
      origin. */
  function At(ray: Ray, t: real): (p: Vec3)
    ensures t == 0.0 ==> p == ray.origin
    ensures forall n: Vec3 {:trigger Dot(n, p)} :: Dot(n, p) == Dot(n, ray.origin) + t * Dot(n, ray.direction)
  {
    Add(ray.origin, Scale(t, ray.direction))
  }
}
