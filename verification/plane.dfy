/** src/geometry/plane.rs: an infinite plane through `point` with unit normal `normal`.
    The crossing is found exactly as the source does; the face flag is modelled twice,
    as written (front when the ray runs along the normal) and with the shared
    orientation rule of `get_face`. */
module Planes {
  import opened ExtReals
  import opened Wrappers
  import opened Vectors
  import opened Types
  import opened Geometry

  datatype Plane = Plane(normal: Vec3, point: Vec3)

  /** `Plane::new` stores the normalised normal; `normalize` is an oracle. */
  function New(normal: Vec3, point: Vec3, normalize: Vec3 -> Vec3): (p: Plane)
    ensures p.normal == normalize(normal) && p.point == point
  {
    Plane(normalize(normal), point)
  }

  /** The ray meets the plane at `t`. */
  ghost predicate OnPlane(p: Plane, ray: Ray, t: real) {
    Dot(p.normal, At(ray, t)) == Dot(p.normal, p.point)
  }

  /** The crossing the source computes: none when the ray is parallel to the plane
      (`normal . direction == 0`), otherwise `b / a`, accepted only inside `range`. */
  function Crossing(p: Plane, ray: Ray, range: Range): (t: Option<real>)
    ensures Dot(p.normal, ray.direction) == 0.0 ==> t.None?
    ensures t.Some? ==> Contains(range, t.value) && OnPlane(p, ray, t.value)
  {
    var a := Dot(p.normal, ray.direction);
    if a == 0.0 then None
    else
      var b := Dot(Sub(p.point, ray.origin), p.normal);
      var root := b / a;
      if !Contains(range, root) then None
      else
        assert OnPlane(p, ray, root) by {
          assert Dot(p.normal, At(ray, root)) == Dot(p.normal, ray.origin) + root * a;
          assert root * a == b;
        }
        Some(root)
  }

  /** A ray that is not parallel to the plane meets it at exactly one parameter, and
      the crossing is reported exactly when that parameter is in range. */
  lemma CrossingComplete(p: Plane, ray: Ray, range: Range, t: real)
    requires Dot(p.normal, ray.direction) != 0.0
    requires OnPlane(p, ray, t)
    ensures Crossing(p, ray, range).Some? <==> Contains(range, t)
    ensures Crossing(p, ray, range).Some? ==> Crossing(p, ray, range).value == t
  {
    var a := Dot(p.normal, ray.direction);
    var b := Dot(Sub(p.point, ray.origin), p.normal);
    assert Dot(p.normal, At(ray, t)) == Dot(p.normal, ray.origin) + t * a;
    assert t * a == b;
    assert t == b / a;
  }

  /** `Plane::collide` as written: the hit is front-facing exactly when
      `normal . direction > 0`, and the normal is negated exactly when it is not. */
  function CollideAsWritten(p: Plane, ray: Ray, range: Range): (r: Option<Collision>)
    ensures r.None? <==> Crossing(p, ray, range).None?
    ensures r.Some? ==> r.value.t == Crossing(p, ray, range).value && r.value.point == At(ray, r.value.t)
    ensures r.Some? ==> (r.value.isFrontFacing <==> Dot(p.normal, ray.direction) > 0.0)
    ensures r.Some? ==> r.value.normal == (if r.value.isFrontFacing then p.normal else Neg(p.normal))
  {
    match Crossing(p, ray, range)
    case None => None
    case Some(root) =>
      var front := Dot(p.normal, ray.direction) > 0.0;
      Some(Collision(At(ray, root), if front then p.normal else Neg(p.normal), root, front))
  }

  /** As written, every recorded normal points along the ray, the opposite of what
      `get_face` guarantees for every other primitive. */
  lemma AsWrittenNormalAlongRay(p: Plane, ray: Ray, range: Range)
    ensures CollideAsWritten(p, ray, range).Some? ==>
      Dot(ray.direction, CollideAsWritten(p, ray, range).value.normal) > 0.0
  {
    var r := CollideAsWritten(p, ray, range);
    if r.Some? {
      DotNeg(ray.direction, p.normal);
    }
  }

  /** A ray coming down onto the floor `z = 0` from above, against the upward normal,
      is reported as back-facing and given the downward normal. */
  lemma AsWrittenFloorFromAbove()
    ensures var r := CollideAsWritten(Plane(Vec3(0.0, 0.0, 1.0), Zero), Ray(Vec3(0.0, 0.0, 1.0), Vec3(0.0, 0.0, -1.0)), Range(Fin(0.0), PosInf));
      r.Some? && r.value.t == 1.0 && !r.value.isFrontFacing && r.value.normal == Vec3(0.0, 0.0, -1.0)
  {
  }

  /** The collide with the orientation taken from `get_face`, as the parallelogram
      does: same crossing, and the normal faces against the ray. */
  function Collide(p: Plane, ray: Ray, range: Range): (r: Option<Collision>)
    ensures r.None? <==> Crossing(p, ray, range).None?
    ensures r.Some? ==> r.value.t == Crossing(p, ray, range).value && r.value.point == At(ray, r.value.t)
    ensures r.Some? ==> (r.value.isFrontFacing <==> Dot(ray.direction, p.normal) < 0.0)
    ensures r.Some? ==> Dot(ray.direction, r.value.normal) < 0.0
  {
    match Crossing(p, ray, range)
    case None => None
    case Some(root) =>
      var face := GetFace(ray.direction, p.normal);
      DotNeg(ray.direction, p.normal);
      Some(Collision(At(ray, root), face.1, root, face.0))
  }

  /** The corrected collide reports the same hits as the code as written, with the
      face flag and normal reversed. */
  lemma CollideReversesAsWritten(p: Plane, ray: Ray, range: Range)
    ensures Collide(p, ray, range).None? <==> CollideAsWritten(p, ray, range).None?
    ensures Collide(p, ray, range).Some? ==>
      Collide(p, ray, range).value.t == CollideAsWritten(p, ray, range).value.t &&
      Collide(p, ray, range).value.isFrontFacing == !CollideAsWritten(p, ray, range).value.isFrontFacing &&
      Collide(p, ray, range).value.normal == Neg(CollideAsWritten(p, ray, range).value.normal)
  {
  }
}
