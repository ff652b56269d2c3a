/** include/observable.h: the C++ hit record and its orientation rule. */
module Observable {
  import opened Vectors
  import Geometry

  /** An `Observation`; the material is carried by the integrator's scene
      oracle instead. */
  datatype Observation = Observation(point: Vec3, normal: Vec3, t: real, frontFacing: bool)

  /** `Observation::setFace`: the hit is front-facing exactly when the ray runs against
      the outward normal; a back-facing hit stores the flipped normal, so the stored
      normal never points along the ray. Only the face fields change. */
  function SetFace(obs: Observation, direction: Vec3, outward: Vec3): (r: Observation)
    ensures r.frontFacing <==> Dot(direction, outward) < 0.0
    ensures r.frontFacing ==> r.normal == outward
    ensures !r.frontFacing ==> r.normal == Neg(outward)
    ensures Dot(direction, r.normal) <= 0.0
    ensures r.point == obs.point && r.t == obs.t
  {
    DotNeg(direction, outward);
    var front := Dot(direction, outward) < 0.0;
    obs.(frontFacing := front, normal := if front then outward else Neg(outward))
  }

  /** The C++ and the Rust rules agree except on a ray that grazes the surface
      (`direction · outward = 0`): C++ records that hit as back-facing with the flipped
      normal, Rust's `get_face` as front-facing with the normal kept. */
  lemma SetFaceAgreesWithGetFace(obs: Observation, direction: Vec3, outward: Vec3)
    ensures Dot(direction, outward) != 0.0 ==>
      SetFace(obs, direction, outward).frontFacing == Geometry.GetFace(direction, outward).0 &&
      SetFace(obs, direction, outward).normal == Geometry.GetFace(direction, outward).1
    ensures Dot(direction, outward) == 0.0 ==>
      !SetFace(obs, direction, outward).frontFacing && Geometry.GetFace(direction, outward).0
  {}
}
