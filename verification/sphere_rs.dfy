/** src/geometry/sphere.rs: the Rust sphere. It computes the same quadratic as the C++
    sphere from the vector to the centre instead of the vector from it, and accepts the
    farther root whenever the nearer one is outside the range. */
module SphereRs {
  import opened ExtReals
  import opened Wrappers
  import opened Vectors
  import opened Types
  import opened Geometry
  import SphereCpp

  datatype Sphere = Sphere(center: Vec3, radius: real)

  /** The coefficients as the Rust code names them: `c = |center - origin|^2 - r^2`,
      `minusHalfB = direction . (center - origin)`, `a = |direction|^2`. */
  datatype Coefficients = Coefficients(a: real, minusHalfB: real, c: real)

  function CoefficientsOf(s: Sphere, ray: Ray): Coefficients {
    var cv := Sub(s.center, ray.origin);
    Coefficients(NormSquared(ray.direction), Dot(ray.direction, cv), NormSquared(cv) - s.radius * s.radius)
  }

  function Delta(k: Coefficients): real {
    k.minusHalfB * k.minusHalfB - k.a * k.c
  }

  /** `Sphere::collide`. `sqrt` is an oracle for `Float::sqrt` and `isFrontFace` one for
      `is_front_face`, which is not part of this model. The normal `(p - center) / r` is
      kept when `isFrontFace` accepts it and negated otherwise. */
  function Collide(s: Sphere, ray: Ray, range: Range, sqrt: real -> real, isFrontFace: (Ray, Vec3) -> bool): (r: Option<Collision>)
    requires NormSquared(ray.direction) > 0.0 && s.radius != 0.0
    ensures Delta(CoefficientsOf(s, ray)) < 0.0 ==> r.None?
    ensures r.Some? ==> Contains(range, r.value.t) && r.value.point == At(ray, r.value.t)
    ensures r.Some? ==>
      var outward := Scale(1.0 / s.radius, Sub(r.value.point, s.center));
      r.value.isFrontFacing == isFrontFace(ray, outward) &&
      r.value.normal == (if r.value.isFrontFacing then outward else Neg(outward))
  {
    var k := CoefficientsOf(s, ray);
    var delta := Delta(k);
    if delta < 0.0 then None
    else
      var sq := sqrt(delta);
      var near := (k.minusHalfB - sq) / k.a;
      var root := if Contains(range, near) then near else (k.minusHalfB + sq) / k.a;
      if !Contains(range, root) then None
      else
        var p := At(ray, root);
        var outward := Scale(1.0 / s.radius, Sub(p, s.center));
        var front := isFrontFace(ray, outward);
        Some(Collision(p, if front then outward else Neg(outward), root, front))
  }

  /** The Rust coefficients are the C++ ones with the sign of the middle term flipped. */
  lemma CoefficientsAgree(s: Sphere, ray: Ray)
    ensures CoefficientsOf(s, ray).a == SphereCpp.Coefficients(SphereCpp.Sphere(s.center, s.radius), ray).a
    ensures CoefficientsOf(s, ray).minusHalfB == -SphereCpp.Coefficients(SphereCpp.Sphere(s.center, s.radius), ray).halfB
    ensures CoefficientsOf(s, ray).c == SphereCpp.Coefficients(SphereCpp.Sphere(s.center, s.radius), ray).c
    ensures Delta(CoefficientsOf(s, ray)) == SphereCpp.Delta(SphereCpp.Coefficients(SphereCpp.Sphere(s.center, s.radius), ray))
  {
    var cv := Sub(s.center, ray.origin);
    var oc := Sub(ray.origin, s.center);
    assert cv == Neg(oc);
    DotNeg(ray.direction, oc);
    DotNeg(oc, oc);
    assert Dot(Neg(oc), Neg(oc)) == Dot(oc, oc);
  }

  /** The two spheres agree: for the same centre, radius, ray and range, the Rust sphere
      hits exactly when the C++ sphere does, at the same parameter and the same point.
      The C++ code rejects a nearer root beyond `tMax` at once, while the Rust code also
      tries the farther root; that root is never nearer, so it is rejected too. */
  lemma AgreesWithCpp(s: Sphere, ray: Ray, range: Range, sqrt: real -> real, isFrontFace: (Ray, Vec3) -> bool)
    requires NormSquared(ray.direction) > 0.0 && s.radius != 0.0
    requires SphereCpp.IsSqrt(sqrt)
    ensures Collide(s, ray, range, sqrt, isFrontFace).Some? <==>
      SphereCpp.Hit(SphereCpp.Sphere(s.center, s.radius), ray, range, sqrt).Some?
    ensures Collide(s, ray, range, sqrt, isFrontFace).Some? ==>
      Collide(s, ray, range, sqrt, isFrontFace).value.t == SphereCpp.Hit(SphereCpp.Sphere(s.center, s.radius), ray, range, sqrt).value.t &&
      Collide(s, ray, range, sqrt, isFrontFace).value.point == SphereCpp.Hit(SphereCpp.Sphere(s.center, s.radius), ray, range, sqrt).value.point
  {
    var cs := SphereCpp.Sphere(s.center, s.radius);
    var q := SphereCpp.Coefficients(cs, ray);
    CoefficientsAgree(s, ray);
    if SphereCpp.Delta(q) >= 0.0 {
      var sq := sqrt(SphereCpp.Delta(q));
      SphereCpp.RootsOrdered(q, sq);
      var near := (-q.halfB - sq) / q.a;
      var far := (-q.halfB + sq) / q.a;
      if Lt(range.hi, Fin(near)) {
        assert Lt(range.hi, Fin(far));
      }
    }
  }

  /** When `isFrontFace` is the shared orientation rule (front exactly when the ray
      does not run along the normal), the recorded normal faces against the ray. */
  lemma NormalFacesRay(s: Sphere, ray: Ray, range: Range, sqrt: real -> real, isFrontFace: (Ray, Vec3) -> bool)
    requires NormSquared(ray.direction) > 0.0 && s.radius != 0.0
    requires forall n :: isFrontFace(ray, n) <==> Dot(ray.direction, n) <= 0.0
    ensures Collide(s, ray, range, sqrt, isFrontFace).Some? ==>
      Dot(ray.direction, Collide(s, ray, range, sqrt, isFrontFace).value.normal) <= 0.0
  {
    var r := Collide(s, ray, range, sqrt, isFrontFace);
    if r.Some? {
      var outward := Scale(1.0 / s.radius, Sub(r.value.point, s.center));
      DotNeg(ray.direction, outward);
    }
  }
}
