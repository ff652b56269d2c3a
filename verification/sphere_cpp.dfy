/** src/geometry/sphere.cpp: the C++ sphere, its root selection and its box. */
module SphereCpp {
  import opened ExtReals
  import opened Wrappers
  import opened Vectors
  import opened Types
  import opened AxisBoxes
  import opened Observable

  datatype Sphere = Sphere(center: Vec3, radius: real)

  /** `sqrt` is an oracle; on a non-negative argument it returns the non-negative
      square root. */
  ghost predicate IsSqrt(sqrt: real -> real) {
    forall x :: 0.0 <= x ==> 0.0 <= sqrt(x) && sqrt(x) * sqrt(x) == x
  }

  /** The ray parameter `t` puts the ray on the sphere's surface. */
  ghost predicate OnSurface(s: Sphere, ray: Ray, t: real) {
    NormSquared(Sub(At(ray, t), s.center)) == s.radius * s.radius
  }

  /** The coefficients the source computes: `a`, `halfB` and `c` of the quadratic
      `a t^2 + 2 halfB t + c` whose roots are the surface crossings, and its
      discriminant `delta = halfB^2 - a c`. */
  datatype Quadratic = Quadratic(a: real, halfB: real, c: real)

  function Coefficients(s: Sphere, ray: Ray): Quadratic {
    var oc := Sub(ray.origin, s.center);
    Quadratic(NormSquared(ray.direction), Dot(ray.direction, oc), NormSquared(oc) - s.radius * s.radius)
  }

  function Delta(q: Quadratic): real {
    q.halfB * q.halfB - q.a * q.c
  }

  function Eval(q: Quadratic, t: real): real {
    q.a * t * t + 2.0 * q.halfB * t + q.c
  }

  /** The outward unit normal at a surface point. */
  function Outward(s: Sphere, p: Vec3): Vec3
    requires s.radius != 0.0
  {
    Scale(1.0 / s.radius, Sub(p, s.center))
  }

  /** The observation recorded for a root: the point reached, oriented by `setFace`. */
  function Observe(s: Sphere, ray: Ray, root: real): (obs: Observation)
    requires s.radius != 0.0
    ensures obs.t == root && obs.point == At(ray, root)
    ensures obs.frontFacing <==> Dot(ray.direction, Outward(s, At(ray, root))) < 0.0
    ensures Dot(ray.direction, obs.normal) <= 0.0
  {
    var p := At(ray, root);
    SetFace(Observation(p, Zero, root, false), ray.direction, Outward(s, p))
  }

  /** `Sphere::hit`: no hit on a negative discriminant; the nearer root when it lies in
      `[tMin, tMax]`; the farther root only when the nearer one is below `tMin`; and no
      hit when the nearer root is beyond `tMax`. The source divides by the squared
      length of the direction and by the radius; both must be non-zero here. */
  function Hit(s: Sphere, ray: Ray, range: Range, sqrt: real -> real): (r: Option<Observation>)
    requires NormSquared(ray.direction) > 0.0 && s.radius != 0.0
    ensures Delta(Coefficients(s, ray)) < 0.0 ==> r.None?
    ensures r.Some? ==> Contains(range, r.value.t) && r.value.point == At(ray, r.value.t)
    ensures r.Some? ==> Dot(ray.direction, r.value.normal) <= 0.0
    ensures r.Some? ==> (r.value.frontFacing <==> Dot(ray.direction, Outward(s, r.value.point)) < 0.0)
  {
    var q := Coefficients(s, ray);
    var delta := Delta(q);
    if delta < 0.0 then None
    else
      var sqrtD := sqrt(delta);
      var root := (-q.halfB - sqrtD) / q.a;
      if Lt(Fin(root), range.lo) then
        var root' := (-q.halfB + sqrtD) / q.a;
        if Lt(Fin(root'), range.lo) || Lt(range.hi, Fin(root')) then None
        else Some(Observe(s, ray, root'))
      else if Lt(range.hi, Fin(root)) then None
      else Some(Observe(s, ray, root))
  }

  /** `|At(ray, t) - center|^2 - radius^2` is the quadratic evaluated at `t`. */
  lemma SurfaceQuadratic(s: Sphere, ray: Ray, t: real)
    ensures NormSquared(Sub(At(ray, t), s.center)) - s.radius * s.radius == Eval(Coefficients(s, ray), t)
  {
    var oc := Sub(ray.origin, s.center);
    var d := ray.direction;
    var p := Sub(At(ray, t), s.center);
    assert p == Vec3(oc.x + t * d.x, oc.y + t * d.y, oc.z + t * d.z);
    assert (oc.x + t * d.x) * (oc.x + t * d.x) == oc.x * oc.x + 2.0 * t * (d.x * oc.x) + t * t * (d.x * d.x);
    assert (oc.y + t * d.y) * (oc.y + t * d.y) == oc.y * oc.y + 2.0 * t * (d.y * oc.y) + t * t * (d.y * d.y);
    assert (oc.z + t * d.z) * (oc.z + t * d.z) == oc.z * oc.z + 2.0 * t * (d.z * oc.z) + t * t * (d.z * d.z);
  }

  /** With `sq` a square root of the discriminant, the quadratic factors through the
      two roots `(-halfB -+ sq) / a`. */
  lemma Factor(q: Quadratic, sq: real, t: real)
    requires q.a != 0.0 && sq * sq == Delta(q)
    ensures Eval(q, t) == q.a * (t - (-q.halfB - sq) / q.a) * (t - (-q.halfB + sq) / q.a)
  {
    var r1 := (-q.halfB - sq) / q.a;
    var r2 := (-q.halfB + sq) / q.a;
    assert q.a * r1 == -q.halfB - sq;
    assert q.a * r2 == -q.halfB + sq;
    var lhs := Eval(q, t);
    var rhs := q.a * (t - r1) * (t - r2);
    assert q.a * rhs == (q.a * t - q.a * r1) * (q.a * t - q.a * r2);
    assert (q.a * t + q.halfB + sq) * (q.a * t + q.halfB - sq) == (q.a * t + q.halfB) * (q.a * t + q.halfB) - sq * sq;
    assert q.a * lhs == (q.a * t + q.halfB) * (q.a * t + q.halfB) - Delta(q);
    assert q.a * lhs == q.a * rhs;
  }

  /** Both roots the source computes are zeros of the quadratic. */
  lemma RootsAreZeros(q: Quadratic, sq: real, t: real)
    requires q.a != 0.0 && sq * sq == Delta(q)
    requires t == (-q.halfB - sq) / q.a || t == (-q.halfB + sq) / q.a
    ensures Eval(q, t) == 0.0
  {
    Factor(q, sq, t);
    var r1 := (-q.halfB - sq) / q.a;
    var r2 := (-q.halfB + sq) / q.a;
    if t == r1 {
      assert t - r1 == 0.0;
    } else {
      assert t - r2 == 0.0;
    }
  }

  /** A root of the quadratic exists only when the discriminant is non-negative, and
      then it is one of the two the source computes. */
  lemma RootsAreTheTwo(q: Quadratic, sqrt: real -> real, t: real)
    requires IsSqrt(sqrt) && q.a > 0.0
    requires Eval(q, t) == 0.0
    ensures Delta(q) >= 0.0
    ensures t == (-q.halfB - sqrt(Delta(q))) / q.a || t == (-q.halfB + sqrt(Delta(q))) / q.a
  {
    assert q.a * Eval(q, t) == (q.a * t + q.halfB) * (q.a * t + q.halfB) - Delta(q);
    assert q.a * Eval(q, t) == 0.0;
    SquareNonNegative(q.a * t + q.halfB);
    var sq := sqrt(Delta(q));
    assert sq * sq == Delta(q);
    Factor(q, sq, t);
    var r1 := (-q.halfB - sq) / q.a;
    var r2 := (-q.halfB + sq) / q.a;
    assert (t - r1) * (t - r2) == 0.0;
  }

  /** The nearer root comes first. */
  lemma RootsOrdered(q: Quadratic, sq: real)
    requires q.a > 0.0 && sq >= 0.0
    ensures (-q.halfB - sq) / q.a <= (-q.halfB + sq) / q.a
  {
    assert (-q.halfB + sq) / q.a - (-q.halfB - sq) / q.a == (2.0 * sq) / q.a;
  }

  /** Every hit lies on the surface. */
  lemma HitOnSurface(s: Sphere, ray: Ray, range: Range, sqrt: real -> real)
    requires NormSquared(ray.direction) > 0.0 && s.radius != 0.0
    requires IsSqrt(sqrt)
    ensures Hit(s, ray, range, sqrt).Some? ==> OnSurface(s, ray, Hit(s, ray, range, sqrt).value.t)
  {
    var r := Hit(s, ray, range, sqrt);
    if r.Some? {
      var q := Coefficients(s, ray);
      var sq := sqrt(Delta(q));
      assert r.value.t == (-q.halfB - sq) / q.a || r.value.t == (-q.halfB + sq) / q.a;
      RootsAreZeros(q, sq, r.value.t);
      SurfaceQuadratic(s, ray, r.value.t);
    }
  }

  /** The hit is the nearest surface crossing in the range: whenever some parameter
      in the range puts the ray on the surface, there is a hit no farther away. */
  lemma HitNearest(s: Sphere, ray: Ray, range: Range, sqrt: real -> real, t: real)
    requires NormSquared(ray.direction) > 0.0 && s.radius != 0.0
    requires IsSqrt(sqrt)
    requires Contains(range, t) && OnSurface(s, ray, t)
    ensures Hit(s, ray, range, sqrt).Some?
    ensures Hit(s, ray, range, sqrt).value.t <= t
  {
    var q := Coefficients(s, ray);
    SurfaceQuadratic(s, ray, t);
    RootsAreTheTwo(q, sqrt, t);
    RootsOrdered(q, sqrt(Delta(q)));
  }

  /** `Sphere::boundingBox`: the cube `center -+ radius` on every axis. For a
      non-negative radius it holds every surface point. */
  function BoundingBox(s: Sphere): (b: AxisBox)
    ensures s.radius >= 0.0 ==> Proper(b)
    ensures s.radius >= 0.0 ==> forall p :: NormSquared(Sub(p, s.center)) == s.radius * s.radius ==> Inside(b, p)
  {
    var r := Vec3(s.radius, s.radius, s.radius);
    var b := AxisBox(Sub(s.center, r), Add(s.center, r));
    forall p | s.radius >= 0.0 && NormSquared(Sub(p, s.center)) == s.radius * s.radius
      ensures Inside(b, p)
    {
      var d := Sub(p, s.center);
      SquareBound(d.x, d.y * d.y + d.z * d.z, s.radius);
      SquareBound(d.y, d.x * d.x + d.z * d.z, s.radius);
      SquareBound(d.z, d.x * d.x + d.y * d.y, s.radius);
    }
    b
  }

  /** The example sphere of negative radius: centre at the origin, radius -1, and a
      ray through it from `(-2, -1, -2)` along `(2, 1, 2)`. */
  const Inverted: Sphere := Sphere(Vec3(0.0, 0.0, 0.0), -1.0)
  const Through: Ray := Ray(Vec3(-2.0, -1.0, -2.0), Vec3(2.0, 1.0, 2.0))

  /** The only non-negative square root of 9 is 3. */
  lemma SqrtNine(sqrt: real -> real)
    requires IsSqrt(sqrt)
    ensures sqrt(9.0) == 3.0
  {
    var r := sqrt(9.0);
    assert r >= 0.0 && r * r == 9.0;
    if r > 3.0 {
      SquareIncreasing(3.0, r);
    } else if r < 3.0 {
      SquareIncreasing(r, 3.0);
    }
  }

  /** The example ray's quadratic: `9 t^2 - 18 t + 8`, with discriminant 9. */
  lemma InvertedCoefficients(s: Sphere, ray: Ray)
    requires s == Inverted && ray == Through
    ensures Coefficients(s, ray) == Quadratic(9.0, -9.0, 8.0)
    ensures Delta(Coefficients(s, ray)) == 9.0
  {}

  /** `Sphere::hit` finds the example ray's hit on the sphere of radius -1 at the
      nearer root `t = 2/3`. */
  lemma InvertedHit(s: Sphere, ray: Ray, range: Range, sqrt: real -> real)
    requires s == Inverted && ray == Through && range == Range(Fin(0.0), PosInf)
    requires sqrt(9.0) == 3.0
    ensures var r := Hit(s, ray, range, sqrt); r.Some? && r.value.t == 2.0 / 3.0
  {
    InvertedCoefficients(s, ray);
    var q := Coefficients(s, ray);
    assert q.a == 9.0 && q.halfB == -9.0 && Delta(q) == 9.0;
    var root := (-q.halfB - sqrt(Delta(q))) / q.a;
    assert root == 6.0 / 9.0;
    assert !Lt(Fin(root), range.lo) && !Lt(range.hi, Fin(root));
  }

  /** The box as written for the sphere of radius -1 runs from `(1, 1, 1)` down to
      `(-1, -1, -1)`. */
  lemma InvertedBox(s: Sphere)
    requires s == Inverted
    ensures BoundingBox(s) == AxisBox(Vec3(1.0, 1.0, 1.0), Vec3(-1.0, -1.0, -1.0))
  {}

  /** On `x` the example ray enters the inverted box at 1.5 and leaves it at 0.5. */
  lemma InvertedSlab(b: AxisBox, ray: Ray)
    requires b == AxisBox(Vec3(1.0, 1.0, 1.0), Vec3(-1.0, -1.0, -1.0)) && ray == Through
    ensures Entry(b, ray, 0) == 1.5 && Exit(b, ray, 0) == 0.5
  {
    assert 1.0 / Component(ray.direction, 0) == 0.5;
  }

  /** The hit point `(-2/3, -1/3, -2/3)` lies outside the inverted box. */
  lemma InvertedPointOutside(s: Sphere, ray: Ray)
    requires s == Inverted && ray == Through
    ensures !Inside(BoundingBox(s), At(ray, 2.0 / 3.0))
  {
    InvertedBox(s);
  }

  /** The slab test of `AxisBox::hit` rejects the example ray on the inverted box. */
  lemma InvertedBoxRejects(s: Sphere, ray: Ray, range: Range)
    requires s == Inverted && ray == Through && range == Range(Fin(0.0), PosInf)
    ensures !AxisBoxes.Hit(BoundingBox(s), ray, range.lo, range.hi)
  {
    InvertedBox(s);
    InvertedSlab(BoundingBox(s), ray);
  }

  /** As written, a negative radius inverts the box: `Sphere::hit` finds the example
      ray's hit at `t = 2/3`, but that point is outside the box and the slab test of
      `AxisBox::hit` rejects the ray (entry 1.5 on `x` comes after exit 0.5), so a
      hierarchy over this box never asks the sphere. */
  lemma NegativeRadiusEscapesBox(s: Sphere, ray: Ray, range: Range, sqrt: real -> real)
    requires s == Inverted && ray == Through && range == Range(Fin(0.0), PosInf)
    requires IsSqrt(sqrt)
    ensures !Inside(BoundingBox(s), At(ray, 2.0 / 3.0))
    ensures !AxisBoxes.Hit(BoundingBox(s), ray, range.lo, range.hi)
    ensures var r := Hit(s, ray, range, sqrt); r.Some? && r.value.t == 2.0 / 3.0
  {
    SqrtNine(sqrt);
    InvertedHit(s, ray, range, sqrt);
    InvertedPointOutside(s, ray);
    InvertedBoxRejects(s, ray, range);
  }

  /** The box the source evidently intends: the cube `center -+ |radius|`. It is
      ordered and holds every surface point whatever the sign of the radius, and for a
      non-negative radius it is the box as written. */
  function BoundingBoxCorrected(s: Sphere): (b: AxisBox)
    ensures Proper(b)
    ensures forall p :: NormSquared(Sub(p, s.center)) == s.radius * s.radius ==> Inside(b, p)
    ensures s.radius >= 0.0 ==> b == BoundingBox(s)
  {
    assert Abs(s.radius) * Abs(s.radius) == s.radius * s.radius;
    BoundingBox(Sphere(s.center, Abs(s.radius)))
  }

  /** With the corrected box every hit `Sphere::hit` reports lies inside the box. */
  lemma HitInsideCorrectedBox(s: Sphere, ray: Ray, range: Range, sqrt: real -> real)
    requires NormSquared(ray.direction) > 0.0 && s.radius != 0.0
    requires IsSqrt(sqrt)
    ensures Hit(s, ray, range, sqrt).Some? ==> Inside(BoundingBoxCorrected(s), Hit(s, ray, range, sqrt).value.point)
  {
    HitOnSurface(s, ray, range, sqrt);
  }

  /** The corrected box of the example sphere is the cube from `(-1, -1, -1)` to
      `(1, 1, 1)`. */
  lemma InvertedCorrectedBox(s: Sphere)
    requires s == Inverted
    ensures BoundingBoxCorrected(s) == AxisBox(Vec3(-1.0, -1.0, -1.0), Vec3(1.0, 1.0, 1.0))
  {}

  /** The example ray's slabs of that cube: `[0.5, 1.5]` on `x` and `z`, `[0, 2]` on
      `y`. */
  lemma CubeSlabs(b: AxisBox, ray: Ray)
    requires b == AxisBox(Vec3(-1.0, -1.0, -1.0), Vec3(1.0, 1.0, 1.0)) && ray == Through
    ensures Entry(b, ray, 0) == 0.5 && Exit(b, ray, 0) == 1.5
    ensures Entry(b, ray, 1) == 0.0 && Exit(b, ray, 1) == 2.0
    ensures Entry(b, ray, 2) == 0.5 && Exit(b, ray, 2) == 1.5
  {
    assert 1.0 / Component(ray.direction, 0) == 0.5 && 1.0 / Component(ray.direction, 1) == 1.0;
  }

  /** The slab test passes the example ray through that cube: the window narrows to
      `(0.5, 1.5)` and stays there. */
  lemma CubeAdmits(b: AxisBox, ray: Ray)
    requires b == AxisBox(Vec3(-1.0, -1.0, -1.0), Vec3(1.0, 1.0, 1.0)) && ray == Through
    ensures AxisBoxes.Hit(b, ray, Fin(0.0), PosInf)
  {
    CubeSlabs(b, ray);
    var w := Window(Fin(0.5), Fin(1.5));
    assert Narrow(b, ray, Window(Fin(0.0), PosInf), 0) == w;
    assert Narrow(b, ray, w, 1) == w;
    assert Narrow(b, ray, w, 2) == w;
    assert HitFrom(b, ray, w, 2);
    assert HitFrom(b, ray, w, 1);
  }

  /** The corrected box of the example sphere lets the example ray through the slab
      test, so a hierarchy over it asks the sphere and finds the hit at `2/3`. */
  lemma CorrectedBoxAdmitsInverted(s: Sphere, ray: Ray, range: Range)
    requires s == Inverted && ray == Through && range == Range(Fin(0.0), PosInf)
    ensures AxisBoxes.Hit(BoundingBoxCorrected(s), ray, range.lo, range.hi)
  {
    InvertedCorrectedBox(s);
    CubeAdmits(BoundingBoxCorrected(s), ray);
  }

  /** A coordinate of a vector is no longer than the vector. */
  lemma SquareBound(x: real, rest: real, r: real)
    requires r >= 0.0 && rest >= 0.0 && x * x + rest == r * r
    ensures -r <= x <= r
  {
    if x > r {
      SquareIncreasing(r, x);
    }
    if x < -r {
      SquareIncreasing(r, -x);
    }
  }
}
