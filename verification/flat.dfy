/** src/geometry/flat.rs: the parallelogram of the transform-based geometry. Its
    transform maps the parallelogram onto the unit square `[0, 1] x [0, 1]` of the
    plane `z = 0`, so a hit is decided in that local space: the ray must cross `z = 0`
    inside the range, at a point whose `x` and `y` both lie in `[0, 1]`. The transform
    and `Collision::apply`, which maps the local hit back, are oracles. */
module Flats {
  import opened ExtReals
  import opened Wrappers
  import opened Vectors
  import opened Types
  import opened Bounding
  import opened Geometry
  import Parallelograms

  /** The stored box; the transform is passed to `Collide` as an oracle. */
  datatype Flat = Flat(bounds: BoundingBox)

  /** `Parallelogram::new`: the box holds the four vertices `corner`, `corner + u`,
      `corner + v` and `corner + u + v`. */
  function New(corner: Vec3, u: Vec3, v: Vec3): (f: Flat)
    ensures forall i :: 0 <= i < 4 ==> ContainsPoint(f.bounds, Parallelograms.Vertices(corner, u, v)[i])
  {
    Flat(Parallelograms.CornerBox(corner, u, v))
  }

  /** `Parallelogram::from_vertices`: the box holds the three given vertices. */
  function FromVertices(corner: Vec3, adjacent: Vec3, opposing: Vec3): (f: Flat)
    ensures ContainsPoint(f.bounds, corner) && ContainsPoint(f.bounds, adjacent) && ContainsPoint(f.bounds, opposing)
  {
    var u := Sub(adjacent, corner);
    var v := Sub(Sub(opposing, corner), u);
    var f := New(corner, u, v);
    assert Parallelograms.Vertices(corner, u, v)[1] == adjacent;
    assert Parallelograms.Vertices(corner, u, v)[3] == opposing;
    f
  }

  /** `f64::signum` away from NaN: `1` for zero and the positive numbers, `-1` for the
      negative ones. */
  function Signum(x: real): (s: real)
    ensures s == 1.0 || s == -1.0
    ensures s * x == Abs(x)
  {
    if x < 0.0 then -1.0 else 1.0
  }

  predicate InUnit(x: real) { Contains(Range(Fin(0.0), Fin(1.0)), x) }

  /** The acceptance tests of `collide` on the local ray: none when the ray is within
      `tol` (`ZERO_TOL`) of parallel to `z = 0`; otherwise the crossing parameter
      `-origin.z / direction.z`, rejected outside `range` and when the crossing point
      leaves the unit square. */
  function Crossing(ray: Ray, range: Range, tol: real): (t: Option<real>)
    requires tol >= 0.0
    ensures Abs(ray.direction.z) <= tol ==> t.None?
    ensures t.Some? ==> Contains(range, t.value) && At(ray, t.value).z == 0.0
    ensures t.Some? ==> InUnit(At(ray, t.value).x) && InUnit(At(ray, t.value).y)
  {
    var dz := ray.direction.z;
    if Abs(dz) <= tol then None
    else
      var t := -ray.origin.z / dz;
      if NotContains(range, t) then None
      else
        var glancing := At(ray, t);
        if NotContains(Range(Fin(0.0), Fin(1.0)), glancing.x) || NotContains(Range(Fin(0.0), Fin(1.0)), glancing.y) then None
        else Some(t)
  }

  /** A ray that is not too close to parallel meets `z = 0` at one parameter only, and
      that crossing is reported exactly when it is inside `range` and inside the unit
      square. */
  lemma CrossingExact(ray: Ray, range: Range, tol: real, t: real)
    requires Abs(ray.direction.z) > tol && tol >= 0.0
    requires At(ray, t).z == 0.0
    ensures Crossing(ray, range, tol).Some? <==> Contains(range, t) && InUnit(At(ray, t).x) && InUnit(At(ray, t).y)
    ensures Crossing(ray, range, tol).Some? ==> Crossing(ray, range, tol).value == t
  {
    var dz := ray.direction.z;
    assert ray.origin.z + t * dz == 0.0;
    assert t == -ray.origin.z / dz;
  }

  /** The local collide as written: the normal is the local `z` axis turned by the
      sign of `direction.z`, and `get_face` orients it. */
  function LocalCollideAsWritten(ray: Ray, range: Range, tol: real): (r: Option<Collision>)
    requires tol >= 0.0
    ensures r.None? <==> Crossing(ray, range, tol).None?
    ensures r.Some? ==> r.value.t == Crossing(ray, range, tol).value && r.value.point == At(ray, r.value.t)
    ensures r.Some? ==> r.value.normal == Vec3(0.0, 0.0, Signum(ray.direction.z)) || r.value.normal == Neg(Vec3(0.0, 0.0, Signum(ray.direction.z)))
    ensures r.Some? ==> Dot(ray.direction, r.value.normal) <= 0.0
  {
    match Crossing(ray, range, tol)
    case None => None
    case Some(t) =>
      var face := GetFace(ray.direction, Vec3(0.0, 0.0, Signum(ray.direction.z)));
      Some(Collision(At(ray, t), face.1, t, face.0))
  }

  /** As written, a hit is never front-facing: the turned normal always points along
      the ray, so `get_face` always flips it to `-signum(direction.z) z`. */
  lemma AsWrittenNeverFront(ray: Ray, range: Range, tol: real)
    requires tol >= 0.0
    ensures LocalCollideAsWritten(ray, range, tol).Some? ==>
      !LocalCollideAsWritten(ray, range, tol).value.isFrontFacing &&
      LocalCollideAsWritten(ray, range, tol).value.normal == Vec3(0.0, 0.0, -Signum(ray.direction.z))
  {
    var r := LocalCollideAsWritten(ray, range, tol);
    if r.Some? {
      var dz := ray.direction.z;
      var n := Vec3(0.0, 0.0, Signum(dz));
      assert Dot(ray.direction, n) == Signum(dz) * dz;
      assert Abs(dz) > tol;
    }
  }

  /** The corrected local collide: the fixed local normal `z` is oriented by
      `get_face`, so the hit is front-facing exactly when the ray comes down from the
      `+z` side. */
  function LocalCollide(ray: Ray, range: Range, tol: real): (r: Option<Collision>)
    requires tol >= 0.0
    ensures r.None? <==> Crossing(ray, range, tol).None?
    ensures r.Some? ==> r.value.t == Crossing(ray, range, tol).value && r.value.point == At(ray, r.value.t)
    ensures r.Some? ==> (r.value.isFrontFacing <==> ray.direction.z < 0.0)
    ensures r.Some? ==> r.value.normal == (if r.value.isFrontFacing then Vec3(0.0, 0.0, 1.0) else Vec3(0.0, 0.0, -1.0))
  {
    match Crossing(ray, range, tol)
    case None => None
    case Some(t) =>
      var face := GetFace(ray.direction, Vec3(0.0, 0.0, 1.0));
      Some(Collision(At(ray, t), face.1, t, face.0))
  }

  /** Both versions report the same crossings with the same normal; only the face flag
      differs, and the corrected one is front-facing from above. */
  lemma CorrectedKeepsNormal(ray: Ray, range: Range, tol: real)
    requires tol >= 0.0
    ensures LocalCollide(ray, range, tol).None? <==> LocalCollideAsWritten(ray, range, tol).None?
    ensures LocalCollide(ray, range, tol).Some? ==>
      LocalCollide(ray, range, tol).value.t == LocalCollideAsWritten(ray, range, tol).value.t &&
      LocalCollide(ray, range, tol).value.normal == LocalCollideAsWritten(ray, range, tol).value.normal &&
      (LocalCollide(ray, range, tol).value.isFrontFacing <==> ray.direction.z < 0.0)
  {
    AsWrittenNeverFront(ray, range, tol);
  }

  /** A ray straight down from height `h` onto the centre of the unit square meets it
      at parameter `h`. */
  lemma DownOntoCentre(h: real)
    requires h > 0.0
    ensures Crossing(Ray(Vec3(0.5, 0.5, h), Vec3(0.0, 0.0, -1.0)), Range(Fin(0.0), PosInf), 0.001) == Some(h)
  {
    var ray := Ray(Vec3(0.5, 0.5, h), Vec3(0.0, 0.0, -1.0));
    var range := Range(Fin(0.0), PosInf);
    assert At(ray, h) == Vec3(0.5, 0.5, 0.0);
    assert Contains(range, h);
    assert InUnit(0.5);
    CrossingExact(ray, range, 0.001, h);
  }

  /** The code as written reports that ray, which comes down onto the `+z` side, as a
      back-face hit. */
  lemma AsWrittenDownIsBack(h: real)
    requires h > 0.0
    ensures var r := LocalCollideAsWritten(Ray(Vec3(0.5, 0.5, h), Vec3(0.0, 0.0, -1.0)), Range(Fin(0.0), PosInf), 0.001);
      r.Some? && r.value.t == h && !r.value.isFrontFacing
  {
    DownOntoCentre(h);
    AsWrittenNeverFront(Ray(Vec3(0.5, 0.5, h), Vec3(0.0, 0.0, -1.0)), Range(Fin(0.0), PosInf), 0.001);
  }

  /** The corrected code reports it as a front-face hit. */
  lemma CollideDownIsFront(h: real)
    requires h > 0.0
    ensures var r := LocalCollide(Ray(Vec3(0.5, 0.5, h), Vec3(0.0, 0.0, -1.0)), Range(Fin(0.0), PosInf), 0.001);
      r.Some? && r.value.t == h && r.value.isFrontFacing
  {
    DownOntoCentre(h);
  }

  /** `collide` as written: the ray is mapped into local space by `transform`, decided
      there by the local test as written, and a local hit is mapped back by `apply`.
      The local hit handed to `apply` is never front-facing. */
  function Collide(ray: Ray, range: Range, tol: real, transform: Ray -> Ray, apply: (Ray, Collision) -> Collision): (r: Option<Collision>)
    requires tol >= 0.0
    ensures r.None? <==> Crossing(transform(ray), range, tol).None?
    ensures r.Some? ==> r.value == apply(ray, LocalCollideAsWritten(transform(ray), range, tol).value)
    ensures r.Some? ==> !LocalCollideAsWritten(transform(ray), range, tol).value.isFrontFacing
  {
    AsWrittenNeverFront(transform(ray), range, tol);
    match LocalCollideAsWritten(transform(ray), range, tol)
    case None => None
    case Some(c) => Some(apply(ray, c))
  }

  /** The corrected `collide`: the same mapping around the corrected local test, so the
      local hit handed to `apply` is front-facing exactly when the local ray comes down
      onto the `+z` side. */
  function CollideCorrected(ray: Ray, range: Range, tol: real, transform: Ray -> Ray, apply: (Ray, Collision) -> Collision): (r: Option<Collision>)
    requires tol >= 0.0
    ensures r.None? <==> Crossing(transform(ray), range, tol).None?
    ensures r.Some? ==> r.value == apply(ray, LocalCollide(transform(ray), range, tol).value)
    ensures r.Some? ==> (LocalCollide(transform(ray), range, tol).value.isFrontFacing <==> transform(ray).direction.z < 0.0)
  {
    match LocalCollide(transform(ray), range, tol)
    case None => None
    case Some(c) => Some(apply(ray, c))
  }

  /** With the identity transform and an `apply` that keeps the local hit, the ray
      straight down onto the centre of the square is a back-face hit as written and a
      front-face hit once corrected. */
  lemma IdentityDownOntoCentre(h: real)
    requires h > 0.0
    ensures var ray := Ray(Vec3(0.5, 0.5, h), Vec3(0.0, 0.0, -1.0));
      var range := Range(Fin(0.0), PosInf);
      var asWritten := Collide(ray, range, 0.001, r => r, (r, c) => c);
      var corrected := CollideCorrected(ray, range, 0.001, r => r, (r, c) => c);
      asWritten.Some? && !asWritten.value.isFrontFacing && corrected.Some? && corrected.value.isFrontFacing
  {
    AsWrittenDownIsBack(h);
    CollideDownIsFront(h);
  }
}
