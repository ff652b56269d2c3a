/** src/geometry/parallelogram.rs: a parallelogram with corner `corner` and sides `u`
    and `v`. A crossing of its plane is accepted when its coordinates `alpha` and `beta`
    along the two sides both lie in `[0, 1]`; the code as written computes those
    coordinates with the unit normal, and a corrected variant with the reciprocal
    vector `(u x v) / |u x v|^2`. */
module Parallelograms {
  import opened ExtReals
  import opened Wrappers
  import opened Vectors
  import opened Types
  import opened Bounding
  import opened Geometry

  datatype Parallelogram = Parallelogram(corner: Vec3, bounds: BoundingBox, u: Vec3, v: Vec3, normal: Vec3)

  /** The four vertices: the corner, the corner moved along each side, and the
      opposite vertex. */
  function Vertices(corner: Vec3, u: Vec3, v: Vec3): seq<Vec3> {
    [corner, Add(corner, u), Add(corner, v), Add(Add(corner, u), v)]
  }

  /** `get_bounding_box` (identical in src/geometry/flat.rs): the union of the boxes
      spanned by the two diagonals. It holds the four vertices and is the smallest box
      that does. */
  function CornerBox(corner: Vec3, u: Vec3, v: Vec3): (b: BoundingBox)
    ensures Proper(b)
    ensures forall i :: 0 <= i < 4 ==> ContainsPoint(b, Vertices(corner, u, v)[i])
    ensures forall c: BoundingBox {:trigger BoxWithin(b, c)} ::
      (forall i :: 0 <= i < 4 ==> ContainsPoint(c, Vertices(corner, u, v)[i])) ==> BoxWithin(b, c)
  {
    DiagonalsHoldVertices(corner, u, v);
    DiagonalsLeast(corner, u, v);
    Bounding.Union(FromExtrema(corner, Add(Add(corner, u), v)), FromExtrema(Add(corner, u), Add(corner, v)))
  }

  /** The union of the two diagonal boxes is proper and holds the four vertices. */
  lemma DiagonalsHoldVertices(corner: Vec3, u: Vec3, v: Vec3)
    ensures var b := Bounding.Union(FromExtrema(corner, Add(Add(corner, u), v)), FromExtrema(Add(corner, u), Add(corner, v)));
      Proper(b) && forall i :: 0 <= i < 4 ==> ContainsPoint(b, Vertices(corner, u, v)[i])
  {
    var b := Bounding.Union(FromExtrema(corner, Add(Add(corner, u), v)), FromExtrema(Add(corner, u), Add(corner, v)));
    assert ContainsPoint(b, corner);
  }

  /** Any box holding the four vertices holds the union of the two diagonal boxes. */
  lemma DiagonalsLeast(corner: Vec3, u: Vec3, v: Vec3)
    ensures var b := Bounding.Union(FromExtrema(corner, Add(Add(corner, u), v)), FromExtrema(Add(corner, u), Add(corner, v)));
      forall c: BoundingBox {:trigger BoxWithin(b, c)} ::
        (forall i :: 0 <= i < 4 ==> ContainsPoint(c, Vertices(corner, u, v)[i])) ==> BoxWithin(b, c)
  {
    var b := Bounding.Union(FromExtrema(corner, Add(Add(corner, u), v)), FromExtrema(Add(corner, u), Add(corner, v)));
    forall c: BoundingBox | (forall i :: 0 <= i < 4 ==> ContainsPoint(c, Vertices(corner, u, v)[i]))
      ensures BoxWithin(b, c)
    {
      assert ContainsPoint(c, Vertices(corner, u, v)[0]) && ContainsPoint(c, Vertices(corner, u, v)[3]);
      assert ContainsPoint(c, Vertices(corner, u, v)[1]) && ContainsPoint(c, Vertices(corner, u, v)[2]);
    }
  }

  /** `normalize` is an oracle; the code relies only on its result having unit length. */
  ghost predicate IsNormalize(normalize: Vec3 -> Vec3) {
    forall w :: NormSquared(normalize(w)) == 1.0
  }

  /** `Parallelogram::new`: the assertion that `u` and `v` are not parallel, written
      with the source's cosine `u . v / (|u| |v|)` (`norm` is an oracle); a failed
      assertion is `None`. A zero-length side makes the cosine NaN, which fails the
      assertion too. The stored normal is the normalised `u x v` divided by its own
      squared length, which is 1. */
  function New(corner: Vec3, u: Vec3, v: Vec3, tol: real, norm: Vec3 -> real, normalize: Vec3 -> Vec3): (r: Option<Parallelogram>)
    requires IsNormalize(normalize)
    ensures r.None? <==> norm(u) * norm(v) == 0.0 || Abs(Abs(Dot(u, v) / (norm(u) * norm(v))) - 1.0) <= tol
    ensures r.Some? ==> r.value == Parallelogram(corner, CornerBox(corner, u, v), u, v, normalize(Cross(u, v)))
  {
    var lengths := norm(u) * norm(v);
    if lengths == 0.0 then None
    else
      var cos := Dot(u, v) / lengths;
      if Abs(Abs(cos) - 1.0) <= tol then None
      else
        var n := normalize(Cross(u, v));
        assert NormSquared(n) == 1.0;
        Some(Parallelogram(corner, CornerBox(corner, u, v), u, v, Scale(1.0 / NormSquared(n), n)))
  }

  /** `Parallelogram::from_vertices`: the sides are `adjacent - corner` and
      `opposing - adjacent`, so the four vertices are the given three and one more. */
  function FromVertices(corner: Vec3, adjacent: Vec3, opposing: Vec3, normalize: Vec3 -> Vec3): (p: Parallelogram)
    ensures Add(p.corner, p.u) == adjacent && Add(Add(p.corner, p.u), p.v) == opposing
    ensures p.bounds == CornerBox(corner, p.u, p.v)
  {
    var u := Sub(adjacent, corner);
    var v := Sub(Sub(opposing, corner), u);
    Parallelogram(corner, CornerBox(corner, u, v), u, v, normalize(Cross(u, v)))
  }

  /** The side coordinates of the offset `q` from the corner, measured with `w`. */
  function Alpha(w: Vec3, q: Vec3, v: Vec3): real { Dot(w, Cross(q, v)) }
  function Beta(w: Vec3, u: Vec3, q: Vec3): real { Dot(w, Cross(u, q)) }

  predicate InUnit(x: real) { Contains(Range(Fin(0.0), Fin(1.0)), x) }

  /** The acceptance logic of `Parallelogram::collide`, with the side coordinates
      measured by `w`: none when the ray is (nearly) parallel to the plane, none when
      the crossing is outside `range`, none when a side coordinate is outside `[0, 1]`,
      and otherwise a hit oriented by `get_face`. `tol` is `ZERO_TOL`. */
  function CollideWith(p: Parallelogram, ray: Ray, range: Range, tol: real, w: Vec3): (r: Option<Collision>)
    requires tol > 0.0
    ensures Abs(Dot(p.normal, ray.direction)) < tol ==> r.None?
    ensures r.Some? ==> Contains(range, r.value.t) && r.value.point == At(ray, r.value.t)
    ensures r.Some? ==> Dot(p.normal, r.value.point) == Dot(p.normal, p.corner)
    ensures r.Some? ==> InUnit(Alpha(w, Sub(r.value.point, p.corner), p.v)) && InUnit(Beta(w, p.u, Sub(r.value.point, p.corner)))
    ensures r.Some? ==> (r.value.isFrontFacing <==> Dot(ray.direction, p.normal) <= 0.0)
    ensures r.Some? ==> Dot(ray.direction, r.value.normal) <= 0.0
  {
    var denominator := Dot(p.normal, ray.direction);
    if Abs(denominator) < tol then None
    else
      var d := Dot(p.normal, p.corner);
      var t := (d - Dot(p.normal, ray.origin)) / denominator;
      if NotContains(range, t) then None
      else
        var point := At(ray, t);
        assert Dot(p.normal, point) == d by {
          assert Dot(p.normal, point) == Dot(p.normal, ray.origin) + t * denominator;
        }
        var q := Sub(point, p.corner);
        if !InUnit(Alpha(w, q, p.v)) || !InUnit(Beta(w, p.u, q)) then None
        else
          var face := GetFace(ray.direction, p.normal);
          Some(Collision(point, face.1, t, face.0))
  }

  /** `Parallelogram::collide` as written: the side coordinates are measured with the
      stored (unit) normal. */
  function CollideAsWritten(p: Parallelogram, ray: Ray, range: Range, tol: real): (r: Option<Collision>)
    requires tol > 0.0
    ensures r.Some? ==> Contains(range, r.value.t) && Dot(ray.direction, r.value.normal) <= 0.0
    ensures r.Some? ==> InUnit(Alpha(p.normal, Sub(r.value.point, p.corner), p.v))
  {
    CollideWith(p, ray, range, tol, p.normal)
  }

  /** The reciprocal vector of the sides: measuring with it gives back the side
      coordinates exactly. */
  function Reciprocal(u: Vec3, v: Vec3): Vec3
    requires NormSquared(Cross(u, v)) != 0.0
  {
    Scale(1.0 / NormSquared(Cross(u, v)), Cross(u, v))
  }

  /** The corrected collide: the side coordinates are measured with the reciprocal
      vector, so they are the coefficients of the hit point along `u` and `v`. */
  function Collide(p: Parallelogram, ray: Ray, range: Range, tol: real): (r: Option<Collision>)
    requires tol > 0.0 && NormSquared(Cross(p.u, p.v)) != 0.0
    ensures r.Some? ==> Contains(range, r.value.t) && Dot(ray.direction, r.value.normal) <= 0.0
    ensures r.Some? ==> InUnit(Alpha(Reciprocal(p.u, p.v), Sub(r.value.point, p.corner), p.v))
  {
    CollideWith(p, ray, range, tol, Reciprocal(p.u, p.v))
  }

  /** Vectors with equal coordinates are equal. */
  lemma SameComponents(p: Vec3, q: Vec3)
    requires p.x == q.x && p.y == q.y && p.z == q.z
    ensures p == q
  {}

  /** The offset `a u + b v`. */
  function Combine(a: real, u: Vec3, b: real, v: Vec3): Vec3 {
    Add(Scale(a, u), Scale(b, v))
  }

  /** One coordinate of `(a u + b v) x v`, written through the two other coordinates
      of `u` and `v`. */
  lemma CrossTermLeft(a: real, b: real, u1: real, u2: real, v1: real, v2: real, c1: real, c2: real)
    requires c1 == a * u1 + b * v1 && c2 == a * u2 + b * v2
    ensures c1 * v2 - c2 * v1 == a * (u1 * v2 - u2 * v1)
  {
    assert c1 * v2 == a * u1 * v2 + b * v1 * v2;
    assert c2 * v1 == a * u2 * v1 + b * v2 * v1;
    assert a * (u1 * v2 - u2 * v1) == a * u1 * v2 - a * u2 * v1;
  }

  lemma CrossTermRight(a: real, b: real, u1: real, u2: real, v1: real, v2: real, c1: real, c2: real)
    requires c1 == a * u1 + b * v1 && c2 == a * u2 + b * v2
    ensures u1 * c2 - u2 * c1 == b * (u1 * v2 - u2 * v1)
  {
    assert u1 * c2 == a * u1 * u2 + b * u1 * v2;
    assert u2 * c1 == a * u2 * u1 + b * u2 * v1;
    assert b * (u1 * v2 - u2 * v1) == b * u1 * v2 - b * u2 * v1;
  }

  /** One coordinate of `(a u + b v) x v`, written through the two other coordinates
      `i` and `j` of each vector. */
  lemma CrossCombineLeftAt(a: real, b: real, ui: real, uj: real, vi: real, vj: real, ci: real, cj: real, w: real, k: real)
    requires ci == a * ui + b * vi && cj == a * uj + b * vj
    requires w == ci * vj - cj * vi && k == ui * vj - uj * vi
    ensures w == a * k
  {
    CrossTermLeft(a, b, ui, uj, vi, vj, ci, cj);
  }

  /** One coordinate of `u x (a u + b v)`. */
  lemma CrossCombineRightAt(a: real, b: real, ui: real, uj: real, vi: real, vj: real, ci: real, cj: real, w: real, k: real)
    requires ci == a * ui + b * vi && cj == a * uj + b * vj
    requires w == ui * cj - uj * ci && k == ui * vj - uj * vi
    ensures w == b * k
  {
    CrossTermRight(a, b, ui, uj, vi, vj, ci, cj);
  }

  /** The coordinates of `p x q`. */
  lemma CrossCoordinates(p: Vec3, q: Vec3)
    ensures var c := Cross(p, q);
      c.x == p.y * q.z - p.z * q.y && c.y == p.z * q.x - p.x * q.z && c.z == p.x * q.y - p.y * q.x
  {}

  /** The coordinates of `a u + b v`. */
  lemma CombineCoordinates(a: real, u: Vec3, b: real, v: Vec3)
    ensures var c := Combine(a, u, b, v);
      c.x == a * u.x + b * v.x && c.y == a * u.y + b * v.y && c.z == a * u.z + b * v.z
  {}

  /** Crossing with `v` removes the `v` part of `a u + b v`, one coordinate at a time. */
  lemma CrossCombineLeftX(a: real, u: Vec3, b: real, v: Vec3)
    ensures Cross(Combine(a, u, b, v), v).x == a * Cross(u, v).x
  {
    var c := Combine(a, u, b, v);
    CombineCoordinates(a, u, b, v);
    CrossCoordinates(c, v);
    CrossCoordinates(u, v);
    CrossCombineLeftAt(a, b, u.y, u.z, v.y, v.z, c.y, c.z, Cross(c, v).x, Cross(u, v).x);
  }

  lemma CrossCombineLeftY(a: real, u: Vec3, b: real, v: Vec3)
    ensures Cross(Combine(a, u, b, v), v).y == a * Cross(u, v).y
  {
    var c := Combine(a, u, b, v);
    CombineCoordinates(a, u, b, v);
    CrossCoordinates(c, v);
    CrossCoordinates(u, v);
    CrossCombineLeftAt(a, b, u.z, u.x, v.z, v.x, c.z, c.x, Cross(c, v).y, Cross(u, v).y);
  }

  lemma CrossCombineLeftZ(a: real, u: Vec3, b: real, v: Vec3)
    ensures Cross(Combine(a, u, b, v), v).z == a * Cross(u, v).z
  {
    var c := Combine(a, u, b, v);
    CombineCoordinates(a, u, b, v);
    CrossCoordinates(c, v);
    CrossCoordinates(u, v);
    CrossCombineLeftAt(a, b, u.x, u.y, v.x, v.y, c.x, c.y, Cross(c, v).z, Cross(u, v).z);
  }

  /** Crossing with `v` removes the `v` part of `a u + b v`. */
  lemma CrossCombineLeft(a: real, u: Vec3, b: real, v: Vec3)
    ensures Cross(Combine(a, u, b, v), v) == Scale(a, Cross(u, v))
  {
    CrossCombineLeftX(a, u, b, v);
    CrossCombineLeftY(a, u, b, v);
    CrossCombineLeftZ(a, u, b, v);
    SameComponents(Cross(Combine(a, u, b, v), v), Scale(a, Cross(u, v)));
  }

  /** Crossing `u` with `a u + b v` removes the `u` part, one coordinate at a time. */
  lemma CrossCombineRightX(a: real, u: Vec3, b: real, v: Vec3)
    ensures Cross(u, Combine(a, u, b, v)).x == b * Cross(u, v).x
  {
    var c := Combine(a, u, b, v);
    CombineCoordinates(a, u, b, v);
    CrossCoordinates(u, c);
    CrossCoordinates(u, v);
    CrossCombineRightAt(a, b, u.y, u.z, v.y, v.z, c.y, c.z, Cross(u, c).x, Cross(u, v).x);
  }

  lemma CrossCombineRightY(a: real, u: Vec3, b: real, v: Vec3)
    ensures Cross(u, Combine(a, u, b, v)).y == b * Cross(u, v).y
  {
    var c := Combine(a, u, b, v);
    CombineCoordinates(a, u, b, v);
    CrossCoordinates(u, c);
    CrossCoordinates(u, v);
    CrossCombineRightAt(a, b, u.z, u.x, v.z, v.x, c.z, c.x, Cross(u, c).y, Cross(u, v).y);
  }

  lemma CrossCombineRightZ(a: real, u: Vec3, b: real, v: Vec3)
    ensures Cross(u, Combine(a, u, b, v)).z == b * Cross(u, v).z
  {
    var c := Combine(a, u, b, v);
    CombineCoordinates(a, u, b, v);
    CrossCoordinates(u, c);
    CrossCoordinates(u, v);
    CrossCombineRightAt(a, b, u.x, u.y, v.x, v.y, c.x, c.y, Cross(u, c).z, Cross(u, v).z);
  }

  /** Crossing `u` with `a u + b v` removes the `u` part. */
  lemma CrossCombineRight(a: real, u: Vec3, b: real, v: Vec3)
    ensures Cross(u, Combine(a, u, b, v)) == Scale(b, Cross(u, v))
  {
    CrossCombineRightX(a, u, b, v);
    CrossCombineRightY(a, u, b, v);
    CrossCombineRightZ(a, u, b, v);
    SameComponents(Cross(u, Combine(a, u, b, v)), Scale(b, Cross(u, v)));
  }

  lemma DotScale(w: Vec3, s: real, c: Vec3)
    ensures Dot(w, Scale(s, c)) == s * Dot(w, c)
    ensures Dot(Scale(s, c), w) == s * Dot(c, w)
  {}

  lemma DotAdd(w: Vec3, a: Vec3, b: Vec3)
    ensures Dot(w, Add(a, b)) == Dot(w, a) + Dot(w, b)
  {}

  /** Measured with any `w`, the side coordinates of `a u + b v` are `a` and `b` times
      `w . (u x v)`. */
  lemma SideCoordinates(w: Vec3, a: real, u: Vec3, b: real, v: Vec3)
    ensures Alpha(w, Combine(a, u, b, v), v) == a * Dot(w, Cross(u, v))
    ensures Beta(w, u, Combine(a, u, b, v)) == b * Dot(w, Cross(u, v))
  {
    CrossCombineLeft(a, u, b, v);
    CrossCombineRight(a, u, b, v);
    DotScale(w, a, Cross(u, v));
    DotScale(w, b, Cross(u, v));
  }

  /** The reciprocal vector has unit component along `u x v`. */
  lemma ReciprocalUnit(u: Vec3, v: Vec3)
    requires NormSquared(Cross(u, v)) != 0.0
    ensures Dot(Reciprocal(u, v), Cross(u, v)) == 1.0
  {
    var c := Cross(u, v);
    var n := NormSquared(c);
    DotScale(c, 1.0 / n, c);
    assert Dot(Reciprocal(u, v), c) == (1.0 / n) * n;
  }

  /** Measured with the reciprocal vector, the side coordinates of `a u + b v` are
      exactly `a` and `b`. */
  lemma ReciprocalCoordinates(a: real, u: Vec3, b: real, v: Vec3)
    requires NormSquared(Cross(u, v)) != 0.0
    ensures Alpha(Reciprocal(u, v), Combine(a, u, b, v), v) == a
    ensures Beta(Reciprocal(u, v), u, Combine(a, u, b, v)) == b
  {
    SideCoordinates(Reciprocal(u, v), a, u, b, v);
    ReciprocalUnit(u, v);
  }

  /** An offset spanned by `u` and `v` is orthogonal to a normal of both. */
  lemma OffsetInPlane(n: Vec3, a: real, u: Vec3, b: real, v: Vec3)
    requires Dot(n, u) == 0.0 && Dot(n, v) == 0.0
    ensures Dot(n, Combine(a, u, b, v)) == 0.0
  {
    DotScale(n, a, u);
    DotScale(n, b, v);
    DotAdd(n, Scale(a, u), Scale(b, v));
  }

  lemma DivideBack(t: real, den: real, x: real)
    requires den != 0.0 && t * den == x
    ensures t == x / den
  {}

  /** A point `corner + a u + b v` reached at `t` by a ray that is not parallel to
      the plane: `t` is the parameter the code computes, and the offset from the corner
      is `a u + b v`. */
  lemma CrossingParameter(p: Parallelogram, ray: Ray, t: real, a: real, b: real)
    requires Dot(p.normal, p.u) == 0.0 && Dot(p.normal, p.v) == 0.0
    requires At(ray, t) == Add(p.corner, Combine(a, p.u, b, p.v))
    requires Dot(p.normal, ray.direction) != 0.0
    ensures t == (Dot(p.normal, p.corner) - Dot(p.normal, ray.origin)) / Dot(p.normal, ray.direction)
    ensures Sub(At(ray, t), p.corner) == Combine(a, p.u, b, p.v)
  {
    var offset := Combine(a, p.u, b, p.v);
    OffsetInPlane(p.normal, a, p.u, b, p.v);
    DotAdd(p.normal, p.corner, offset);
    assert Dot(p.normal, At(ray, t)) == Dot(p.normal, ray.origin) + t * Dot(p.normal, ray.direction);
    DivideBack(t, Dot(p.normal, ray.direction), Dot(p.normal, p.corner) - Dot(p.normal, ray.origin));
  }

  /** A crossing of the plane at the point `corner + a u + b v`, not too grazing and
      inside `range`, is accepted exactly when both side coordinates, as measured by
      `w`, lie in `[0, 1]`; it is then reported at that parameter. */
  lemma AcceptanceExact(p: Parallelogram, ray: Ray, range: Range, tol: real, w: Vec3, t: real, a: real, b: real)
    requires tol > 0.0
    requires Dot(p.normal, p.u) == 0.0 && Dot(p.normal, p.v) == 0.0
    requires At(ray, t) == Add(p.corner, Combine(a, p.u, b, p.v))
    requires Abs(Dot(p.normal, ray.direction)) >= tol && Contains(range, t)
    ensures CollideWith(p, ray, range, tol, w).Some? <==>
      InUnit(a * Dot(w, Cross(p.u, p.v))) && InUnit(b * Dot(w, Cross(p.u, p.v)))
    ensures CollideWith(p, ray, range, tol, w).Some? ==> CollideWith(p, ray, range, tol, w).value.t == t
  {
    CrossingParameter(p, ray, t, a, b);
    SideCoordinates(w, a, p.u, b, p.v);
    var den := Dot(p.normal, ray.direction);
    var computed := (Dot(p.normal, p.corner) - Dot(p.normal, ray.origin)) / den;
    assert computed == t;
    assert !NotContains(range, computed);
    var q := Sub(At(ray, computed), p.corner);
    assert q == Combine(a, p.u, b, p.v);
    assert Alpha(w, q, p.v) == a * Dot(w, Cross(p.u, p.v));
    assert Beta(w, p.u, q) == b * Dot(w, Cross(p.u, p.v));
  }

  /** As written, the same crossing is accepted exactly when `a` and `b`, each scaled
      by `normal . (u x v)`, lie in `[0, 1]`: the scale is the area of the
      parallelogram, not 1. */
  lemma AsWrittenExact(p: Parallelogram, ray: Ray, range: Range, tol: real, t: real, a: real, b: real)
    requires tol > 0.0
    requires Dot(p.normal, p.u) == 0.0 && Dot(p.normal, p.v) == 0.0
    requires At(ray, t) == Add(p.corner, Combine(a, p.u, b, p.v))
    requires Abs(Dot(p.normal, ray.direction)) >= tol && Contains(range, t)
    ensures CollideAsWritten(p, ray, range, tol).Some? <==>
      InUnit(a * Dot(p.normal, Cross(p.u, p.v))) && InUnit(b * Dot(p.normal, Cross(p.u, p.v)))
  {
    AcceptanceExact(p, ray, range, tol, p.normal, t, a, b);
  }

  /** With the corrected measure, a crossing at `corner + a u + b v` is a hit exactly
      when `0 <= a <= 1` and `0 <= b <= 1`: precisely the points of the parallelogram. */
  lemma CollideExact(p: Parallelogram, ray: Ray, range: Range, tol: real, t: real, a: real, b: real)
    requires tol > 0.0 && NormSquared(Cross(p.u, p.v)) != 0.0
    requires Dot(p.normal, p.u) == 0.0 && Dot(p.normal, p.v) == 0.0
    requires At(ray, t) == Add(p.corner, Combine(a, p.u, b, p.v))
    requires Abs(Dot(p.normal, ray.direction)) >= tol && Contains(range, t)
    ensures Collide(p, ray, range, tol).Some? <==> InUnit(a) && InUnit(b)
    ensures Collide(p, ray, range, tol).Some? ==> Collide(p, ray, range, tol).value.t == t
  {
    AcceptanceExact(p, ray, range, tol, Reciprocal(p.u, p.v), t, a, b);
    ReciprocalUnit(p.u, p.v);
  }

  /** The square of side `s` in the floor, with its upward unit normal and any stored
      box. */
  function Square(bounds: BoundingBox, s: real): Parallelogram {
    Parallelogram(Zero, bounds, Vec3(s, 0.0, 0.0), Vec3(0.0, s, 0.0), Vec3(0.0, 0.0, 1.0))
  }

  /** `new` builds that square when the normalisation returns the upward unit normal
      and the side lengths are reported as `s`. */
  lemma SquareMadeByNew(s: real)
    requires s > 0.0
    ensures var made := New(Zero, Vec3(s, 0.0, 0.0), Vec3(0.0, s, 0.0), 0.001, (x: Vec3) => s, (x: Vec3) => Vec3(0.0, 0.0, 1.0));
      made.Some? && made.value == Square(made.value.bounds, s)
  {
    var normalize := (x: Vec3) => Vec3(0.0, 0.0, 1.0);
    assert IsNormalize(normalize);
    MulPositive(s, s);
    assert Dot(Vec3(s, 0.0, 0.0), Vec3(0.0, s, 0.0)) == 0.0;
  }

  /** A ray from height `h` straight down onto the centre `(s/2, s/2, 0)` of that
      square; it reaches the centre at parameter `h`. */
  function DownOntoCentre(s: real, h: real): Ray {
    Ray(Vec3(s / 2.0, s / 2.0, h), Vec3(0.0, 0.0, -1.0))
  }

  lemma SquareFacts(bounds: BoundingBox, s: real, h: real)
    requires s >= 2.0
    ensures var p := Square(bounds, s);
      Dot(p.normal, p.u) == 0.0 && Dot(p.normal, p.v) == 0.0 &&
      Dot(p.normal, DownOntoCentre(s, h).direction) == -1.0 &&
      NormSquared(Cross(p.u, p.v)) > 0.0 && Dot(p.normal, Cross(p.u, p.v)) >= 4.0
  {
    var p := Square(bounds, s);
    var k := s * s;
    assert k >= 4.0 by {
      if s > 2.0 { SquareIncreasing(2.0, s); }
    }
    assert Cross(p.u, p.v) == Vec3(0.0, 0.0, k);
    MulPositive(k, k);
    assert NormSquared(Vec3(0.0, 0.0, k)) == k * k;
  }

  lemma CentreCrossing(bounds: BoundingBox, s: real, h: real)
    ensures At(DownOntoCentre(s, h), h) == Add(Square(bounds, s).corner, Combine(0.5, Square(bounds, s).u, 0.5, Square(bounds, s).v))
  {
  }

  /** For a square of side at least 2, the code as written rejects a ray straight down
      onto its centre `corner + u/2 + v/2` from any height above it: the centre's side
      coordinates come out as `s^2 / 2` instead of `1/2`. */
  lemma AsWrittenRejectsCentre(bounds: BoundingBox, s: real, h: real)
    requires s >= 2.0 && h > 0.0
    ensures At(DownOntoCentre(s, h), h) == Add(Square(bounds, s).corner, Combine(0.5, Square(bounds, s).u, 0.5, Square(bounds, s).v))
    ensures CollideAsWritten(Square(bounds, s), DownOntoCentre(s, h), Range(Fin(0.0), PosInf), 0.001).None?
  {
    var p := Square(bounds, s);
    var ray := DownOntoCentre(s, h);
    var range := Range(Fin(0.0), PosInf);
    SquareFacts(bounds, s, h);
    CentreCrossing(bounds, s, h);
    assert Contains(range, h);
    AsWrittenExact(p, ray, range, 0.001, h, 0.5, 0.5);
    var k := Dot(p.normal, Cross(p.u, p.v));
    assert !InUnit(0.5 * k);
  }

  /** The corrected collide accepts the same ray at the same height. */
  lemma CollideAcceptsCentre(bounds: BoundingBox, s: real, h: real)
    requires s >= 2.0 && h > 0.0
    ensures Collide(Square(bounds, s), DownOntoCentre(s, h), Range(Fin(0.0), PosInf), 0.001).Some?
    ensures Collide(Square(bounds, s), DownOntoCentre(s, h), Range(Fin(0.0), PosInf), 0.001).value.t == h
  {
    var p := Square(bounds, s);
    var ray := DownOntoCentre(s, h);
    var range := Range(Fin(0.0), PosInf);
    SquareFacts(bounds, s, h);
    CentreCrossing(bounds, s, h);
    assert Contains(range, h);
    CollideExact(p, ray, range, 0.001, h, 0.5, 0.5);
    assert InUnit(0.5);
  }

  /** A range holding `x` and `y` holds every point `x + a (y - x)` between them. */
  lemma RangeConvex(r: Range, x: real, y: real, a: real)
    requires InUnit(a) && Contains(r, x) && Contains(r, y)
    ensures Contains(r, x + a * (y - x))
  {
    var z := x + a * (y - x);
    if x <= y {
      MulNonNegative(a, y - x);
      MulNonNegative(1.0 - a, y - x);
      LeTrans(r.lo, Fin(x), Fin(z));
      LeTrans(Fin(z), Fin(y), r.hi);
    } else {
      MulNonNegative(a, x - y);
      MulNonNegative(1.0 - a, x - y);
      LeTrans(r.lo, Fin(y), Fin(z));
      LeTrans(Fin(z), Fin(x), r.hi);
    }
  }

  /** A box holding `p` and `q` holds every point of the segment between them. */
  lemma BoxConvex(box: BoundingBox, p: Vec3, q: Vec3, a: real)
    requires InUnit(a) && ContainsPoint(box, p) && ContainsPoint(box, q)
    ensures ContainsPoint(box, Add(p, Scale(a, Sub(q, p))))
  {
    forall axis: Axis ensures Contains(AxisRange(box, axis), Component(Add(p, Scale(a, Sub(q, p))), axis)) {
      AxisContains(box, p, axis);
      AxisContains(box, q, axis);
      SegmentAxis(box, p, q, a, axis);
    }
    assert Contains(AxisRange(box, 0), Component(Add(p, Scale(a, Sub(q, p))), 0));
    assert Contains(AxisRange(box, 1), Component(Add(p, Scale(a, Sub(q, p))), 1));
    assert Contains(AxisRange(box, 2), Component(Add(p, Scale(a, Sub(q, p))), 2));
  }

  /** One axis of `BoxConvex`. */
  lemma SegmentAxis(box: BoundingBox, p: Vec3, q: Vec3, a: real, axis: Axis)
    requires InUnit(a)
    requires Contains(AxisRange(box, axis), Component(p, axis)) && Contains(AxisRange(box, axis), Component(q, axis))
    ensures Contains(AxisRange(box, axis), Component(Add(p, Scale(a, Sub(q, p))), axis))
  {
    ComponentSegment(p, q, a, axis);
    RangeConvex(AxisRange(box, axis), Component(p, axis), Component(q, axis), a);
  }

  lemma AxisContains(box: BoundingBox, p: Vec3, axis: Axis)
    requires ContainsPoint(box, p)
    ensures Contains(AxisRange(box, axis), Component(p, axis))
  {
  }

  lemma ComponentSegment(p: Vec3, q: Vec3, a: real, axis: Axis)
    ensures Component(Add(p, Scale(a, Sub(q, p))), axis) ==
      Component(p, axis) + a * (Component(q, axis) - Component(p, axis))
  {
  }

  /** A box that holds the four vertices holds every point `corner + a u + b v` with
      side coordinates in `[0, 1]`: first along `u` on the two sides from `corner` and
      from `corner + v`, then along `v` between the two points reached. */
  lemma PointInHull(box: BoundingBox, corner: Vec3, u: Vec3, v: Vec3, a: real, b: real)
    requires InUnit(a) && InUnit(b)
    requires ContainsPoint(box, corner) && ContainsPoint(box, Add(corner, u))
    requires ContainsPoint(box, Add(corner, v)) && ContainsPoint(box, Add(Add(corner, u), v))
    ensures ContainsPoint(box, Add(corner, Combine(a, u, b, v)))
  {
    var near := Add(corner, Scale(a, u));
    var far := Add(Add(corner, v), Scale(a, u));
    assert Sub(Add(corner, u), corner) == u;
    BoxConvex(box, corner, Add(corner, u), a);
    assert Sub(Add(Add(corner, u), v), Add(corner, v)) == u;
    BoxConvex(box, Add(corner, v), Add(Add(corner, u), v), a);
    assert Sub(far, near) == v;
    BoxConvex(box, near, far, b);
    assert Add(near, Scale(b, v)) == Add(corner, Combine(a, u, b, v));
  }

  /** Every point `corner + a u + b v` of the parallelogram lies in its box. */
  lemma PointInCornerBox(corner: Vec3, u: Vec3, v: Vec3, a: real, b: real)
    requires InUnit(a) && InUnit(b)
    ensures ContainsPoint(CornerBox(corner, u, v), Add(corner, Combine(a, u, b, v)))
  {
    var box := CornerBox(corner, u, v);
    var vs := Vertices(corner, u, v);
    assert ContainsPoint(box, vs[0]) && ContainsPoint(box, vs[1]) && ContainsPoint(box, vs[2]) && ContainsPoint(box, vs[3]);
    PointInHull(box, corner, u, v, a, b);
  }

  /** A hit of the corrected collide at `corner + a u + b v` lies in the box `new`
      stores, so the corrected primitive keeps its hits inside its bounds. */
  lemma CollideInBox(p: Parallelogram, ray: Ray, range: Range, tol: real, t: real, a: real, b: real)
    requires tol > 0.0 && NormSquared(Cross(p.u, p.v)) != 0.0
    requires Dot(p.normal, p.u) == 0.0 && Dot(p.normal, p.v) == 0.0
    requires At(ray, t) == Add(p.corner, Combine(a, p.u, b, p.v))
    requires Abs(Dot(p.normal, ray.direction)) >= tol && Contains(range, t)
    ensures Collide(p, ray, range, tol).Some? ==>
      ContainsPoint(CornerBox(p.corner, p.u, p.v), At(ray, Collide(p, ray, range, tol).value.t))
  {
    CollideExact(p, ray, range, tol, t, a, b);
    if Collide(p, ray, range, tol).Some? {
      PointInCornerBox(p.corner, p.u, p.v, a, b);
    }
  }

  /** A ray through `(1/2, 1/2, 1)` heading down and outwards; it meets the floor at
      `(1, 1, 0)` at parameter 1. */
  const Outwards: Ray := Ray(Vec3(0.5, 0.5, 1.0), Vec3(0.5, 0.5, -1.0))

  /** The box of the square of side `s` lies within the square itself, flat in `z`. */
  lemma SmallSquareBox(s: real)
    requires 0.0 < s
    ensures var box := CornerBox(Zero, Vec3(s, 0.0, 0.0), Vec3(0.0, s, 0.0));
      BoxWithin(box, BoundingBox(Range(Fin(0.0), Fin(s)), Range(Fin(0.0), Fin(s)), Range(Fin(0.0), Fin(0.0))))
  {
    var flat := BoundingBox(Range(Fin(0.0), Fin(s)), Range(Fin(0.0), Fin(s)), Range(Fin(0.0), Fin(0.0)));
    var vs := Vertices(Zero, Vec3(s, 0.0, 0.0), Vec3(0.0, s, 0.0));
    assert forall i :: 0 <= i < 4 ==> ContainsPoint(flat, vs[i]);
  }

  /** No point of `Outwards` lies in the box of a square of side below 1: the ray
      meets the floor's plane only at `(1, 1, 0)`. */
  lemma OutwardsMissesBox(s: real, ray: Ray, t: real)
    requires 0.0 < s < 1.0 && ray == Outwards
    ensures !ContainsPoint(CornerBox(Zero, Vec3(s, 0.0, 0.0), Vec3(0.0, s, 0.0)), At(ray, t))
  {
    var flat := BoundingBox(Range(Fin(0.0), Fin(s)), Range(Fin(0.0), Fin(s)), Range(Fin(0.0), Fin(0.0)));
    SmallSquareBox(s);
    assert !ContainsPoint(flat, At(ray, t));
  }

  /** The box test of the square's box rejects `Outwards` over any range. */
  lemma OutwardsBoxRejects(s: real, ray: Ray, range: Range)
    requires 0.0 < s < 1.0 && ray == Outwards
    ensures NoZeroComponent(ray.direction)
    ensures CheckIntersection(CornerBox(Zero, Vec3(s, 0.0, 0.0), Vec3(0.0, s, 0.0)), ray, range).None?
  {
    var box := CornerBox(Zero, Vec3(s, 0.0, 0.0), Vec3(0.0, s, 0.0));
    SmallSquareBox(s);
    assert box.x.lo.Fin? && box.x.hi.Fin?;
    forall t ensures !ContainsPoint(box, At(ray, t)) {
      OutwardsMissesBox(s, ray, t);
    }
    CheckIntersectionWitness(box, ray, range);
  }

  /** The ray crosses the plane at `corner + a u + b v` at parameter `t` inside
      `range`, not parallel to it, and the side coordinates scaled by
      `normal . (u x v)` lie in `[0, 1]`. */
  predicate AcceptedCrossing(p: Parallelogram, ray: Ray, range: Range, tol: real, t: real, a: real, b: real) {
    tol > 0.0 &&
    Dot(p.normal, p.u) == 0.0 && Dot(p.normal, p.v) == 0.0 &&
    At(ray, t) == Add(p.corner, Combine(a, p.u, b, p.v)) &&
    Abs(Dot(p.normal, ray.direction)) >= tol && Contains(range, t) &&
    InUnit(a * Dot(p.normal, Cross(p.u, p.v))) && InUnit(b * Dot(p.normal, Cross(p.u, p.v)))
  }

  /** As written, a crossing at `corner + a u + b v` whose scaled side coordinates lie
      in `[0, 1]` is a hit at that crossing. */
  lemma AsWrittenAccepts(p: Parallelogram, ray: Ray, range: Range, tol: real, t: real, a: real, b: real)
    requires AcceptedCrossing(p, ray, range, tol, t, a, b)
    ensures CollideAsWritten(p, ray, range, tol).Some?
    ensures CollideAsWritten(p, ray, range, tol).value.t == t
  {
    AcceptanceExact(p, ray, range, tol, p.normal, t, a, b);
  }

  /** `Outwards` crosses the floor's plane at `corner + a u + a v` with `a = 1/s`, the
      point `(1, 1, 0)`. */
  lemma OutwardsCrossing(bounds: BoundingBox, s: real, a: real, ray: Ray)
    requires 0.0 < s < 1.0 && a * s == 1.0 && ray == Outwards
    ensures At(ray, 1.0) == Vec3(1.0, 1.0, 0.0)
    ensures At(ray, 1.0) == Add(Square(bounds, s).corner, Combine(a, Square(bounds, s).u, a, Square(bounds, s).v))
  {
    CombineCoordinates(a, Vec3(s, 0.0, 0.0), a, Vec3(0.0, s, 0.0));
  }

  /** For a square of side `s` below 1, the code as written accepts `Outwards` at
      `(1, 1, 0)`, a point outside the square and outside the box `new` stores: the
      side coordinates there come out as `s` instead of `1/s`. */
  lemma AsWrittenAcceptsOutside(bounds: BoundingBox, s: real, ray: Ray, range: Range)
    requires 0.0 < s < 1.0 && ray == Outwards && range == Range(Fin(0.001), PosInf)
    ensures At(ray, 1.0) == Vec3(1.0, 1.0, 0.0)
    ensures !ContainsPoint(CornerBox(Zero, Vec3(s, 0.0, 0.0), Vec3(0.0, s, 0.0)), At(ray, 1.0))
    ensures CollideAsWritten(Square(bounds, s), ray, range, 0.001).Some?
    ensures CollideAsWritten(Square(bounds, s), ray, range, 0.001).value.t == 1.0
  {
    OutwardsAccepted(bounds, s, ray, range);
    OutwardsMissesBox(s, ray, 1.0);
  }

  /** The acceptance half of the counterexample, kept apart from the box. */
  lemma OutwardsAccepted(bounds: BoundingBox, s: real, ray: Ray, range: Range)
    requires 0.0 < s < 1.0 && ray == Outwards && range == Range(Fin(0.001), PosInf)
    ensures At(ray, 1.0) == Vec3(1.0, 1.0, 0.0)
    ensures CollideAsWritten(Square(bounds, s), ray, range, 0.001).Some?
    ensures CollideAsWritten(Square(bounds, s), ray, range, 0.001).value.t == 1.0
  {
    var a := OutwardsCoordinates(bounds, s, ray, range);
    AsWrittenAccepts(Square(bounds, s), ray, range, 0.001, 1.0, a, a);
  }

  /** The side coordinate `a = 1/s` of the crossing, with every fact the acceptance
      test needs about it. */
  lemma OutwardsCoordinates(bounds: BoundingBox, s: real, ray: Ray, range: Range) returns (a: real)
    requires 0.0 < s < 1.0 && ray == Outwards && range == Range(Fin(0.001), PosInf)
    ensures At(ray, 1.0) == Vec3(1.0, 1.0, 0.0)
    ensures AcceptedCrossing(Square(bounds, s), ray, range, 0.001, 1.0, a, a)
  {
    a := 1.0 / s;
    assert a * s == 1.0;
    OutwardsSideCoordinates(bounds, s, a, ray, range);
    OutwardsCrossing(bounds, s, a, ray);
  }

  /** The preconditions of the acceptance test for `Outwards` and the floor square of
      side `s`, with the side coordinate `a = 1/s` scaled down to `s`. */
  lemma OutwardsSideCoordinates(bounds: BoundingBox, s: real, a: real, ray: Ray, range: Range)
    requires 0.0 < s < 1.0 && a * s == 1.0 && ray == Outwards && range == Range(Fin(0.001), PosInf)
    ensures var p := Square(bounds, s);
      Dot(p.normal, p.u) == 0.0 && Dot(p.normal, p.v) == 0.0 &&
      Abs(Dot(p.normal, ray.direction)) >= 0.001 && Contains(range, 1.0) &&
      a * Dot(p.normal, Cross(p.u, p.v)) == s
  {
    var p := Square(bounds, s);
    assert Cross(p.u, p.v) == Vec3(0.0, 0.0, s * s);
    assert Dot(p.normal, Cross(p.u, p.v)) == s * s;
    assert a * (s * s) == (a * s) * s;
  }
}
