/** src/bounding/mod.rs: axis-aligned boxes made of one `Range` per axis. */
module Bounding {
  import opened ExtReals
  import opened Wrappers
  import opened Vectors
  import opened Types

  datatype BoundingBox = BoundingBox(x: Range, y: Range, z: Range)

  function AxisRange(b: BoundingBox, axis: Axis): Range {
    if axis == 0 then b.x else if axis == 1 then b.y else b.z
  }

  /** `a` lies inside `c` on every axis. */
  predicate BoxWithin(a: BoundingBox, c: BoundingBox) {
    Within(a.x, c.x) && Within(a.y, c.y) && Within(a.z, c.z)
  }

  predicate ContainsPoint(b: BoundingBox, p: Vec3) {
    Contains(b.x, p.x) && Contains(b.y, p.y) && Contains(b.z, p.z)
  }

  /** Every axis range is ordered, `lo <= hi`. */
  predicate Proper(b: BoundingBox) {
    Le(b.x.lo, b.x.hi) && Le(b.y.lo, b.y.hi) && Le(b.z.lo, b.z.hi)
  }

  /** The box with the `union_empty` sentinel on every axis. */
  function EmptyBox(): (e: BoundingBox)
    ensures forall b: BoundingBox {:trigger BoxWithin(e, b)} :: BoxWithin(e, b)
    ensures forall p :: !ContainsPoint(e, p)
  {
    BoundingBox(UnionEmpty(), UnionEmpty(), UnionEmpty())
  }

  function FiniteRange(a: real, b: real): Range {
    Range(Fin(if a <= b then a else b), Fin(if a <= b then b else a))
  }

  /** `BoundingBox::from_extrema`: the smallest box holding both points, ordered on
      every axis. */
  function FromExtrema(p: Vec3, q: Vec3): (b: BoundingBox)
    ensures Proper(b)
    ensures ContainsPoint(b, p) && ContainsPoint(b, q)
    ensures forall c: BoundingBox {:trigger BoxWithin(b, c)} :: ContainsPoint(c, p) && ContainsPoint(c, q) ==> BoxWithin(b, c)
  {
    BoundingBox(FiniteRange(p.x, q.x), FiniteRange(p.y, q.y), FiniteRange(p.z, q.z))
  }

  lemma FromExtremaSymmetric(p: Vec3, q: Vec3)
    ensures FromExtrema(p, q) == FromExtrema(q, p)
  {}

  /** `BoundingBox::union`: the axis-wise `Range::union`, i.e. the smallest box
      holding both operands. */
  function Union(a: BoundingBox, b: BoundingBox): (u: BoundingBox)
    ensures BoxWithin(a, u) && BoxWithin(b, u)
    ensures forall c: BoundingBox {:trigger BoxWithin(u, c)} :: BoxWithin(a, c) && BoxWithin(b, c) ==> BoxWithin(u, c)
    ensures forall p :: ContainsPoint(a, p) || ContainsPoint(b, p) ==> ContainsPoint(u, p)
  {
    BoundingBox(Types.Union(a.x, b.x), Types.Union(a.y, b.y), Types.Union(a.z, b.z))
  }

  lemma BoxWithinTrans(a: BoundingBox, b: BoundingBox, c: BoundingBox)
    requires BoxWithin(a, b) && BoxWithin(b, c)
    ensures BoxWithin(a, c)
  {
    WithinTrans(a.x, b.x, c.x);
    WithinTrans(a.y, b.y, c.y);
    WithinTrans(a.z, b.z, c.z);
  }

  lemma BoxWithinAntisym(a: BoundingBox, b: BoundingBox)
    requires BoxWithin(a, b) && BoxWithin(b, a)
    ensures a == b
  {
    WithinAntisym(a.x, b.x);
    WithinAntisym(a.y, b.y);
    WithinAntisym(a.z, b.z);
  }

  lemma UnionCommutes(a: BoundingBox, b: BoundingBox)
    ensures Union(a, b) == Union(b, a)
  {
    BoxWithinAntisym(Union(a, b), Union(b, a));
  }

  lemma UnionAssociates(a: BoundingBox, b: BoundingBox, c: BoundingBox)
    ensures Union(Union(a, b), c) == Union(a, Union(b, c))
  {
    var l := Union(Union(a, b), c);
    var r := Union(a, Union(b, c));
    BoxWithinTrans(a, Union(a, b), l);
    BoxWithinTrans(b, Union(a, b), l);
    BoxWithinTrans(b, Union(b, c), r);
    BoxWithinTrans(c, Union(b, c), r);
    BoxWithinAntisym(l, r);
  }

  lemma UnionEmptyIdentity(b: BoundingBox)
    ensures Union(EmptyBox(), b) == b && Union(b, EmptyBox()) == b
  {
    BoxWithinAntisym(Union(EmptyBox(), b), b);
    BoxWithinAntisym(Union(b, EmptyBox()), b);
  }

  datatype Ordering = Less | Equal | Greater

  /** `BoundingBox::compare_axis`: orders two boxes by the lower bound of one axis
      only; any axis other than 0, 1 or 2 panics (`None`). */
  function CompareAxis(a: BoundingBox, b: BoundingBox, axis: nat): (o: Option<Ordering>)
    ensures o.None? <==> axis > 2
    ensures axis <= 2 ==> (o.value == Less <==> Lt(AxisRange(a, axis).lo, AxisRange(b, axis).lo))
    ensures axis <= 2 ==> (o.value == Equal <==> AxisRange(a, axis).lo == AxisRange(b, axis).lo)
    ensures axis <= 2 ==> (o.value == Greater <==> Lt(AxisRange(b, axis).lo, AxisRange(a, axis).lo))
  {
    if axis > 2 then None
    else
      var la := AxisRange(a, axis).lo;
      var lb := AxisRange(b, axis).lo;
      LeTotal(la, lb);
      if la == lb then Some(Equal)
      else if Le(la, lb) then Some(Less)
      else Some(Greater)
  }

  /** The key `compare_axis` sorts by. */
  function LowerBound(b: BoundingBox, axis: Axis): ExtReal {
    AxisRange(b, axis).lo
  }

  /** The entry/exit parameters of one slab `[lo, hi]` for a ray coordinate starting at
      `o` and moving by `d`, swapped so that the entry comes first. */
  function SlabRange(lo: ExtReal, hi: ExtReal, o: real, d: real): (s: Range)
    requires d != 0.0
    ensures Le(s.lo, s.hi)
  {
    var coefficient := 1.0 / d;
    var t0 := Affine(lo, o, coefficient);
    var t1 := Affine(hi, o, coefficient);
    LeTotal(t0, t1);
    if Lt(t1, t0) then Range(t1, t0) else Range(t0, t1)
  }

  /** The parameter interval during which the ray is between the two planes of one
      slab. */
  function Slab(b: BoundingBox, ray: Ray, axis: Axis): (s: Range)
    requires NoZeroComponent(ray.direction)
    ensures Le(s.lo, s.hi)
  {
    SlabRange(AxisRange(b, axis).lo, AxisRange(b, axis).hi,
              Component(ray.origin, axis), Component(ray.direction, axis))
  }

  /** `t` lies in the slab interval of every axis. */
  predicate InSlabs(b: BoundingBox, ray: Ray, t: real)
    requires NoZeroComponent(ray.direction)
  {
    Contains(Slab(b, ray, 0), t) && Contains(Slab(b, ray, 1), t) && Contains(Slab(b, ray, 2), t)
  }

  /** The loop of `check_intersection` from axis `axis` on, with the running range. */
  function CheckFrom(b: BoundingBox, ray: Ray, range: Range, axis: nat): (o: Option<Range>)
    requires NoZeroComponent(ray.direction)
    requires axis <= 3
    ensures o.Some? ==> Within(o.value, range)
    ensures o.Some? ==> forall t :: Contains(o.value, t) <==>
      Contains(range, t) && forall a: Axis :: axis <= a ==> Contains(Slab(b, ray, a), t)
    ensures o.None? ==> forall t :: Contains(range, t) ==>
      exists a: Axis :: axis <= a && !Contains(Slab(b, ray, a), t)
    ensures o.Some? && axis < 3 ==> Within(o.value, Slab(b, ray, axis)) && Le(o.value.lo, o.value.hi)
    decreases 3 - axis
  {
    if axis == 3 then Some(range)
    else
      match Intersect(range, Slab(b, ray, axis))
      case None => None
      case Some(r) =>
        var o := CheckFrom(b, ray, r, axis + 1);
        assert o.Some? ==> Within(o.value, range) && Within(o.value, Slab(b, ray, axis)) by {
          if o.Some? {
            WithinTrans(o.value, r, range);
            WithinTrans(o.value, r, Slab(b, ray, axis));
          }
        }
        o
  }

  /** `BoundingBox::check_intersection`: `None` as soon as one slab interval is
      disjoint from the running range; otherwise a sub-range of `range` whose points are
      exactly the parameters of `range` lying in all three slabs. */
  function CheckIntersection(b: BoundingBox, ray: Ray, range: Range): (o: Option<Range>)
    requires NoZeroComponent(ray.direction)
    ensures o.Some? ==> Within(o.value, range)
    ensures o.Some? ==> forall t :: Contains(o.value, t) <==> Contains(range, t) && InSlabs(b, ray, t)
    ensures o.None? ==> forall t :: Contains(range, t) ==> !InSlabs(b, ray, t)
    ensures Intersect(range, Slab(b, ray, 0)).None? ==> o.None?
    ensures o.Some? ==> Within(o.value, Slab(b, ray, 0)) && Le(o.value.lo, o.value.hi)
  {
    CheckFrom(b, ray, range, 0)
  }

  /** Dividing by a positive `d` (multiplying by `c = 1/d`) keeps both comparisons. */
  lemma ScaledCompare(a: real, d: real, t: real)
    requires d != 0.0
    ensures d > 0.0 ==> (a * (1.0 / d) <= t <==> a <= t * d) && (t <= a * (1.0 / d) <==> t * d <= a)
    ensures d < 0.0 ==> (a * (1.0 / d) <= t <==> t * d <= a) && (t <= a * (1.0 / d) <==> a <= t * d)
  {
    var c := 1.0 / d;
    assert c * d == 1.0;
    assert a * c * d == a;
    if d > 0.0 {
      assert c > 0.0;
      assert a * c <= t ==> a * c * d <= t * d;
      assert a <= t * d ==> a * c <= t * d * c;
      assert t <= a * c ==> t * d <= a * c * d;
      assert t * d <= a ==> t * d * c <= a * c;
    } else {
      assert c < 0.0;
      assert a * c <= t ==> t * d <= a * c * d;
      assert t * d <= a ==> a * c <= t * d * c;
      assert t <= a * c ==> a * c * d <= t * d;
      assert a <= t * d ==> t * d * c <= a * c;
    }
  }

  lemma ComponentAt(ray: Ray, t: real, axis: Axis)
    ensures Component(At(ray, t), axis) == Component(ray.origin, axis) + t * Component(ray.direction, axis)
  {}

  /** One transformed bound compared with `t`, against the bound compared with the
      coordinate `o + t * d`; a negative `d` reverses the comparison. */
  lemma AffineBound(x: ExtReal, o: real, d: real, t: real)
    requires d != 0.0
    ensures d > 0.0 ==> (Le(Affine(x, o, 1.0 / d), Fin(t)) <==> Le(x, Fin(o + t * d)))
    ensures d > 0.0 ==> (Le(Fin(t), Affine(x, o, 1.0 / d)) <==> Le(Fin(o + t * d), x))
    ensures d < 0.0 ==> (Le(Affine(x, o, 1.0 / d), Fin(t)) <==> Le(Fin(o + t * d), x))
    ensures d < 0.0 ==> (Le(Fin(t), Affine(x, o, 1.0 / d)) <==> Le(x, Fin(o + t * d)))
  {
    if x.Fin? { ScaledCompare(x.v - o, d, t); }
  }

  /** Transforming two ordered bounds keeps their order for a positive `d` and reverses
      it for a negative one. */
  lemma AffineOrder(lo: ExtReal, hi: ExtReal, o: real, d: real)
    requires d != 0.0
    requires Le(lo, hi)
    ensures d > 0.0 ==> Le(Affine(lo, o, 1.0 / d), Affine(hi, o, 1.0 / d))
    ensures d < 0.0 ==> Le(Affine(hi, o, 1.0 / d), Affine(lo, o, 1.0 / d))
  {
    if lo.Fin? && hi.Fin? {
      var c := 1.0 / d;
      assert c * d == 1.0;
      assert d > 0.0 ==> c > 0.0;
      assert d < 0.0 ==> c < 0.0;
      assert (hi.v - o) - (lo.v - o) >= 0.0;
      assert (hi.v - o) * c - (lo.v - o) * c == ((hi.v - o) - (lo.v - o)) * c;
    }
  }

  /** The slab interval of an ordered range is exact: `t` lies in it exactly when the
      coordinate `o + t * d` lies in `[lo, hi]`. */
  lemma SlabRangeExact(lo: ExtReal, hi: ExtReal, o: real, d: real, t: real)
    requires d != 0.0
    requires Le(lo, hi)
    ensures Contains(SlabRange(lo, hi, o, d), t) <==> Contains(Range(lo, hi), o + t * d)
  {
    var c := 1.0 / d;
    var t0 := Affine(lo, o, c);
    var t1 := Affine(hi, o, c);
    AffineOrder(lo, hi, o, d);
    AffineBound(lo, o, d, t);
    AffineBound(hi, o, d, t);
    if d > 0.0 {
      assert Contains(SlabRange(lo, hi, o, d), t) <==> Contains(Range(t0, t1), t);
    } else {
      if !Lt(t1, t0) {
        LeAntisym(t0, t1);
      }
      assert Contains(SlabRange(lo, hi, o, d), t) <==> Contains(Range(t1, t0), t);
    }
  }

  lemma SlabExact(b: BoundingBox, ray: Ray, axis: Axis, t: real)
    requires NoZeroComponent(ray.direction)
    requires Le(AxisRange(b, axis).lo, AxisRange(b, axis).hi)
    ensures Contains(Slab(b, ray, axis), t) <==> Contains(AxisRange(b, axis), Component(At(ray, t), axis))
  {
    ComponentAt(ray, t, axis);
    SlabRangeExact(AxisRange(b, axis).lo, AxisRange(b, axis).hi,
                   Component(ray.origin, axis), Component(ray.direction, axis), t);
  }

  /** For a box ordered on every axis, `check_intersection` keeps exactly the
      parameters of `range` at which the ray is inside the box, and misses exactly when
      no such parameter exists. */
  lemma CheckIntersectionExact(b: BoundingBox, ray: Ray, range: Range)
    requires NoZeroComponent(ray.direction)
    requires Proper(b)
    ensures forall t :: InSlabs(b, ray, t) <==> ContainsPoint(b, At(ray, t))
    ensures CheckIntersection(b, ray, range).Some? ==> forall t ::
      Contains(CheckIntersection(b, ray, range).value, t) <==> Contains(range, t) && ContainsPoint(b, At(ray, t))
    ensures CheckIntersection(b, ray, range).None? ==> forall t :: Contains(range, t) ==> !ContainsPoint(b, At(ray, t))
  {
    forall t ensures InSlabs(b, ray, t) <==> ContainsPoint(b, At(ray, t)) {
      SlabExact(b, ray, 0, t);
      SlabExact(b, ray, 1, t);
      SlabExact(b, ray, 2, t);
    }
  }

  /** A parameter at which the ray is inside the box lies in all three slabs; the box
      need not be known to be ordered, since holding a point orders it. */
  /** On a box whose x-extent is finite, `check_intersection` answers `Some` exactly
      when some parameter of the range puts the ray inside the box: the range it
      returns is never empty. */
  lemma CheckIntersectionWitness(b: BoundingBox, ray: Ray, range: Range)
    requires NoZeroComponent(ray.direction)
    requires Proper(b)
    requires b.x.lo.Fin? && b.x.hi.Fin?
    ensures CheckIntersection(b, ray, range).Some? <==>
      exists t :: Contains(range, t) && ContainsPoint(b, At(ray, t))
  {
    CheckIntersectionExact(b, ray, range);
    var o := CheckIntersection(b, ray, range);
    if o.Some? {
      var slab := Slab(b, ray, 0);
      assert slab.lo.Fin? && slab.hi.Fin?;
      var t := o.value.lo.v;
      assert Contains(o.value, t);
      assert Contains(range, t) && ContainsPoint(b, At(ray, t));
    }
  }

  lemma PointInSlabs(b: BoundingBox, ray: Ray, t: real)
    requires NoZeroComponent(ray.direction)
    requires ContainsPoint(b, At(ray, t))
    ensures InSlabs(b, ray, t)
  {
    SlabExact(b, ray, 0, t);
    SlabExact(b, ray, 1, t);
    SlabExact(b, ray, 2, t);
  }

  /** A point of a box is a point of every box around it. */
  lemma ContainsPointWithin(a: BoundingBox, c: BoundingBox, p: Vec3)
    requires BoxWithin(a, c) && ContainsPoint(a, p)
    ensures ContainsPoint(c, p)
  {
    LeTrans(c.x.lo, a.x.lo, Fin(p.x)); LeTrans(Fin(p.x), a.x.hi, c.x.hi);
    LeTrans(c.y.lo, a.y.lo, Fin(p.y)); LeTrans(Fin(p.y), a.y.hi, c.y.hi);
    LeTrans(c.z.lo, a.z.lo, Fin(p.z)); LeTrans(Fin(p.z), a.z.hi, c.z.hi);
  }
}
