/** src/utils/types.rs: image dimensions, tile corners and the closed scalar range
    used both for ray parameters and for box extents. */
module Types {
  import opened ExtReals
  import opened Wrappers

  datatype Dimensions = Dimensions(width: nat, height: nat)

  /** The upper-left corner of a tile (also declared, identically, in src/io.rs). */
  datatype TileCorner = TileCorner(x: nat, y: nat)

  /** A closed range `[lo, hi]`; both endpoints belong to it. */
  datatype Range = Range(lo: ExtReal, hi: ExtReal)

  /** `a` lies inside `b` as an interval. */
  predicate Within(a: Range, b: Range) {
    Le(b.lo, a.lo) && Le(a.hi, b.hi)
  }

  lemma WithinTrans(a: Range, b: Range, c: Range)
    requires Within(a, b) && Within(b, c)
    ensures Within(a, c)
  {}

  /** `Range::contains`: both endpoints are included, and a range that contains
      anything is non-empty. */
  predicate Contains(r: Range, t: real)
    ensures Contains(r, t) ==> Le(r.lo, r.hi)
  {
    Le(r.lo, Fin(t)) && Le(Fin(t), r.hi)
  }

  /** `Range::not_contains`, written with the source's own comparisons; it is the
      exact complement of `Contains`. */
  function NotContains(r: Range, t: real): (b: bool)
    ensures b <==> !Contains(r, t)
  {
    Lt(Fin(t), r.lo) || Lt(r.hi, Fin(t))
  }

  /** `Range::union_empty`: the reversed range `(+inf, -inf)`. */
  function UnionEmpty(): (e: Range)
    ensures forall t :: !Contains(e, t)
    ensures forall r: Range {:trigger Within(e, r)} :: Within(e, r)
  {
    Range(PosInf, NegInf)
  }

  /** `Range::union`: the smallest range containing both operands. */
  function Union(a: Range, b: Range): (u: Range)
    ensures Within(a, u) && Within(b, u)
    ensures forall c: Range {:trigger Within(u, c)} :: Within(a, c) && Within(b, c) ==> Within(u, c)
    ensures forall t :: Contains(a, t) || Contains(b, t) ==> Contains(u, t)
  {
    Range(Min(a.lo, b.lo), Max(a.hi, b.hi))
  }

  /** `Range::intersect`: `None` when the ranges are disjoint; otherwise a range inside
      both operands whose finite points are exactly the points the two have in common. */
  function Intersect(a: Range, b: Range): (o: Option<Range>)
    ensures o.None? <==> Lt(Min(a.hi, b.hi), Max(a.lo, b.lo))
    ensures o.Some? ==> Within(o.value, a) && Within(o.value, b) && Le(o.value.lo, o.value.hi)
    ensures o.Some? ==> forall t :: Contains(o.value, t) <==> Contains(a, t) && Contains(b, t)
    ensures o.None? ==> forall t :: !(Contains(a, t) && Contains(b, t))
  {
    var lo := Max(a.lo, b.lo);
    var hi := Min(a.hi, b.hi);
    if Lt(hi, lo) then None else Some(Range(lo, hi))
  }

  /** `Range::length`, `hi - lo`; `None` stands for the NaN that IEEE arithmetic gives
      for `inf - inf`. A non-empty range never has a negative length. */
  function Length(r: Range): (l: Option<ExtReal>)
    ensures l.None? <==> (r.lo == r.hi && !r.lo.Fin?)
    ensures l.Some? && Le(r.lo, r.hi) ==> Le(Fin(0.0), l.value)
  {
    match (r.lo, r.hi)
    case (Fin(a), Fin(b)) => Some(Fin(b - a))
    case (PosInf, PosInf) => None
    case (NegInf, NegInf) => None
    case (_, PosInf) => Some(PosInf)
    case (PosInf, _) => Some(NegInf)
    case (NegInf, _) => Some(PosInf)
    case (_, NegInf) => Some(NegInf)
  }

  lemma UnionEmptyIsIdentity(r: Range)
    ensures Union(UnionEmpty(), r) == r && Union(r, UnionEmpty()) == r
  {}

  lemma UnionCommutes(a: Range, b: Range)
    ensures Union(a, b) == Union(b, a)
  {
    LeTotal(a.lo, b.lo);
    LeTotal(a.hi, b.hi);
    if Le(a.lo, b.lo) && Le(b.lo, a.lo) { LeAntisym(a.lo, b.lo); }
    if Le(a.hi, b.hi) && Le(b.hi, a.hi) { LeAntisym(a.hi, b.hi); }
  }

  /** Two ranges each inside the other are equal. */
  lemma WithinAntisym(a: Range, b: Range)
    requires Within(a, b) && Within(b, a)
    ensures a == b
  {
    LeAntisym(a.lo, b.lo);
    LeAntisym(a.hi, b.hi);
  }

  lemma UnionAssociates(a: Range, b: Range, c: Range)
    ensures Union(Union(a, b), c) == Union(a, Union(b, c))
  {
    var l := Union(Union(a, b), c);
    var r := Union(a, Union(b, c));
    WithinTrans(a, Union(a, b), l);
    WithinTrans(b, Union(a, b), l);
    WithinTrans(b, Union(b, c), r);
    WithinTrans(c, Union(b, c), r);
    WithinAntisym(l, r);
  }

  lemma IntersectCommutes(a: Range, b: Range)
    ensures Intersect(a, b) == Intersect(b, a)
  {
    var o1 := Intersect(a, b);
    var o2 := Intersect(b, a);
    if o1.Some? && o2.Some? {
      // both are the intersection of the same two ranges
      assert Within(o1.value, o2.value) by {
        assert Le(o2.value.lo, o1.value.lo) by { LeTotal(o2.value.lo, o1.value.lo); }
        assert Le(o1.value.hi, o2.value.hi) by { LeTotal(o1.value.hi, o2.value.hi); }
      }
      assert Within(o2.value, o1.value) by {
        LeTotal(o2.value.lo, o1.value.lo);
        LeTotal(o1.value.hi, o2.value.hi);
      }
      WithinAntisym(o1.value, o2.value);
    }
  }
}
