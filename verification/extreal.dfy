/** Scalars of the interval algebra: the finite reals together with the two
    IEEE-754 infinities that the renderer uses as sentinels (`Float::INFINITY`,
    `std::numeric_limits<float>::infinity()`). NaN is not a value of this type. */
module ExtReals {

  datatype ExtReal = NegInf | Fin(v: real) | PosInf

  /** The usual order of the extended reals. */
  predicate Le(a: ExtReal, b: ExtReal) {
    a.NegInf? || b.PosInf? || (a.Fin? && b.Fin? && a.v <= b.v)
  }

  predicate Lt(a: ExtReal, b: ExtReal) {
    !Le(b, a)
  }

  /** `f32::min` / `fmin` on non-NaN operands. */
  function Min(a: ExtReal, b: ExtReal): (m: ExtReal)
    ensures Le(m, a) && Le(m, b)
    ensures m == a || m == b
  {
    if Le(a, b) then a else b
  }

  /** `f32::max` / `fmax` on non-NaN operands. */
  function Max(a: ExtReal, b: ExtReal): (m: ExtReal)
    ensures Le(a, m) && Le(b, m)
    ensures m == a || m == b
  {
    if Le(a, b) then b else a
  }

  /** `(x - o) * c` for a finite, non-zero `c`, as IEEE arithmetic evaluates it when
      `x` is infinite. */
  function Affine(x: ExtReal, o: real, c: real): (r: ExtReal)
    requires c != 0.0
    ensures x.Fin? <==> r.Fin?
  {
    match x
    case Fin(v) => Fin((v - o) * c)
    case PosInf => if c > 0.0 then PosInf else NegInf
    case NegInf => if c > 0.0 then NegInf else PosInf
  }

  lemma LeTotal(a: ExtReal, b: ExtReal)
    ensures Le(a, b) || Le(b, a)
  {}

  lemma LeTrans(a: ExtReal, b: ExtReal, c: ExtReal)
    requires Le(a, b) && Le(b, c)
    ensures Le(a, c)
  {}

  lemma LeAntisym(a: ExtReal, b: ExtReal)
    requires Le(a, b) && Le(b, a)
    ensures a == b
  {}

  lemma MaxLt(a: ExtReal, b: ExtReal, c: ExtReal)
    ensures Lt(Max(a, b), c) <==> Lt(a, c) && Lt(b, c)
  {}

  lemma LtMin(c: ExtReal, a: ExtReal, b: ExtReal)
    ensures Lt(c, Min(a, b)) <==> Lt(c, a) && Lt(c, b)
  {}
}
