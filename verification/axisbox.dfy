/** src/bounds/axis_box.cpp: the C++ axis-aligned box, stored as two corner points,
    and its slab test. */
module AxisBoxes {
  import opened ExtReals
  import opened Vectors
  import Bounding

  datatype AxisBox = AxisBox(min: Vec3, max: Vec3)

  /** The point lies between the two corners on every axis. */
  predicate Inside(b: AxisBox, p: Vec3) {
    b.min.x <= p.x <= b.max.x && b.min.y <= p.y <= b.max.y && b.min.z <= p.z <= b.max.z
  }

  /** `a` lies inside `c`: its corners are no further out on any axis. */
  predicate Encloses(c: AxisBox, a: AxisBox) {
    c.min.x <= a.min.x && c.min.y <= a.min.y && c.min.z <= a.min.z &&
    a.max.x <= c.max.x && a.max.y <= c.max.y && a.max.z <= c.max.z
  }

  /** Both corners are ordered on every axis. */
  predicate Proper(b: AxisBox) {
    b.min.x <= b.max.x && b.min.y <= b.max.y && b.min.z <= b.max.z
  }

  /** The default constructor: the degenerate box holding only the origin. */
  function DefaultBox(): (b: AxisBox)
    ensures Proper(b)
    ensures forall p :: Inside(b, p) <==> p == Zero
  {
    AxisBox(Zero, Zero)
  }

  function RMin(a: real, b: real): real { if a <= b then a else b }
  function RMax(a: real, b: real): real { if a <= b then b else a }

  /** `surroundingBox`: the componentwise minimum of the minima and maximum of the
      maxima, which is the smallest box enclosing both operands. */
  function SurroundingBox(a: AxisBox, b: AxisBox): (s: AxisBox)
    ensures Encloses(s, a) && Encloses(s, b)
    ensures forall c: AxisBox {:trigger Encloses(c, s)} :: Encloses(c, a) && Encloses(c, b) ==> Encloses(c, s)
    ensures forall p :: Inside(a, p) || Inside(b, p) ==> Inside(s, p)
  {
    AxisBox(Vec3(RMin(a.min.x, b.min.x), RMin(a.min.y, b.min.y), RMin(a.min.z, b.min.z)),
            Vec3(RMax(a.max.x, b.max.x), RMax(a.max.y, b.max.y), RMax(a.max.z, b.max.z)))
  }

  lemma EnclosesAntisym(a: AxisBox, b: AxisBox)
    requires Encloses(a, b) && Encloses(b, a)
    ensures a == b
  {}

  lemma SurroundingCommutes(a: AxisBox, b: AxisBox)
    ensures SurroundingBox(a, b) == SurroundingBox(b, a)
  {
    EnclosesAntisym(SurroundingBox(a, b), SurroundingBox(b, a));
  }

  lemma SurroundingIdempotent(b: AxisBox)
    ensures SurroundingBox(b, b) == b
  {
    EnclosesAntisym(SurroundingBox(b, b), b);
  }

  lemma SurroundingAssociates(a: AxisBox, b: AxisBox, c: AxisBox)
    ensures SurroundingBox(SurroundingBox(a, b), c) == SurroundingBox(a, SurroundingBox(b, c))
  {
    EnclosesAntisym(SurroundingBox(SurroundingBox(a, b), c), SurroundingBox(a, SurroundingBox(b, c)));
  }

  /** Where the ray enters the slab of `axis`: the plane through `min` or, when the
      inverse direction is negative and the two values are swapped, through `max`. */
  function Entry(b: AxisBox, ray: Ray, axis: Axis): real
    requires NoZeroComponent(ray.direction)
  {
    var inverse := 1.0 / Component(ray.direction, axis);
    var t0 := (Component(b.min, axis) - Component(ray.origin, axis)) * inverse;
    var t1 := (Component(b.max, axis) - Component(ray.origin, axis)) * inverse;
    if inverse < 0.0 then t1 else t0
  }

  /** Where the ray leaves the slab of `axis`. */
  function Exit(b: AxisBox, ray: Ray, axis: Axis): real
    requires NoZeroComponent(ray.direction)
  {
    var inverse := 1.0 / Component(ray.direction, axis);
    var t0 := (Component(b.min, axis) - Component(ray.origin, axis)) * inverse;
    var t1 := (Component(b.max, axis) - Component(ray.origin, axis)) * inverse;
    if inverse < 0.0 then t0 else t1
  }

  /** With the swap, entry comes no later than exit whenever the box is ordered on
      that axis. */
  lemma EntryBeforeExit(b: AxisBox, ray: Ray, axis: Axis)
    requires NoZeroComponent(ray.direction)
    requires Component(b.min, axis) <= Component(b.max, axis)
    ensures Entry(b, ray, axis) <= Exit(b, ray, axis)
  {
    var d := Component(ray.direction, axis);
    var inverse := 1.0 / d;
    var gap := Component(b.max, axis) - Component(b.min, axis);
    var o := Component(ray.origin, axis);
    assert (Component(b.max, axis) - o) * inverse - (Component(b.min, axis) - o) * inverse == gap * inverse;
    assert d > 0.0 ==> inverse > 0.0;
    assert d < 0.0 ==> inverse < 0.0;
  }

  /** One step of the loop: the running interval after taking `axis` into account. */
  datatype Window = Window(tMin: ExtReal, tMax: ExtReal)

  function Narrow(b: AxisBox, ray: Ray, w: Window, axis: Axis): (n: Window)
    requires NoZeroComponent(ray.direction)
    ensures Le(w.tMin, n.tMin) && Le(n.tMax, w.tMax)
    ensures Le(Fin(Entry(b, ray, axis)), n.tMin) && Le(n.tMax, Fin(Exit(b, ray, axis)))
    ensures n.tMin == Max(w.tMin, Fin(Entry(b, ray, axis)))
    ensures n.tMax == Min(w.tMax, Fin(Exit(b, ray, axis)))
  {
    var t0 := Fin(Entry(b, ray, axis));
    var t1 := Fin(Exit(b, ray, axis));
    Window(if Lt(w.tMin, t0) then t0 else w.tMin, if Lt(t1, w.tMax) then t1 else w.tMax)
  }

  /** The loop of `AxisBox::hit` from `axis` on. Success needs a non-degenerate
      running window and a non-degenerate slab interval on every remaining axis. */
  function HitFrom(b: AxisBox, ray: Ray, w: Window, axis: nat): (h: bool)
    requires NoZeroComponent(ray.direction)
    requires axis <= 3
    ensures h && axis < 3 ==> Lt(w.tMin, w.tMax)
    ensures h ==> forall i: Axis :: axis <= i ==> Entry(b, ray, i) < Exit(b, ray, i)
    decreases 3 - axis
  {
    if axis == 3 then true
    else
      var n := Narrow(b, ray, w, axis);
      if Le(n.tMax, n.tMin) then false else HitFrom(b, ray, n, axis + 1)
  }

  /** `AxisBox::hit`: narrow `(tMin, tMax)` slab by slab, failing as soon as the
      interval is empty or a single point. A hit needs `tMin < tMax` and every slab
      interval to have positive length; `HitExact` gives the full condition. */
  function Hit(b: AxisBox, ray: Ray, tMin: ExtReal, tMax: ExtReal): (h: bool)
    requires NoZeroComponent(ray.direction)
    ensures h ==> Lt(tMin, tMax)
    ensures h ==> forall i: Axis :: Entry(b, ray, i) < Exit(b, ray, i)
  {
    HitFrom(b, ray, Window(tMin, tMax), 0)
  }

  /** Reference definition: the final interval `(max of tMin and entries, min of tMax
      and exits)` is non-degenerate exactly when every lower end is strictly below
      every upper end. */
  predicate Overlaps(b: AxisBox, ray: Ray, tMin: ExtReal, tMax: ExtReal)
    requires NoZeroComponent(ray.direction)
  {
    Lt(tMin, tMax) &&
    (forall i: Axis :: Lt(tMin, Fin(Exit(b, ray, i))) && Lt(Fin(Entry(b, ray, i)), tMax)) &&
    (forall i: Axis, j: Axis :: Entry(b, ray, i) < Exit(b, ray, j))
  }

  /** `Overlaps` restricted to the axes from `axis` on, for a running window. */
  predicate OverlapsFrom(b: AxisBox, ray: Ray, w: Window, axis: nat)
    requires NoZeroComponent(ray.direction)
  {
    Lt(w.tMin, w.tMax) &&
    (forall i: Axis :: axis <= i ==> Lt(w.tMin, Fin(Exit(b, ray, i))) && Lt(Fin(Entry(b, ray, i)), w.tMax)) &&
    (forall i: Axis, j: Axis :: axis <= i && axis <= j ==> Entry(b, ray, i) < Exit(b, ray, j))
  }

  /** What the narrowed window's non-degeneracy and its comparisons with the later
      slabs say about the window before the step. */
  lemma NarrowStep(b: AxisBox, ray: Ray, w: Window, axis: Axis)
    requires NoZeroComponent(ray.direction)
    ensures var n := Narrow(b, ray, w, axis);
      var e := Fin(Entry(b, ray, axis));
      var x := Fin(Exit(b, ray, axis));
      (Lt(n.tMin, n.tMax) <==> Lt(w.tMin, w.tMax) && Lt(w.tMin, x) && Lt(e, w.tMax) && Lt(e, x)) &&
      (forall i: Axis :: Lt(n.tMin, Fin(Exit(b, ray, i))) <==> Lt(w.tMin, Fin(Exit(b, ray, i))) && Lt(e, Fin(Exit(b, ray, i)))) &&
      (forall i: Axis :: Lt(Fin(Entry(b, ray, i)), n.tMax) <==> Lt(Fin(Entry(b, ray, i)), w.tMax) && Lt(Fin(Entry(b, ray, i)), x))
  {
    var n := Narrow(b, ray, w, axis);
    var e := Fin(Entry(b, ray, axis));
    var x := Fin(Exit(b, ray, axis));
    MaxLt(w.tMin, e, n.tMax);
    LtMin(w.tMin, w.tMax, x);
    LtMin(e, w.tMax, x);
    forall i: Axis ensures Lt(n.tMin, Fin(Exit(b, ray, i))) <==> Lt(w.tMin, Fin(Exit(b, ray, i))) && Lt(e, Fin(Exit(b, ray, i))) {
      MaxLt(w.tMin, e, Fin(Exit(b, ray, i)));
    }
    forall i: Axis ensures Lt(Fin(Entry(b, ray, i)), n.tMax) <==> Lt(Fin(Entry(b, ray, i)), w.tMax) && Lt(Fin(Entry(b, ray, i)), x) {
      LtMin(Fin(Entry(b, ray, i)), w.tMax, x);
    }
  }

  lemma {:induction false} HitFromOverlaps(b: AxisBox, ray: Ray, w: Window, axis: nat)
    requires NoZeroComponent(ray.direction)
    requires axis < 3
    ensures HitFrom(b, ray, w, axis) <==> OverlapsFrom(b, ray, w, axis)
    decreases 3 - axis
  {
    var n := Narrow(b, ray, w, axis);
    if axis < 2 {
      HitFromOverlaps(b, ray, n, axis + 1);
      OverlapsStep(b, ray, w, axis);
    } else {
      OverlapsLast(b, ray, w);
    }
  }

  /** One step of the loop keeps the overlap condition: the window overlaps the slabs
      from `axis` on exactly when the narrowed window is not degenerate and overlaps
      the slabs after `axis`. */
  lemma OverlapsStep(b: AxisBox, ray: Ray, w: Window, axis: nat)
    requires NoZeroComponent(ray.direction)
    requires axis < 2
    ensures var n := Narrow(b, ray, w, axis);
      OverlapsFrom(b, ray, w, axis) <==> !Le(n.tMax, n.tMin) && OverlapsFrom(b, ray, n, axis + 1)
  {
    NarrowStep(b, ray, w, axis);
  }

  /** The last slab: the window overlaps it exactly when narrowing by it leaves a
      non-degenerate window. */
  lemma OverlapsLast(b: AxisBox, ray: Ray, w: Window)
    requires NoZeroComponent(ray.direction)
    ensures var n := Narrow(b, ray, w, 2);
      OverlapsFrom(b, ray, w, 2) <==> !Le(n.tMax, n.tMin)
  {
    NarrowStep(b, ray, w, 2);
  }

  /** `hit` succeeds exactly when the slab intervals and `(tMin, tMax)` pairwise
      overlap with positive length. */
  lemma HitExact(b: AxisBox, ray: Ray, tMin: ExtReal, tMax: ExtReal)
    requires NoZeroComponent(ray.direction)
    ensures Hit(b, ray, tMin, tMax) <==> Overlaps(b, ray, tMin, tMax)
  {
    HitFromOverlaps(b, ray, Window(tMin, tMax), 0);
  }

  /** A parameter between the entry and the exit of a slab puts the ray between that
      slab's two planes. */
  lemma BetweenPlanes(b: AxisBox, ray: Ray, axis: Axis, t: real)
    requires NoZeroComponent(ray.direction)
    requires Entry(b, ray, axis) <= t <= Exit(b, ray, axis)
    ensures Component(b.min, axis) <= Component(At(ray, t), axis) <= Component(b.max, axis)
  {
    Bounding.ComponentAt(ray, t, axis);
    SlabBetween(Component(b.min, axis), Component(b.max, axis), Component(ray.origin, axis), Component(ray.direction, axis), t,
                Entry(b, ray, axis), Exit(b, ray, axis), Component(At(ray, t), axis));
  }

  /** `Entry`, `Exit` and `BetweenPlanes` on one coordinate: the slab `[lo, hi]`, a ray
      coordinate starting at `o` and moving by `d`. */
  lemma SlabBetween(lo: real, hi: real, o: real, d: real, t: real, entry: real, exit: real, p: real)
    requires d != 0.0
    requires entry == (if 1.0 / d < 0.0 then (hi - o) * (1.0 / d) else (lo - o) * (1.0 / d))
    requires exit == (if 1.0 / d < 0.0 then (lo - o) * (1.0 / d) else (hi - o) * (1.0 / d))
    requires p == o + t * d && entry <= t <= exit
    ensures lo <= p <= hi
  {
    if d > 0.0 {
      assert 1.0 / d > 0.0;
      Bounding.ScaledCompare(lo - o, d, t);
      Bounding.ScaledCompare(hi - o, d, t);
    } else {
      assert 1.0 / d < 0.0;
      Bounding.ScaledCompare(hi - o, d, t);
      Bounding.ScaledCompare(lo - o, d, t);
    }
  }

  /** A successful `hit` is sound: some parameter in `[tMin, tMax]` puts the ray inside
      the box. */
  lemma HitSound(b: AxisBox, ray: Ray, tMin: ExtReal, tMax: ExtReal) returns (t: real)
    requires NoZeroComponent(ray.direction)
    requires Hit(b, ray, tMin, tMax)
    ensures Le(tMin, Fin(t)) && Le(Fin(t), tMax)
    ensures Inside(b, At(ray, t))
  {
    HitExact(b, ray, tMin, tMax);
    var e0, e1, e2 := Entry(b, ray, 0), Entry(b, ray, 1), Entry(b, ray, 2);
    t := e0;
    if t < e1 { t := e1; }
    if t < e2 { t := e2; }
    if tMin.Fin? && t < tMin.v { t := tMin.v; }
    assert Lt(tMin, Fin(Exit(b, ray, 0)));
    forall axis: Axis ensures Component(b.min, axis) <= Component(At(ray, t), axis) <= Component(b.max, axis) {
      assert Entry(b, ray, axis) <= t;
      assert Lt(tMin, Fin(Exit(b, ray, axis)));
      assert Entry(b, ray, 0) < Exit(b, ray, axis);
      assert Entry(b, ray, 1) < Exit(b, ray, axis);
      assert Entry(b, ray, 2) < Exit(b, ray, axis);
      BetweenPlanes(b, ray, axis, t);
    }
    assert Component(b.min, 0) <= Component(At(ray, t), 0) <= Component(b.max, 0);
    assert Component(b.min, 1) <= Component(At(ray, t), 1) <= Component(b.max, 1);
    assert Component(b.min, 2) <= Component(At(ray, t), 2) <= Component(b.max, 2);
  }

  /** The point lies strictly between the two corners on every axis. */
  predicate Interior(b: AxisBox, p: Vec3) {
    b.min.x < p.x < b.max.x && b.min.y < p.y < b.max.y && b.min.z < p.z < b.max.z
  }

  lemma InteriorEnclosed(c: AxisBox, a: AxisBox, p: Vec3)
    requires Encloses(c, a) && Interior(a, p)
    ensures Interior(c, p)
  {}

  /** Strict form of the scaling step: `a * (1/d) < t` compares `a` with `t * d`. */
  lemma ScaledStrict(a: real, d: real, t: real)
    requires d != 0.0
    ensures d > 0.0 ==> (a * (1.0 / d) < t <==> a < t * d) && (t < a * (1.0 / d) <==> t * d < a)
    ensures d < 0.0 ==> (a * (1.0 / d) < t <==> t * d < a) && (t < a * (1.0 / d) <==> a < t * d)
  {
    Bounding.ScaledCompare(a, d, t);
    assert a * (1.0 / d) * d == a;
  }

  /** A parameter putting the ray strictly inside a slab lies strictly between that
      slab's entry and exit. */
  lemma StrictlyBetweenPlanes(b: AxisBox, ray: Ray, axis: Axis, t: real)
    requires NoZeroComponent(ray.direction)
    requires Component(b.min, axis) < Component(At(ray, t), axis) < Component(b.max, axis)
    ensures Entry(b, ray, axis) < t < Exit(b, ray, axis)
  {
    Bounding.ComponentAt(ray, t, axis);
    SlabStrictlyBetween(Component(b.min, axis), Component(b.max, axis), Component(ray.origin, axis), Component(ray.direction, axis), t,
                        Entry(b, ray, axis), Exit(b, ray, axis), Component(At(ray, t), axis));
  }

  /** `StrictlyBetweenPlanes` on one coordinate, with the names of `SlabBetween`. */
  lemma SlabStrictlyBetween(lo: real, hi: real, o: real, d: real, t: real, entry: real, exit: real, p: real)
    requires d != 0.0
    requires entry == (if 1.0 / d < 0.0 then (hi - o) * (1.0 / d) else (lo - o) * (1.0 / d))
    requires exit == (if 1.0 / d < 0.0 then (lo - o) * (1.0 / d) else (hi - o) * (1.0 / d))
    requires p == o + t * d && lo < p < hi
    ensures entry < t < exit
  {
    ScaledStrict(lo - o, d, t);
    ScaledStrict(hi - o, d, t);
    if d > 0.0 {
      assert 1.0 / d > 0.0;
    } else {
      assert 1.0 / d < 0.0;
    }
  }

  /** The converse of `HitSound` for interior points: if the window is not a single
      parameter and some parameter in `[tMin, tMax]` puts the ray strictly inside the
      box, `hit` succeeds. Neither condition can be dropped, because `hit` rejects a
      window that is, or has shrunk to, a single parameter. */
  lemma InteriorHit(b: AxisBox, ray: Ray, tMin: ExtReal, tMax: ExtReal, t: real)
    requires NoZeroComponent(ray.direction)
    requires Interior(b, At(ray, t))
    requires Le(tMin, Fin(t)) && Le(Fin(t), tMax) && Lt(tMin, tMax)
    ensures Hit(b, ray, tMin, tMax)
  {
    StrictlyBetweenPlanes(b, ray, 0, t);
    StrictlyBetweenPlanes(b, ray, 1, t);
    StrictlyBetweenPlanes(b, ray, 2, t);
    assert Overlaps(b, ray, tMin, tMax) by {
      forall i: Axis ensures Lt(tMin, Fin(Exit(b, ray, i))) && Lt(Fin(Entry(b, ray, i)), tMax) {}
      forall i: Axis, j: Axis ensures Entry(b, ray, i) < Exit(b, ray, j) {}
    }
    HitExact(b, ray, tMin, tMax);
  }
}
