/** src/bounding/hierarchy.rs: the Rust bounding-volume hierarchy over abstract world
    objects, its three construction heuristics and its traversal. */
module Hierarchy {
  import opened ExtReals
  import opened Wrappers
  import opened Vectors
  import opened Types
  import opened Bounding
  import opened Sorting
  import opened Geometry
  import Scan
  import Parallelograms

  /** A `BoundingHierarchy`: the node's bounds together with its `HierarchyNode`. */
  datatype Hierarchy =
    | Leaf(bounds: BoundingBox, obj: Object)
    | Tree(bounds: BoundingBox, left: Hierarchy, right: Hierarchy)

  /** The leaf objects, left to right. */
  function Leaves(h: Hierarchy): seq<Object> {
    match h
    case Leaf(_, o) => [o]
    case Tree(_, l, r) => Leaves(l) + Leaves(r)
  }

  /** Every leaf carries its object's box and every tree the union of its children's. */
  ghost predicate WellFormed(h: Hierarchy) {
    match h
    case Leaf(b, o) => b == o.bounds
    case Tree(b, l, r) => WellFormed(l) && WellFormed(r) && b == Bounding.Union(l.bounds, r.bounds)
  }

  /** `BoundingHierarchy::new`: a leaf holding the object and its box. */
  function New(o: Object): (h: Hierarchy)
    ensures h.Leaf? && h.obj == o && h.bounds == o.bounds
    ensures WellFormed(h) && Leaves(h) == [o]
  {
    Leaf(o.bounds, o)
  }

  /** `BoundingHierarchy::pair`: a tree of two leaves whose bounds are the union of the
      two boxes. */
  function Pair(a: Object, b: Object): (h: Hierarchy)
    ensures h.Tree? && h.left == New(a) && h.right == New(b)
    ensures WellFormed(h) && Leaves(h) == [a, b]
    ensures h.bounds == SliceBounds([a, b])
  {
    assert [a, b] == [a] + [b];
    SliceBoundsAppend([a], [b]);
    SliceBoundsSingle(a);
    SliceBoundsSingle(b);
    Tree(Bounding.Union(a.bounds, b.bounds), New(a), New(b))
  }

  /** The sort key of `compare_axis` on `axis`: the lower bound of the object's box. */
  function AxisKey(axis: Axis): Object -> ExtReal {
    (o: Object) => LowerBound(o.bounds, axis)
  }

  /** What every builder promises of the tree it returns for `objs`. */
  ghost predicate Built(h: Hierarchy, objs: seq<Object>) {
    WellFormed(h) && multiset(Leaves(h)) == multiset(objs) && h.bounds == SliceBounds(objs)
  }

  /** A tree built for `objs` has one leaf per object. */
  lemma BuiltSize(h: Hierarchy, objs: seq<Object>)
    requires Built(h, objs)
    ensures |Leaves(h)| == |objs|
  {
    assert |Leaves(h)| == |multiset(Leaves(h))|;
  }

  /** Joining the trees built for the two halves of a reordering of `objs` gives a tree
      built for `objs`. */
  lemma JoinBuilt(l: Hierarchy, r: Hierarchy, objs: seq<Object>, order: seq<Object>, mid: nat)
    requires mid <= |order| && multiset(order) == multiset(objs)
    requires Built(l, order[..mid]) && Built(r, order[mid..])
    ensures Built(Tree(Bounding.Union(l.bounds, r.bounds), l, r), objs)
  {
    assert order == order[..mid] + order[mid..];
    SliceBoundsAppend(order[..mid], order[mid..]);
    SliceBoundsPermutation(order, objs);
  }

  datatype Halves = Halves(left: seq<Object>, right: seq<Object>)

  /** `sort_by` with `compare_axis(axis)` followed by the split at `mid`: the two halves
      together are a permutation of `objs`, the left one has `mid` elements, and every
      left element's lower bound on `axis` is at most every right element's. */
  function SortAndSplit(objs: seq<Object>, axis: Axis, mid: nat): (h: Halves)
    requires mid <= |objs|
    ensures |h.left| == mid && |h.left| + |h.right| == |objs|
    ensures multiset(h.left + h.right) == multiset(objs)
    ensures forall i, j :: 0 <= i < |h.left| && 0 <= j < |h.right| ==>
      Le(LowerBound(h.left[i].bounds, axis), LowerBound(h.right[j].bounds, axis))
  {
    var sorted := SortBy(objs, AxisKey(axis));
    assert sorted == sorted[..mid] + sorted[mid..];
    forall i, j | 0 <= i < mid && 0 <= j < |objs| - mid
      ensures Le(LowerBound(sorted[..mid][i].bounds, axis), LowerBound(sorted[mid..][j].bounds, axis))
    {
      assert sorted[..mid][i] == sorted[i] && sorted[mid..][j] == sorted[mid + j];
      assert Le(AxisKey(axis)(sorted[i]), AxisKey(axis)(sorted[mid + j]));
    }
    Halves(sorted[..mid], sorted[mid..])
  }

  /** `from_vec_with_random`. The per-comparison random axis makes the order the sort
      leaves unspecified; `reorder(start, slice)` stands for it, any permutation of the
      slice starting at index `start`. Empty input panics (`None`). */
  function FromVecWithRandom(objs: seq<Object>, start: nat, reorder: (nat, seq<Object>) -> seq<Object>): (r: Option<Hierarchy>)
    requires forall k, s {:trigger reorder(k, s)} :: multiset(reorder(k, s)) == multiset(s)
    ensures r.None? <==> |objs| == 0
    ensures r.Some? ==> Built(r.value, objs)
    ensures |objs| == 1 ==> r == Some(New(objs[0]))
    ensures |objs| == 2 ==> r == Some(Pair(objs[0], objs[1]))
    ensures |objs| >= 3 ==> r.Some? && r.value.Tree? && |Leaves(r.value.left)| == |objs| / 2
    decreases |objs|
  {
    if |objs| == 0 then None
    else if |objs| == 1 then
      SliceBoundsSingle(objs[0]);
      Some(New(objs[0]))
    else if |objs| == 2 then
      assert objs == [objs[0], objs[1]];
      Some(Pair(objs[0], objs[1]))
    else
      var order := reorder(start, objs);
      assert |order| == |multiset(order)| == |objs|;
      var mid := |order| / 2;
      var l := FromVecWithRandom(order[..mid], start, reorder).value;
      var r := FromVecWithRandom(order[mid..], start + mid, reorder).value;
      JoinBuilt(l, r, objs, order, mid);
      assert |Leaves(l)| == |multiset(Leaves(l))| == mid;
      Some(Tree(Bounding.Union(l.bounds, r.bounds), l, r))
  }

  /** `from_vec_with_longest`: the node box is the slice's enclosing box, whose longest
      axis (`longest`, since `longest_axis` is not part of this model) orders the split. */
  function FromVecWithLongest(objs: seq<Object>, longest: BoundingBox -> Axis): (r: Option<Hierarchy>)
    ensures r.None? <==> |objs| == 0
    ensures r.Some? ==> Built(r.value, objs)
    ensures |objs| == 1 ==> r == Some(New(objs[0]))
    ensures |objs| == 2 ==> r == Some(Pair(objs[0], objs[1]))
    ensures |objs| >= 3 ==> r.Some? && r.value.Tree? && |Leaves(r.value.left)| == |objs| / 2
    decreases |objs|
  {
    if |objs| == 0 then None
    else if |objs| == 1 then
      SliceBoundsSingle(objs[0]);
      Some(New(objs[0]))
    else if |objs| == 2 then
      assert objs == [objs[0], objs[1]];
      Some(Pair(objs[0], objs[1]))
    else
      var bounds := SliceBounds(objs);
      var halves := SortAndSplit(objs, longest(bounds), |objs| / 2);
      var l := FromVecWithLongest(halves.left, longest).value;
      var r := FromVecWithLongest(halves.right, longest).value;
      JoinBuilt(l, r, objs, halves.left + halves.right, |halves.left|);
      BuiltSize(l, halves.left);
      Some(Tree(bounds, l, r))
  }

  /** `calculate_split_area`: the summed surface areas of the objects' boxes, with the
      area of a box an oracle (`surface_area` is not part of this model). */
  function SplitArea(objs: seq<Object>, area: BoundingBox -> real): real
  {
    if |objs| == 0 then 0.0 else SplitArea(objs[..|objs| - 1], area) + area(objs[|objs| - 1].bounds)
  }

  /** The cost of splitting `objs`, in its current order, after its first `split`
      objects. */
  function SplitCost(objs: seq<Object>, split: nat, area: BoundingBox -> real): real
    requires split <= |objs|
  {
    split as real * SplitArea(objs[..split], area) + (|objs| - split) as real * SplitArea(objs[split..], area)
  }

  /** The running best candidate of `evaluate_best_area_split`; `cost` starts at
      infinity. */
  datatype Best = Best(axis: nat, split: nat, cost: ExtReal)

  /** A candidate the loops evaluate for `n` objects: an axis and a split in [1, n-2]. */
  predicate Candidate(n: nat, axis: nat, split: nat) {
    axis <= 2 && 1 <= split && split + 2 <= n
  }

  predicate ValidBest(b: Best, n: nat) {
    b.cost.Fin? && Candidate(n, b.axis, b.split)
  }

  /** Loop order: axes outermost, then splits. */
  predicate Earlier(a: nat, s: nat, a': nat, s': nat) {
    a < a' || (a == a' && s < s')
  }

  /** The inner loop of `evaluate_best_area_split` for one axis, from `split` on. The
      source re-sorts the slice by the same axis before every split; sorting a slice
      already sorted by that key leaves it unchanged (`Sorting.SortSortedIdentity`), so
      the loop runs over the slice sorted once. A strictly smaller cost replaces the
      best. */
  function SearchSplits(sorted: seq<Object>, area: BoundingBox -> real, axis: Axis, split: nat, best: Best): (b: Best)
    requires |sorted| >= 3 && 1 <= split < |sorted|
    ensures ValidBest(best, |sorted|) ==> ValidBest(b, |sorted|)
    ensures best.cost == PosInf && split + 2 <= |sorted| ==> ValidBest(b, |sorted|)
    decreases |sorted| - split
  {
    if split == |sorted| - 1 then best
    else
      var best' := Consider(best, axis, split, SplitCost(sorted, split, area));
      assert Candidate(|sorted|, axis, split);
      SearchSplits(sorted, area, axis, split + 1, best')
  }

  /** The body of the inner loop: a strictly cheaper candidate replaces the best. */
  function Consider(best: Best, axis: nat, split: nat, cost: real): (b: Best)
    ensures b == best || b == Best(axis, split, Fin(cost))
    ensures b == Best(axis, split, Fin(cost)) <==> Lt(Fin(cost), best.cost) || best == Best(axis, split, Fin(cost))
  {
    if Lt(Fin(cost), best.cost) then Best(axis, split, Fin(cost)) else best
  }

  datatype Search = Search(best: Best, objs: seq<Object>)

  /** The outer loop from `axis` on: the slice is sorted in place by the axis, then its
      splits are tried; the slice keeps the last order. */
  function SearchAxes(objs: seq<Object>, area: BoundingBox -> real, axis: nat, best: Best): (r: Search)
    requires |objs| >= 3 && axis <= 3
    ensures multiset(r.objs) == multiset(objs) && |r.objs| == |objs|
    ensures ValidBest(best, |objs|) || (best.cost == PosInf && axis < 3) ==> ValidBest(r.best, |objs|)
    decreases 3 - axis
  {
    if axis == 3 then Search(best, objs)
    else
      var sorted := SortBy(objs, AxisKey(axis));
      SearchAxes(sorted, area, axis + 1, SearchSplits(sorted, area, axis, 1, best))
  }

  datatype Split = Split(axis: Axis, split: nat, objs: seq<Object>)

  /** `evaluate_best_area_split` on three or more objects: an axis in [0, 2] and a split
      in [1, n-2], with the slice left permuted by the sorts. */
  function EvaluateBestAreaSplit(objs: seq<Object>, area: BoundingBox -> real): (r: Split)
    requires |objs| >= 3
    ensures 1 <= r.split <= |objs| - 2
    ensures multiset(r.objs) == multiset(objs) && |r.objs| == |objs|
  {
    var s := SearchAxes(objs, area, 0, Best(0, 0, PosInf));
    Split(s.best.axis, s.best.split, s.objs)
  }

  /** The slice order in force while candidates of axis `a` are evaluated: sorted by
      axis 0, then by each later axis up to `a`. */
  ghost function StateAt(objs: seq<Object>, a: Axis): (r: seq<Object>)
    ensures |r| == |objs|
    decreases a, 1
  {
    SortBy(Before(objs, a), AxisKey(a))
  }

  /** The order the slice has when the outer loop reaches axis `a`. */
  ghost function Before(objs: seq<Object>, a: Axis): (r: seq<Object>)
    ensures |r| == |objs|
    decreases a, 0
  {
    if a == 0 then objs else StateAt(objs, a - 1)
  }

  /** The cost the loop computes for candidate `(a, s)`. */
  ghost function CandidateCost(objs: seq<Object>, area: BoundingBox -> real, a: Axis, s: nat): real {
    if s <= |objs| then SplitCost(StateAt(objs, a), s, area) else 0.0
  }

  /** `cost` tabulates the cost of every candidate of `objs`. */
  ghost predicate CostTable(objs: seq<Object>, area: BoundingBox -> real, cost: (Axis, nat) -> real) {
    forall a: Axis, s: nat :: cost(a, s) == CandidateCost(objs, area, a, s)
  }

  /** The loop invariant, for any table of candidate costs: `best` is the first
      candidate of least cost among those before `(axis, split)`. */
  ghost predicate BestSoFar(n: nat, cost: (Axis, nat) -> real, axis: nat, split: nat, best: Best) {
    ValidBest(best, n) &&
    best.cost == Fin(cost(best.axis, best.split)) &&
    Earlier(best.axis, best.split, axis, split) &&
    forall a: Axis, s: nat :: Candidate(n, a, s) && Earlier(a, s, axis, split) ==>
      cost(best.axis, best.split) <= cost(a, s) &&
      (Earlier(a, s, best.axis, best.split) ==> cost(best.axis, best.split) < cost(a, s))
  }

  /** Evaluating candidate `(axis, split)` keeps the invariant. */
  lemma ConsiderKeepsBest(n: nat, cost: (Axis, nat) -> real, axis: Axis, split: nat, best: Best)
    requires Candidate(n, axis, split)
    requires axis == 0 && split == 1 ==> best.cost == PosInf
    requires !(axis == 0 && split == 1) ==> BestSoFar(n, cost, axis, split, best)
    ensures BestSoFar(n, cost, axis, split + 1, Consider(best, axis, split, cost(axis, split)))
  {
    var b := Consider(best, axis, split, cost(axis, split));
    forall a: Axis, s: nat | Candidate(n, a, s) && Earlier(a, s, axis, split + 1)
      ensures cost(b.axis, b.split) <= cost(a, s)
      ensures Earlier(a, s, b.axis, b.split) ==> cost(b.axis, b.split) < cost(a, s)
    {
      if !(a == axis && s == split) {
        assert Earlier(a, s, axis, split);
        assert !(axis == 0 && split == 1);
      }
    }
  }

  /** Finishing the splits of one axis moves the invariant to the next axis. */
  lemma NextAxisKeepsBest(n: nat, cost: (Axis, nat) -> real, axis: Axis, best: Best)
    requires n >= 3
    requires BestSoFar(n, cost, axis, n - 1, best)
    ensures BestSoFar(n, cost, axis + 1, 1, best)
  {
    forall a: Axis, s: nat | Candidate(n, a, s)
      ensures Earlier(a, s, axis + 1, 1) <==> Earlier(a, s, axis, n - 1)
    {}
  }

  /** The inner loop keeps the invariant, when `cost` tabulates this axis's splits. */
  lemma {:induction false} SplitsArgmin(sorted: seq<Object>, area: BoundingBox -> real,
                                        cost: (Axis, nat) -> real, axis: Axis, split: nat, best: Best)
    requires |sorted| >= 3 && 1 <= split < |sorted|
    requires forall s: nat :: s <= |sorted| ==> cost(axis, s) == SplitCost(sorted, s, area)
    requires axis == 0 && split == 1 ==> best.cost == PosInf
    requires !(axis == 0 && split == 1) ==> BestSoFar(|sorted|, cost, axis, split, best)
    ensures BestSoFar(|sorted|, cost, axis, |sorted| - 1, SearchSplits(sorted, area, axis, split, best))
    decreases |sorted| - split
  {
    var n := |sorted|;
    if split < n - 1 {
      ConsiderKeepsBest(n, cost, axis, split, best);
      SplitsArgmin(sorted, area, cost, axis, split + 1, Consider(best, axis, split, cost(axis, split)));
    }
  }

  /** The sorted slice of axis `axis` is the one whose costs the table lists. */
  lemma AxisTable(objs0: seq<Object>, sorted: seq<Object>, area: BoundingBox -> real,
                  cost: (Axis, nat) -> real, axis: Axis)
    requires CostTable(objs0, area, cost) && sorted == StateAt(objs0, axis)
    ensures forall s: nat :: s <= |sorted| ==> cost(axis, s) == SplitCost(sorted, s, area)
  {
    forall s: nat | s <= |sorted|
      ensures cost(axis, s) == SplitCost(sorted, s, area)
    {
      assert cost(axis, s) == CandidateCost(objs0, area, axis, s);
    }
  }

  /** One pass of the outer loop takes the invariant to the start of the next axis. */
  lemma AxisStep(sorted: seq<Object>, area: BoundingBox -> real,
                 cost: (Axis, nat) -> real, axis: Axis, best: Best)
    requires |sorted| >= 3
    requires forall s: nat :: s <= |sorted| ==> cost(axis, s) == SplitCost(sorted, s, area)
    requires axis == 0 ==> best.cost == PosInf
    requires axis > 0 ==> BestSoFar(|sorted|, cost, axis, 1, best)
    ensures BestSoFar(|sorted|, cost, axis + 1, 1, SearchSplits(sorted, area, axis, 1, best))
  {
    SplitsArgmin(sorted, area, cost, axis, 1, best);
    NextAxisKeepsBest(|sorted|, cost, axis, SearchSplits(sorted, area, axis, 1, best));
  }

  /** The outer loop keeps the invariant across the remaining axes. */
  lemma {:induction false} AxesArgmin(objs0: seq<Object>, objs: seq<Object>, area: BoundingBox -> real,
                                      cost: (Axis, nat) -> real, axis: nat, best: Best)
    requires |objs| == |objs0| >= 3 && axis <= 3
    requires CostTable(objs0, area, cost)
    requires axis < 3 ==> objs == Before(objs0, axis)
    requires axis == 0 ==> best.cost == PosInf
    requires axis > 0 ==> BestSoFar(|objs|, cost, axis, 1, best)
    ensures BestSoFar(|objs|, cost, 3, 1, SearchAxes(objs, area, axis, best).best)
    decreases 3 - axis
  {
    var n := |objs|;
    if axis < 3 {
      var sorted := SortBy(objs, AxisKey(axis));
      var b := SearchSplits(sorted, area, axis, 1, best);
      AxisTable(objs0, sorted, area, cost, axis);
      AxisStep(sorted, area, cost, axis, best);
      AxesArgmin(objs0, sorted, area, cost, axis + 1, b);
    }
  }

  /** `evaluate_best_area_split` picks a candidate of least cost, and, because the
      comparison is strict, the first such candidate in loop order. */
  lemma BestSplitIsFirstMinimum(objs: seq<Object>, area: BoundingBox -> real)
    requires |objs| >= 3
    ensures var r := EvaluateBestAreaSplit(objs, area);
      forall a: Axis, s: nat :: Candidate(|objs|, a, s) ==>
        CandidateCost(objs, area, r.axis, r.split) <= CandidateCost(objs, area, a, s) &&
        (Earlier(a, s, r.axis, r.split) ==> CandidateCost(objs, area, r.axis, r.split) < CandidateCost(objs, area, a, s))
  {
    var cost := (a: Axis, s: nat) => CandidateCost(objs, area, a, s);
    AxesArgmin(objs, objs, area, cost, 0, Best(0, 0, PosInf));
  }

  /** The two halves the surface-area builder recurses on: the slice in the order the
      search left it, sorted along the best axis and divided at the best split. */
  function AreaHalves(objs: seq<Object>, area: BoundingBox -> real): (h: Halves)
    requires |objs| >= 3
    ensures |h.left| == EvaluateBestAreaSplit(objs, area).split
    ensures 1 <= |h.left| && 2 <= |h.right| && |h.left| + |h.right| == |objs|
    ensures multiset(h.left + h.right) == multiset(objs)
  {
    var best := EvaluateBestAreaSplit(objs, area);
    SortAndSplit(best.objs, best.axis, best.split)
  }

  /** `from_vec_with_surface_area`: one object gives a leaf, two a pair, and more a tree
      divided where the area search says. Empty input panics (`None`). */
  function FromVecWithSurfaceArea(objs: seq<Object>, area: BoundingBox -> real): (r: Option<Hierarchy>)
    ensures r.None? <==> |objs| == 0
    ensures r.Some? ==> Built(r.value, objs)
    ensures |objs| == 1 ==> r == Some(New(objs[0]))
    ensures |objs| == 2 ==> r == Some(Pair(objs[0], objs[1]))
    ensures |objs| >= 3 ==>
      r.Some? && r.value.Tree? && |Leaves(r.value.left)| == EvaluateBestAreaSplit(objs, area).split
    decreases |objs|, 1
  {
    if |objs| == 0 then None
    else if |objs| == 1 then
      SliceBoundsSingle(objs[0]);
      Some(New(objs[0]))
    else if |objs| == 2 then
      assert objs == [objs[0], objs[1]];
      Some(Pair(objs[0], objs[1]))
    else Some(AreaTree(objs, area))
  }

  /** The `_` arm of `from_vec_with_surface_area`: the best axis orders the slice
      (starting from the order the search left it in), the best split divides it, and
      the node's box is the union of its children's. */
  function AreaTree(objs: seq<Object>, area: BoundingBox -> real): (h: Hierarchy)
    requires |objs| >= 3
    ensures Built(h, objs) && h.Tree? && |Leaves(h.left)| == EvaluateBestAreaSplit(objs, area).split
    decreases |objs|, 0
  {
    var halves := AreaHalves(objs, area);
    var left := FromVecWithSurfaceArea(halves.left, area).value;
    var right := FromVecWithSurfaceArea(halves.right, area).value;
    JoinBuilt(left, right, objs, halves.left + halves.right, |halves.left|);
    BuiltSize(left, halves.left);
    Tree(Bounding.Union(left.bounds, right.bounds), left, right)
  }

  datatype Heuristic = RandomAxis | LongestAxis | SurfaceArea

  /** `from_vec_with_heuristic` (and `from_vec`, its `SurfaceArea` case): whichever
      heuristic is chosen, a tree built for the objects, or a panic on none. */
  function FromVecWithHeuristic(objs: seq<Object>, heuristic: Heuristic,
                                reorder: (nat, seq<Object>) -> seq<Object>,
                                longest: BoundingBox -> Axis, area: BoundingBox -> real): (r: Option<Hierarchy>)
    requires forall k, s {:trigger reorder(k, s)} :: multiset(reorder(k, s)) == multiset(s)
    ensures r.None? <==> |objs| == 0
    ensures r.Some? ==> Built(r.value, objs)
  {
    match heuristic
    case RandomAxis => FromVecWithRandom(objs, 0, reorder)
    case LongestAxis => FromVecWithLongest(objs, longest)
    case SurfaceArea => FromVecWithSurfaceArea(objs, area)
  }

  /** `Geometry::collide` for a hierarchy: a miss of the node's box ends the search; a
      leaf asks its object about the original range; a tree asks the left child about
      the original range and the right child about the box-clipped range, cut down to
      the left hit when there is one, and prefers the right child's answer. */
  function Collide(h: Hierarchy, ray: Ray, collide: (Object, Range) -> Option<Collision>, range: Range): (c: Option<Collision>)
    requires NoZeroComponent(ray.direction)
    ensures Scan.Sound(collide, CollisionT) && c.Some? ==> Contains(range, c.value.t)
    decreases h
  {
    match CheckIntersection(h.bounds, ray, range)
    case None => None
    case Some(box) =>
      match h
      case Leaf(_, o) => collide(o, range)
      case Tree(_, l, r) =>
        var lc := Collide(l, ray, collide, range);
        var clipped := if lc.Some? then Range(box.lo, Fin(lc.value.t)) else box;
        var rc := Collide(r, ray, collide, clipped);
        assert Scan.Sound(collide, CollisionT) && rc.Some? ==> Contains(range, rc.value.t) by {
          if Scan.Sound(collide, CollisionT) && rc.Some? {
            LeTrans(range.lo, box.lo, Fin(rc.value.t));
            if lc.Some? { LeTrans(Fin(rc.value.t), Fin(lc.value.t), range.hi); }
            else { LeTrans(Fin(rc.value.t), box.hi, range.hi); }
          }
        }
        if rc.Some? then rc else lc
  }

  /** For the ray at hand, every hit an object reports lies inside that object's box. */
  ghost predicate HitsInBounds(collide: (Object, Range) -> Option<Collision>, ray: Ray) {
    forall o, r :: collide(o, r).Some? ==> ContainsPoint(o.bounds, At(ray, collide(o, r).value.t))
  }

  /** In a well-formed tree every leaf's box lies inside the root's. */
  lemma {:induction false} LeafWithin(h: Hierarchy, o: Object)
    requires WellFormed(h) && o in Leaves(h)
    ensures BoxWithin(o.bounds, h.bounds)
    decreases h
  {
    match h
    case Leaf(_, _) =>
    case Tree(b, l, r) =>
      if o in Leaves(l) {
        LeafWithin(l, o);
        BoxWithinTrans(o.bounds, l.bounds, b);
      } else {
        LeafWithin(r, o);
        BoxWithinTrans(o.bounds, r.bounds, b);
      }
  }

  /** A tree's answer is never farther than its left child's: the right child is
      searched only up to the left hit, and its answer is preferred. */
  lemma TreeNoFartherThanLeft(h: Hierarchy, ray: Ray, collide: (Object, Range) -> Option<Collision>, range: Range)
    requires NoZeroComponent(ray.direction) && Scan.Sound(collide, CollisionT)
    requires h.Tree? && Collide(h.left, ray, collide, range).Some?
    requires CheckIntersection(h.bounds, ray, range).Some?
    ensures Collide(h, ray, collide, range).Some?
    ensures Collide(h, ray, collide, range).value.t <= Collide(h.left, ray, collide, range).value.t
  {
    var lc := Collide(h.left, ray, collide, range);
    var box := CheckIntersection(h.bounds, ray, range).value;
    var rc := Collide(h.right, ray, collide, Range(box.lo, Fin(lc.value.t)));
    if rc.Some? {
      assert Contains(Range(box.lo, Fin(lc.value.t)), rc.value.t);
    }
  }

  /** A leaf's hit lies inside the tree's box, so the box test keeps the hit's
      parameter. */
  lemma HitInsideBox(h: Hierarchy, ray: Ray, collide: (Object, Range) -> Option<Collision>, range: Range, o: Object)
    requires NoZeroComponent(ray.direction)
    requires Scan.Sound(collide, CollisionT) && HitsInBounds(collide, ray)
    requires WellFormed(h) && o in Leaves(h) && collide(o, range).Some?
    ensures CheckIntersection(h.bounds, ray, range).Some?
    ensures Contains(CheckIntersection(h.bounds, ray, range).value, collide(o, range).value.t)
  {
    var t := collide(o, range).value.t;
    assert Contains(range, t);
    LeafWithin(h, o);
    ContainsPointWithin(o.bounds, h.bounds, At(ray, t));
    PointInSlabs(h.bounds, ray, t);
  }

  /** With a sound, consistent oracle whose hits lie in their objects' boxes, the
      traversal of a well-formed tree finds a hit whenever some leaf object hits the
      range, and that hit is no farther than the leaf's. */
  lemma {:induction false} CollideNearest(h: Hierarchy, ray: Ray, collide: (Object, Range) -> Option<Collision>,
                                          range: Range, o: Object)
    requires NoZeroComponent(ray.direction)
    requires Scan.Sound(collide, CollisionT) && Scan.Consistent(collide, CollisionT) && HitsInBounds(collide, ray)
    requires WellFormed(h) && o in Leaves(h) && collide(o, range).Some?
    ensures Collide(h, ray, collide, range).Some?
    ensures Collide(h, ray, collide, range).value.t <= collide(o, range).value.t
    decreases h
  {
    var t := collide(o, range).value.t;
    HitInsideBox(h, ray, collide, range, o);
    var box := CheckIntersection(h.bounds, ray, range).value;
    match h
    case Leaf(_, _) =>
    case Tree(_, l, r) =>
      var lc := Collide(l, ray, collide, range);
      var clipped := if lc.Some? then Range(box.lo, Fin(lc.value.t)) else box;
      var rc := Collide(r, ray, collide, clipped);
      if o in Leaves(l) {
        CollideNearest(l, ray, collide, range, o);
        TreeNoFartherThanLeft(h, ray, collide, range);
      } else if lc.Some? && lc.value.t < t {
        TreeNoFartherThanLeft(h, ray, collide, range);
      } else {
        assert Within(clipped, range) by {
          if lc.Some? { assert Contains(range, lc.value.t); }
        }
        assert Contains(clipped, t);
        assert collide(o, clipped).Some? && collide(o, clipped).value.t == t;
        CollideNearest(r, ray, collide, clipped, o);
      }
  }

  /** With a sound oracle, the traversal's answer is what some leaf object reported for
      a sub-range of the query. */
  lemma {:induction false} CollideWitness(h: Hierarchy, ray: Ray, collide: (Object, Range) -> Option<Collision>, range: Range)
    returns (o: Object, sub: Range)
    requires NoZeroComponent(ray.direction) && Scan.Sound(collide, CollisionT)
    requires Collide(h, ray, collide, range).Some?
    ensures o in Leaves(h) && Within(sub, range) && collide(o, sub) == Collide(h, ray, collide, range)
    decreases h
  {
    var box := CheckIntersection(h.bounds, ray, range).value;
    match h
    case Leaf(_, o') =>
      o, sub := o', range;
    case Tree(_, l, r) =>
      var lc := Collide(l, ray, collide, range);
      var clipped := if lc.Some? then Range(box.lo, Fin(lc.value.t)) else box;
      var rc := Collide(r, ray, collide, clipped);
      if rc.Some? {
        assert Within(clipped, range) by {
          if lc.Some? { assert Contains(range, lc.value.t); }
        }
        o, sub := CollideWitness(r, ray, collide, clipped);
        WithinTrans(sub, clipped, range);
      } else {
        o, sub := CollideWitness(l, ray, collide, range);
      }
  }

  /** When the linear scan over the leaves hits, the traversal hits no farther. */
  lemma ScanHitFound(h: Hierarchy, ray: Ray, collide: (Object, Range) -> Option<Collision>, range: Range)
    requires NoZeroComponent(ray.direction)
    requires Scan.Sound(collide, CollisionT) && Scan.Consistent(collide, CollisionT) && HitsInBounds(collide, ray)
    requires WellFormed(h) && SliceCollide(Leaves(h), collide, range).Some?
    ensures Collide(h, ray, collide, range).Some?
    ensures Collide(h, ray, collide, range).value.t <= SliceCollide(Leaves(h), collide, range).value.t
  {
    var leaves := Leaves(h);
    var k := Scan.NearestIsMinimum(leaves, collide, CollisionT, range);
    CollideNearest(h, ray, collide, range, leaves[k]);
  }

  /** When the traversal hits, the linear scan over the leaves hits no farther. */
  lemma TreeHitScanned(h: Hierarchy, ray: Ray, collide: (Object, Range) -> Option<Collision>, range: Range)
    requires NoZeroComponent(ray.direction)
    requires Scan.Sound(collide, CollisionT) && Scan.Consistent(collide, CollisionT)
    requires Collide(h, ray, collide, range).Some?
    ensures SliceCollide(Leaves(h), collide, range).Some?
    ensures SliceCollide(Leaves(h), collide, range).value.t <= Collide(h, ray, collide, range).value.t
  {
    var c := Collide(h, ray, collide, range);
    var leaves := Leaves(h);
    var o, sub := CollideWitness(h, ray, collide, range);
    assert collide(o, range).Some? && collide(o, range).value.t <= c.value.t;
    var i :| 0 <= i < |leaves| && leaves[i] == o;
    SliceCollideNearest(leaves, collide, range);
  }

  /** The traversal agrees with the linear scan over the tree's leaves: both miss
      together, and otherwise both report the same nearest parameter. */
  lemma CollideMatchesScan(h: Hierarchy, ray: Ray, collide: (Object, Range) -> Option<Collision>, range: Range)
    requires NoZeroComponent(ray.direction)
    requires Scan.Sound(collide, CollisionT) && Scan.Consistent(collide, CollisionT) && HitsInBounds(collide, ray)
    requires WellFormed(h)
    ensures var c := Collide(h, ray, collide, range);
      var s := SliceCollide(Leaves(h), collide, range);
      (c.None? <==> s.None?) && (c.Some? ==> c.value.t == s.value.t)
  {
    if SliceCollide(Leaves(h), collide, range).Some? {
      ScanHitFound(h, ray, collide, range);
    }
    if Collide(h, ray, collide, range).Some? {
      TreeHitScanned(h, ray, collide, range);
    }
  }

  /** Whichever heuristic builds the tree, traversing it answers like the linear scan
      over the objects it was built from. */
  lemma BuiltCollideMatchesScan(objs: seq<Object>, heuristic: Heuristic,
                                reorder: (nat, seq<Object>) -> seq<Object>,
                                longest: BoundingBox -> Axis, area: BoundingBox -> real,
                                ray: Ray, collide: (Object, Range) -> Option<Collision>, range: Range)
    requires forall k, s {:trigger reorder(k, s)} :: multiset(reorder(k, s)) == multiset(s)
    requires |objs| > 0
    requires NoZeroComponent(ray.direction)
    requires Scan.Sound(collide, CollisionT) && Scan.Consistent(collide, CollisionT) && HitsInBounds(collide, ray)
    ensures var h := FromVecWithHeuristic(objs, heuristic, reorder, longest, area).value;
      var c := Collide(h, ray, collide, range);
      var s := SliceCollide(objs, collide, range);
      (c.None? <==> s.None?) && (c.Some? ==> c.value.t == s.value.t)
  {
    var h := FromVecWithHeuristic(objs, heuristic, reorder, longest, area).value;
    CollideMatchesScan(h, ray, collide, range);
    forall o ensures o in Leaves(h) <==> o in objs {
      assert o in Leaves(h) <==> o in multiset(Leaves(h));
    }
    Scan.NearestSameElements(Leaves(h), objs, collide, CollisionT, range);
  }

  /** The as-written parallelogram breaks `HitsInBounds`, and with it the agreement
      with the linear scan: an object that answers like the as-written square of side
      below 1 reports a hit at `(1, 1, 0)` for `Outwards`, outside the box `new`
      stores, so a one-leaf hierarchy misses while the scan over the same object
      hits. */
  lemma AsWrittenParallelogramMissed(s: real, ray: Ray, range: Range, o: Object,
                                     collide: (Object, Range) -> Option<Collision>)
    requires 0.0 < s < 1.0 && ray == Parallelograms.Outwards && range == Range(Fin(0.001), PosInf)
    requires o.bounds == Parallelograms.CornerBox(Zero, Vec3(s, 0.0, 0.0), Vec3(0.0, s, 0.0))
    requires collide(o, range) == Parallelograms.CollideAsWritten(Parallelograms.Square(o.bounds, s), ray, range, 0.001)
    ensures NoZeroComponent(ray.direction)
    ensures !HitsInBounds(collide, ray)
    ensures SliceCollide([o], collide, range).Some?
    ensures Collide(New(o), ray, collide, range).None?
  {
    Parallelograms.AsWrittenAcceptsOutside(o.bounds, s, ray, range);
    Parallelograms.OutwardsBoxRejects(s, ray, range);
  }
}
