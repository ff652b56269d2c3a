/** src/bounds/bvh.cpp: the C++ bounding-volume hierarchy. Each node holds two
    children, each either a world object or another node, and the box surrounding
    theirs. */
module Bvh {
  import opened ExtReals
  import opened Wrappers
  import opened Vectors
  import opened Types
  import opened Sorting
  import opened AxisBoxes
  import opened Observable
  import World
  import Scan

  datatype Node =
    | Prim(obj: World.CObject)
    | Node(box: AxisBox, left: Node, right: Node)

  /** The box of a child as the constructor reads it: an object without a box is
      read as the default-constructed (origin) box. */
  function BoxOf(n: Node): AxisBox {
    match n
    case Prim(o) => if o.box.Some? then o.box.value else DefaultBox()
    case Node(b, _, _) => b
  }

  /** The lower corner of the object's box on `axis`, the origin box standing in for a
      missing one. */
  function MinKey(o: World.CObject, axis: Axis): real {
    Component(BoxOf(Prim(o)).min, axis)
  }

  /** `compareBox`: a strict "starts lower on `axis`" order. An object without a box
      compares as if it sat at the origin. */
  function CompareBox(a: World.CObject, b: World.CObject, axis: Axis): (r: bool)
    ensures a.box.None? ==> (r <==> 0.0 < MinKey(b, axis))
    ensures b.box.None? ==> (r <==> MinKey(a, axis) < 0.0)
  {
    MinKey(a, axis) < MinKey(b, axis)
  }

  /** `compareBox` is a strict weak order, as `std::sort` demands of its comparator:
      irreflexive, asymmetric, transitive, with transitive incomparability. */
  lemma CompareBoxStrictWeak(a: World.CObject, b: World.CObject, c: World.CObject, axis: Axis)
    ensures !CompareBox(a, a, axis)
    ensures CompareBox(a, b, axis) ==> !CompareBox(b, a, axis)
    ensures CompareBox(a, b, axis) && CompareBox(b, c, axis) ==> CompareBox(a, c, axis)
    ensures !CompareBox(a, b, axis) && !CompareBox(b, a, axis) && !CompareBox(b, c, axis) && !CompareBox(c, b, axis) ==>
      !CompareBox(a, c, axis) && !CompareBox(c, a, axis)
  {}

  /** The sort key of the comparator. */
  function AxisKey(axis: Axis): World.CObject -> ExtReal {
    (o: World.CObject) => Fin(MinKey(o, axis))
  }

  /** The objects below a node, left to right; a one-object node lists its object
      twice, once per child. */
  function Leaves(n: Node): seq<World.CObject> {
    match n
    case Prim(o) => [o]
    case Node(_, l, r) => Leaves(l) + Leaves(r)
  }

  /** Every node's box is the surrounding box of its children's. */
  ghost predicate Tight(n: Node) {
    match n
    case Prim(_) => true
    case Node(b, l, r) => Tight(l) && Tight(r) && b == SurroundingBox(BoxOf(l), BoxOf(r))
  }

  /** `objects` with `[start, end)` sorted by the comparator. `std::sort` is not
      stable; the stable order is one of the orders it may leave. */
  function SortRange(objects: seq<World.CObject>, start: nat, end: nat, axis: Axis): (s: seq<World.CObject>)
    requires start <= end <= |objects|
    ensures |s| == |objects|
    ensures s[..start] == objects[..start] && s[end..] == objects[end..]
    ensures multiset(s[start..end]) == multiset(objects[start..end])
    ensures SortedBy(s[start..end], AxisKey(axis))
  {
    var sorted := SortBy(objects[start..end], AxisKey(axis));
    var s := objects[..start] + sorted + objects[end..];
    assert s[start..end] == sorted;
    s
  }

  /** The constructor `BVH(objects, start, end)`, with the random axis `axisOf(start,
      end)`. The span must be at least one: with an empty span the middle index equals
      `start` and the constructor calls itself with the same arguments forever. A span
      of one makes both children the same object; a span of two orders the pair by the
      comparator; a longer span is sorted and split at `start + span / 2`. */
  function Build(objects: seq<World.CObject>, start: nat, end: nat, axisOf: (nat, nat) -> Axis): (n: Node)
    requires start < end <= |objects|
    ensures n.Node? && Tight(n)
    ensures forall o :: o in Leaves(n) <==> o in objects[start..end]
    ensures end - start == 1 ==> n.left == n.right == Prim(objects[start])
    ensures end - start == 2 ==>
      n.left.Prim? && n.right.Prim? &&
      multiset{n.left.obj, n.right.obj} == multiset{objects[start], objects[start + 1]} &&
      MinKey(n.left.obj, axisOf(start, end)) <= MinKey(n.right.obj, axisOf(start, end))
    ensures end - start >= 3 ==>
      n.left.Node? && n.right.Node? &&
      forall a, b :: a in Leaves(n.left) && b in Leaves(n.right) ==>
        MinKey(a, axisOf(start, end)) <= MinKey(b, axisOf(start, end))
    decreases end - start
  {
    var axis := axisOf(start, end);
    var span := end - start;
    if span == 1 then
      var c := Prim(objects[start]);
      Node(SurroundingBox(BoxOf(c), BoxOf(c)), c, c)
    else if span == 2 then
      assert objects[start..end] == [objects[start], objects[start + 1]];
      var a, b := Prim(objects[start]), Prim(objects[start + 1]);
      if CompareBox(objects[start], objects[start + 1], axis) then Node(SurroundingBox(BoxOf(a), BoxOf(b)), a, b)
      else Node(SurroundingBox(BoxOf(b), BoxOf(a)), b, a)
    else
      var sorted := SortRange(objects, start, end, axis);
      var mid := start + span / 2;
      var l := Build(sorted, start, mid, axisOf);
      var r := Build(sorted, mid, end, axisOf);
      SplitFacts(objects, sorted, start, mid, end, axis);
      Node(SurroundingBox(BoxOf(l), BoxOf(r)), l, r)
  }

  /** The two halves of a permuted range hold exactly the range's objects. */
  lemma SplitMembers(objects: seq<World.CObject>, sorted: seq<World.CObject>, start: nat, mid: nat, end: nat)
    requires start <= mid <= end <= |objects| == |sorted|
    requires multiset(sorted[start..end]) == multiset(objects[start..end])
    ensures forall o :: o in sorted[start..mid] || o in sorted[mid..end] <==> o in objects[start..end]
  {
    var part := sorted[start..end];
    assert part == sorted[start..mid] + sorted[mid..end];
    forall o ensures o in part <==> o in objects[start..end] {
      assert o in part <==> o in multiset(part);
      assert o in objects[start..end] <==> o in multiset(objects[start..end]);
    }
  }

  /** Every object of the left half of a sorted range starts no higher than every
      object of the right half. */
  lemma SplitOrdered(sorted: seq<World.CObject>, start: nat, mid: nat, end: nat, axis: Axis)
    requires start <= mid <= end <= |sorted|
    requires SortedBy(sorted[start..end], AxisKey(axis))
    ensures forall a, b :: a in sorted[start..mid] && b in sorted[mid..end] ==> MinKey(a, axis) <= MinKey(b, axis)
  {
    var part := sorted[start..end];
    forall a, b | a in sorted[start..mid] && b in sorted[mid..end]
      ensures MinKey(a, axis) <= MinKey(b, axis)
    {
      var i :| 0 <= i < mid - start && sorted[start..mid][i] == a;
      var j :| 0 <= j < end - mid && sorted[mid..end][j] == b;
      assert part[i] == a && part[mid - start + j] == b;
      assert Le(AxisKey(axis)(part[i]), AxisKey(axis)(part[mid - start + j]));
    }
  }

  /** What the split of a sorted range gives the two recursive calls: together they
      hold exactly the range's objects, and the left part starts no higher. */
  lemma SplitFacts(objects: seq<World.CObject>, sorted: seq<World.CObject>, start: nat, mid: nat, end: nat, axis: Axis)
    requires start <= mid <= end <= |objects| == |sorted|
    requires multiset(sorted[start..end]) == multiset(objects[start..end])
    requires SortedBy(sorted[start..end], AxisKey(axis))
    ensures forall o :: o in sorted[start..mid] || o in sorted[mid..end] <==> o in objects[start..end]
    ensures forall a, b :: a in sorted[start..mid] && b in sorted[mid..end] ==> MinKey(a, axis) <= MinKey(b, axis)
  {
    SplitMembers(objects, sorted, start, mid, end);
    SplitOrdered(sorted, start, mid, end, axis);
  }

  /** `BVH(const World&)`: the whole object list, which must not be empty. */
  function FromWorld(objects: seq<World.CObject>, axisOf: (nat, nat) -> Axis): (n: Node)
    requires |objects| > 0
    ensures n.Node? && Tight(n)
    ensures forall o :: o in Leaves(n) <==> o in objects
  {
    assert objects[0..|objects|] == objects;
    Build(objects, 0, |objects|, axisOf)
  }

  /** `BVH::hit`: a miss of the node's box ends the search; otherwise the left child is
      asked about `[tMin, tMax]` and the right child about `[tMin, tBig]`, where `tBig`
      is the left hit's parameter when there is one, and a right hit overrides the
      left. A child object is asked directly. */
  function NodeHit(n: Node, ray: Ray, hit: (World.CObject, Range) -> Option<Observation>, range: Range): (r: Option<Observation>)
    requires NoZeroComponent(ray.direction)
    ensures Scan.Sound(hit, World.ObservationT) && r.Some? ==> Contains(range, r.value.t)
    decreases n
  {
    match n
    case Prim(o) => hit(o, range)
    case Node(b, l, r) =>
      if !AxisBoxes.Hit(b, ray, range.lo, range.hi) then None
      else
        var lo := NodeHit(l, ray, hit, range);
        var tBig := if lo.Some? then Fin(lo.value.t) else range.hi;
        var ro := NodeHit(r, ray, hit, Range(range.lo, tBig));
        assert Scan.Sound(hit, World.ObservationT) && ro.Some? ==> Contains(range, ro.value.t) by {
          if Scan.Sound(hit, World.ObservationT) && ro.Some? && lo.Some? {
            LeTrans(Fin(ro.value.t), tBig, range.hi);
          }
        }
        if ro.Some? then ro else lo
  }

  /** The answer of a node whose box is hit is never farther than its left child's. */
  lemma NoFartherThanLeft(n: Node, ray: Ray, hit: (World.CObject, Range) -> Option<Observation>, range: Range)
    requires NoZeroComponent(ray.direction) && Scan.Sound(hit, World.ObservationT)
    requires n.Node? && AxisBoxes.Hit(n.box, ray, range.lo, range.hi)
    requires NodeHit(n.left, ray, hit, range).Some?
    ensures NodeHit(n, ray, hit, range).Some?
    ensures NodeHit(n, ray, hit, range).value.t <= NodeHit(n.left, ray, hit, range).value.t
  {
    var lo := NodeHit(n.left, ray, hit, range);
    var ro := NodeHit(n.right, ray, hit, Range(range.lo, Fin(lo.value.t)));
    if ro.Some? {
      assert Contains(Range(range.lo, Fin(lo.value.t)), ro.value.t);
    }
  }

  /** For the ray at hand, every hit an object reports comes from an object with a box
      and lies strictly inside that box. */
  ghost predicate HitsInside(hit: (World.CObject, Range) -> Option<Observation>, ray: Ray) {
    forall o, r :: hit(o, r).Some? ==> o.box.Some? && Interior(o.box.value, At(ray, hit(o, r).value.t))
  }

  /** In a tight tree every box an object reports lies inside the root's box. */
  lemma {:induction false} LeafEnclosed(n: Node, o: World.CObject)
    requires Tight(n) && o in Leaves(n) && o.box.Some?
    ensures Encloses(BoxOf(n), o.box.value)
    decreases n
  {
    match n
    case Prim(_) =>
    case Node(b, l, r) =>
      if o in Leaves(l) {
        LeafEnclosed(l, o);
        World.EnclosesTrans(b, BoxOf(l), o.box.value);
      } else {
        LeafEnclosed(r, o);
        World.EnclosesTrans(b, BoxOf(r), o.box.value);
      }
  }

  /** With a sound, consistent oracle whose hits lie strictly inside their objects'
      boxes, and a query range that is not a single parameter, the traversal of a tight
      tree finds a hit whenever some object below it does, no farther away. */
  lemma {:induction false} NodeNearest(n: Node, ray: Ray, hit: (World.CObject, Range) -> Option<Observation>,
                                       range: Range, o: World.CObject)
    requires NoZeroComponent(ray.direction)
    requires Scan.Sound(hit, World.ObservationT) && Scan.Consistent(hit, World.ObservationT) && HitsInside(hit, ray)
    requires Lt(range.lo, range.hi)
    requires Tight(n) && o in Leaves(n) && hit(o, range).Some?
    ensures NodeHit(n, ray, hit, range).Some?
    ensures NodeHit(n, ray, hit, range).value.t <= hit(o, range).value.t
    decreases n
  {
    var t := hit(o, range).value.t;
    assert Contains(range, t);
    match n
    case Prim(_) =>
    case Node(b, l, r) =>
      LeafEnclosed(n, o);
      InteriorEnclosed(b, o.box.value, At(ray, t));
      InteriorHit(b, ray, range.lo, range.hi, t);
      var lo := NodeHit(l, ray, hit, range);
      if o in Leaves(l) {
        NodeNearest(l, ray, hit, range, o);
        NoFartherThanLeft(n, ray, hit, range);
      } else if lo.Some? && (lo.value.t < t || !Lt(range.lo, Fin(lo.value.t))) {
        assert Contains(range, lo.value.t);
        NoFartherThanLeft(n, ray, hit, range);
      } else {
        var sub := Range(range.lo, if lo.Some? then Fin(lo.value.t) else range.hi);
        assert Within(sub, range) by {
          if lo.Some? { assert Contains(range, lo.value.t); }
        }
        assert Contains(sub, t);
        assert hit(o, sub).Some? && hit(o, sub).value.t == t;
        NodeNearest(r, ray, hit, sub, o);
      }
  }

  /** With a sound oracle, the traversal's answer is what some object below the node
      reported for a sub-range of the query. */
  lemma {:induction false} NodeWitness(n: Node, ray: Ray, hit: (World.CObject, Range) -> Option<Observation>, range: Range)
    returns (o: World.CObject, sub: Range)
    requires NoZeroComponent(ray.direction) && Scan.Sound(hit, World.ObservationT)
    requires NodeHit(n, ray, hit, range).Some?
    ensures o in Leaves(n) && Within(sub, range) && hit(o, sub) == NodeHit(n, ray, hit, range)
    decreases n
  {
    match n
    case Prim(o') =>
      o, sub := o', range;
    case Node(b, l, r) =>
      var lo := NodeHit(l, ray, hit, range);
      var clipped := Range(range.lo, if lo.Some? then Fin(lo.value.t) else range.hi);
      if NodeHit(r, ray, hit, clipped).Some? {
        assert Within(clipped, range) by {
          if lo.Some? { assert Contains(range, lo.value.t); }
        }
        o, sub := NodeWitness(r, ray, hit, clipped);
        WithinTrans(sub, clipped, range);
      } else {
        o, sub := NodeWitness(l, ray, hit, range);
      }
  }

  /** The traversal agrees with `World::hit` over the node's objects: both miss
      together, and otherwise both report the same nearest parameter. */
  lemma NodeMatchesWorld(n: Node, ray: Ray, hit: (World.CObject, Range) -> Option<Observation>, range: Range)
    requires NoZeroComponent(ray.direction)
    requires Scan.Sound(hit, World.ObservationT) && Scan.Consistent(hit, World.ObservationT) && HitsInside(hit, ray)
    requires Lt(range.lo, range.hi)
    requires Tight(n)
    ensures var c := NodeHit(n, ray, hit, range);
      var s := World.Hit(Leaves(n), hit, range);
      (c.None? <==> s.None?) && (c.Some? ==> c.value.t == s.value.t)
  {
    var c := NodeHit(n, ray, hit, range);
    var leaves := Leaves(n);
    var s := World.Hit(leaves, hit, range);
    if s.Some? {
      var k := Scan.NearestIsMinimum(leaves, hit, World.ObservationT, range);
      NodeNearest(n, ray, hit, range, leaves[k]);
    }
    if c.Some? {
      var o, sub := NodeWitness(n, ray, hit, range);
      assert hit(o, range).Some? && hit(o, range).value.t <= c.value.t;
      var i :| 0 <= i < |leaves| && leaves[i] == o;
      Scan.NearestIsNearest(leaves, hit, World.ObservationT, range);
    }
  }

  /** The hierarchy built over a world answers like the world's own linear scan. */
  lemma FromWorldMatchesWorld(objects: seq<World.CObject>, axisOf: (nat, nat) -> Axis,
                              ray: Ray, hit: (World.CObject, Range) -> Option<Observation>, range: Range)
    requires |objects| > 0
    requires NoZeroComponent(ray.direction)
    requires Scan.Sound(hit, World.ObservationT) && Scan.Consistent(hit, World.ObservationT) && HitsInside(hit, ray)
    requires Lt(range.lo, range.hi)
    ensures var c := NodeHit(FromWorld(objects, axisOf), ray, hit, range);
      var s := World.Hit(objects, hit, range);
      (c.None? <==> s.None?) && (c.Some? ==> c.value.t == s.value.t)
  {
    var n := FromWorld(objects, axisOf);
    NodeMatchesWorld(n, ray, hit, range);
    Scan.NearestSameElements(Leaves(n), objects, hit, World.ObservationT, range);
  }

  /** When every object reports a box, the root box of a tight tree is the world's
      bounding box over the same objects: the smallest box around all of theirs. */
  lemma {:induction false} TightBoxIsLeast(n: Node, c: AxisBox)
    requires Tight(n)
    requires forall o :: o in Leaves(n) ==> o.box.Some? && Encloses(c, o.box.value)
    ensures Encloses(c, BoxOf(n))
    decreases n
  {
    match n
    case Prim(_) =>
    case Node(b, l, r) =>
      TightBoxIsLeast(l, c);
      TightBoxIsLeast(r, c);
  }

  lemma FromWorldBoxIsWorldBox(objects: seq<World.CObject>, axisOf: (nat, nat) -> Axis)
    requires |objects| > 0
    requires forall i :: 0 <= i < |objects| ==> objects[i].box.Some?
    ensures World.BoundingBox(objects) == Some(BoxOf(FromWorld(objects, axisOf)))
  {
    var n := FromWorld(objects, axisOf);
    var w := World.BoundingBox(objects).value;
    assert World.AnyBox(objects) by { assert objects[0].box.Some?; }
    forall o | o in Leaves(n) ensures o.box.Some? && Encloses(w, o.box.value) {
      var i :| 0 <= i < |objects| && objects[i] == o;
    }
    TightBoxIsLeast(n, w);
    assert World.EnclosesAll(objects, BoxOf(n)) by {
      forall i | 0 <= i < |objects| && objects[i].box.Some?
        ensures Encloses(BoxOf(n), objects[i].box.value)
      {
        LeafEnclosed(n, objects[i]);
      }
    }
    EnclosesAntisym(w, BoxOf(n));
  }
}
