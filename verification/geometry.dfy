/** src/geometry/mod.rs: the collision record, the `Geometry` view of a slice of world
    objects (nearest hit and enclosing box), and the face-orientation rule. */
module Geometry {
  import opened ExtReals
  import opened Wrappers
  import opened Vectors
  import opened Types
  import opened Bounding
  import Scan

  /** A hit: where, with which oriented normal, at which ray parameter, and whether the
      ray met the outer side. The material reference is carried by the integrator's
      scene oracle instead. */
  datatype Collision = Collision(point: Vec3, normal: Vec3, t: real, isFrontFacing: bool)

  /** A world object seen from outside: an identity and the box `bounding_box` reports.
      Its `collide` is an oracle `(Object, Range) -> Option<Collision>` for a fixed ray. */
  datatype Object = Object(id: nat, bounds: BoundingBox)

  function CollisionT(c: Collision): real { c.t }

  /** The slice `collide` (the `&[WorldObject]` and the textually identical
      `&mut [WorldObject]` impls): a linear scan that shrinks the upper bound to each
      hit. `None` exactly when no object hits `range`; a hit is inside `range` when
      the oracle is sound. */
  function SliceCollide(objs: seq<Object>, collide: (Object, Range) -> Option<Collision>, range: Range): (r: Option<Collision>)
    ensures r.None? <==> forall i :: 0 <= i < |objs| ==> collide(objs[i], range).None?
    ensures Scan.Sound(collide, CollisionT) && r.Some? ==> Contains(range, r.value.t)
  {
    Scan.Nearest(objs, collide, CollisionT, range)
  }

  /** With a sound and consistent oracle the slice collide returns a hit no farther than
      any object's own hit in `range`, and that hit is the last one reported. */
  lemma SliceCollideNearest(objs: seq<Object>, collide: (Object, Range) -> Option<Collision>, range: Range)
    requires Scan.Sound(collide, CollisionT) && Scan.Consistent(collide, CollisionT)
    ensures forall i :: 0 <= i < |objs| && collide(objs[i], range).Some? ==>
      SliceCollide(objs, collide, range).Some? &&
      SliceCollide(objs, collide, range).value.t <= collide(objs[i], range).value.t
  {
    Scan.NearestIsNearest(objs, collide, CollisionT, range);
  }

  /** `c` encloses the box of every object of `objs`. */
  ghost predicate EnclosesAll(objs: seq<Object>, c: BoundingBox) {
    forall i :: 0 <= i < |objs| ==> BoxWithin(objs[i].bounds, c)
  }

  /** The slice `bounding_box`: `union` folded over the objects from the all-sentinel
      box. The result encloses every object's box and is the smallest such box; an
      empty slice gives the sentinel box. */
  function SliceBounds(objs: seq<Object>): (b: BoundingBox)
    ensures EnclosesAll(objs, b)
    ensures forall c {:trigger BoxWithin(b, c)} :: EnclosesAll(objs, c) ==> BoxWithin(b, c)
    ensures |objs| == 0 ==> b == EmptyBox()
  {
    if |objs| == 0 then EmptyBox()
    else
      var init := objs[..|objs| - 1];
      var acc := SliceBounds(init);
      var u := Bounding.Union(acc, objs[|objs| - 1].bounds);
      assert EnclosesAll(objs, u) by {
        forall i | 0 <= i < |objs| ensures BoxWithin(objs[i].bounds, u) {
          if i < |objs| - 1 {
            assert init[i] == objs[i];
            BoxWithinTrans(objs[i].bounds, acc, u);
          }
        }
      }
      assert forall c {:trigger BoxWithin(u, c)} :: EnclosesAll(objs, c) ==> BoxWithin(u, c) by {
        forall c | EnclosesAll(objs, c) ensures BoxWithin(u, c) {
          assert EnclosesAll(init, c) by {
            forall i | 0 <= i < |init| ensures BoxWithin(init[i].bounds, c) {
              assert init[i] == objs[i];
            }
          }
        }
      }
      u
  }

  /** Two boxes that are both the least enclosing box of the same objects are equal. */
  lemma LeastUnique(a: seq<Object>, b: seq<Object>)
    requires forall c :: EnclosesAll(a, c) <==> EnclosesAll(b, c)
    ensures SliceBounds(a) == SliceBounds(b)
  {
    BoxWithinAntisym(SliceBounds(a), SliceBounds(b));
  }

  /** The enclosing box does not depend on the order of the objects. */
  lemma SliceBoundsPermutation(a: seq<Object>, b: seq<Object>)
    requires multiset(a) == multiset(b)
    ensures SliceBounds(a) == SliceBounds(b)
  {
    forall c ensures EnclosesAll(a, c) <==> EnclosesAll(b, c) {
      if EnclosesAll(a, c) {
        forall i | 0 <= i < |b| ensures BoxWithin(b[i].bounds, c) {
          assert b[i] in multiset(a);
          var j :| 0 <= j < |a| && a[j] == b[i];
        }
      }
      if EnclosesAll(b, c) {
        forall i | 0 <= i < |a| ensures BoxWithin(a[i].bounds, c) {
          assert a[i] in multiset(b);
          var j :| 0 <= j < |b| && b[j] == a[i];
        }
      }
    }
    LeastUnique(a, b);
  }

  /** The enclosing box of a concatenation is the union of the two parts' boxes. */
  lemma SliceBoundsAppend(a: seq<Object>, b: seq<Object>)
    ensures SliceBounds(a + b) == Bounding.Union(SliceBounds(a), SliceBounds(b))
  {
    var ab := a + b;
    var u := Bounding.Union(SliceBounds(a), SliceBounds(b));
    assert EnclosesAll(ab, u) by {
      forall i | 0 <= i < |ab| ensures BoxWithin(ab[i].bounds, u) {
        if i < |a| {
          BoxWithinTrans(ab[i].bounds, SliceBounds(a), u);
        } else {
          assert ab[i] == b[i - |a|];
          BoxWithinTrans(ab[i].bounds, SliceBounds(b), u);
        }
      }
    }
    var s := SliceBounds(ab);
    assert EnclosesAll(a, s) by {
      forall i | 0 <= i < |a| ensures BoxWithin(a[i].bounds, s) {
        assert ab[i] == a[i];
      }
    }
    assert EnclosesAll(b, s) by {
      forall i | 0 <= i < |b| ensures BoxWithin(b[i].bounds, s) {
        assert ab[|a| + i] == b[i];
      }
    }
    BoxWithinAntisym(s, u);
  }

  /** A single object's enclosing box is its own box. */
  lemma SliceBoundsSingle(o: Object)
    ensures SliceBounds([o]) == o.bounds
  {
    UnionEmptyIdentity(o.bounds);
  }

  /** `get_face`: a normal pointing along the ray is flipped and reported as the back
      face; otherwise it is kept and reported as the front face. Either way the
      returned normal faces against the ray. */
  function GetFace(direction: Vec3, outward: Vec3): (r: (bool, Vec3))
    ensures r.0 <==> Dot(direction, outward) <= 0.0
    ensures r.0 ==> r.1 == outward
    ensures !r.0 ==> r.1 == Neg(outward)
    ensures Dot(direction, r.1) <= 0.0
  {
    DotNeg(direction, outward);
    if Dot(direction, outward) > 0.0 then (false, Neg(outward)) else (true, outward)
  }
}
