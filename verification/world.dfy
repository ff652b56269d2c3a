/** src/geometry/world.cpp: the C++ world as a flat list of observables. */
module World {
  import opened ExtReals
  import opened Wrappers
  import opened Types
  import opened AxisBoxes
  import opened Observable
  import Scan

  /** An observable seen from outside: an identity and the box it reports, if any. Its
      `hit` is an oracle `(CObject, Range) -> Option<Observation>` for a fixed ray, the
      range standing for the `(tMin, tMax)` pair. */
  datatype CObject = CObject(id: nat, box: Option<AxisBox>)

  function ObservationT(o: Observation): real { o.t }

  /** `World::hit`: the linear scan that shrinks `closestSoFar` to each hit. `None`
      exactly when no object hits `[tMin, tMax]`; a hit is inside that range when the
      oracle is sound. */
  function Hit(objects: seq<CObject>, hit: (CObject, Range) -> Option<Observation>, range: Range): (r: Option<Observation>)
    ensures r.None? <==> forall i :: 0 <= i < |objects| ==> hit(objects[i], range).None?
    ensures Scan.Sound(hit, ObservationT) && r.Some? ==> Contains(range, r.value.t)
  {
    Scan.Nearest(objects, hit, ObservationT, range)
  }

  /** `World::hit` returns the last hit found, and with a sound and consistent oracle
      that hit is the nearest. */
  lemma HitIsLastAndNearest(objects: seq<CObject>, hit: (CObject, Range) -> Option<Observation>, range: Range)
    returns (k: int, c: ExtReal)
    requires Scan.Sound(hit, ObservationT) && Scan.Consistent(hit, ObservationT)
    ensures Hit(objects, hit, range).Some? ==>
      0 <= k < |objects| && hit(objects[k], Range(range.lo, c)) == Hit(objects, hit, range) &&
      forall j :: k < j < |objects| ==> hit(objects[j], Range(range.lo, Fin(Hit(objects, hit, range).value.t))).None?
    ensures forall i :: 0 <= i < |objects| && hit(objects[i], range).Some? ==>
      Hit(objects, hit, range).Some? && Hit(objects, hit, range).value.t <= hit(objects[i], range).value.t
  {
    k, c := Scan.ScanLast(objects, hit, ObservationT, range.lo, range.hi, None);
    Scan.NearestIsNearest(objects, hit, ObservationT, range);
  }

  /** Some object of `objects` reports a box. */
  predicate AnyBox(objects: seq<CObject>) {
    exists i :: 0 <= i < |objects| && objects[i].box.Some?
  }

  /** `c` encloses every box the objects report. */
  ghost predicate EnclosesAll(objects: seq<CObject>, c: AxisBox) {
    forall i :: 0 <= i < |objects| && objects[i].box.Some? ==> Encloses(c, objects[i].box.value)
  }

  /** The `isFirstBox` loop: `acc` is `None` while no box has been seen yet. */
  function Gather(objects: seq<CObject>): (acc: Option<AxisBox>)
    ensures acc.Some? <==> AnyBox(objects)
    ensures acc.Some? ==> EnclosesAll(objects, acc.value)
    ensures acc.Some? ==> forall c {:trigger Encloses(c, acc.value)} :: EnclosesAll(objects, c) ==> Encloses(c, acc.value)
  {
    if |objects| == 0 then None
    else
      var init := objects[..|objects| - 1];
      var last := objects[|objects| - 1];
      var acc := Gather(init);
      assert forall i :: 0 <= i < |init| ==> init[i] == objects[i];
      assert forall c :: EnclosesAll(objects, c) ==> EnclosesAll(init, c);
      match last.box
      case None => acc
      case Some(b) =>
        if acc.None? then Some(b)
        else
          var s := SurroundingBox(acc.value, b);
          assert EnclosesAll(objects, s) by {
            forall i | 0 <= i < |objects| && objects[i].box.Some?
              ensures Encloses(s, objects[i].box.value)
            {
              if i < |init| { EnclosesTrans(s, acc.value, objects[i].box.value); }
            }
          }
          Some(s)
  }

  lemma EnclosesTrans(a: AxisBox, b: AxisBox, c: AxisBox)
    requires Encloses(a, b) && Encloses(b, c)
    ensures Encloses(a, c)
  {}

  /** `World::boundingBox`: an empty world has no box; otherwise the smallest box
      enclosing every reported box, or the default origin box when none is reported. */
  function BoundingBox(objects: seq<CObject>): (r: Option<AxisBox>)
    ensures r.None? <==> |objects| == 0
    ensures r.Some? ==> EnclosesAll(objects, r.value)
    ensures r.Some? && AnyBox(objects) ==>
      forall c {:trigger Encloses(c, r.value)} :: EnclosesAll(objects, c) ==> Encloses(c, r.value)
    ensures r.Some? && !AnyBox(objects) ==> r.value == DefaultBox()
  {
    if |objects| == 0 then None
    else
      match Gather(objects)
      case None => Some(DefaultBox())
      case Some(b) => Some(b)
  }

  /** The world box does not depend on the order of the objects. */
  lemma BoundingBoxPermutation(a: seq<CObject>, b: seq<CObject>)
    requires multiset(a) == multiset(b)
    ensures BoundingBox(a) == BoundingBox(b)
  {
    assert |a| == |multiset(a)| == |b|;
    assert AnyBox(a) <==> AnyBox(b) by {
      if AnyBox(a) {
        var i :| 0 <= i < |a| && a[i].box.Some?;
        assert a[i] in multiset(b);
        var j :| 0 <= j < |b| && b[j] == a[i];
      }
      if AnyBox(b) {
        var i :| 0 <= i < |b| && b[i].box.Some?;
        assert b[i] in multiset(a);
        var j :| 0 <= j < |a| && a[j] == b[i];
      }
    }
    forall c ensures EnclosesAll(a, c) <==> EnclosesAll(b, c) {
      if EnclosesAll(a, c) {
        forall i | 0 <= i < |b| && b[i].box.Some? ensures Encloses(c, b[i].box.value) {
          assert b[i] in multiset(a);
          var j :| 0 <= j < |a| && a[j] == b[i];
        }
      }
      if EnclosesAll(b, c) {
        forall i | 0 <= i < |a| && a[i].box.Some? ensures Encloses(c, a[i].box.value) {
          assert a[i] in multiset(b);
          var j :| 0 <= j < |b| && b[j] == a[i];
        }
      }
    }
    if |a| > 0 && AnyBox(a) {
      EnclosesAntisym(BoundingBox(a).value, BoundingBox(b).value);
    }
  }
}
