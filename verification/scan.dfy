/** The linear nearest-hit scan shared by the slice `collide` of src/geometry/mod.rs and
    `World::hit` of src/geometry/world.cpp: every element is asked for a hit between
    the fixed lower bound and the parameter of the last hit found so far, and the last
    hit found is returned. */
module Scan {
  import opened ExtReals
  import opened Wrappers
  import opened Types

  /** A hit oracle reports only hits inside the range it is asked about. */
  ghost predicate Sound<T(!new), H>(hit: (T, Range) -> Option<H>, tOf: H -> real) {
    forall o, r :: hit(o, r).Some? ==> Contains(r, tOf(hit(o, r).value))
  }

  /** A hit oracle reports the nearest hit of its primitive: asked again about a
      sub-range that still holds that hit, it finds a hit at the same parameter; asked
      about a wider range, it finds a hit no farther away. */
  ghost predicate Consistent<T(!new), H>(hit: (T, Range) -> Option<H>, tOf: H -> real) {
    forall o, r, r' {:trigger hit(o, r), hit(o, r')} :: Within(r', r) ==>
      (hit(o, r).Some? && Contains(r', tOf(hit(o, r).value)) ==>
         hit(o, r').Some? && tOf(hit(o, r').value) == tOf(hit(o, r).value)) &&
      (hit(o, r').Some? ==> hit(o, r).Some? && tOf(hit(o, r).value) <= tOf(hit(o, r').value))
  }

  /** The loop state after the elements before `objs`: the upper bound in use and the
      last hit found. */
  function ScanFrom<T(!new), H>(objs: seq<T>, hit: (T, Range) -> Option<H>, tOf: H -> real,
                          lo: ExtReal, closest: ExtReal, found: Option<H>): Option<H>
    decreases |objs|
  {
    if |objs| == 0 then found
    else
      var h := hit(objs[0], Range(lo, closest));
      if h.Some? then ScanFrom(objs[1..], hit, tOf, lo, Fin(tOf(h.value)), h)
      else ScanFrom(objs[1..], hit, tOf, lo, closest, found)
  }

  /** The scan: `None` exactly when no element hits the whole range; otherwise a hit of
      one of the elements, inside the range whenever the oracle is sound. */
  function Nearest<T(!new), H>(objs: seq<T>, hit: (T, Range) -> Option<H>, tOf: H -> real, range: Range): (r: Option<H>)
    ensures r.None? <==> forall i :: 0 <= i < |objs| ==> hit(objs[i], range).None?
    ensures Sound(hit, tOf) && r.Some? ==> Contains(range, tOf(r.value))
  {
    ScanNone(objs, hit, tOf, range.lo, range.hi, None);
    ScanFound(objs, hit, tOf, range, range.hi, None);
    ScanFrom(objs, hit, tOf, range.lo, range.hi, None)
  }

  lemma {:induction false} ScanNone<T(!new), H>(objs: seq<T>, hit: (T, Range) -> Option<H>, tOf: H -> real,
                                          lo: ExtReal, closest: ExtReal, found: Option<H>)
    ensures ScanFrom(objs, hit, tOf, lo, closest, found).None? <==>
      found.None? && forall i :: 0 <= i < |objs| ==> hit(objs[i], Range(lo, closest)).None?
    decreases |objs|
  {
    if |objs| > 0 {
      var h := hit(objs[0], Range(lo, closest));
      if h.Some? {
        ScanNone(objs[1..], hit, tOf, lo, Fin(tOf(h.value)), h);
      } else {
        ScanNone(objs[1..], hit, tOf, lo, closest, found);
        forall i | 0 <= i < |objs[1..]| ensures objs[1..][i] == objs[i + 1] {}
      }
    }
  }

  /** With a sound oracle, a hit found while the upper bound shrinks lies in the
      original range. */
  lemma {:induction false} ScanFound<T(!new), H>(objs: seq<T>, hit: (T, Range) -> Option<H>, tOf: H -> real,
                                           range: Range, closest: ExtReal, found: Option<H>)
    requires Le(closest, range.hi)
    requires found.Some? ==> Contains(range, tOf(found.value))
    ensures Sound(hit, tOf) && ScanFrom(objs, hit, tOf, range.lo, closest, found).Some? ==>
      Contains(range, tOf(ScanFrom(objs, hit, tOf, range.lo, closest, found).value))
    decreases |objs|
  {
    if |objs| > 0 && Sound(hit, tOf) {
      var h := hit(objs[0], Range(range.lo, closest));
      if h.Some? {
        assert Contains(Range(range.lo, closest), tOf(h.value));
        LeTrans(Fin(tOf(h.value)), closest, range.hi);
        ScanFound(objs[1..], hit, tOf, range, Fin(tOf(h.value)), h);
      } else {
        ScanFound(objs[1..], hit, tOf, range, closest, found);
      }
    }
  }

  /** The scan returns the last hit: the hit some element reported, after which every
      later element misses the range cut down to that hit's parameter. */
  lemma {:induction false} ScanLast<T(!new), H>(objs: seq<T>, hit: (T, Range) -> Option<H>, tOf: H -> real,
                                                lo: ExtReal, closest: ExtReal, found: Option<H>)
    returns (k: int, c: ExtReal)
    ensures var r := ScanFrom(objs, hit, tOf, lo, closest, found);
      (k == -1 && r == found && forall j :: 0 <= j < |objs| ==> hit(objs[j], Range(lo, closest)).None?) ||
      (0 <= k < |objs| && r.Some? && hit(objs[k], Range(lo, c)) == r &&
       forall j :: k < j < |objs| ==> hit(objs[j], Range(lo, Fin(tOf(r.value)))).None?)
    decreases |objs|
  {
    if |objs| == 0 {
      k, c := -1, closest;
    } else {
      var h := hit(objs[0], Range(lo, closest));
      var rest := objs[1..];
      assert forall j :: 0 <= j < |rest| ==> rest[j] == objs[j + 1];
      if h.Some? {
        var k', c' := ScanLast(rest, hit, tOf, lo, Fin(tOf(h.value)), h);
        if k' == -1 {
          k, c := 0, closest;
        } else {
          k, c := k' + 1, c';
        }
      } else {
        var k', c' := ScanLast(rest, hit, tOf, lo, closest, found);
        if k' == -1 {
          k, c := -1, closest;
        } else {
          k, c := k' + 1, c';
        }
      }
    }
  }

  /** With a sound and consistent oracle the scan returns the nearest hit: its parameter
      is at most the parameter of any element's hit over the whole range. */
  lemma {:induction false} ScanNearest<T(!new), H>(objs: seq<T>, hit: (T, Range) -> Option<H>, tOf: H -> real,
                                                   range: Range, closest: ExtReal, found: Option<H>)
    requires Sound(hit, tOf) && Consistent(hit, tOf)
    requires found.Some? ==> closest == Fin(tOf(found.value)) && Le(closest, range.hi)
    requires found.None? ==> closest == range.hi
    ensures var r := ScanFrom(objs, hit, tOf, range.lo, closest, found);
      (found.Some? ==> r.Some? && Le(Fin(tOf(r.value)), closest)) &&
      (forall i :: 0 <= i < |objs| && hit(objs[i], range).Some? ==>
         r.Some? && tOf(r.value) <= tOf(hit(objs[i], range).value))
    decreases |objs|
  {
    if |objs| > 0 {
      var h := hit(objs[0], Range(range.lo, closest));
      var rest := objs[1..];
      assert forall j :: 0 <= j < |rest| ==> rest[j] == objs[j + 1];
      var r := ScanFrom(objs, hit, tOf, range.lo, closest, found);
      if h.Some? {
        var th := tOf(h.value);
        assert Contains(Range(range.lo, closest), th);
        LeTrans(Fin(th), closest, range.hi);
        ScanNearest(rest, hit, tOf, range, Fin(th), h);
        assert r.Some? && Le(Fin(tOf(r.value)), closest) by {
          LeTrans(Fin(tOf(r.value)), Fin(th), closest);
        }
      } else {
        ScanNearest(rest, hit, tOf, range, closest, found);
      }
      var full := hit(objs[0], range);
      if full.Some? {
        var t0 := tOf(full.value);
        assert Contains(range, t0);
        if Le(Fin(t0), closest) {
          assert Within(Range(range.lo, closest), range);
          assert Contains(Range(range.lo, closest), t0);
          assert h.Some? && tOf(h.value) == t0;
        } else {
          assert found.Some?;
        }
      }
    }
  }

  /** The nearest-hit property of `Nearest` itself. */
  lemma NearestIsNearest<T(!new), H>(objs: seq<T>, hit: (T, Range) -> Option<H>, tOf: H -> real, range: Range)
    requires Sound(hit, tOf) && Consistent(hit, tOf)
    ensures forall i :: 0 <= i < |objs| && hit(objs[i], range).Some? ==>
      Nearest(objs, hit, tOf, range).Some? &&
      tOf(Nearest(objs, hit, tOf, range).value) <= tOf(hit(objs[i], range).value)
  {
    ScanNearest(objs, hit, tOf, range, range.hi, None);
  }

  /** With a sound oracle, a hit the scan returns was reported by some element for a
      range inside the one the scan started from. */
  lemma {:induction false} ScanWitness<T(!new), H>(objs: seq<T>, hit: (T, Range) -> Option<H>, tOf: H -> real,
                                                   lo: ExtReal, closest: ExtReal, found: Option<H>)
    returns (k: int, c: ExtReal)
    requires Sound(hit, tOf)
    ensures var r := ScanFrom(objs, hit, tOf, lo, closest, found);
      r == found || (0 <= k < |objs| && Le(c, closest) && hit(objs[k], Range(lo, c)) == r)
    decreases |objs|
  {
    k, c := -1, closest;
    if |objs| > 0 {
      var h := hit(objs[0], Range(lo, closest));
      var rest := objs[1..];
      assert forall j :: 0 <= j < |rest| ==> rest[j] == objs[j + 1];
      if h.Some? {
        var th := Fin(tOf(h.value));
        assert Contains(Range(lo, closest), tOf(h.value));
        var k', c' := ScanWitness(rest, hit, tOf, lo, th, h);
        if ScanFrom(rest, hit, tOf, lo, th, h) == h {
          k, c := 0, closest;
        } else {
          LeTrans(c', th, closest);
          k, c := k' + 1, c';
        }
      } else {
        var k', c' := ScanWitness(rest, hit, tOf, lo, closest, found);
        if ScanFrom(rest, hit, tOf, lo, closest, found) != found {
          k, c := k' + 1, c';
        }
      }
    }
  }

  /** With a sound and consistent oracle the scan's parameter is the least parameter any
      element reports over the whole range, and an element attaining it is returned. */
  lemma NearestIsMinimum<T(!new), H>(objs: seq<T>, hit: (T, Range) -> Option<H>, tOf: H -> real, range: Range)
    returns (k: nat)
    requires Sound(hit, tOf) && Consistent(hit, tOf)
    requires Nearest(objs, hit, tOf, range).Some?
    ensures k < |objs| && hit(objs[k], range).Some?
    ensures tOf(hit(objs[k], range).value) == tOf(Nearest(objs, hit, tOf, range).value)
  {
    var r := Nearest(objs, hit, tOf, range);
    var k', c := ScanWitness(objs, hit, tOf, range.lo, range.hi, None);
    assert Within(Range(range.lo, c), range);
    k := k';
    NearestIsNearest(objs, hit, tOf, range);
  }

  /** With a sound and consistent oracle, the scan's outcome depends only on which
      elements are scanned, not on their order or repetition: two sequences with the
      same elements miss together or find the same parameter. */
  lemma NearestSameElements<T(!new), H>(a: seq<T>, b: seq<T>, hit: (T, Range) -> Option<H>, tOf: H -> real, range: Range)
    requires Sound(hit, tOf) && Consistent(hit, tOf)
    requires forall x :: x in a <==> x in b
    ensures Nearest(a, hit, tOf, range).None? <==> Nearest(b, hit, tOf, range).None?
    ensures Nearest(a, hit, tOf, range).Some? ==>
      tOf(Nearest(a, hit, tOf, range).value) == tOf(Nearest(b, hit, tOf, range).value)
  {
    NearestIsNearest(a, hit, tOf, range);
    NearestIsNearest(b, hit, tOf, range);
    if Nearest(a, hit, tOf, range).Some? {
      var k := NearestIsMinimum(a, hit, tOf, range);
      assert a[k] in a;
      var j :| 0 <= j < |b| && b[j] == a[k];
    }
    if Nearest(b, hit, tOf, range).Some? {
      var k := NearestIsMinimum(b, hit, tOf, range);
      assert b[k] in b;
      var j :| 0 <= j < |a| && a[j] == b[k];
    }
  }
}
