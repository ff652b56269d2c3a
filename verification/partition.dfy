/** Horizontal bands of image rows. Both schedulers (src/threads.rs,
    src/utils/parallelization.rs and src/utils/parallel.cpp) hand out half-open row
    spans; this module states what it means for such spans to tile the rows
    `[0, total)` and proves that every row then belongs to exactly one span. */
module Partition {

  /** The rows `[lo, hi)`. */
  datatype Span = Span(lo: nat, hi: nat)

  predicate InSpan(s: Span, y: nat) {
    s.lo <= y < s.hi
  }

  /** Spans that start at row 0, follow each other without gap or overlap and end at
      row `total`. */
  ghost predicate Tiles(spans: seq<Span>, total: nat) {
    && (forall k :: 0 <= k < |spans| ==> spans[k].lo <= spans[k].hi)
    && (forall k :: 0 <= k < |spans| - 1 ==> spans[k].hi == spans[k + 1].lo)
    && (|spans| == 0 ==> total == 0)
    && (|spans| > 0 ==> spans[0].lo == 0 && spans[|spans| - 1].hi == total)
  }

  lemma {:induction false} SpansOrdered(spans: seq<Span>, total: nat, i: nat, j: nat)
    requires Tiles(spans, total)
    requires i < j < |spans|
    ensures spans[i].hi <= spans[j].lo
    decreases j - i
  {
    if i + 1 < j {
      SpansOrdered(spans, total, i + 1, j);
    }
  }

  /** Every row below `total` lies in some span. */
  lemma {:induction false} RowCovered(spans: seq<Span>, total: nat, y: nat) returns (k: nat)
    requires Tiles(spans, total)
    requires y < total
    ensures k < |spans| && InSpan(spans[k], y)
    decreases |spans|
  {
    var n := |spans| - 1;
    if y >= spans[n].lo {
      k := n;
    } else {
      var init := spans[..n];
      assert Tiles(init, spans[n].lo);
      k := RowCovered(init, spans[n].lo, y);
      assert init[k] == spans[k];
    }
  }

  /** Row `y` lies in one of the spans. */
  ghost predicate Covered(spans: seq<Span>, y: nat) {
    exists k :: 0 <= k < |spans| && InSpan(spans[k], y)
  }

  /** Spans that tile `[0, total)` cover each of its rows exactly once and no other
      row. */
  lemma CoversExactlyOnce(spans: seq<Span>, total: nat)
    requires Tiles(spans, total)
    ensures forall y: nat :: y < total ==> Covered(spans, y)
    ensures forall y: nat, k1, k2 :: 0 <= k1 < |spans| && 0 <= k2 < |spans| && InSpan(spans[k1], y) && InSpan(spans[k2], y) ==> k1 == k2
    ensures forall y: nat, k :: 0 <= k < |spans| && InSpan(spans[k], y) ==> y < total
  {
    forall y: nat | y < total
      ensures Covered(spans, y)
    {
      var k := RowCovered(spans, total, y);
    }
    forall y: nat, k1, k2 | 0 <= k1 < |spans| && 0 <= k2 < |spans| && InSpan(spans[k1], y) && InSpan(spans[k2], y)
      ensures k1 == k2
    {
      if k1 < k2 { SpansOrdered(spans, total, k1, k2); }
      if k2 < k1 { SpansOrdered(spans, total, k2, k1); }
    }
    forall y: nat, k | 0 <= k < |spans| && InSpan(spans[k], y)
      ensures y < total
    {
      if k < |spans| - 1 { SpansOrdered(spans, total, k, |spans| - 1); }
    }
  }

  /** The number of rows in all the spans together. */
  function TotalLength(spans: seq<Span>): nat {
    if |spans| == 0 then 0
    else
      var last := spans[|spans| - 1];
      TotalLength(spans[..|spans| - 1]) + (if last.lo <= last.hi then last.hi - last.lo else 0)
  }

  /** The heights of spans that tile `[0, total)` add up to `total`. */
  lemma {:induction false} TilesLength(spans: seq<Span>, total: nat)
    requires Tiles(spans, total)
    ensures TotalLength(spans) == total
    decreases |spans|
  {
    if |spans| > 0 {
      var n := |spans| - 1;
      var init := spans[..n];
      assert Tiles(init, spans[n].lo);
      TilesLength(init, spans[n].lo);
    }
  }
}
