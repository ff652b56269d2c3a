/** src/threads.rs: the scheduler that splits the image rows into one band per core
    and glues the rendered bands back together by id. */
module Threads {
  import opened ExtReals
  import opened Wrappers
  import opened Types
  import opened Partition
  import opened Sorting

  /** A unit of work: the band's dimensions and its upper-left corner. */
  type Band = (Dimensions, TileCorner)

  /** The height of band `k` of `n`: the base share `height / n`, plus one row for each
      of the first `height % n` bands. */
  function BandHeight(height: nat, n: nat, k: nat): nat
    requires n > 0
  {
    height / n + (if k < height % n then 1 else 0)
  }

  /** The row band `k` starts at: the heights of the bands before it. */
  function BandOffset(height: nat, n: nat, k: nat): nat
    requires n > 0
  {
    k * (height / n) + (if k < height % n then k else height % n)
  }

  /** The rows a band covers. */
  function SpanOf(b: Band): Span {
    Span(b.1.y, b.1.y + b.0.height)
  }

  function Spans(bands: seq<Band>): (s: seq<Span>)
    ensures |s| == |bands| && forall k :: 0 <= k < |bands| ==> s[k] == SpanOf(bands[k])
  {
    seq(|bands|, k requires 0 <= k < |bands| => SpanOf(bands[k]))
  }

  lemma OffsetStep(height: nat, n: nat, k: nat)
    requires n > 0
    ensures BandOffset(height, n, k + 1) == BandOffset(height, n, k) + BandHeight(height, n, k)
  {
    assert (k + 1) * (height / n) == k * (height / n) + height / n;
  }

  /** `determine_work`: `n` bands (`num_cores`; 0 makes the division panic), each the
      full image width at x offset 0. Band `k` is `height / n` rows high plus one row
      when `k < height % n`, and starts where the previous band ends. */
  method DetermineWork(dims: Dimensions, n: nat) returns (results: seq<Band>)
    requires n > 0
    ensures |results| == n
    ensures forall k :: 0 <= k < n ==>
      results[k].0 == Dimensions(dims.width, BandHeight(dims.height, n, k)) &&
      results[k].1 == TileCorner(0, BandOffset(dims.height, n, k))
    ensures results == Work(dims, n)
  {
    var baseWork := dims.height / n;
    var remainder := dims.height % n;
    var yOffset := 0;
    results := [];
    var i := 0;
    while i < n
      invariant 0 <= i <= n
      invariant |results| == i
      invariant remainder == if i < dims.height % n then dims.height % n - i else 0
      invariant yOffset == BandOffset(dims.height, n, i)
      invariant forall k :: 0 <= k < i ==>
        results[k].0 == Dimensions(dims.width, BandHeight(dims.height, n, k)) &&
        results[k].1 == TileCorner(0, BandOffset(dims.height, n, k))
    {
      var extraWork := 0;
      if remainder != 0 {
        remainder := remainder - 1;
        extraWork := 1;
      }
      var newDims := Dimensions(dims.width, baseWork + extraWork);
      var corner := TileCorner(0, yOffset);
      OffsetStep(dims.height, n, i);
      yOffset := yOffset + baseWork + extraWork;
      results := results + [(newDims, corner)];
      i := i + 1;
    }
  }

  /** The bands `determine_work` produces, as a closed form. */
  function Work(dims: Dimensions, n: nat): (bands: seq<Band>)
    requires n > 0
    ensures |bands| == n
  {
    seq(n, k requires 0 <= k < n => (Dimensions(dims.width, BandHeight(dims.height, n, k)), TileCorner(0, BandOffset(dims.height, n, k))))
  }

  /** The bands tile the rows `[0, height)`: every row belongs to exactly one band and
      their heights add up to the image height. The heights differ by at most one, only
      the first `height % n` bands get the extra row, and they never increase along
      the list. */
  lemma WorkTiles(dims: Dimensions, n: nat)
    requires n > 0
    ensures Tiles(Spans(Work(dims, n)), dims.height)
    ensures TotalLength(Spans(Work(dims, n))) == dims.height
    ensures forall k :: 0 <= k < n ==>
      dims.height / n <= Work(dims, n)[k].0.height <= dims.height / n + 1 &&
      (Work(dims, n)[k].0.height == dims.height / n + 1 <==> k < dims.height % n)
    ensures forall j, k :: 0 <= j < k < n ==> Work(dims, n)[k].0.height <= Work(dims, n)[j].0.height
  {
    var bands := Work(dims, n);
    var spans := Spans(bands);
    forall k | 0 <= k < n - 1
      ensures spans[k].hi == spans[k + 1].lo
    {
      OffsetStep(dims.height, n, k);
    }
    OffsetStep(dims.height, n, n - 1);
    assert spans[n - 1].hi == BandOffset(dims.height, n, n);
    assert BandOffset(dims.height, n, n) == dims.height;
    TilesLength(spans, dims.height);
  }

  /** The key `join_canvases` sorts by: the tile's id. */
  function IdKey<T>(c: (nat, T)): ExtReal { Fin(c.0 as real) }

  /** Folds `join` over a non-empty list from the left, as `reduce` does. */
  function Reduce<T>(s: seq<T>, join: (T, T) -> T): T
    requires |s| > 0
  {
    if |s| == 1 then s[0] else join(Reduce(s[..|s| - 1], join), s[|s| - 1])
  }

  function Canvases<T>(s: seq<(nat, T)>): (r: seq<T>)
    ensures |r| == |s| && forall k :: 0 <= k < |s| ==> r[k] == s[k].1
  {
    seq(|s|, k requires 0 <= k < |s| => s[k].1)
  }

  /** `join_canvases`: the tiles are sorted by id and joined in that order with
      `join_vertical` (an oracle); an empty list panics (`None`). The joined tiles are
      the input's tiles in ascending id order. */
  function JoinCanvases<T(!new)>(tiles: seq<(nat, T)>, joinVertical: (T, T) -> T): (r: Option<T>)
    ensures r.None? <==> |tiles| == 0
    ensures r.Some? ==> exists sorted ::
      multiset(sorted) == multiset(tiles) && SortedBy(sorted, IdKey) && |sorted| > 0 &&
      r.value == Reduce(Canvases(sorted), joinVertical)
  {
    if |tiles| == 0 then None
    else
      var sorted := SortBy(tiles, IdKey);
      Some(Reduce(Canvases(sorted), joinVertical))
  }

  /** When the ids tell the tiles apart, the joined image does not depend on the order
      in which the threads delivered their tiles. */
  lemma JoinOrderIndependent<T(!new)>(a: seq<(nat, T)>, b: seq<(nat, T)>, joinVertical: (T, T) -> T)
    requires multiset(a) == multiset(b)
    requires forall i, j :: 0 <= i < |a| && 0 <= j < |a| && a[i].0 == a[j].0 ==> a[i] == a[j]
    ensures JoinCanvases(a, joinVertical) == JoinCanvases(b, joinVertical)
  {
    assert |a| == |multiset(a)| == |b|;
    assert KeyInjective(a, IdKey);
    SortCanonical(a, b, IdKey);
  }

  /** Tiles delivered already in ascending id order are joined in that order. */
  lemma JoinSortedInput<T(!new)>(tiles: seq<(nat, T)>, joinVertical: (T, T) -> T)
    requires |tiles| > 0
    requires forall i, j :: 0 <= i < j < |tiles| ==> tiles[i].0 <= tiles[j].0
    ensures JoinCanvases(tiles, joinVertical) == Some(Reduce(Canvases(tiles), joinVertical))
  {
    assert SortedBy(tiles, IdKey);
    SortSortedIdentity(tiles, IdKey);
  }
}
