/** src/utils/parallelization.rs: the scheduler that cuts the image rows into bands of
    a fixed `division_step`, renders every band and glues the results by id. */
module Parallelization {
  import opened Wrappers
  import opened Types
  import opened Partition
  import opened Threads

  /** The bands `separate_lines` produces for the rows `[y, y + total)`: full bands of
      `step` rows while more than `step` rows remain, then one band with the rest. */
  function LinesFrom(width: nat, total: nat, y: nat, step: nat): (bands: seq<Band>)
    requires step > 0
    decreases total
  {
    if total > step then [(Dimensions(width, step), TileCorner(0, y))] + LinesFrom(width, total - step, y + step, step)
    else if total != 0 then [(Dimensions(width, total), TileCorner(0, y))]
    else []
  }

  /** `separate_lines`. `division_step` must be positive: with 0 the loop never ends
      (`render` asserts it first). The bands are `LinesFrom(width, height, 0, step)`. */
  method SeparateLines(dims: Dimensions, step: nat) returns (results: seq<Band>)
    requires step > 0
    ensures results == LinesFrom(dims.width, dims.height, 0, step)
  {
    var totalWork: nat := dims.height;
    var yOffset: nat := 0;
    results := [];
    while totalWork > step
      invariant yOffset + totalWork == dims.height
      invariant results + LinesFrom(dims.width, totalWork, yOffset, step) == LinesFrom(dims.width, dims.height, 0, step)
      decreases totalWork
    {
      var tile := (Dimensions(dims.width, step), TileCorner(0, yOffset));
      assert LinesFrom(dims.width, totalWork, yOffset, step) == [tile] + LinesFrom(dims.width, totalWork - step, yOffset + step, step);
      yOffset := yOffset + step;
      totalWork := totalWork - step;
      results := results + [tile];
    }
    if totalWork != 0 {
      results := results + [(Dimensions(dims.width, totalWork), TileCorner(0, yOffset))];
    }
  }

  /** There are `ceil(total / step)` bands for `[y, y + total)`: none for no rows,
      and otherwise the least count whose full bands reach `total` rows. */
  lemma {:induction false} LinesFromCount(width: nat, total: nat, y: nat, step: nat)
    requires step > 0
    ensures |LinesFrom(width, total, y, step)| == 0 <==> total == 0
    ensures total > 0 ==>
      (|LinesFrom(width, total, y, step)| - 1) * step < total <= |LinesFrom(width, total, y, step)| * step
    decreases total
  {
    if total > step {
      LinesFromCount(width, total - step, y + step, step);
      var n := |LinesFrom(width, total - step, y + step, step)|;
      assert |LinesFrom(width, total, y, step)| == n + 1;
      assert (n + 1) * step == n * step + step;
    }
  }

  /** The shape of the bands for `[y, y + total)`: band `k` has the full width and
      starts at row `y + k * step` at x offset 0, and every band but the last is `step`
      rows high. */
  ghost predicate Shaped(bands: seq<Band>, width: nat, y: nat, step: nat) {
    forall k :: 0 <= k < |bands| ==>
      bands[k].0.width == width && bands[k].1 == TileCorner(0, y + k * step) &&
      (k < |bands| - 1 ==> bands[k].0.height == step)
  }

  lemma {:induction false} LinesFromOffsets(width: nat, total: nat, y: nat, step: nat)
    requires step > 0
    ensures Shaped(LinesFrom(width, total, y, step), width, y, step)
    decreases total
  {
    var bands := LinesFrom(width, total, y, step);
    if total > step {
      var rest := LinesFrom(width, total - step, y + step, step);
      LinesFromOffsets(width, total - step, y + step, step);
      assert bands == [bands[0]] + rest;
      forall k | 0 <= k < |bands|
        ensures bands[k].0.width == width && bands[k].1 == TileCorner(0, y + k * step)
        ensures k < |bands| - 1 ==> bands[k].0.height == step
      {
        if k > 0 {
          assert bands[k] == rest[k - 1];
          assert y + step + (k - 1) * step == y + k * step;
        }
      }
    }
  }

  /** The last band of `[y, y + total)` has between 1 and `step` rows and ends at row
      `y + total`. */
  lemma {:induction false} LinesFromLast(width: nat, total: nat, y: nat, step: nat)
    requires step > 0
    ensures var bands := LinesFrom(width, total, y, step);
      |bands| > 0 ==>
        1 <= bands[|bands| - 1].0.height <= step &&
        bands[|bands| - 1].1.y + bands[|bands| - 1].0.height == y + total
    decreases total
  {
    if total > step {
      var bands := LinesFrom(width, total, y, step);
      var rest := LinesFrom(width, total - step, y + step, step);
      LinesFromLast(width, total - step, y + step, step);
      assert bands == [bands[0]] + rest;
    }
  }

  /** The bands of the whole image tile the rows `[0, height)`. */
  lemma BandsTile(dims: Dimensions, step: nat)
    requires step > 0
    ensures Tiles(Spans(LinesFrom(dims.width, dims.height, 0, step)), dims.height)
  {
    var bands := LinesFrom(dims.width, dims.height, 0, step);
    var spans := Spans(bands);
    LinesFromCount(dims.width, dims.height, 0, step);
    LinesFromOffsets(dims.width, dims.height, 0, step);
    LinesFromLast(dims.width, dims.height, 0, step);
    forall k | 0 <= k < |spans| - 1
      ensures spans[k].hi == spans[k + 1].lo
    {
      assert k * step + step == (k + 1) * step;
    }
  }

  /** The bands of the whole image tile the rows `[0, height)` and their heights add
      up to the image height; an image with no rows gives no bands. */
  lemma SeparateLinesTiles(dims: Dimensions, step: nat)
    requires step > 0
    ensures Tiles(Spans(LinesFrom(dims.width, dims.height, 0, step)), dims.height)
    ensures TotalLength(Spans(LinesFrom(dims.width, dims.height, 0, step))) == dims.height
    ensures dims.height == 0 <==> |LinesFrom(dims.width, dims.height, 0, step)| == 0
  {
    BandsTile(dims, step);
    LinesFromCount(dims.width, dims.height, 0, step);
    TilesLength(Spans(LinesFrom(dims.width, dims.height, 0, step)), dims.height);
  }

  /** The ids `enumerate` gives the bands. */
  function Numbered(bands: seq<Band>): (r: seq<(nat, Band)>)
    ensures |r| == |bands| && forall k :: 0 <= k < |bands| ==> r[k] == (k, bands[k])
  {
    seq(|bands|, k requires 0 <= k < |bands| => (k as nat, bands[k]))
  }

  /** The per-band canvases, each tagged with its band's id; `renderBand` stands for
      `camera.render(id, dimensions, offset, ..)`. */
  function RenderBands<T>(bands: seq<Band>, renderBand: (nat, Dimensions, TileCorner) -> T): (r: seq<(nat, T)>)
    ensures |r| == |bands| && forall k :: 0 <= k < |bands| ==> r[k] == (k, renderBand(k, bands[k].0, bands[k].1))
  {
    seq(|bands|, k requires 0 <= k < |bands| => (k as nat, renderBand(k, bands[k].0, bands[k].1)))
  }

  /** `glue_canvases`: sort by id and join, exactly as `join_canvases`; an empty list
      panics (`None`). */
  function GlueCanvases<T(!new)>(canvases: seq<(nat, T)>, joinVertical: (T, T) -> T): (r: Option<T>)
    ensures r.None? <==> |canvases| == 0
    ensures r == JoinCanvases(canvases, joinVertical)
  {
    JoinCanvases(canvases, joinVertical)
  }

  /** `render`: panics (`None`) when `division_step` is 0, and also when the image has
      no rows, because gluing an empty list of canvases panics. Otherwise the bands'
      canvases are joined in band order. */
  function Render<T(!new)>(dims: Dimensions, step: nat, renderBand: (nat, Dimensions, TileCorner) -> T, joinVertical: (T, T) -> T): (r: Option<T>)
    ensures r.None? <==> step == 0 || dims.height == 0
    ensures r.Some? ==> r.value == Reduce(Canvases(RenderBands(LinesFrom(dims.width, dims.height, 0, step), renderBand)), joinVertical)
  {
    if step == 0 then None
    else
      var canvases := RenderBands(LinesFrom(dims.width, dims.height, 0, step), renderBand);
      SeparateLinesTiles(dims, step);
      if |canvases| == 0 then GlueCanvases(canvases, joinVertical)
      else
        JoinSortedInput(canvases, joinVertical);
        GlueCanvases(canvases, joinVertical)
  }

  /** `render_single_threaded`: `render` with the step equal to the image height, so a
      non-empty image is rendered as one band, the whole image at corner `(0, 0)`. */
  function RenderSingleThreaded<T(!new)>(dims: Dimensions, renderBand: (nat, Dimensions, TileCorner) -> T, joinVertical: (T, T) -> T): (r: Option<T>)
    ensures r.None? <==> dims.height == 0
    ensures r.Some? ==> r.value == renderBand(0, dims, TileCorner(0, 0))
  {
    assert dims.height > 0 ==> LinesFrom(dims.width, dims.height, 0, dims.height) == [(dims, TileCorner(0, 0))];
    Render(dims, dims.height, renderBand, joinVertical)
  }
}
