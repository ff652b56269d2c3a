/** src/render/mod.rs: the Rust integrator `ray_color` and the pixel loop of
    `Renderer::render`. The scene (`Geometry::collide`), the material's `scatter`,
    `normalize` and the camera's jittered rays are oracles. */
module RustRender {
  import opened ExtReals
  import opened Wrappers
  import opened Vectors
  import opened Types
  import opened Colors
  import opened Grids
  import opened PngTiles
  import RustMaterials

  /** The range every scene query uses: hits closer than `0.001` are ignored, so a
      scattered ray does not hit the surface it leaves. */
  const SceneRange: Range := Range(Fin(0.001), PosInf)

  /** The background: white straight down, sky blue straight up, blended linearly in
      the height of the unit direction. */
  function Sky(unit: Vec3): (c: Color)
    ensures unit.y == -1.0 ==> c == White
    ensures unit.y == 1.0 ==> c == SkyBlue
    ensures -1.0 <= unit.y <= 1.0 ==> InUnitCube(c)
  {
    Lerp(White, SkyBlue, (unit.y + 1.0) / 2.0)
  }

  /** `ray_color`, paired with the number of scene queries it makes. Depth 0 is black
      without a query; otherwise the scene is queried once on `SceneRange`. A miss
      gives the background of the normalised direction, an absorbed hit gives black,
      and a scattered hit gives the scattered ray's colour (one level shallower)
      multiplied channel by channel with the attenuation. */
  function RayColor<H>(ray: Ray, world: (Ray, Range) -> Option<H>, scatter: (Ray, H) -> Option<RustMaterials.Scatter>,
                       normalize: Vec3 -> Vec3, depth: nat): (r: (Color, nat))
    ensures r.1 <= depth
    ensures depth == 0 <==> r.1 == 0
    ensures depth == 0 ==> r.0 == Black
    ensures depth > 0 && world(ray, SceneRange).None? ==> r == (Sky(normalize(ray.direction)), 1)
    ensures depth > 0 && world(ray, SceneRange).Some? && scatter(ray, world(ray, SceneRange).value).None? ==> r == (Black, 1)
    decreases depth
  {
    if depth == 0 then (Black, 0)
    else
      match world(ray, SceneRange)
      case None => (Sky(normalize(ray.direction)), 1)
      case Some(hit) =>
        match scatter(ray, hit)
        case None => (Black, 1)
        case Some(s) =>
          var next := RayColor(s.scattered, world, scatter, normalize, depth - 1);
          (Mul(next.0, s.attenuation), next.1 + 1)
  }

  /** Scenes that agree on `SceneRange` give the same colour with the same number of
      queries: nothing outside that range is ever asked for. */
  lemma {:induction false} OnlySceneRangeMatters<H>(ray: Ray, world1: (Ray, Range) -> Option<H>, world2: (Ray, Range) -> Option<H>,
                                                    scatter: (Ray, H) -> Option<RustMaterials.Scatter>, normalize: Vec3 -> Vec3, depth: nat)
    requires forall r: Ray :: world1(r, SceneRange) == world2(r, SceneRange)
    ensures RayColor(ray, world1, scatter, normalize, depth) == RayColor(ray, world2, scatter, normalize, depth)
    decreases depth
  {
    if depth > 0 && world1(ray, SceneRange).Some? {
      var hit := world1(ray, SceneRange).value;
      if scatter(ray, hit).Some? {
        OnlySceneRangeMatters(scatter(ray, hit).value.scattered, world1, world2, scatter, normalize, depth - 1);
      }
    }
  }

  /** The sum of the first `n` sample colours of pixel `(i, j)`; `cast(i, j, k)` is the
      camera ray through the `k`-th jittered point of the pixel. */
  function SampleSum<H>(cast: (nat, nat, nat) -> Ray, world: (Ray, Range) -> Option<H>, scatter: (Ray, H) -> Option<RustMaterials.Scatter>,
                        normalize: Vec3 -> Vec3, maxDepth: nat, i: nat, j: nat, n: nat): Color
  {
    if n == 0 then Black
    else Plus(SampleSum(cast, world, scatter, normalize, maxDepth, i, j, n - 1), RayColor(cast(i, j, n - 1), world, scatter, normalize, maxDepth).0)
  }

  /** The colour of a pixel: the mean of its `samples` sample colours, so scaled back
      up by the count it is their sum. */
  function PixelColor<H>(cast: (nat, nat, nat) -> Ray, world: (Ray, Range) -> Option<H>, scatter: (Ray, H) -> Option<RustMaterials.Scatter>,
                         normalize: Vec3 -> Vec3, maxDepth: nat, i: nat, j: nat, samples: nat): (c: Color)
    requires samples > 0
    ensures ScaleRight(c, samples as real) == SampleSum(cast, world, scatter, normalize, maxDepth, i, j, samples)
  {
    var sum := SampleSum(cast, world, scatter, normalize, maxDepth, i, j, samples);
    DivideInverse(sum, samples as real);
    Color(sum.r / samples as real, sum.g / samples as real, sum.b / samples as real)
  }

  /** With a single sample per pixel the pixel shows that sample's colour. */
  lemma OneSampleIsRayColor<H>(cast: (nat, nat, nat) -> Ray, world: (Ray, Range) -> Option<H>, scatter: (Ray, H) -> Option<RustMaterials.Scatter>,
                               normalize: Vec3 -> Vec3, maxDepth: nat, i: nat, j: nat)
    ensures PixelColor(cast, world, scatter, normalize, maxDepth, i, j, 1) == RayColor(cast(i, j, 0), world, scatter, normalize, maxDepth).0
  {
    assert SampleSum(cast, world, scatter, normalize, maxDepth, i, j, 1) == Plus(Black, RayColor(cast(i, j, 0), world, scatter, normalize, maxDepth).0);
  }

  /** The sampling loop of one pixel: `samples` camera rays, each traced to
      `maxDepth`, their colours summed and the sum divided by the count. */
  method ShadePixel<H>(i: nat, j: nat, samples: nat, maxDepth: nat,
                       cast: (nat, nat, nat) -> Ray, world: (Ray, Range) -> Option<H>, scatter: (Ray, H) -> Option<RustMaterials.Scatter>,
                       normalize: Vec3 -> Vec3)
    returns (color: Color)
    requires samples > 0
    ensures color == PixelColor(cast, world, scatter, normalize, maxDepth, i, j, samples)
  {
    color := Black;
    var k := 0;
    while k < samples
      invariant k <= samples
      invariant color == SampleSum(cast, world, scatter, normalize, maxDepth, i, j, k)
    {
      color := Plus(color, RayColor(cast(i, j, k), world, scatter, normalize, maxDepth).0);
      k := k + 1;
    }
    color := Color(color.r / samples as real, color.g / samples as real, color.b / samples as real);
  }

  /** Every pixel of the tile on a row before `j`, or on row `j` left of column `i`,
      holds its own colour. */
  ghost predicate DoneBefore<H>(canvas: PngTile, i: nat, j: nat, samples: nat, maxDepth: nat,
                                cast: (nat, nat, nat) -> Ray, world: (Ray, Range) -> Option<H>, scatter: (Ray, H) -> Option<RustMaterials.Scatter>,
                                normalize: Vec3 -> Vec3, toBytes: Color -> Rgb)
    requires Valid(canvas) && samples > 0
  {
    forall i': nat, j': nat :: InTile(canvas, i', j') && (j' < j || (j' == j && i' < i)) ==>
      Pixel(canvas, i', j') == toBytes(PixelColor(cast, world, scatter, normalize, maxDepth, i', j', samples))
  }

  /** Setting pixel `(i, j)` to its own colour extends the finished part by one
      pixel. */
  lemma DoneStep<H>(canvas: PngTile, i: nat, j: nat, samples: nat, maxDepth: nat,
                    cast: (nat, nat, nat) -> Ray, world: (Ray, Range) -> Option<H>, scatter: (Ray, H) -> Option<RustMaterials.Scatter>,
                    normalize: Vec3 -> Vec3, toBytes: Color -> Rgb)
    requires Valid(canvas) && samples > 0 && InTile(canvas, i, j)
    requires DoneBefore(canvas, i, j, samples, maxDepth, cast, world, scatter, normalize, toBytes)
    ensures Set(canvas, i, j, toBytes(PixelColor(cast, world, scatter, normalize, maxDepth, i, j, samples))).Some?
    ensures var next := Set(canvas, i, j, toBytes(PixelColor(cast, world, scatter, normalize, maxDepth, i, j, samples))).value;
      Valid(next) && next.dimensions == canvas.dimensions && next.upperLeft == canvas.upperLeft &&
      DoneBefore(next, i + 1, j, samples, maxDepth, cast, world, scatter, normalize, toBytes)
  {
    SetInTile(canvas, i, j, toBytes(PixelColor(cast, world, scatter, normalize, maxDepth, i, j, samples)));
  }

  /** A finished row `j` up to the tile's right edge is the same as everything before
      row `j + 1`. */
  lemma DoneRow<H>(canvas: PngTile, j: nat, samples: nat, maxDepth: nat,
                   cast: (nat, nat, nat) -> Ray, world: (Ray, Range) -> Option<H>, scatter: (Ray, H) -> Option<RustMaterials.Scatter>,
                   normalize: Vec3 -> Vec3, toBytes: Color -> Rgb)
    requires Valid(canvas) && samples > 0
    requires DoneBefore(canvas, canvas.upperLeft.x + canvas.dimensions.width, j, samples, maxDepth, cast, world, scatter, normalize, toBytes)
    ensures DoneBefore(canvas, canvas.upperLeft.x, j + 1, samples, maxDepth, cast, world, scatter, normalize, toBytes)
  {}

  /** One pass of the inner loop of `render`: row `j` of the tile, left to right. */
  method RenderRow<H>(canvas0: PngTile, writes0: seq<(nat, nat)>, j: nat, samples: nat, maxDepth: nat,
                      cast: (nat, nat, nat) -> Ray, world: (Ray, Range) -> Option<H>, scatter: (Ray, H) -> Option<RustMaterials.Scatter>,
                      normalize: Vec3 -> Vec3, toBytes: Color -> Rgb)
    returns (canvas: PngTile, writes: seq<(nat, nat)>)
    requires Valid(canvas0) && samples > 0
    requires canvas0.upperLeft.y <= j < canvas0.upperLeft.y + canvas0.dimensions.height
    requires DoneBefore(canvas0, canvas0.upperLeft.x, j, samples, maxDepth, cast, world, scatter, normalize, toBytes)
    ensures canvas.dimensions == canvas0.dimensions && canvas.upperLeft == canvas0.upperLeft && Valid(canvas)
    ensures writes == writes0 + Row(canvas0.upperLeft.x, j, canvas0.dimensions.width)
    ensures DoneBefore(canvas, canvas.upperLeft.x, j + 1, samples, maxDepth, cast, world, scatter, normalize, toBytes)
  {
    var x0, width := canvas0.upperLeft.x, canvas0.dimensions.width;
    var row := Row(x0, j, width);
    canvas, writes := canvas0, writes0;
    var i := x0;
    while i < x0 + width
      invariant x0 <= i <= x0 + width
      invariant canvas.dimensions == canvas0.dimensions && canvas.upperLeft == canvas0.upperLeft && Valid(canvas)
      invariant writes == writes0 + row[..i - x0]
      invariant DoneBefore(canvas, i, j, samples, maxDepth, cast, world, scatter, normalize, toBytes)
    {
      var color := ShadePixel(i, j, samples, maxDepth, cast, world, scatter, normalize);
      DoneStep(canvas, i, j, samples, maxDepth, cast, world, scatter, normalize, toBytes);
      canvas := Set(canvas, i, j, toBytes(color)).value;
      assert row[..i + 1 - x0] == row[..i - x0] + [(i, j)];
      writes := writes + [(i, j)];
      i := i + 1;
    }
    assert row[..width] == row;
    DoneRow(canvas, j, samples, maxDepth, cast, world, scatter, normalize, toBytes);
  }

  /** `Renderer::render` for one tile: a black tile at `offset`, then for every row
      `j` and column `i` of the tile, in that order, the mean of the samples is
      converted to bytes (`toBytes`) and `set` at `(i, j)`. Every `set` succeeds, the
      log of pixels set is the tile's pixels row by row (each once, see
      `Grids.RowsExactlyOnce`), and every pixel ends up holding its own colour. */
  method Render<H>(dimensions: Dimensions, offset: TileCorner, samplesPerPixel: nat, maxDepth: nat,
                   cast: (nat, nat, nat) -> Ray, world: (Ray, Range) -> Option<H>, scatter: (Ray, H) -> Option<RustMaterials.Scatter>,
                   normalize: Vec3 -> Vec3, toBytes: Color -> Rgb)
    returns (canvas: PngTile, writes: seq<(nat, nat)>)
    requires samplesPerPixel > 0
    ensures canvas.dimensions == dimensions && canvas.upperLeft == offset && Valid(canvas)
    ensures writes == Rows(offset.x, offset.y, dimensions.width, dimensions.height)
    ensures forall i: nat, j: nat :: InTile(canvas, i, j) ==>
      Pixel(canvas, i, j) == toBytes(PixelColor(cast, world, scatter, normalize, maxDepth, i, j, samplesPerPixel))
  {
    canvas := WithOffset(dimensions, offset);
    writes := [];
    var j := offset.y;
    while j < offset.y + dimensions.height
      invariant offset.y <= j <= offset.y + dimensions.height
      invariant canvas.dimensions == dimensions && canvas.upperLeft == offset && Valid(canvas)
      invariant writes == Rows(offset.x, offset.y, dimensions.width, j - offset.y)
      invariant DoneBefore(canvas, offset.x, j, samplesPerPixel, maxDepth, cast, world, scatter, normalize, toBytes)
    {
      canvas, writes := RenderRow(canvas, writes, j, samplesPerPixel, maxDepth, cast, world, scatter, normalize, toBytes);
      j := j + 1;
    }
  }
}
