/** src/scene.cpp: the C++ integrator `getColor` and the per-scanner pixel loop
    `scan`. The scene (`BVH::hit`), the material's `scatter`, `normalize` and the
    camera's jittered rays are oracles. */
module CppScene {
  import opened ExtReals
  import opened Wrappers
  import opened Vectors
  import opened Types
  import opened Colors
  import opened Grids
  import Ppms
  import opened Partition
  import CppMaterials
  import RustMaterials
  import RustRender
  import ParallelCpp

  /** The range of every scene query: `tMin = 1e-3`, `tMax = infinity`. */
  const SceneRange: Range := Range(Fin(0.001), PosInf)

  /** The depth `scan` gives every sample. */
  const MaxDepth: int := 25

  /** The background, written as `t * (0.5, 0.7, 1) + (1 - t) * (1, 1, 1)`. */
  function Background(unit: Vec3): (c: Color)
    ensures c == RustRender.Sky(unit)
  {
    var t := 0.5 * (unit.y + 1.0);
    Plus(ScaleLeft(t, SkyBlue), ScaleLeft(1.0 - t, White))
  }

  /** `getColor`: black for any depth at or below zero; otherwise one scene query on
      `SceneRange`, the background on a miss, black when the material absorbs, and
      the attenuation times the scattered ray's colour one level shallower. */
  function GetColor<H>(ray: Ray, world: (Ray, Range) -> Option<H>, scatter: (Ray, H) -> Option<CppMaterials.Pair>,
                       normalize: Vec3 -> Vec3, depth: int): (c: Color)
    ensures depth <= 0 ==> c == Black
    ensures depth > 0 && world(ray, SceneRange).None? ==> c == Background(normalize(ray.direction))
    ensures depth > 0 && world(ray, SceneRange).Some? && scatter(ray, world(ray, SceneRange).value).None? ==> c == Black
    decreases depth
  {
    if depth <= 0 then Black
    else
      match world(ray, SceneRange)
      case None => Background(normalize(ray.direction))
      case Some(obs) =>
        match scatter(ray, obs)
        case None => Black
        case Some(pair) => Mul(pair.attenuation, GetColor(pair.scattered, world, scatter, normalize, depth - 1))
  }

  /** The agreement of the two materials, at one ray and hit. */
  lemma ScatterAlikeAt<H>(cppScatter: (Ray, H) -> Option<CppMaterials.Pair>, rsScatter: (Ray, H) -> Option<RustMaterials.Scatter>, r: Ray, h: H)
    requires forall r: Ray, h: H :: cppScatter(r, h).None? <==> rsScatter(r, h).None?
    requires forall r: Ray, h: H :: cppScatter(r, h).Some? ==>
      cppScatter(r, h).value.scattered == rsScatter(r, h).value.scattered &&
      cppScatter(r, h).value.attenuation == rsScatter(r, h).value.attenuation
    ensures cppScatter(r, h).None? <==> rsScatter(r, h).None?
    ensures cppScatter(r, h).Some? ==>
      cppScatter(r, h).value.scattered == rsScatter(r, h).value.scattered &&
      cppScatter(r, h).value.attenuation == rsScatter(r, h).value.attenuation
  {}

  /** Given the same scene and materials that scatter alike, the two integrators
      compute the same colour at every depth. */
  lemma {:induction false} GetColorAgreesWithRust<H>(ray: Ray, world: (Ray, Range) -> Option<H>,
                                                     cppScatter: (Ray, H) -> Option<CppMaterials.Pair>,
                                                     rsScatter: (Ray, H) -> Option<RustMaterials.Scatter>,
                                                     normalize: Vec3 -> Vec3, depth: nat)
    requires forall r: Ray, h: H :: cppScatter(r, h).None? <==> rsScatter(r, h).None?
    requires forall r: Ray, h: H :: cppScatter(r, h).Some? ==>
      cppScatter(r, h).value.scattered == rsScatter(r, h).value.scattered &&
      cppScatter(r, h).value.attenuation == rsScatter(r, h).value.attenuation
    ensures GetColor(ray, world, cppScatter, normalize, depth) == RustRender.RayColor(ray, world, rsScatter, normalize, depth).0
    decreases depth
  {
    if depth > 0 && world(ray, SceneRange).Some? {
      var obs := world(ray, SceneRange).value;
      ScatterAlikeAt(cppScatter, rsScatter, ray, obs);
      if cppScatter(ray, obs).Some? {
        var pair := cppScatter(ray, obs).value;
        GetColorAgreesWithRust(pair.scattered, world, cppScatter, rsScatter, normalize, depth - 1);
        MulCommutes(pair.attenuation, GetColor(pair.scattered, world, cppScatter, normalize, depth - 1));
      }
    }
  }

  /** The sum of the first `n` sample colours of pixel `(x, y)`. */
  function SampleSum<H>(cast: (int, int, nat) -> Ray, world: (Ray, Range) -> Option<H>, scatter: (Ray, H) -> Option<CppMaterials.Pair>,
                        normalize: Vec3 -> Vec3, x: int, y: int, n: nat): Color
  {
    if n == 0 then Black
    else Plus(SampleSum(cast, world, scatter, normalize, x, y, n - 1), GetColor(cast(x, y, n - 1), world, scatter, normalize, MaxDepth))
  }

  /** The colour `scan` stores: the sum of the samples times `1 / pixelSamples`, so
      the mean of the samples; scaled back up by the count it is their sum. */
  function PixelColor<H>(cast: (int, int, nat) -> Ray, world: (Ray, Range) -> Option<H>, scatter: (Ray, H) -> Option<CppMaterials.Pair>,
                         normalize: Vec3 -> Vec3, x: int, y: int, samples: nat): (c: Color)
    requires samples > 0
    ensures ScaleRight(c, samples as real) == SampleSum(cast, world, scatter, normalize, x, y, samples)
  {
    ScaleInverse(SampleSum(cast, world, scatter, normalize, x, y, samples), samples as real);
    ScaleRight(SampleSum(cast, world, scatter, normalize, x, y, samples), 1.0 / samples as real)
  }

  /** The sampling loop of one pixel. */
  method ShadePixel<H>(x: int, y: int, samples: nat, cast: (int, int, nat) -> Ray, world: (Ray, Range) -> Option<H>,
                       scatter: (Ray, H) -> Option<CppMaterials.Pair>, normalize: Vec3 -> Vec3)
    returns (color: Color)
    requires samples > 0
    ensures color == PixelColor(cast, world, scatter, normalize, x, y, samples)
  {
    color := Black;
    var s := 0;
    while s < samples
      invariant s <= samples
      invariant color == SampleSum(cast, world, scatter, normalize, x, y, s)
    {
      color := Plus(color, GetColor(cast(x, y, s), world, scatter, normalize, MaxDepth));
      s := s + 1;
    }
    color := ScaleRight(color, 1.0 / samples as real);
  }

  /** The pixels of `scanner`: columns `[0, width)` of rows `[y0, y1)`. */
  predicate InScanner(s: ParallelCpp.Scanner, x: int, y: int) {
    0 <= x < s.width && s.y0 <= y < s.y1
  }

  /** Every pixel of the canvas holds its own colour if it is one of the scanner's
      pixels set so far (rows before `y`, or row `y` left of column `x`), and its
      original colour if the scanner never reaches it. */
  ghost predicate ScannedBefore<H>(canvas: Ppms.Ppm, original: Ppms.Ppm, s: ParallelCpp.Scanner, x: int, y: int,
                                   cast: (int, int, nat) -> Ray, world: (Ray, Range) -> Option<H>,
                                   scatter: (Ray, H) -> Option<CppMaterials.Pair>, normalize: Vec3 -> Vec3)
    requires |canvas.buffer| == canvas.width * canvas.height && |original.buffer| == |canvas.buffer|
    requires original.width == canvas.width && original.height == canvas.height
    requires s.pixelSamples > 0
  {
    forall x': int, y': int :: Ppms.InCanvas(canvas, x', y') ==>
      GetIndexInBounds(canvas, x', y') &&
      if InScanner(s, x', y') && (y' < y || (y' == y && x' < x))
      then Ppms.GetColor(canvas, x', y') == PixelColor(cast, world, scatter, normalize, x', y', s.pixelSamples)
      else Ppms.GetColor(canvas, x', y') == Ppms.GetColor(original, x', y')
  }

  /** The index of a pixel of the canvas is inside the buffer. */
  predicate GetIndexInBounds(p: Ppms.Ppm, x: int, y: int) {
    0 <= Ppms.GetIndex(p, x, y) < |p.buffer|
  }

  lemma InBounds(p: Ppms.Ppm, x: int, y: int)
    requires |p.buffer| == p.width * p.height && Ppms.InCanvas(p, x, y)
    ensures GetIndexInBounds(p, x, y)
  {
    Ppms.GetIndexInRange(p, x, y);
  }

  /** Setting pixel `(x, y)` of the scanner to its own colour extends the scanned part
      by one pixel. */
  lemma ScanStep<H>(canvas: Ppms.Ppm, original: Ppms.Ppm, s: ParallelCpp.Scanner, x: int, y: int,
                    cast: (int, int, nat) -> Ray, world: (Ray, Range) -> Option<H>,
                    scatter: (Ray, H) -> Option<CppMaterials.Pair>, normalize: Vec3 -> Vec3)
    requires |canvas.buffer| == canvas.width * canvas.height && |original.buffer| == |canvas.buffer|
    requires original.width == canvas.width && original.height == canvas.height
    requires s.pixelSamples > 0 && InScanner(s, x, y) && Ppms.InCanvas(canvas, x, y)
    requires ScannedBefore(canvas, original, s, x, y, cast, world, scatter, normalize)
    ensures GetIndexInBounds(canvas, x, y)
    ensures var next := Ppms.SetColor(canvas, x, y, PixelColor(cast, world, scatter, normalize, x, y, s.pixelSamples));
      |next.buffer| == next.width * next.height && next.width == canvas.width && next.height == canvas.height &&
      ScannedBefore(next, original, s, x + 1, y, cast, world, scatter, normalize)
  {
    InBounds(canvas, x, y);
    var c := PixelColor(cast, world, scatter, normalize, x, y, s.pixelSamples);
    var next := Ppms.SetColor(canvas, x, y, c);
    forall x': int, y': int | Ppms.InCanvas(next, x', y') && (x', y') != (x, y)
      ensures GetIndexInBounds(next, x', y') && Ppms.GetColor(next, x', y') == Ppms.GetColor(canvas, x', y')
    {
      Ppms.SetColorFrame(canvas, x, y, c, x', y');
    }
  }

  /** `scan`: for every row `y` of `[y0, y1)` and every column `x` of `[0, width)`, in
      that order, the mean of `pixelSamples` samples traced to depth 25 is stored with
      `setColor`. The scanner must fit inside the canvas (the buffer access is
      unchecked) and have at least one sample. Afterwards each of the scanner's
      pixels holds its colour, every other pixel is unchanged, and the log of pixels
      set is the scanner's rectangle row by row. */
  method Scan<H>(canvas0: Ppms.Ppm, s: ParallelCpp.Scanner, cast: (int, int, nat) -> Ray, world: (Ray, Range) -> Option<H>,
                 scatter: (Ray, H) -> Option<CppMaterials.Pair>, normalize: Vec3 -> Vec3)
    returns (canvas: Ppms.Ppm, writes: seq<(nat, nat)>)
    requires |canvas0.buffer| == canvas0.width * canvas0.height
    requires s.width <= canvas0.width && s.y1 <= canvas0.height && s.pixelSamples > 0
    ensures canvas.width == canvas0.width && canvas.height == canvas0.height && |canvas.buffer| == |canvas0.buffer|
    ensures writes == if s.y0 <= s.y1 then Rows(0, s.y0, s.width, s.y1 - s.y0) else []
    ensures forall x: int, y: int :: Ppms.InCanvas(canvas, x, y) && InScanner(s, x, y) ==>
      GetIndexInBounds(canvas, x, y) && Ppms.GetColor(canvas, x, y) == PixelColor(cast, world, scatter, normalize, x, y, s.pixelSamples)
    ensures forall x: int, y: int :: Ppms.InCanvas(canvas, x, y) && !InScanner(s, x, y) ==>
      GetIndexInBounds(canvas, x, y) && GetIndexInBounds(canvas0, x, y) && Ppms.GetColor(canvas, x, y) == Ppms.GetColor(canvas0, x, y)
  {
    canvas := canvas0;
    writes := [];
    forall x': int, y': int | Ppms.InCanvas(canvas, x', y') {
      InBounds(canvas, x', y');
    }
    var y := s.y0;
    while y < s.y1
      invariant s.y0 <= y <= s.y1 || (s.y1 < s.y0 && y == s.y0)
      invariant canvas.width == canvas0.width && canvas.height == canvas0.height && |canvas.buffer| == |canvas0.buffer|
      invariant writes == Rows(0, s.y0, s.width, y - s.y0)
      invariant ScannedBefore(canvas, canvas0, s, 0, y, cast, world, scatter, normalize)
    {
      var row;
      canvas, row := ScanRow(canvas, canvas0, s, y, cast, world, scatter, normalize);
      writes := writes + row;
      y := y + 1;
    }
  }

  /** One row of `scan`: columns `[0, width)` of row `y`, left to right. Afterwards the
      whole row holds its colours and the log of pixels set is the row. */
  method ScanRow<H>(canvas0: Ppms.Ppm, original: Ppms.Ppm, s: ParallelCpp.Scanner, y: int,
                    cast: (int, int, nat) -> Ray, world: (Ray, Range) -> Option<H>,
                    scatter: (Ray, H) -> Option<CppMaterials.Pair>, normalize: Vec3 -> Vec3)
    returns (canvas: Ppms.Ppm, row: seq<(nat, nat)>)
    requires |canvas0.buffer| == canvas0.width * canvas0.height && |original.buffer| == |canvas0.buffer|
    requires original.width == canvas0.width && original.height == canvas0.height
    requires s.width <= canvas0.width && s.y1 <= canvas0.height && s.pixelSamples > 0 && s.y0 <= y < s.y1
    requires ScannedBefore(canvas0, original, s, 0, y, cast, world, scatter, normalize)
    ensures canvas.width == canvas0.width && canvas.height == canvas0.height && |canvas.buffer| == |canvas0.buffer|
    ensures row == Row(0, y, s.width)
    ensures ScannedBefore(canvas, original, s, 0, y + 1, cast, world, scatter, normalize)
  {
    canvas := canvas0;
    row := [];
    var x := 0;
    while x < s.width
      invariant 0 <= x <= s.width
      invariant canvas.width == canvas0.width && canvas.height == canvas0.height && |canvas.buffer| == |canvas0.buffer|
      invariant row == Row(0, y, s.width)[..x]
      invariant ScannedBefore(canvas, original, s, x, y, cast, world, scatter, normalize)
    {
      var color := ShadePixel(x, y, s.pixelSamples, cast, world, scatter, normalize);
      ScanStep(canvas, original, s, x, y, cast, world, scatter, normalize);
      canvas := Ppms.SetColor(canvas, x, y, color);
      assert Row(0, y, s.width)[..x + 1] == Row(0, y, s.width)[..x] + [(x, y)];
      row := row + [(x, y)];
      x := x + 1;
    }
    assert Row(0, y, s.width)[..s.width] == Row(0, y, s.width);
  }

  /** The scanners `launchThreads` hands out write disjoint sets of pixels: a pixel of
      the canvas belongs to exactly one scanner. This is why the threads may share
      the canvas. */
  lemma ScannersPartitionCanvas(width: nat, height: nat, pixelSamples: nat, n: nat, x: int, y: int)
    requires n > 0 && 0 <= x < width && 0 <= y < height
    ensures exists i :: 0 <= i < n && InScanner(ParallelCpp.Scanners(width, height, pixelSamples, n)[i], x, y)
    ensures forall i, k :: (0 <= i < n && 0 <= k < n &&
      InScanner(ParallelCpp.Scanners(width, height, pixelSamples, n)[i], x, y) &&
      InScanner(ParallelCpp.Scanners(width, height, pixelSamples, n)[k], x, y)) ==> i == k
  {
    var scanners := ParallelCpp.Scanners(width, height, pixelSamples, n);
    var spans := ParallelCpp.Spans(scanners);
    ParallelCpp.ScannersTile(width, height, pixelSamples, n);
    CoversExactlyOnce(spans, height);
    assert Covered(spans, y);
    var i :| 0 <= i < |spans| && InSpan(spans[i], y);
    assert InScanner(scanners[i], x, y);
  }
}
