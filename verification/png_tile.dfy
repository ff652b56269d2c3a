/** src/io.rs: `PngTile`, a rectangle of the image stored as a flat byte buffer of
    three channels per pixel, addressed relative to the tile's upper-left corner. The
    conversion of a colour to bytes is left to the caller; `set` receives the bytes. */
module PngTiles {
  import opened Wrappers
  import opened Types
  import opened Grids

  type Byte = b: int | 0 <= b < 256

  /** The three bytes of one pixel. */
  datatype Rgb = Rgb(r: Byte, g: Byte, b: Byte)

  const ColorChannels: nat := 3

  datatype PngTile = PngTile(dimensions: Dimensions, upperLeft: TileCorner, buffer: seq<Byte>)

  /** The buffer holds three bytes for every pixel of the tile. */
  predicate Valid(t: PngTile) {
    |t.buffer| == t.dimensions.width * t.dimensions.height * ColorChannels
  }

  /** The pixels the tile covers. */
  predicate InTile(t: PngTile, x: nat, y: nat) {
    InRect((x, y), t.upperLeft.x, t.upperLeft.y, t.dimensions.width, t.dimensions.height)
  }

  /** `PngTile::with_offset`: a black tile of the given size at the given corner, with
      `width * height * 3` bytes, all zero. */
  function WithOffset(dimensions: Dimensions, offset: TileCorner): (t: PngTile)
    ensures t.dimensions == dimensions && t.upperLeft == offset && Valid(t)
    ensures forall k :: 0 <= k < |t.buffer| ==> t.buffer[k] == 0
  {
    PngTile(dimensions, offset, seq(dimensions.width * dimensions.height * ColorChannels, _ => 0))
  }

  /** `PngTile::new`: a black tile at the origin. */
  function New(dimensions: Dimensions): (t: PngTile)
    ensures t.dimensions == dimensions && t.upperLeft == TileCorner(0, 0) && Valid(t)
    ensures forall k :: 0 <= k < |t.buffer| ==> t.buffer[k] == 0
  {
    WithOffset(dimensions, TileCorner(0, 0))
  }

  /** `PngTile::index`: the first byte of pixel `(x, y)`, counted from the tile's
      corner. The subtractions are on `usize`, so the pixel must not lie left of or
      above the corner. Every pixel starts on a multiple of three bytes, and for a
      pixel of the tile the pixel number `i / 3` decodes back to its column and row. */
  function Index(t: PngTile, x: nat, y: nat): (i: nat)
    requires x >= t.upperLeft.x && y >= t.upperLeft.y
    ensures i % ColorChannels == 0
    ensures InTile(t, x, y) ==> i / ColorChannels < t.dimensions.width * t.dimensions.height
    ensures InTile(t, x, y) ==> (i / ColorChannels) % t.dimensions.width == x - t.upperLeft.x
    ensures InTile(t, x, y) ==> (i / ColorChannels) / t.dimensions.width == y - t.upperLeft.y
  {
    var pixel := FlatIndex(t.dimensions.width, x - t.upperLeft.x, y - t.upperLeft.y);
    RowMajor(t.dimensions.width, t.dimensions.height, x - t.upperLeft.x, y - t.upperLeft.y);
    pixel * ColorChannels
  }

  /** The three bytes of every pixel of the tile lie inside the buffer. */
  lemma IndexInBounds(t: PngTile, x: nat, y: nat)
    requires Valid(t) && InTile(t, x, y)
    ensures Index(t, x, y) + ColorChannels <= |t.buffer|
  {
    FlatIndexBound(t.dimensions.width, t.dimensions.height, x - t.upperLeft.x, y - t.upperLeft.y);
  }

  /** Distinct pixels of the tile own disjoint three-byte windows. */
  lemma WindowsDisjoint(t: PngTile, x: nat, y: nat, x': nat, y': nat)
    requires InTile(t, x, y) && InTile(t, x', y') && (x, y) != (x', y')
    ensures Index(t, x, y) + ColorChannels <= Index(t, x', y') || Index(t, x', y') + ColorChannels <= Index(t, x, y)
  {
    var (x0, y0) := (t.upperLeft.x, t.upperLeft.y);
    if FlatIndex(t.dimensions.width, x - x0, y - y0) == FlatIndex(t.dimensions.width, x' - x0, y' - y0) {
      FlatIndexInjective(t.dimensions.width, x - x0, y - y0, x' - x0, y' - y0);
    }
  }

  /** `PngTile::set` with the colour already converted to bytes. A pixel left of or
      above the corner fails the debug assertion, and a window past the end of the
      buffer fails the slice bounds check; both panics are `None`. Otherwise the three
      bytes at `index` are replaced and every other byte is kept. */
  function Set(t: PngTile, x: nat, y: nat, c: Rgb): (r: Option<PngTile>)
    ensures r.None? <==> x < t.upperLeft.x || y < t.upperLeft.y || Index(t, x, y) + ColorChannels > |t.buffer|
    ensures r.Some? ==> r.value.dimensions == t.dimensions && r.value.upperLeft == t.upperLeft
    ensures r.Some? ==> (
      var i := Index(t, x, y);
      |r.value.buffer| == |t.buffer| &&
      r.value.buffer[i] == c.r && r.value.buffer[i + 1] == c.g && r.value.buffer[i + 2] == c.b &&
      forall k :: 0 <= k < |t.buffer| && !(i <= k < i + ColorChannels) ==> r.value.buffer[k] == t.buffer[k])
  {
    if x < t.upperLeft.x || y < t.upperLeft.y then None
    else
      var i := Index(t, x, y);
      if i + ColorChannels > |t.buffer| then None
      else Some(t.(buffer := t.buffer[..i] + [c.r, c.g, c.b] + t.buffer[i + ColorChannels..]))
  }

  /** The three bytes of a pixel of the tile. */
  function Pixel(t: PngTile, x: nat, y: nat): Rgb
    requires Valid(t) && InTile(t, x, y)
  {
    IndexInBounds(t, x, y);
    var i := Index(t, x, y);
    Rgb(t.buffer[i], t.buffer[i + 1], t.buffer[i + 2])
  }

  /** Setting a pixel of the tile always succeeds, keeps the tile well formed, stores
      the bytes where reading the pixel back finds them, and leaves every other pixel
      of the tile as it was. */
  lemma SetInTile(t: PngTile, x: nat, y: nat, c: Rgb)
    requires Valid(t) && InTile(t, x, y)
    ensures Set(t, x, y, c).Some? && Valid(Set(t, x, y, c).value)
    ensures InTile(Set(t, x, y, c).value, x, y) && Pixel(Set(t, x, y, c).value, x, y) == c
    ensures forall x': nat, y': nat :: InTile(t, x', y') && (x', y') != (x, y) ==>
      InTile(Set(t, x, y, c).value, x', y') && Pixel(Set(t, x, y, c).value, x', y') == Pixel(t, x', y')
  {
    IndexInBounds(t, x, y);
    var u := Set(t, x, y, c).value;
    forall x': nat, y': nat | InTile(t, x', y') && (x', y') != (x, y)
      ensures Pixel(u, x', y') == Pixel(t, x', y')
    {
      WindowsDisjoint(t, x, y, x', y');
      IndexInBounds(t, x', y');
    }
  }
}
