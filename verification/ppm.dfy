/** src/utils/ppm.cpp: the C++ canvas, one colour per pixel in a flat row-major
    buffer. Coordinates are `int`; the buffer access is unchecked, so reading or
    writing outside it is undefined behaviour and a precondition here. */
module Ppms {
  import opened Colors
  import opened Grids

  datatype Ppm = Ppm(width: nat, height: nat, buffer: seq<Color>)

  /** The constructor: `width * height` default (black) colours. */
  function New(width: nat, height: nat): (p: Ppm)
    ensures p.width == width && p.height == height && |p.buffer| == width * height
    ensures forall k :: 0 <= k < |p.buffer| ==> p.buffer[k] == Black
  {
    Ppm(width, height, seq(width * height, _ => Black))
  }

  predicate InCanvas(p: Ppm, x: int, y: int) {
    0 <= x < p.width && 0 <= y < p.height
  }

  /** `getIndex`: row `y` starts `width * y` entries into the buffer, so a pixel of the
      canvas lands inside a buffer of `width * height` entries and its column and row
      are the remainder and quotient of its index by the width. */
  function GetIndex(p: Ppm, x: int, y: int): (i: int)
    ensures InCanvas(p, x, y) ==> 0 <= i < p.width * p.height
    ensures InCanvas(p, x, y) ==> i % p.width == x && i / p.width == y
  {
    RowMajor(p.width, p.height, x, y);
    x + p.width * y
  }

  /** Pixels of the canvas land inside its buffer, at their row-major position. */
  lemma GetIndexInRange(p: Ppm, x: int, y: int)
    requires InCanvas(p, x, y)
    ensures 0 <= GetIndex(p, x, y) < p.width * p.height
    ensures GetIndex(p, x, y) == FlatIndex(p.width, x, y)
  {
    FlatIndexBound(p.width, p.height, x, y);
  }

  /** Distinct pixels of the canvas have distinct indices: an index decodes back to
      its pixel. */
  lemma GetIndexInjective(p: Ppm, x: int, y: int, x': int, y': int)
    requires InCanvas(p, x, y) && InCanvas(p, x', y') && (x, y) != (x', y')
    ensures GetIndex(p, x, y) != GetIndex(p, x', y')
  {}

  /** `getColor`: the colour stored at the pixel's index. */
  function GetColor(p: Ppm, x: int, y: int): (c: Color)
    requires 0 <= GetIndex(p, x, y) < |p.buffer|
    ensures c in p.buffer
  {
    p.buffer[GetIndex(p, x, y)]
  }

  /** `setColor`: stores the colour where `getColor` reads it back and changes no other
      entry of the buffer. */
  function SetColor(p: Ppm, x: int, y: int, c: Color): (q: Ppm)
    requires 0 <= GetIndex(p, x, y) < |p.buffer|
    ensures q.width == p.width && q.height == p.height && |q.buffer| == |p.buffer|
    ensures GetColor(q, x, y) == c
    ensures forall k :: 0 <= k < |p.buffer| && k != GetIndex(p, x, y) ==> q.buffer[k] == p.buffer[k]
  {
    p.(buffer := p.buffer[GetIndex(p, x, y) := c])
  }

  /** On a well-formed canvas, setting a pixel leaves every other pixel of the canvas
      unchanged. */
  lemma SetColorFrame(p: Ppm, x: int, y: int, c: Color, x': int, y': int)
    requires |p.buffer| == p.width * p.height
    requires InCanvas(p, x, y) && InCanvas(p, x', y') && (x, y) != (x', y')
    ensures GetIndex(p, x, y) < |p.buffer| && GetIndex(p, x', y') < |p.buffer|
    ensures GetColor(SetColor(p, x, y, c), x', y') == GetColor(p, x', y')
  {
    GetIndexInRange(p, x, y);
    GetIndexInRange(p, x', y');
    GetIndexInjective(p, x, y, x', y');
  }
}
