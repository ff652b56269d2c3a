/** Row-major pixel grids, shared by the PNG tiles of the Rust renderer and the PPM
    canvas of the C++ renderer: the flat index of a pixel, and the order in which the
    render and scan loops visit the pixels of a rectangle. */
module Grids {
  /** The flat index of pixel `(x, y)` in rows of `width` pixels. */
  function FlatIndex(width: nat, x: nat, y: nat): nat {
    x + width * y
  }

  lemma MulMonotone(a: nat, b: nat, c: nat)
    requires b <= c
    ensures a * b <= a * c
  {
    assert a * c == a * b + a * (c - b);
  }

  /** An in-range pixel lands inside a buffer of `width * height` entries. */
  lemma FlatIndexBound(width: nat, height: nat, x: nat, y: nat)
    requires x < width && y < height
    ensures FlatIndex(width, x, y) < width * height
  {
    assert width * (y + 1) == width * y + width;
    MulMonotone(width, y + 1, height);
  }

  /** Distinct in-range pixels have distinct flat indices. */
  lemma FlatIndexInjective(width: nat, x: nat, y: nat, x': nat, y': nat)
    requires x < width && x' < width
    requires FlatIndex(width, x, y) == FlatIndex(width, x', y')
    ensures x == x' && y == y'
  {
    if y < y' {
      assert width * (y + 1) == width * y + width;
      MulMonotone(width, y + 1, y');
      assert false;
    } else if y' < y {
      assert width * (y' + 1) == width * y' + width;
      MulMonotone(width, y' + 1, y);
      assert false;
    }
  }

  /** The flat index of an in-range pixel decodes back to the pixel: its column is
      the remainder and its row the quotient by `width`. */
  lemma FlatIndexDecode(width: nat, x: nat, y: nat)
    requires x < width
    ensures FlatIndex(width, x, y) % width == x && FlatIndex(width, x, y) / width == y
  {
    var i := FlatIndex(width, x, y);
    var q, r := i / width, i % width;
    assert width * q + r == width * y + x;
    if q > y {
      assert width * (y + 1) == width * y + width;
      MulMonotone(width, y + 1, q);
      assert false;
    } else if q < y {
      assert width * (q + 1) == width * q + width;
      MulMonotone(width, q + 1, y);
      assert false;
    }
  }

  /** The row-major layout on integer coordinates, as the canvas and the tiles use it:
      an in-range pixel lands inside the buffer of `width * height` entries and decodes
      back to its column and row. */
  lemma RowMajor(width: int, height: int, x: int, y: int)
    ensures 0 <= x < width && 0 <= y < height ==>
      0 <= x + width * y < width * height && (x + width * y) % width == x && (x + width * y) / width == y
  {
    if 0 <= x < width && 0 <= y < height {
      FlatIndexBound(width, height, x, y);
      FlatIndexDecode(width, x, y);
    }
  }

  /** The pixels of row `y`, from column `x0` for `width` columns. */
  function Row(x0: nat, y: nat, width: nat): (r: seq<(nat, nat)>)
    ensures |r| == width && forall k :: 0 <= k < width ==> r[k] == (x0 + k, y)
  {
    seq(width, k requires 0 <= k < width => (x0 + k as nat, y))
  }

  /** The pixels of the `width` x `height` rectangle at `(x0, y0)`, row by row. */
  function Rows(x0: nat, y0: nat, width: nat, height: nat): seq<(nat, nat)> {
    if height == 0 then [] else Rows(x0, y0, width, height - 1) + Row(x0, y0 + height - 1, width)
  }

  predicate InRect(p: (nat, nat), x0: nat, y0: nat, width: nat, height: nat) {
    x0 <= p.0 < x0 + width && y0 <= p.1 < y0 + height
  }

  /** The row-by-row order makes `width * height` visits, all inside the rectangle. */
  lemma {:induction false} RowsInside(x0: nat, y0: nat, width: nat, height: nat)
    ensures |Rows(x0, y0, width, height)| == width * height
    ensures forall k :: 0 <= k < |Rows(x0, y0, width, height)| ==> InRect(Rows(x0, y0, width, height)[k], x0, y0, width, height)
  {
    if height > 0 {
      RowsInside(x0, y0, width, height - 1);
      var prev := Rows(x0, y0, width, height - 1);
      var all := Rows(x0, y0, width, height);
      assert all == prev + Row(x0, y0 + height - 1, width);
      assert width * height == width * (height - 1) + width;
      forall k | 0 <= k < |all|
        ensures InRect(all[k], x0, y0, width, height)
      {
        if k < |prev| {
          assert all[k] == prev[k];
          assert InRect(prev[k], x0, y0, width, height - 1);
        }
      }
    }
  }

  /** No pixel is visited twice. */
  lemma {:induction false} RowsDistinct(x0: nat, y0: nat, width: nat, height: nat)
    ensures forall k, l :: 0 <= k < l < |Rows(x0, y0, width, height)| ==> Rows(x0, y0, width, height)[k] != Rows(x0, y0, width, height)[l]
  {
    if height > 0 {
      RowsDistinct(x0, y0, width, height - 1);
      RowsInside(x0, y0, width, height - 1);
      var prev := Rows(x0, y0, width, height - 1);
      var all := Rows(x0, y0, width, height);
      assert all == prev + Row(x0, y0 + height - 1, width);
      forall k, l | 0 <= k < l < |all|
        ensures all[k] != all[l]
      {
        if l < |prev| {
          assert all[k] == prev[k] && all[l] == prev[l];
        } else if k < |prev| {
          assert all[k] == prev[k];
          assert InRect(prev[k], x0, y0, width, height - 1);
          assert all[l].1 == y0 + height - 1;
        }
      }
    }
  }

  /** Pixel `(i, j)` of the rectangle is visited at step `(i - x0) + width * (j - y0)`. */
  lemma {:induction false} RowsIndex(x0: nat, y0: nat, width: nat, height: nat, i: nat, j: nat)
    requires InRect((i, j), x0, y0, width, height)
    ensures FlatIndex(width, i - x0, j - y0) < |Rows(x0, y0, width, height)|
    ensures Rows(x0, y0, width, height)[FlatIndex(width, i - x0, j - y0)] == (i, j)
  {
    RowsInside(x0, y0, width, height);
    FlatIndexBound(width, height, i - x0, j - y0);
    var prev := Rows(x0, y0, width, height - 1);
    var all := Rows(x0, y0, width, height);
    assert all == prev + Row(x0, y0 + height - 1, width);
    var f := FlatIndex(width, i - x0, j - y0);
    if j < y0 + height - 1 {
      RowsIndex(x0, y0, width, height - 1, i, j);
      assert all[f] == prev[f];
    } else {
      RowsInside(x0, y0, width, height - 1);
      assert f == |prev| + (i - x0);
    }
  }

  /** Together: the row-by-row order visits every pixel of the rectangle exactly once
      and nothing outside it. */
  lemma RowsExactlyOnce(x0: nat, y0: nat, width: nat, height: nat)
    ensures |Rows(x0, y0, width, height)| == width * height
    ensures forall k :: 0 <= k < |Rows(x0, y0, width, height)| ==> InRect(Rows(x0, y0, width, height)[k], x0, y0, width, height)
    ensures forall k, l :: 0 <= k < l < |Rows(x0, y0, width, height)| ==> Rows(x0, y0, width, height)[k] != Rows(x0, y0, width, height)[l]
    ensures forall i: nat, j: nat :: InRect((i, j), x0, y0, width, height) ==>
      exists k :: 0 <= k < |Rows(x0, y0, width, height)| && Rows(x0, y0, width, height)[k] == (i, j)
  {
    RowsInside(x0, y0, width, height);
    RowsDistinct(x0, y0, width, height);
    forall i: nat, j: nat | InRect((i, j), x0, y0, width, height)
      ensures exists k :: 0 <= k < |Rows(x0, y0, width, height)| && Rows(x0, y0, width, height)[k] == (i, j)
    {
      RowsIndex(x0, y0, width, height, i, j);
    }
  }
}
