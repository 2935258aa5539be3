/**
 * The in-memory image of src/ppm.rs: a `Pixel` of three u16 channels and a
 * `PPM` with its header fields and a flat, row-major pixel vector.
 */
module Ppm {
  import opened Wrappers
  import opened RustText
  import opened HeaderScan
  import IndexMath

  type u16 = x: int | 0 <= x < 0x1_0000
  type u32 = x: int | 0 <= x < 0x1_0000_0000

  datatype Pixel = Pixel(r: u16, g: u16, b: u16)

  /** `a * b` on u32 as a release build computes it: modulo 2^32. */
  function WrappingMul(a: u32, b: u32): (r: u32)
    ensures a * b < U32_LIMIT ==> r == a * b
  {
    var product := a * b;
    IndexMath.MulNonneg(a, b);
    IndexMath.ModSmall(product, U32_LIMIT);
    product % U32_LIMIT
  }

  /**
   * Where `while v < 0 { v += n; }` leaves a coordinate: unchanged when it is
   * not negative, otherwise moved into `[0, n)` by whole multiples of `n`.
   * The loop only ends for a negative `v` when `n` is positive.
   */
  function Wrap(v: int, n: int): (r: int)
    requires v < 0 ==> n > 0
    ensures v >= 0 ==> r == v
    ensures v < 0 ==> 0 <= r < n && r == v % n
    decreases if v < 0 then -v else 0
  {
    if v >= 0 then v else IndexMath.ModShift(v, n); Wrap(v + n, n)
  }

  /** The vector index `get_pixel(x, y)` reads, after wrapping negative coordinates. */
  function PixelIndex(x: int, y: int, width: int, height: int): (i: int)
    requires x < 0 ==> width > 0
    requires y < 0 ==> height > 0
    ensures width >= 0 ==> i >= 0
  {
    var row, col := Wrap(y, height), Wrap(x, width);
    if width >= 0 then
      IndexMath.MulNonneg(row, width);
      row * width + col
    else
      row * width + col
  }

  /** Inside the image, `get_pixel(x, y)` reads row `y`, column `x`. */
  lemma PixelIndexInside(x: int, y: int, width: int, height: int)
    requires 0 <= x < width && 0 <= y < height
    ensures PixelIndex(x, y, width, height) == y * width + x
    ensures 0 <= PixelIndex(x, y, width, height) < width * height
  {
    IndexMath.IndexBelow(y, x, width, height);
    assert height * width == width * height;
  }

  /** A column one image width to the left reads the same pixel. */
  lemma WrapColumn(x: int, y: int, width: int, height: int)
    requires 0 < width && x < width
    requires y < 0 ==> height > 0
    ensures PixelIndex(x - width, y, width, height) == PixelIndex(x, y, width, height)
  {
    var d := (x - width) / width;
    assert x - width == d * width + (x - width) % width;
    if x >= 0 {
      IndexMath.DivModOf(-1, x, width);
    } else {
      assert x == (d + 1) * width + (x - width) % width;
      IndexMath.DivModOf(d + 1, (x - width) % width, width);
    }
  }

  /** A row one image height up reads the same pixel. */
  lemma WrapRow(x: int, y: int, width: int, height: int)
    requires 0 < height && y < height
    requires x < 0 ==> width > 0
    ensures PixelIndex(x, y - height, width, height) == PixelIndex(x, y, width, height)
  {
    var d := (y - height) / height;
    assert y - height == d * height + (y - height) % height;
    if y >= 0 {
      IndexMath.DivModOf(-1, y, height);
    } else {
      assert y == (d + 1) * height + (y - height) % height;
      IndexMath.DivModOf(d + 1, (y - height) % height, height);
    }
  }

  /**
   * There is no check that `x < width`: a column past the right edge reads
   * into the next row.
   */
  lemma NoColumnBound(k: int, y: int, width: int, height: int)
    requires 0 <= k && 0 <= y && 0 <= width
    ensures PixelIndex(width + k, y, width, height) == PixelIndex(k, y + 1, width, height)
  {
    assert (y + 1) * width == y * width + width;
  }

  /**
   * The coordinate after at most `k` passes of `while v < 0 { v += n; }`;
   * the loop stops as soon as `v` is no longer negative.
   */
  function WrapPasses(v: int, n: int, k: nat): (r: int)
    ensures v >= 0 ==> r == v
    ensures n >= 0 ==> r >= v
    decreases k
  {
    if k == 0 || v >= 0 then v else WrapPasses(v + n, n, k - 1)
  }

  /** With a positive dimension, `-v` passes are enough, and the loop ends where `Wrap` says. */
  lemma {:induction false} WrapPassesEnd(v: int, n: int, k: nat)
    requires n > 0 && (v < 0 ==> k >= -v)
    ensures WrapPasses(v, n, k) == Wrap(v, n)
    decreases k
  {
    if v < 0 {
      WrapPassesEnd(v + n, n, k - 1);
    }
  }

  /**
   * With a zero width (or height), a negative coordinate never moves: no
   * number of passes ends the loop.
   */
  lemma {:induction false} ZeroDimensionSpins(v: int, k: nat)
    requires v < 0
    ensures WrapPasses(v, 0, k) == v
  {
    if k > 0 {
      ZeroDimensionSpins(v, k - 1);
    }
  }

  /**
   * The wrap `get_pixel` evidently intends: a negative coordinate moves into
   * `[0, n)`, and a dimension of 0, which holds no pixel, gives none.
   */
  function CheckedWrap(v: int, n: nat): (r: Option<int>)
    ensures r.None? <==> v < 0 && n == 0
    ensures r.Some? ==> 0 <= r.value && (v >= 0 ==> r.value == v)
    ensures r.Some? && v < 0 ==> r.value < n && r.value % n == v % n
  {
    if v >= 0 then Some(v) else if n == 0 then None else Some(Wrap(v, n))
  }

  /** Where the loop ends, it ends at `CheckedWrap`; where `CheckedWrap` gives none, the loop does not end. */
  lemma CheckedWrapAgrees(v: int, n: nat, k: nat)
    requires v < 0 ==> k >= -v
    ensures CheckedWrap(v, n).Some? ==> WrapPasses(v, n, k) == CheckedWrap(v, n).value
    ensures CheckedWrap(v, n).None? ==> WrapPasses(v, n, k) < 0
  {
    if n > 0 {
      WrapPassesEnd(v, n, k);
    } else if v < 0 {
      ZeroDimensionSpins(v, k);
    }
  }

  /** `PPM`: the header fields and the pixel vector, updated in place. */
  class Ppm {
    var width: u32
    var height: u32
    var maxc: u32
    var magic: seq<byte>
    var pixels: seq<Pixel>

    /** `PPM::new`: every field zero or empty. */
    constructor ()
      ensures width == 0 && height == 0 && maxc == 0
      ensures magic == [] && pixels == []
    {
      width, height, maxc := 0, 0, 0;
      magic, pixels := [], [];
    }

    /** The four header fields as one value. */
    function HeaderFields(): Header
      reads this`magic, this`width, this`height, this`maxc
    {
      Header(magic, width, height, maxc)
    }

    /** `pixel_count`: the u32 product of the dimensions. */
    function PixelCount(): (n: u32)
      reads this`width, this`height
      ensures width * height < U32_LIMIT ==> n == width * height
    {
      WrappingMul(width, height)
    }

    /**
     * One pixel per coordinate, row-major, and a pixel count that a u32
     * holds: what the transforms rely on.
     */
    ghost predicate Valid()
      reads this
    {
      |pixels| == width * height < U32_LIMIT
    }

    /**
     * `get_pixel`: negative coordinates are wrapped by adding the width
     * (height) until they are not negative, then the vector is indexed with
     * `y * width + x` in i32 arithmetic. The caller must keep the
     * coordinates in i32, supply a dimension the loop can terminate with,
     * and name an index the vector has (Rust panics otherwise).
     */
    method GetPixel(x: int, y: int) returns (p: Pixel)
      requires -I32_LIMIT <= x < I32_LIMIT && -I32_LIMIT <= y < I32_LIMIT
      requires width < I32_LIMIT && height < I32_LIMIT
      requires x < 0 ==> width > 0
      requires y < 0 ==> height > 0
      requires PixelIndex(x, y, width, height) < |pixels|
      requires PixelIndex(x, y, width, height) < I32_LIMIT
      ensures p == pixels[PixelIndex(x, y, width, height)]
    {
      var col, row := x, y;
      while col < 0
        invariant x <= col < I32_LIMIT
        invariant Wrap(col, width) == Wrap(x, width)
        decreases -col
      {
        col := col + width;
      }
      while row < 0
        invariant y <= row < I32_LIMIT
        invariant Wrap(row, height) == Wrap(y, height)
        decreases -row
      {
        row := row + height;
      }
      p := pixels[row * width + col];
    }
  }
}
