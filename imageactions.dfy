/**
 * The rotations of src/imageactions.rs. Each builds a new image whose width
 * and height are the old height and width, and copies every pixel of the old
 * row-major vector to its place in a new vector that starts out filled with a
 * placeholder pixel.
 */
module ImageActions {
  import opened Ppm
  import IndexMath
  import Gathering

  /**
   * Where cell `j` of an image rotated a quarter turn to the left takes its
   * pixel from, in the original `w` by `h` image: rotated row `j / h` is
   * source column `w - 1 - j / h`, rotated column `j % h` is source row `j % h`.
   */
  function LeftSource(j: int, w: nat, h: nat): (i: nat)
    requires 0 <= j < w * h
    ensures i < w * h
  {
    IndexMath.PositiveSide(j, h, w);
    IndexMath.RowBelow(j, h, w);
    IndexMath.IndexBelow(j % h, w - 1 - j / h, w, h);
    (j % h) * w + (w - 1 - j / h)
  }

  /** The same for a quarter turn to the right: rotated row `j / h` is source column `j / h`, read bottom up. */
  function RightSource(j: int, w: nat, h: nat): (i: nat)
    requires 0 <= j < w * h
    ensures i < w * h
  {
    IndexMath.PositiveSide(j, h, w);
    IndexMath.RowBelow(j, h, w);
    IndexMath.IndexBelow(h - 1 - j % h, j / h, w, h);
    (h - 1 - j % h) * w + j / h
  }

  /** The pixels of the `w` by `h` image `p` turned a quarter to the left (an `h` by `w` image). */
  function RotatedLeft(w: nat, h: nat, p: seq<Pixel>): (q: seq<Pixel>)
    requires |p| == w * h
    ensures |q| == h * w
  {
    seq(w * h, j requires 0 <= j < w * h => p[LeftSource(j, w, h)])
  }

  /** The pixels of the `w` by `h` image `p` turned a quarter to the right. */
  function RotatedRight(w: nat, h: nat, p: seq<Pixel>): (q: seq<Pixel>)
    requires |p| == w * h
    ensures |q| == h * w
  {
    seq(w * h, j requires 0 <= j < w * h => p[RightSource(j, w, h)])
  }

  /** The pixels in the opposite order: the image turned half way round. */
  function Reversed(p: seq<Pixel>): (q: seq<Pixel>)
    ensures |q| == |p|
  {
    seq(|p|, j requires 0 <= j < |p| => p[|p| - 1 - j])
  }

  /**
   * The loops' arithmetic for source pixel `(x, y)`: `rotate_left` writes it
   * at `(w - x - 1) * h + y`, a cell that takes its pixel from `y * w + x`.
   */
  lemma LeftTarget(x: nat, y: nat, w: nat, h: nat)
    requires x < w && y < h
    ensures 0 <= (w - x - 1) * h + y < w * h
    ensures LeftSource((w - x - 1) * h + y, w, h) == y * w + x
    ensures (w - x - 1) * h + h == (w - x) * h
    ensures 0 <= y * w + x < w * h
  {
    IndexMath.IndexBelow(y, x, w, h);
    IndexMath.IndexBelow(w - x - 1, y, h, w);
    IndexMath.DivModOf(w - x - 1, y, h);
    assert h * w == w * h;
  }

  /** `rotate_right` writes source pixel `(x, y)` at `x * h + (h - y - 1)`, a cell that takes its pixel from `y * w + x`. */
  lemma RightTarget(x: nat, y: nat, w: nat, h: nat)
    requires x < w && y < h
    ensures 0 <= x * h + (h - y - 1) < w * h
    ensures RightSource(x * h + (h - y - 1), w, h) == y * w + x
    ensures x * h + h == (x + 1) * h
    ensures 0 <= y * w + x < w * h
  {
    IndexMath.IndexBelow(y, x, w, h);
    IndexMath.IndexBelow(x, h - y - 1, h, w);
    IndexMath.DivModOf(x, h - y - 1, h);
    assert h * w == w * h;
  }

  /** Cell `k * h + y` of the left rotation holds source pixel `(w - 1 - k, y)`. */
  lemma LeftCell(w: nat, h: nat, p: seq<Pixel>, k: nat, y: nat)
    requires |p| == w * h && k < w && y < h
    ensures 0 <= k * h + y < w * h && 0 <= y * w + (w - 1 - k) < w * h
    ensures RotatedLeft(w, h, p)[k * h + y] == p[y * w + (w - 1 - k)]
  {
    LeftTarget(w - 1 - k, y, w, h);
  }

  /** Cell `x * h + (h - y - 1)` of the right rotation holds source pixel `(x, y)`. */
  lemma RightCell(w: nat, h: nat, p: seq<Pixel>, x: nat, y: nat)
    requires |p| == w * h && x < w && y < h
    ensures 0 <= x * h + (h - y - 1) < w * h && 0 <= y * w + x < w * h
    ensures x * h + h == (x + 1) * h
    ensures RotatedRight(w, h, p)[x * h + (h - y - 1)] == p[y * w + x]
  {
    RightTarget(x, y, w, h);
  }

  /**
   * The inner loop of `rotate_left` for source column `x`: every pixel of the
   * column goes to rotated row `w - x - 1`, and no other cell changes.
   */
  method CopyColumnLeft(pixels: seq<Pixel>, w: nat, h: nat, x: nat, rotatedWidth: nat, rotatedHeight: nat, buf: array<Pixel>)
    requires |pixels| == w * h == buf.Length && x < w
    requires rotatedWidth == h && rotatedHeight == w
    modifies buf
    ensures forall j :: 0 <= j < buf.Length && !((w - x - 1) * h <= j < (w - x - 1) * h + h) ==> buf[j] == old(buf[j])
    ensures forall j :: 0 <= j < buf.Length && (w - x - 1) * h <= j < (w - x - 1) * h + h ==>
      buf[j] == RotatedLeft(w, h, pixels)[j]
  {
    ghost var k := w - x - 1;
    ghost var lo := k * h;
    for y: nat := 0 to h
      invariant forall j :: 0 <= j < buf.Length && !(lo <= j < lo + y) ==> buf[j] == old(buf[j])
      invariant forall j :: 0 <= j < buf.Length && lo <= j < lo + y ==> buf[j] == RotatedLeft(w, h, pixels)[j]
    {
      LeftCell(w, h, pixels, k, y);
      var currentPixelPos := y * w + x;
      var newX := y;
      var newY := rotatedHeight - x - 1;
      var rotatedPixelPos := newY * rotatedWidth + newX;
      assert newY == k && x == w - 1 - k;
      assert rotatedPixelPos == lo + y;
      buf[rotatedPixelPos] := pixels[currentPixelPos];
    }
  }

  /**
   * `rotate_left`: a new image with width and height swapped, the same magic
   * and max color, and every pixel moved a quarter turn to the left. The
   * vector starts as `placeholder` everywhere and no placeholder is left.
   */
  method RotateLeft(image: Ppm, placeholder: Pixel) returns (rotated: Ppm)
    requires image.Valid()
    ensures rotated.width == image.height && rotated.height == image.width
    ensures rotated.magic == image.magic && rotated.maxc == image.maxc
    ensures fresh(rotated)
    ensures rotated.pixels == RotatedLeft(image.width, image.height, image.pixels)
  {
    rotated := new Ppm();
    rotated.magic := image.magic;
    rotated.maxc := image.maxc;
    rotated.width := image.height;
    rotated.height := image.width;
    var w: nat, h: nat := image.width, image.height;
    ghost var spec := RotatedLeft(w, h, image.pixels);
    var buf := new Pixel[image.PixelCount()](_ => placeholder);
    assert buf.Length == w * h == |spec| == |image.pixels|;
    ghost var done, rows := w * h, w;
    for x: nat := 0 to w
      modifies buf
      invariant rows == w - x && done == rows * h && 0 <= done <= buf.Length
      invariant forall j :: done <= j < buf.Length ==> buf[j] == spec[j]
    {
      ghost var k := rows - 1;
      IndexMath.MulStep(k, h);
      IndexMath.MulBelow(k, h, w);
      CopyColumnLeft(image.pixels, w, h, x, rotated.width, rotated.height, buf);
      done, rows := k * h, k;
    }
    assert done == 0;
    assert buf[..] == spec;
    rotated.pixels := buf[..];
  }

  /**
   * The inner loop of `rotate_right` for source column `x`: every pixel of the
   * column goes to rotated row `x`, and no other cell changes.
   */
  method CopyColumnRight(pixels: seq<Pixel>, w: nat, h: nat, x: nat, rotatedWidth: nat, rotatedHeight: nat, buf: array<Pixel>)
    requires |pixels| == w * h == buf.Length && x < w
    requires rotatedWidth == h && rotatedHeight == w
    modifies buf
    ensures forall j :: 0 <= j < buf.Length && !(x * h <= j < x * h + h) ==> buf[j] == old(buf[j])
    ensures forall j :: 0 <= j < buf.Length && x * h <= j < x * h + h ==> buf[j] == RotatedRight(w, h, pixels)[j]
  {
    ghost var hi := x * h + h;
    for y: nat := 0 to h
      invariant forall j :: 0 <= j < buf.Length && !(hi - y <= j < hi) ==> buf[j] == old(buf[j])
      invariant forall j :: 0 <= j < buf.Length && hi - y <= j < hi ==> buf[j] == RotatedRight(w, h, pixels)[j]
    {
      RightCell(w, h, pixels, x, y);
      var currentPixelPos := y * w + x;
      var newX := rotatedWidth - y - 1;
      var newY := x;
      var rotatedPixelPos := newY * rotatedWidth + newX;
      assert rotatedPixelPos == hi - y - 1;
      buf[rotatedPixelPos] := pixels[currentPixelPos];
    }
  }

  /**
   * `rotate_right`: a new image with width and height swapped, the same magic
   * and max color, and every pixel moved a quarter turn to the right.
   */
  method RotateRight(image: Ppm, placeholder: Pixel) returns (rotated: Ppm)
    requires image.Valid()
    ensures rotated.width == image.height && rotated.height == image.width
    ensures rotated.magic == image.magic && rotated.maxc == image.maxc
    ensures fresh(rotated)
    ensures rotated.pixels == RotatedRight(image.width, image.height, image.pixels)
  {
    rotated := new Ppm();
    rotated.magic := image.magic;
    rotated.maxc := image.maxc;
    rotated.width := image.height;
    rotated.height := image.width;
    var w: nat, h: nat := image.width, image.height;
    ghost var spec := RotatedRight(w, h, image.pixels);
    var buf := new Pixel[image.PixelCount()](_ => placeholder);
    assert buf.Length == w * h == |spec| == |image.pixels|;
    ghost var done := 0;
    for x: nat := 0 to w
      modifies buf
      invariant done == x * h && 0 <= done <= buf.Length
      invariant forall j :: 0 <= j < done ==> buf[j] == spec[j]
    {
      IndexMath.MulStep(x, h);
      IndexMath.MulBelow(x + 1, h, w);
      CopyColumnRight(image.pixels, w, h, x, rotated.width, rotated.height, buf);
      done := done + h;
    }
    assert buf[..] == spec;
    rotated.pixels := buf[..];
  }

  /*
   * Index arithmetic behind the properties of the rotations. A cell of the
   * rotated image is an `h` wide, `w` high index, so turning back uses the
   * source functions with width and height exchanged.
   */

  /** Turning right undoes turning left, cell by cell. */
  lemma LeftThenRightIndex(i: int, w: nat, h: nat)
    requires 0 <= i < w * h
    ensures h * w == w * h
    ensures LeftSource(RightSource(i, h, w), w, h) == i
  {
    IndexMath.PositiveSide(i, w, h);
    IndexMath.RowBelow(i, w, h);
    IndexMath.Decompose(i, w);
    IndexMath.DivModOf(w - 1 - i % w, i / w, h);
  }

  /** Turning left undoes turning right, cell by cell. */
  lemma RightThenLeftIndex(i: int, w: nat, h: nat)
    requires 0 <= i < w * h
    ensures h * w == w * h
    ensures RightSource(LeftSource(i, h, w), w, h) == i
  {
    IndexMath.PositiveSide(i, w, h);
    IndexMath.RowBelow(i, w, h);
    IndexMath.Decompose(i, w);
    IndexMath.DivModOf(i % w, h - 1 - i / w, h);
  }

  /** Two left turns read the cells in reverse order. */
  lemma LeftTwiceIndex(i: int, w: nat, h: nat)
    requires 0 <= i < w * h
    ensures h * w == w * h
    ensures LeftSource(LeftSource(i, h, w), w, h) == w * h - 1 - i
  {
    IndexMath.PositiveSide(i, w, h);
    IndexMath.RowBelow(i, w, h);
    IndexMath.Decompose(i, w);
    IndexMath.DivModOf(i % w, h - 1 - i / w, h);
    assert (h - 1 - i / w) * w == h * w - w - (i / w) * w;
  }

  /** Two right turns read the cells in reverse order. */
  lemma RightTwiceIndex(i: int, w: nat, h: nat)
    requires 0 <= i < w * h
    ensures h * w == w * h
    ensures RightSource(RightSource(i, h, w), w, h) == w * h - 1 - i
  {
    IndexMath.PositiveSide(i, w, h);
    IndexMath.RowBelow(i, w, h);
    IndexMath.Decompose(i, w);
    IndexMath.DivModOf(w - 1 - i % w, i / w, h);
    assert (h - 1 - i / w) * w == h * w - w - (i / w) * w;
  }

  /** `rotate_right` undoes `rotate_left`. */
  lemma LeftThenRight(w: nat, h: nat, p: seq<Pixel>)
    requires |p| == w * h
    ensures RotatedRight(h, w, RotatedLeft(w, h, p)) == p
  {
    var q := RotatedRight(h, w, RotatedLeft(w, h, p));
    forall i | 0 <= i < |p|
      ensures q[i] == p[i]
    {
      LeftThenRightIndex(i, w, h);
    }
  }

  /** `rotate_left` undoes `rotate_right`. */
  lemma RightThenLeft(w: nat, h: nat, p: seq<Pixel>)
    requires |p| == w * h
    ensures RotatedLeft(h, w, RotatedRight(w, h, p)) == p
  {
    var q := RotatedLeft(h, w, RotatedRight(w, h, p));
    forall i | 0 <= i < |p|
      ensures q[i] == p[i]
    {
      RightThenLeftIndex(i, w, h);
    }
  }

  /** Two left turns are a half turn. */
  lemma LeftTwice(w: nat, h: nat, p: seq<Pixel>)
    requires |p| == w * h
    ensures RotatedLeft(h, w, RotatedLeft(w, h, p)) == Reversed(p)
  {
    var q := RotatedLeft(h, w, RotatedLeft(w, h, p));
    forall i | 0 <= i < |p|
      ensures q[i] == Reversed(p)[i]
    {
      LeftTwiceIndex(i, w, h);
    }
  }

  /** Two right turns are a half turn. */
  lemma RightTwice(w: nat, h: nat, p: seq<Pixel>)
    requires |p| == w * h
    ensures RotatedRight(h, w, RotatedRight(w, h, p)) == Reversed(p)
  {
    var q := RotatedRight(h, w, RotatedRight(w, h, p));
    forall i | 0 <= i < |p|
      ensures q[i] == Reversed(p)[i]
    {
      RightTwiceIndex(i, w, h);
    }
  }

  /** A half turn twice gives the image back. */
  lemma ReversedTwice(p: seq<Pixel>)
    ensures Reversed(Reversed(p)) == p
  {
  }

  /** Four left turns give the image back. */
  lemma LeftFourTimes(w: nat, h: nat, p: seq<Pixel>)
    requires |p| == w * h
    ensures RotatedLeft(h, w, RotatedLeft(w, h, RotatedLeft(h, w, RotatedLeft(w, h, p)))) == p
  {
    LeftTwice(w, h, p);
    LeftTwice(w, h, Reversed(p));
    ReversedTwice(p);
  }

  /** Four right turns give the image back. */
  lemma RightFourTimes(w: nat, h: nat, p: seq<Pixel>)
    requires |p| == w * h
    ensures RotatedRight(h, w, RotatedRight(w, h, RotatedRight(h, w, RotatedRight(w, h, p)))) == p
  {
    RightTwice(w, h, p);
    RightTwice(w, h, Reversed(p));
    ReversedTwice(p);
  }

  /** Distinct cells of the left rotation read distinct source pixels. */
  lemma LeftSourceInjective(a: int, b: int, w: nat, h: nat)
    requires 0 <= a < w * h && 0 <= b < w * h && a != b
    ensures LeftSource(a, w, h) != LeftSource(b, w, h)
  {
    RightThenLeftIndex(a, h, w);
    RightThenLeftIndex(b, h, w);
  }

  /** Distinct cells of the right rotation read distinct source pixels. */
  lemma RightSourceInjective(a: int, b: int, w: nat, h: nat)
    requires 0 <= a < w * h && 0 <= b < w * h && a != b
    ensures RightSource(a, w, h) != RightSource(b, w, h)
  {
    LeftThenRightIndex(a, h, w);
    LeftThenRightIndex(b, h, w);
  }

  /** `rotate_left` only moves pixels: the rotated image holds the same pixels, each as often. */
  lemma LeftPermutes(w: nat, h: nat, p: seq<Pixel>)
    requires |p| == w * h
    ensures multiset(RotatedLeft(w, h, p)) == multiset(p)
  {
    var idx := seq(w * h, j requires 0 <= j < w * h => LeftSource(j, w, h) as int);
    assert Gathering.InBounds(idx, |p|);
    forall a, b | 0 <= a < b < |idx|
      ensures idx[a] != idx[b]
    {
      LeftSourceInjective(a, b, w, h);
    }
    assert RotatedLeft(w, h, p) == Gathering.Gather(p, idx);
    Gathering.GatherPermutes(p, idx);
  }

  /** `rotate_right` only moves pixels. */
  lemma RightPermutes(w: nat, h: nat, p: seq<Pixel>)
    requires |p| == w * h
    ensures multiset(RotatedRight(w, h, p)) == multiset(p)
  {
    var idx := seq(w * h, j requires 0 <= j < w * h => RightSource(j, w, h) as int);
    assert Gathering.InBounds(idx, |p|);
    forall a, b | 0 <= a < b < |idx|
      ensures idx[a] != idx[b]
    {
      RightSourceInjective(a, b, w, h);
    }
    assert RotatedRight(w, h, p) == Gathering.Gather(p, idx);
    Gathering.GatherPermutes(p, idx);
  }
}
