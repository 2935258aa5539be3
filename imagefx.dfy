/**
 * The colour effect of src/imagefx.rs: `negative` replaces every channel `c`
 * of every pixel by `maxc - c`, in place. The subtraction is on u32 and the
 * result is cast to u16, so a release build keeps the difference modulo 2^32
 * and then its low 16 bits.
 */
module ImageFx {
  import opened RustText
  import opened Ppm
  import IndexMath

  const U16_LIMIT: int := 0x1_0000

  /**
   * One channel of `negative`: within range it is `maxc - c`; a channel above
   * `maxc` wraps round to `2^16 - (c - maxc)`.
   */
  function NegateChannel(c: u16, maxc: u32): (r: u16)
    ensures c <= maxc < U16_LIMIT ==> r == maxc - c
    ensures c > maxc ==> r == U16_LIMIT - (c - maxc)
    ensures (r + c) % U16_LIMIT == maxc % U16_LIMIT
  {
    var difference := (maxc - c) % U32_LIMIT;
    ModOfWrapped(maxc - c);
    difference % U16_LIMIT
  }

  /** Taking low 16 bits of the low 32 bits of `v` gives the low 16 bits of `v`. */
  lemma ModOfWrapped(v: int)
    ensures (v % U32_LIMIT) % U16_LIMIT == v % U16_LIMIT
  {
    var q := v / U32_LIMIT;
    assert v == q * U32_LIMIT + v % U32_LIMIT;
    assert q * U32_LIMIT == (q * U16_LIMIT) * U16_LIMIT;
    ShiftMod(v % U32_LIMIT, q * U16_LIMIT);
  }

  /** Adding whole multiples of 2^16 does not change the low 16 bits. */
  lemma ShiftMod(a: int, k: int)
    ensures (a + k * U16_LIMIT) % U16_LIMIT == a % U16_LIMIT
  {
    var q, r := a / U16_LIMIT, a % U16_LIMIT;
    assert a + k * U16_LIMIT == (q + k) * U16_LIMIT + r;
  }

  /** A pixel of the negated image. */
  function NegatePixel(p: Pixel, maxc: u32): (q: Pixel)
    ensures p.r <= maxc && p.g <= maxc && p.b <= maxc && maxc < U16_LIMIT ==>
      q == Pixel(maxc - p.r, maxc - p.g, maxc - p.b)
  {
    Pixel(NegateChannel(p.r, maxc), NegateChannel(p.g, maxc), NegateChannel(p.b, maxc))
  }

  /** Every pixel negated, each on its own. */
  function Negated(pixels: seq<Pixel>, maxc: u32): (q: seq<Pixel>)
    ensures |q| == |pixels|
  {
    seq(|pixels|, i requires 0 <= i < |pixels| => NegatePixel(pixels[i], maxc))
  }

  /** `negative`: every pixel changes in place as `NegatePixel` says; the header stays. */
  method Negative(image: Ppm)
    modifies image
    ensures image.pixels == Negated(old(image.pixels), image.maxc)
    ensures image.HeaderFields() == old(image.HeaderFields())
  {
    ghost var original := image.pixels;
    for i := 0 to |image.pixels|
      invariant |image.pixels| == |original|
      invariant image.HeaderFields() == old(image.HeaderFields())
      invariant forall j :: 0 <= j < i ==> image.pixels[j] == NegatePixel(original[j], image.maxc)
      invariant forall j :: i <= j < |original| ==> image.pixels[j] == original[j]
    {
      var pixel := image.pixels[i];
      pixel := pixel.(r := NegateChannel(pixel.r, image.maxc));
      pixel := pixel.(g := NegateChannel(pixel.g, image.maxc));
      pixel := pixel.(b := NegateChannel(pixel.b, image.maxc));
      image.pixels := image.pixels[i := pixel];
    }
  }

  /** A channel negated twice is the channel again, for every `maxc`, thanks to the wrap-around. */
  lemma NegateChannelTwice(c: u16, maxc: u32)
    ensures NegateChannel(NegateChannel(c, maxc), maxc) == c
  {
    var once := NegateChannel(c, maxc);
    var twice := NegateChannel(once, maxc);
    assert (once + c) % U16_LIMIT == maxc % U16_LIMIT;
    assert (twice + once) % U16_LIMIT == maxc % U16_LIMIT;
    SameResidue(c, twice, once);
  }

  /** Two values below 2^16 with the same sum modulo 2^16 against a third are equal. */
  lemma SameResidue(a: u16, b: u16, k: int)
    requires (a + k) % U16_LIMIT == (b + k) % U16_LIMIT
    ensures a == b
  {
    var qa, qb := (a + k) / U16_LIMIT, (b + k) / U16_LIMIT;
    assert a - b == (qa - qb) * U16_LIMIT;
    IndexMath.MulAtLeast(qa - qb, U16_LIMIT);
  }

  /** Applying `negative` twice restores the pixels. */
  lemma NegatedTwice(pixels: seq<Pixel>, maxc: u32)
    ensures Negated(Negated(pixels, maxc), maxc) == pixels
  {
    forall i | 0 <= i < |pixels|
      ensures Negated(Negated(pixels, maxc), maxc)[i] == pixels[i]
    {
      var p := pixels[i];
      NegateChannelTwice(p.r, maxc);
      NegateChannelTwice(p.g, maxc);
      NegateChannelTwice(p.b, maxc);
    }
  }

  /** Channels within `maxc` stay within `maxc` when `maxc` fits a u16. */
  lemma NegatedInRange(pixels: seq<Pixel>, maxc: u32)
    requires maxc < U16_LIMIT
    requires forall i :: 0 <= i < |pixels| ==> pixels[i].r <= maxc && pixels[i].g <= maxc && pixels[i].b <= maxc
    ensures forall i :: 0 <= i < |pixels| ==>
      Negated(pixels, maxc)[i].r <= maxc && Negated(pixels, maxc)[i].g <= maxc && Negated(pixels, maxc)[i].b <= maxc
  {
  }
}
