// The file operations of src/imageio.rs over byte sequences: a file's
// contents are a `seq<byte>`, `process::exit(1)` becomes an error result, and
// what `write_image` writes is returned as a byte sequence.

module ImageIo {
  import opened Wrappers
  import opened RustText
  import opened HeaderScan
  import opened Ppm
  import IndexMath

  /** What `parse_header` leaves behind: the header fields and either the line count it returns or the field that failed. */
  datatype HeaderParse = HeaderParse(header: Header, result: Result<nat, Field>)

  /**
   * The value `parse_header` returns once every field has parsed: the index
   * of the first line after the header, or 0 when there is no such line or
   * the lines run out before four fields were read.
   */
  function HeaderLength(lines: seq<seq<byte>>): (n: nat)
    ensures n > 0 ==> n < |lines| && HeaderEnd(lines) == Some(n)
    ensures n == 0 ==> HeaderEnd(lines) == None || HeaderEnd(lines) == Some(|lines|)
  {
    match HeaderEnd(lines)
    case Some(k) => if k < |lines| then k else 0
    case None => 0
  }

  /** The whole effect of `parse_header` on a file `data` and an image whose header fields start as `init`. */
  function ParseHeaderSpec(data: seq<byte>, init: Header): HeaderParse
  {
    var lines := Lines(data);
    var st := Run(Unsigned32, init, Tokens(lines));
    HeaderParse(st.header, if st.failed.Some? then Err(st.failed.value) else Ok(HeaderLength(lines)))
  }

  /**
   * `parse_header`: walks the lines, skips comments, splits the rest at
   * single spaces and stores the first four blocks as magic, width, height
   * and max color. It returns the index of the line at which the header was
   * found complete, and a field whose block does not parse as a u32 ends it
   * with that field's error.
   */
  method ParseHeader(data: seq<byte>, image: Ppm) returns (r: Result<nat, Field>)
    modifies image
    ensures image.pixels == old(image.pixels)
    ensures HeaderParse(image.HeaderFields(), r) == ParseHeaderSpec(data, old(image.HeaderFields()))
  {
    var lines := Lines(data);
    ghost var init := image.HeaderFields();
    var infoBlock: nat := 0;
    var index := 0;
    while index < |lines|
      invariant index <= |lines|
      invariant image.pixels == old(image.pixels)
      invariant Run(Unsigned32, init, Tokens(lines[..index])) == Scan(image.HeaderFields(), infoBlock, None)
      invariant infoBlock < 4 ==> HeaderEnd(lines[..index]) == None
      invariant infoBlock >= 4 ==> HeaderEnd(lines[..index]) == Some(index)
    {
      if infoBlock >= 4 {
        CompleteBefore(data, init, index, image.HeaderFields(), infoBlock);
        return Ok(index);
      }
      var failed;
      infoBlock, failed := ScanLine(image, lines[index], infoBlock, init, Tokens(lines[..index]));
      if failed.Some? {
        FailedInLine(data, init, index, image.HeaderFields(), infoBlock, failed.value);
        return Err(failed.value);
      }
      RunNextLine(Unsigned32, init, lines, index, image.HeaderFields(), infoBlock);
      index := index + 1;
    }
    assert lines[..index] == lines;
    LinesRunOut(data, init, image.HeaderFields(), infoBlock);
    return Ok(0);
  }

  /** The header was complete before line `index`, which exists. */
  lemma CompleteBefore(data: seq<byte>, init: Header, index: nat, h: Header, b: nat)
    requires index < |Lines(data)| && b >= 4
    requires Run(Unsigned32, init, Tokens(Lines(data)[..index])) == Scan(h, b, None)
    requires HeaderEnd(Lines(data)[..index]) == Some(index)
    ensures ParseHeaderSpec(data, init) == HeaderParse(h, Ok(index))
  {
    HeaderEndStable(Lines(data), index);
    StopsAfterLines(Unsigned32, init, Lines(data), index);
  }

  /** A block of line `index` failed to parse as field `f`. */
  lemma FailedInLine(data: seq<byte>, init: Header, index: nat, h: Header, b: nat, f: Field)
    requires index < |Lines(data)|
    requires Run(Unsigned32, init, Tokens(Lines(data)[..index]) + LineTokens(Lines(data)[index])) == Scan(h, b, Some(f))
    ensures ParseHeaderSpec(data, init) == HeaderParse(h, Err(f))
  {
    var t := LineTokens(Lines(data)[index]);
    assert t[..|t|] == t;
    StopsInLine(Unsigned32, init, Lines(data), index, |t|);
  }

  /** The lines ran out, with or without a complete header. */
  lemma LinesRunOut(data: seq<byte>, init: Header, h: Header, b: nat)
    requires Run(Unsigned32, init, Tokens(Lines(data))) == Scan(h, b, None)
    requires b < 4 ==> HeaderEnd(Lines(data)) == None
    requires b >= 4 ==> HeaderEnd(Lines(data)) == Some(|Lines(data)|)
    ensures ParseHeaderSpec(data, init) == HeaderParse(h, Ok(0))
  {
  }

  /**
   * The body of `parse_header`'s loop over the lines: a comment line is
   * skipped, any other line is split at single spaces and its blocks are
   * scanned. `before` are the blocks of the earlier lines.
   */
  method ScanLine(image: Ppm, line: seq<byte>, infoBlock: nat, ghost init: Header, ghost before: seq<seq<byte>>)
    returns (block: nat, failed: Option<Field>)
    requires Run(Unsigned32, init, before) == Scan(image.HeaderFields(), infoBlock, None)
    modifies image
    ensures image.pixels == old(image.pixels)
    ensures Run(Unsigned32, init, before + LineTokens(line)) == Scan(image.HeaderFields(), block, failed)
  {
    if IsComment(line) {
      CommentLineTokens(before, line);
      return infoBlock, None;
    }
    block, failed := ScanBlocks(image, Split(line, SP), infoBlock, init, before);
  }

  /**
   * The inner loop of `parse_header` over the space-separated blocks of one
   * line: each block fills the field `info_block` names, and the loop breaks
   * once all four are read. `before` are the blocks of the earlier lines.
   */
  method ScanBlocks(image: Ppm, blocks: seq<seq<byte>>, infoBlock: nat, ghost init: Header, ghost before: seq<seq<byte>>)
    returns (block: nat, failed: Option<Field>)
    requires Run(Unsigned32, init, before) == Scan(image.HeaderFields(), infoBlock, None)
    modifies image
    ensures image.pixels == old(image.pixels)
    ensures Run(Unsigned32, init, before + blocks) == Scan(image.HeaderFields(), block, failed)
  {
    block := infoBlock;
    var j := 0;
    assert before + blocks[..0] == before;
    while j < |blocks|
      invariant j <= |blocks|
      invariant image.pixels == old(image.pixels)
      invariant Run(Unsigned32, init, before + blocks[..j]) == Scan(image.HeaderFields(), block, None)
    {
      if block > 3 {
        AbsorbsRest(Unsigned32, init, before, blocks, j, []);
        assert before + blocks + [] == before + blocks;
        break;
      }
      RunNextBlock(Unsigned32, init, before, blocks, j);
      block, failed := StoreBlock(image, block, blocks[j]);
      if failed.Some? {
        AbsorbsRest(Unsigned32, init, before, blocks, j + 1, []);
        assert before + blocks + [] == before + blocks;
        return;
      }
      j := j + 1;
    }
    if j == |blocks| {
      assert blocks[..j] == blocks;
    }
    failed := None;
  }

  /**
   * One arm of `match info_block`: block 0 is the magic, blocks 1 to 3 are
   * width, height and max color, each parsed as a u32.
   */
  method StoreBlock(image: Ppm, infoBlock: nat, tok: seq<byte>) returns (block: nat, failed: Option<Field>)
    requires infoBlock <= 3
    modifies image
    ensures image.pixels == old(image.pixels)
    ensures Scan(image.HeaderFields(), block, failed) == Step(Unsigned32, Scan(old(image.HeaderFields()), infoBlock, None), tok)
  {
    if infoBlock == 0 {
      image.magic := tok;
      return 1, None;
    }
    var v := ParseInt(Unsigned32, tok);
    if v.None? {
      return infoBlock, Some(FieldAt(infoBlock));
    }
    if infoBlock == 1 {
      image.width := v.value;
    } else if infoBlock == 2 {
      image.height := v.value;
    } else {
      image.maxc := v.value;
    }
    return infoBlock + 1, None;
  }

  /** Why pixel data could not be read or written. */
  datatype PixelError = UnsupportedBitDepth | TruncatedPixelData

  /** The two max color values with a pixel layout: 8-bit and 16-bit channels. */
  predicate SupportedDepth(maxc: int)
  {
    maxc == 255 || maxc == 65535
  }

  /** Where pixel `i` starts in the pixel data: 3 bytes per pixel at 8 bits, 6 at 16 bits. */
  function Offset(i: nat, maxc: int): nat
  {
    if maxc == 255 then 3 * i else 6 * i
  }

  /** `u16::from_be_bytes([hi, lo])`. */
  function BigEndian(hi: byte, lo: byte): u16
  {
    hi as int * 0x100 + lo
  }

  /** `to_be_bytes` undoes `from_be_bytes`. */
  lemma BigEndianBytes(hi: byte, lo: byte)
    ensures BigEndian(hi, lo) / 0x100 == hi && BigEndian(hi, lo) % 0x100 == lo
  {
    IndexMath.DivModOf(hi, lo, 0x100);
  }

  /** The pixel whose bytes start at `off`: one byte per channel, or a big-endian pair per channel. */
  function PixelAt(bytes: seq<byte>, off: nat, maxc: int): Pixel
    requires SupportedDepth(maxc) && Offset(1, maxc) + off <= |bytes|
  {
    if maxc == 255 then Pixel(bytes[off], bytes[off + 1], bytes[off + 2])
    else
      Pixel(BigEndian(bytes[off], bytes[off + 1]),
            BigEndian(bytes[off + 2], bytes[off + 3]),
            BigEndian(bytes[off + 4], bytes[off + 5]))
  }

  /** A decoded pixel encodes back to exactly the bytes it was read from. */
  lemma PixelAtEncodes(bytes: seq<byte>, off: nat, maxc: int)
    requires SupportedDepth(maxc) && Offset(1, maxc) + off <= |bytes|
    ensures EncodePixel(PixelAt(bytes, off, maxc), maxc) == bytes[off..off + Offset(1, maxc)]
  {
    if maxc == 65535 {
      BigEndianBytes(bytes[off], bytes[off + 1]);
      BigEndianBytes(bytes[off + 2], bytes[off + 3]);
      BigEndianBytes(bytes[off + 4], bytes[off + 5]);
    }
  }

  /** The first `n` pixels of the pixel data `bytes`. */
  function DecodePixels(bytes: seq<byte>, maxc: int, n: nat): (ps: seq<Pixel>)
    requires (n == 0 || SupportedDepth(maxc)) && Offset(n, maxc) <= |bytes|
    ensures |ps| == n
  {
    seq(n, i requires 0 <= i < n => PixelAt(bytes, Offset(i, maxc), maxc))
  }

  /** The pixels `read_image_data` stores and whether it finished or exited. */
  datatype PixelRead = PixelRead(pixels: seq<Pixel>, outcome: Outcome<PixelError>)

  /**
   * The effect of `read_image_data(data, image, headerLength)` on an image of
   * `count` pixels: the pixel data starts after `headerLength` lines; an
   * unsupported max color fails before the first pixel, and data that ends
   * early fails after the last whole pixel.
   */
  function ReadPixelsSpec(data: seq<byte>, maxc: int, count: nat, headerLength: nat): PixelRead
  {
    var rest := data[SkipLines(data, headerLength)..];
    if count == 0 then PixelRead([], Pass)
    else if !SupportedDepth(maxc) then PixelRead([], Fail(UnsupportedBitDepth))
    else if Offset(count, maxc) <= |rest| then PixelRead(DecodePixels(rest, maxc, count), Pass)
    else PixelRead(DecodePixels(rest, maxc, |rest| / Offset(1, maxc)), Fail(TruncatedPixelData))
  }

  /**
   * `read_image_data`: skips `headerLength` lines from the start of the
   * file, then reads `pixel_count()` pixels of the layout `maxc` selects.
   */
  method ReadImageData(data: seq<byte>, image: Ppm, headerLength: nat) returns (r: Outcome<PixelError>)
    modifies image
    ensures image.HeaderFields() == old(image.HeaderFields())
    ensures PixelRead(image.pixels, r) == ReadPixelsSpec(data, image.maxc, image.PixelCount(), headerLength)
  {
    var pos := 0;
    for i := 0 to headerLength
      invariant pos == SkipLines(data, i)
    {
      pos := NextLine(data, pos);
    }
    ghost var start := pos;
    image.pixels := [];
    var count := image.PixelCount();
    for i := 0 to count
      invariant image.HeaderFields() == old(image.HeaderFields())
      invariant i > 0 ==> SupportedDepth(image.maxc)
      invariant start <= pos <= |data| && pos - start == Offset(i, image.maxc)
      invariant image.pixels == DecodePixels(data[start..], image.maxc, i)
    {
      if !SupportedDepth(image.maxc) {
        return Fail(UnsupportedBitDepth);
      }
      var p := ReadPixel(data, pos, image.maxc);
      if p.None? {
        Truncated(data, image.maxc, count, headerLength, i);
        return Fail(TruncatedPixelData);
      }
      DecodeNext(data, start, image.maxc, i);
      image.pixels := image.pixels + [p.value];
      pos := pos + Offset(1, image.maxc);
    }
    Complete(data, image.maxc, count, headerLength);
    return Pass;
  }

  /** Every pixel was read. */
  lemma Complete(data: seq<byte>, maxc: int, count: nat, headerLength: nat)
    requires count == 0 || SupportedDepth(maxc)
    requires SkipLines(data, headerLength) + Offset(count, maxc) <= |data|
    ensures ReadPixelsSpec(data, maxc, count, headerLength)
         == PixelRead(DecodePixels(data[SkipLines(data, headerLength)..], maxc, count), Pass)
  {
  }

  /**
   * One arm of the pixel loop's `match image.maxc`: `read_exact` of 3 or 6
   * bytes at `pos`, which fails when the data ends first, and the pixel
   * built from them.
   */
  method ReadPixel(data: seq<byte>, pos: nat, maxc: int) returns (p: Option<Pixel>)
    requires SupportedDepth(maxc) && pos <= |data|
    ensures p.Some? <==> pos + Offset(1, maxc) <= |data|
    ensures p.Some? ==> p.value == PixelAt(data, pos, maxc)
  {
    if maxc == 255 {
      if pos + 3 > |data| {
        return None;
      }
      return Some(Pixel(data[pos], data[pos + 1], data[pos + 2]));
    } else {
      if pos + 6 > |data| {
        return None;
      }
      return Some(Pixel(BigEndian(data[pos], data[pos + 1]),
                        BigEndian(data[pos + 2], data[pos + 3]),
                        BigEndian(data[pos + 4], data[pos + 5])));
    }
  }

  /** The data ends inside pixel `i`: what has been read so far is what the spec keeps. */
  lemma Truncated(data: seq<byte>, maxc: int, count: nat, headerLength: nat, i: nat)
    requires SupportedDepth(maxc) && i < count
    requires SkipLines(data, headerLength) + Offset(i, maxc) <= |data| < SkipLines(data, headerLength) + Offset(i + 1, maxc)
    ensures ReadPixelsSpec(data, maxc, count, headerLength)
         == PixelRead(DecodePixels(data[SkipLines(data, headerLength)..], maxc, i), Fail(TruncatedPixelData))
  {
    var len := |data| - SkipLines(data, headerLength);
    TruncatedCount(len, i, Offset(1, maxc));
  }

  /** One more pixel of the data that starts at `start`. */
  lemma DecodeNext(data: seq<byte>, start: nat, maxc: int, i: nat)
    requires SupportedDepth(maxc) && start + Offset(i + 1, maxc) <= |data|
    ensures DecodePixels(data[start..], maxc, i + 1)
         == DecodePixels(data[start..], maxc, i) + [PixelAt(data, start + Offset(i, maxc), maxc)]
  {
    var rest := data[start..];
    var off := Offset(i, maxc);
    assert PixelAt(rest, off, maxc) == PixelAt(data, start + off, maxc);
    assert DecodePixels(rest, maxc, i + 1) == DecodePixels(rest, maxc, i) + [PixelAt(rest, off, maxc)];
  }

  /** The whole pixels in `len` bytes, when `i` fit and pixel `i` does not. */
  lemma TruncatedCount(len: int, i: nat, size: nat)
    requires size > 0 && i * size <= len < i * size + size
    ensures len / size == i
  {
    IndexMath.DivModOf(i, len - i * size, size);
  }

  /** The comment line `write_image` puts after the magic. */
  const COMMENT: seq<byte> :=
    Ascii("# Modified") + Ascii(" with David") + Ascii(" Bootle's") + Ascii(" PPM Image") + Ascii(" Tool")

  /**
   * The header `write_image` formats: the magic, the comment, `width height`
   * and the max color, each on a line of its own ended by a newline.
   */
  function HeaderText(magic: seq<byte>, width: nat, height: nat, maxc: nat): (text: seq<byte>)
    ensures text == magic + [NL] + COMMENT + [NL] + Decimal(width) + [SP] + Decimal(height) + [NL] + Decimal(maxc) + [NL]
  {
    var dims := Decimal(width) + [SP] + Decimal(height);
    TerminatedFour(magic, COMMENT, dims, Decimal(maxc));
    Terminated([magic, COMMENT, dims, Decimal(maxc)])
  }

  /** One pixel as `write_image` writes it: `as u8` of each channel or the channel's `to_be_bytes`. */
  function EncodePixel(p: Pixel, maxc: int): (bytes: seq<byte>)
    requires SupportedDepth(maxc)
    ensures |bytes| == Offset(1, maxc)
  {
    if maxc == 255 then [p.r % 0x100, p.g % 0x100, p.b % 0x100]
    else [p.r / 0x100, p.r % 0x100, p.g / 0x100, p.g % 0x100, p.b / 0x100, p.b % 0x100]
  }

  /** The pixel data for `pixels`, one encoded pixel after another. */
  function EncodePixels(pixels: seq<Pixel>, maxc: int): seq<byte>
    requires pixels == [] || SupportedDepth(maxc)
  {
    Flatten(seq(|pixels|, i requires 0 <= i < |pixels| => EncodePixel(pixels[i], maxc)))
  }

  /** Everything `write_image` writes for an image whose pixels it can encode. */
  function Encoding(magic: seq<byte>, width: nat, height: nat, maxc: nat, pixels: seq<Pixel>): seq<byte>
    requires pixels == [] || SupportedDepth(maxc)
  {
    HeaderText(magic, width, height, maxc) + EncodePixels(pixels, maxc)
  }

  /**
   * `write_image`, returning the bytes that end up in the file: the header,
   * then every pixel, all passed through a `BufWriter`. An image with pixels
   * and a max color other than 255 or 65535 exits instead, and since
   * `process::exit` skips the writer's flush, the file `File::create` emptied
   * stays empty.
   */
  method WriteImage(image: Ppm) returns (out: seq<byte>, r: Outcome<PixelError>)
    ensures r == if image.pixels != [] && !SupportedDepth(image.maxc) then Fail(UnsupportedBitDepth) else Pass
    ensures r.Pass? ==> out == Encoding(image.magic, image.width, image.height, image.maxc, image.pixels)
    ensures r.Fail? ==> out == []
  {
    var buffered := HeaderText(image.magic, image.width, image.height, image.maxc);
    ghost var header := buffered;
    for i := 0 to |image.pixels|
      invariant i == 0 || SupportedDepth(image.maxc)
      invariant buffered == header + EncodePixels(image.pixels[..i], image.maxc)
    {
      var p := image.pixels[i];
      if image.maxc == 255 {
        buffered := buffered + [p.r % 0x100, p.g % 0x100, p.b % 0x100];
      } else if image.maxc == 65535 {
        buffered := buffered + [p.r / 0x100, p.r % 0x100, p.g / 0x100, p.g % 0x100, p.b / 0x100, p.b % 0x100];
      } else {
        return [], Fail(UnsupportedBitDepth);
      }
      EncodeNext(image.pixels, image.maxc, i);
    }
    assert image.pixels[..|image.pixels|] == image.pixels;
    return buffered, Pass;
  }

  /** Encoding one more pixel appends its bytes. */
  lemma EncodeNext(pixels: seq<Pixel>, maxc: int, i: nat)
    requires SupportedDepth(maxc) && i < |pixels|
    ensures EncodePixels(pixels[..i + 1], maxc) == EncodePixels(pixels[..i], maxc) + EncodePixel(pixels[i], maxc)
  {
    var front := pixels[..i + 1];
    var xs := seq(|front|, k requires 0 <= k < |front| => EncodePixel(front[k], maxc));
    assert xs[..i] == seq(i, k requires 0 <= k < i => EncodePixel(pixels[..i][k], maxc));
  }

  /** Every channel is at most the max color; at 8 bits that is what survives `as u8`. */
  predicate InRange(p: Pixel, maxc: int)
  {
    p.r <= maxc && p.g <= maxc && p.b <= maxc
  }

  /** Reading back one written pixel gives the pixel. */
  lemma PixelRoundTrip(p: Pixel, maxc: int)
    requires SupportedDepth(maxc) && InRange(p, maxc)
    ensures PixelAt(EncodePixel(p, maxc), 0, maxc) == p
  {
  }

  lemma PixelAtPrefix(a: seq<byte>, b: seq<byte>, off: nat, maxc: int)
    requires SupportedDepth(maxc) && off + Offset(1, maxc) <= |a|
    ensures PixelAt(a + b, off, maxc) == PixelAt(a, off, maxc)
  {
  }

  lemma PixelAtSuffix(a: seq<byte>, b: seq<byte>, maxc: int)
    requires SupportedDepth(maxc) && Offset(1, maxc) <= |b|
    ensures PixelAt(a + b, |a|, maxc) == PixelAt(b, 0, maxc)
  {
  }

  /** `read_image_data`'s decoding undoes `write_image`'s encoding. */
  lemma {:induction false} DecodeEncode(pixels: seq<Pixel>, maxc: int)
    requires SupportedDepth(maxc)
    requires forall i :: 0 <= i < |pixels| ==> InRange(pixels[i], maxc)
    ensures |EncodePixels(pixels, maxc)| == Offset(|pixels|, maxc)
    ensures DecodePixels(EncodePixels(pixels, maxc), maxc, |pixels|) == pixels
  {
    if pixels != [] {
      var n := |pixels| - 1;
      var front := pixels[..n];
      DecodeEncode(front, maxc);
      EncodeNext(pixels, maxc, n);
      assert pixels[..n + 1] == pixels;
      var a := EncodePixels(front, maxc);
      var b := EncodePixel(pixels[n], maxc);
      PixelRoundTrip(pixels[n], maxc);
      PixelAtSuffix(a, b, maxc);
      forall i | 0 <= i < |pixels|
        ensures PixelAt(a + b, Offset(i, maxc), maxc) == pixels[i]
      {
        if i < n {
          PixelAtPrefix(a, b, Offset(i, maxc), maxc);
          assert DecodePixels(a, maxc, n)[i] == front[i];
        }
      }
    }
  }

  lemma CommentLine()
    ensures IsComment(COMMENT) && NL !in COMMENT && LineTokens(COMMENT) == []
  {
    AsciiOmits("# Modified", '\n');
    AsciiOmits(" with David", '\n');
    AsciiOmits(" Bootle's", '\n');
    AsciiOmits(" PPM Image", '\n');
    AsciiOmits(" Tool", '\n');
  }

  /** A line without spaces that is not a comment is a single token. */
  lemma SingleToken(line: seq<byte>)
    requires SP !in line && !IsComment(line)
    ensures LineTokens(line) == [line]
  {
    IndexOfAbsent(line, SP);
  }

  /** The dimensions line splits into the width and the height. */
  lemma DimensionTokens(width: nat, height: nat)
    ensures LineTokens(Decimal(width) + [SP] + Decimal(height)) == [Decimal(width), Decimal(height)]
  {
    var dw, dh := Decimal(width), Decimal(height);
    assert Join([dw, dh], SP) == dw + [SP] + dh;
    SplitJoin([dw, dh], SP);
    assert IsDigit(dw[0]);
  }

  /** The lines of a written header and the tokens they offer. */
  lemma HeaderTokens(magic: seq<byte>, width: nat, height: nat, maxc: nat)
    requires SP !in magic && !IsComment(magic)
    ensures Tokens([magic, COMMENT, Decimal(width) + [SP] + Decimal(height)]) == [magic, Decimal(width), Decimal(height)]
    ensures Tokens([magic, COMMENT, Decimal(width) + [SP] + Decimal(height), Decimal(maxc)])
         == [magic, Decimal(width), Decimal(height), Decimal(maxc)]
  {
    var dm := Decimal(maxc);
    CommentLine();
    SingleToken(magic);
    DimensionTokens(width, height);
    assert IsDigit(dm[0]);
    SingleToken(dm);
    TokensOfHeaderLines(magic, COMMENT, Decimal(width) + [SP] + Decimal(height), dm, Decimal(width), Decimal(height));
  }

  lemma LinesEmpty(s: seq<byte>)
    ensures Lines(s) == [] <==> s == []
  {
  }

  /** The lines of a written file: the four header lines, then those of the pixel data. */
  lemma WrittenLines(magic: seq<byte>, width: nat, height: nat, maxc: nat, body: seq<byte>)
    requires NL !in magic
    ensures Lines(HeaderText(magic, width, height, maxc) + body)
         == [magic, COMMENT, Decimal(width) + [SP] + Decimal(height), Decimal(maxc)] + Lines(body)
  {
    CommentLine();
    var header := [magic, COMMENT, Decimal(width) + [SP] + Decimal(height), Decimal(maxc)];
    assert NoneHolds(header, NL);
    LinesOfTerminated(header, body);
  }

  /** The header of a written file parses to the fields it was written from. */
  lemma {:induction false} HeaderRoundTrip(magic: seq<byte>, width: u32, height: u32, maxc: u32, body: seq<byte>, init: Header)
    requires NL !in magic && SP !in magic && !IsComment(magic)
    ensures ParseHeaderSpec(HeaderText(magic, width, height, maxc) + body, init)
         == HeaderParse(Header(magic, width, height, maxc), Ok(if body == [] then 0 else 4))
  {
    var header := [magic, COMMENT, Decimal(width) + [SP] + Decimal(height), Decimal(maxc)];
    var lines := header + Lines(body);
    WrittenLines(magic, width, height, maxc, body);
    HeaderTokens(magic, width, height, maxc);
    assert lines[..4] == header;
    assert lines[..3] == [magic, COMMENT, Decimal(width) + [SP] + Decimal(height)];
    HeaderEndAt(lines, 4);
    LinesEmpty(body);
    TokensAppend(header, Lines(body));
    ParseDecimalUnsigned(width);
    ParseDecimalUnsigned(height);
    ParseDecimalUnsigned(maxc);
    var four := [magic, Decimal(width), Decimal(height), Decimal(maxc)];
    RunIsFirstFour(Unsigned32, init, four);
    RunAbsorbs(Unsigned32, init, four, Tokens(Lines(body)));
  }

  /** Skipping the four header lines of a written file lands on its pixel data. */
  lemma SkipWrittenHeader(magic: seq<byte>, width: nat, height: nat, maxc: nat, body: seq<byte>)
    requires NL !in magic
    ensures var data := HeaderText(magic, width, height, maxc) + body;
      data[SkipLines(data, 4)..] == body
  {
    CommentLine();
    var header := [magic, COMMENT, Decimal(width) + [SP] + Decimal(height), Decimal(maxc)];
    assert NoneHolds(header, NL);
    SkipTerminated(header, body);
    var data := Terminated(header) + body;
    assert data[|Terminated(header)|..] == body;
  }

  /**
   * Writing an image and reading the file back restores it: the header
   * parses to the image's fields and ends after four lines (0 when no pixel
   * data follows), and the pixel data decodes to the image's pixels. The
   * magic must be a single block that is not a comment, and at 8 bits every
   * channel must fit in a byte.
   */
  lemma RoundTrip(magic: seq<byte>, width: u32, height: u32, maxc: u32, pixels: seq<Pixel>, init: Header)
    requires SupportedDepth(maxc)
    requires |pixels| == width * height && width * height < U32_LIMIT
    requires forall i :: 0 <= i < |pixels| ==> InRange(pixels[i], maxc)
    requires NL !in magic && SP !in magic && !IsComment(magic)
    ensures ParseHeaderSpec(Encoding(magic, width, height, maxc, pixels), init)
         == HeaderParse(Header(magic, width, height, maxc), Ok(if pixels == [] then 0 else 4))
    ensures ReadPixelsSpec(Encoding(magic, width, height, maxc, pixels), maxc, WrappingMul(width, height),
                           if pixels == [] then 0 else 4)
         == PixelRead(pixels, Pass)
  {
    var body := EncodePixels(pixels, maxc);
    DecodeEncode(pixels, maxc);
    HeaderRoundTrip(magic, width, height, maxc, body, init);
    if pixels != [] {
      SkipWrittenHeader(magic, width, height, maxc, body);
    }
  }

  /*
   * When the file ends right after the header's last line, `parse_header`
   * falls out of its loop and returns 0, so `read_image_data` skips no line
   * and reads the header's own bytes as pixel data.
   */

  /** A file that holds a header for one 8-bit pixel and no pixel data: "P6\n1 1\n255\n". */
  const HEADER_ONLY: seq<byte> := [80, 54, 10, 49, 32, 49, 10, 50, 53, 53, 10]

  /** As written: the header parses, the value returned is 0, and the header's first three bytes become the pixel. */
  lemma HeaderOnlyFile(init: Header)
    ensures ParseHeaderSpec(HEADER_ONLY, init) == HeaderParse(Header([80, 54], 1, 1, 255), Ok(0))
    ensures ReadPixelsSpec(HEADER_ONLY, 255, 1, 0) == PixelRead([Pixel(80, 54, 10)], Pass)
  {
    var ls := HeaderOnlyLines();
    HeaderOnlyTokens(ls);
    HeaderOnlyNumbers();
    var toks: seq<seq<byte>> := [[80, 54], [49], [49], [50, 53, 53]];
    RunIsFirstFour(Unsigned32, init, toks);
    assert Run(Unsigned32, init, toks) == Scan(Header([80, 54], 1, 1, 255), 4, None);
    HeaderOnlyPixel();
  }

  /** The numbers in `HEADER_ONLY`. */
  lemma HeaderOnlyNumbers()
    ensures ParseInt(Unsigned32, [49]) == Some(1)
    ensures ParseInt(Unsigned32, [50, 53, 53]) == Some(255)
  {
    ParseDecimalUnsigned(1);
    ParseDecimalUnsigned(255);
    assert Decimal(1) == [49];
    assert Decimal(255) == [50, 53, 53];
  }

  /** Read from the start, the file's first three bytes are one 8-bit pixel. */
  lemma HeaderOnlyPixel()
    ensures ReadPixelsSpec(HEADER_ONLY, 255, 1, 0) == PixelRead([Pixel(80, 54, 10)], Pass)
  {
    assert HEADER_ONLY[0..] == HEADER_ONLY;
    assert DecodePixels(HEADER_ONLY, 255, 1) == [Pixel(80, 54, 10)];
  }

  /** The three lines of `HEADER_ONLY`. */
  lemma HeaderOnlyLines() returns (ls: seq<seq<byte>>)
    ensures ls == [[80, 54], [49, 32, 49], [50, 53, 53]]
    ensures Lines(HEADER_ONLY) == ls
  {
    ls := [[80, 54], [49, 32, 49], [50, 53, 53]];
    assert HEADER_ONLY == ls[0] + [NL] + (ls[1] + [NL] + (ls[2] + [NL] + []));
    ThreeLines(ls[0], ls[1], ls[2]);
  }

  /** Three newline-terminated lines. */
  lemma ThreeLines(a: seq<byte>, b: seq<byte>, c: seq<byte>)
    requires NL !in a && NL !in b && NL !in c
    ensures Lines(a + [NL] + (b + [NL] + (c + [NL] + []))) == [a, b, c]
  {
    LinesOfLine(c, []);
    LinesOfLine(b, c + [NL] + []);
    LinesOfLine(a, b + [NL] + (c + [NL] + []));
  }

  /** The blocks of those lines: the magic, the width, the height and the max color. */
  lemma HeaderOnlyTokens(ls: seq<seq<byte>>)
    requires ls == [[80, 54], [49, 32, 49], [50, 53, 53]]
    ensures Tokens(ls) == [[80, 54], [49], [49], [50, 53, 53]]
    ensures HeaderEnd(ls) == Some(3)
  {
    SingleToken(ls[0]);
    SingleToken(ls[2]);
    assert LineTokens(ls[1]) == [[49], [49]] by {
      assert Join([[49], [49]], SP) == ls[1];
      SplitJoin([[49], [49]], SP);
    }
    ThreeLineHeader(ls[0], ls[1], ls[2], [49], [49]);
  }

  /** The line count `parse_header` evidently means to return: the header's lines, also when nothing follows them. */
  function HeaderLineCount(lines: seq<seq<byte>>): (n: nat)
    ensures n <= |lines|
    ensures HeaderEnd(lines).Some? && HeaderEnd(lines).value < |lines| ==> n == HeaderLength(lines)
  {
    match HeaderEnd(lines)
    case Some(k) => k
    case None => 0
  }

  /**
   * Corrected: a file whose newline-terminated lines `ls` end with the
   * header's last line has no pixel data left after the header, so reading
   * any pixel fails as truncated, where the value as written (0) leads
   * `read_image_data` back to the start of the file.
   */
  lemma HeaderOnlyTruncated(ls: seq<seq<byte>>, maxc: int, count: nat)
    requires NoneHolds(ls, NL) && HeaderEnd(ls) == Some(|ls|)
    requires SupportedDepth(maxc) && count > 0
    ensures HeaderLength(Lines(Terminated(ls))) == 0
    ensures HeaderLineCount(Lines(Terminated(ls))) == |ls|
    ensures ReadPixelsSpec(Terminated(ls), maxc, count, HeaderLineCount(Lines(Terminated(ls))))
         == PixelRead([], Fail(TruncatedPixelData))
  {
    LinesOfWhole(ls);
    TruncatedEmpty(Terminated(ls), maxc, count, |ls|);
  }

  /** Newline-terminated lines and nothing after them: `lines()` gives them back, and skipping them reaches the end. */
  lemma LinesOfWhole(ls: seq<seq<byte>>)
    requires NoneHolds(ls, NL)
    ensures Lines(Terminated(ls)) == ls
    ensures SkipLines(Terminated(ls), |ls|) == |Terminated(ls)|
  {
    var data := Terminated(ls);
    assert data + [] == data;
    LinesOfTerminated(ls, []);
    assert ls + [] == ls;
    SkipTerminated(ls, []);
  }

  /** No pixel data after the skipped lines: the first pixel is already truncated. */
  lemma TruncatedEmpty(data: seq<byte>, maxc: int, count: nat, headerLength: nat)
    requires SkipLines(data, headerLength) == |data|
    requires SupportedDepth(maxc) && count > 0
    ensures ReadPixelsSpec(data, maxc, count, headerLength) == PixelRead([], Fail(TruncatedPixelData))
  {
    assert data[|data|..] == [];
    assert DecodePixels([], maxc, 0) == [];
  }
}
