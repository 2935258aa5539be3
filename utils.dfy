/**
 * The older header parser of src/utils.rs. It scans the header exactly as
 * `parse_header` in src/imageio.rs does, but parses width, height and max
 * color with `parse::<i32>`, stores them in i32 fields, breaks out of the
 * line loop once four blocks are read and returns nothing.
 */
module Utils {
  import opened Wrappers
  import opened RustText
  import opened HeaderScan

  type i32 = x: int | -0x8000_0000 <= x < 0x8000_0000

  /** The image header the legacy parser fills in: magic text and three i32 fields. */
  class LegacyImage {
    var width: i32
    var height: i32
    var maxc: i32
    var magic: seq<byte>

    /** A blank header: every field zero or empty. */
    constructor ()
      ensures width == 0 && height == 0 && maxc == 0 && magic == []
    {
      width, height, maxc := 0, 0, 0;
      magic := [];
    }

    /** The four header fields as one value. */
    function HeaderFields(): Header
      reads this
    {
      Header(magic, width, height, maxc)
    }
  }

  /** What the legacy `parse_header` leaves behind: the header fields, and the field that failed, if any. */
  datatype LegacyParse = LegacyParse(header: Header, outcome: Outcome<Field>)

  /** The whole effect of the legacy `parse_header` on a file `data` and a header that starts as `init`. */
  function ParseHeaderSpec(data: seq<byte>, init: Header): LegacyParse
  {
    var st := Run(Signed32, init, Tokens(Lines(data)));
    LegacyParse(st.header, if st.failed.Some? then Fail(st.failed.value) else Pass)
  }

  /**
   * The legacy `parse_header`: walks the lines, skips comments, splits the
   * rest at single spaces and stores the first four blocks as magic, width,
   * height and max color, each number parsed as an i32. A block that does not
   * parse ends it with that field's error; when the lines run out first it
   * returns normally.
   */
  method ParseHeader(data: seq<byte>, image: LegacyImage) returns (r: Outcome<Field>)
    modifies image
    ensures LegacyParse(image.HeaderFields(), r) == ParseHeaderSpec(data, old(image.HeaderFields()))
  {
    var lines := Lines(data);
    ghost var init := image.HeaderFields();
    var infoBlock: nat := 0;
    var index := 0;
    while index < |lines|
      invariant index <= |lines|
      invariant Run(Signed32, init, Tokens(lines[..index])) == Scan(image.HeaderFields(), infoBlock, None)
    {
      if infoBlock >= 4 {
        break;
      }
      var failed;
      infoBlock, failed := ScanLine(image, lines[index], infoBlock, init, Tokens(lines[..index]));
      RunLineSnoc(Signed32, init, lines, index);
      if failed.Some? {
        StopsAfterLines(Signed32, init, lines, index + 1);
        return Fail(failed.value);
      }
      index := index + 1;
    }
    if index < |lines| {
      StopsAfterLines(Signed32, init, lines, index);
    } else {
      assert lines[..index] == lines;
    }
    return Pass;
  }

  /**
   * The body of the line loop: a comment line is skipped, any other line is
   * split at single spaces and its blocks are scanned. `before` are the
   * blocks of the earlier lines.
   */
  method ScanLine(image: LegacyImage, line: seq<byte>, infoBlock: nat, ghost init: Header, ghost before: seq<seq<byte>>)
    returns (block: nat, failed: Option<Field>)
    requires Run(Signed32, init, before) == Scan(image.HeaderFields(), infoBlock, None)
    modifies image
    ensures Run(Signed32, init, before + LineTokens(line)) == Scan(image.HeaderFields(), block, failed)
  {
    if IsComment(line) {
      CommentLineTokens(before, line);
      return infoBlock, None;
    }
    block, failed := ScanBlocks(image, Split(line, SP), infoBlock, init, before);
  }

  /**
   * The loop over the blocks of one line: each block fills the field
   * `info_block` names, and the loop breaks once all four are read.
   */
  method ScanBlocks(image: LegacyImage, blocks: seq<seq<byte>>, infoBlock: nat, ghost init: Header, ghost before: seq<seq<byte>>)
    returns (block: nat, failed: Option<Field>)
    requires Run(Signed32, init, before) == Scan(image.HeaderFields(), infoBlock, None)
    modifies image
    ensures Run(Signed32, init, before + blocks) == Scan(image.HeaderFields(), block, failed)
  {
    block := infoBlock;
    var j := 0;
    assert before + blocks[..0] == before;
    while j < |blocks|
      invariant j <= |blocks|
      invariant Run(Signed32, init, before + blocks[..j]) == Scan(image.HeaderFields(), block, None)
    {
      if block > 3 {
        AbsorbsRest(Signed32, init, before, blocks, j, []);
        assert before + blocks + [] == before + blocks;
        break;
      }
      RunNextBlock(Signed32, init, before, blocks, j);
      block, failed := StoreBlock(image, block, blocks[j]);
      if failed.Some? {
        AbsorbsRest(Signed32, init, before, blocks, j + 1, []);
        assert before + blocks + [] == before + blocks;
        return;
      }
      j := j + 1;
    }
    if j == |blocks| {
      assert blocks[..j] == blocks;
    }
    failed := None;
  }

  /** One arm of `match info_block`: block 0 is the magic, blocks 1 to 3 are i32 numbers. */
  method StoreBlock(image: LegacyImage, infoBlock: nat, tok: seq<byte>) returns (block: nat, failed: Option<Field>)
    requires infoBlock <= 3
    modifies image
    ensures Scan(image.HeaderFields(), block, failed) == Step(Signed32, Scan(old(image.HeaderFields()), infoBlock, None), tok)
  {
    if infoBlock == 0 {
      image.magic := tok;
      return 1, None;
    }
    var v := ParseInt(Signed32, tok);
    if v.None? {
      return infoBlock, Some(FieldAt(infoBlock));
    }
    if infoBlock == 1 {
      image.width := v.value;
    } else if infoBlock == 2 {
      image.height := v.value;
    } else {
      image.maxc := v.value;
    }
    return infoBlock + 1, None;
  }

  /** A number written with a leading minus sign. */
  function MinusDecimal(n: nat): seq<byte>
  {
    [MINUS] + Decimal(n)
  }

  /** Negative width, height and max color are accepted and stored as such. */
  lemma NegativeFieldsAccepted(init: Header, magic: seq<byte>, w: nat, h: nat, c: nat, rest: seq<seq<byte>>)
    requires w <= I32_LIMIT && h <= I32_LIMIT && c <= I32_LIMIT
    ensures Run(Signed32, init, [magic, MinusDecimal(w), MinusDecimal(h), MinusDecimal(c)] + rest)
      == Scan(Header(magic, -(w as int), -(h as int), -(c as int)), 4, None)
  {
    var toks := [magic, MinusDecimal(w), MinusDecimal(h), MinusDecimal(c)] + rest;
    ParseNegativeSigned(w);
    ParseNegativeSigned(h);
    ParseNegativeSigned(c);
    assert toks[1] == MinusDecimal(w) && toks[2] == MinusDecimal(h) && toks[3] == MinusDecimal(c);
    RunIsFirstFour(Signed32, init, toks);
  }

  /** The u32 parser of src/imageio.rs refuses the same negative width. */
  lemma NegativeWidthRefused(init: Header, magic: seq<byte>, w: nat, rest: seq<seq<byte>>)
    ensures Run(Unsigned32, init, [magic, MinusDecimal(w)] + rest) == Scan(init.(magic := magic), 1, Some(Width))
  {
    var toks := [magic, MinusDecimal(w)] + rest;
    ParseNegativeUnsigned(w);
    assert toks[1] == MinusDecimal(w);
    RunIsFirstFour(Unsigned32, init, toks);
  }

  /** Once the header lines `ls` hold four blocks or a failure, whatever follows them is never looked at. */
  lemma LaterLinesIgnored(ls: seq<seq<byte>>, more: seq<byte>, init: Header)
    requires NoneHolds(ls, NL)
    requires Done(Run(Signed32, init, Tokens(ls)))
    ensures ParseHeaderSpec(Terminated(ls) + more, init) == ParseHeaderSpec(Terminated(ls), init)
  {
    LinesOfTerminated(ls, more);
    LinesOfTerminated(ls, []);
    assert Terminated(ls) + [] == Terminated(ls);
    assert ls + [] == ls;
    TokensAppend(ls, Lines(more));
    RunAbsorbs(Signed32, init, Tokens(ls), Tokens(Lines(more)));
  }

  /**
   * A file that ends before four blocks ends the parse without an error
   * unless a number failed, and the fields it never reached keep their
   * values.
   */
  lemma ShortHeaderKeepsFields(data: seq<byte>, init: Header)
    requires |Tokens(Lines(data))| < 4
    ensures var p := ParseHeaderSpec(data, init);
      var n := |Tokens(Lines(data))|;
      (p.outcome.Fail? || 1 <= n || p.header.magic == init.magic) &&
      (p.outcome.Fail? || 2 <= n || p.header.width == init.width) &&
      (p.outcome.Fail? || 3 <= n || p.header.height == init.height) &&
      p.header.maxc == init.maxc
  {
    var toks := Tokens(Lines(data));
    RunKeepsUnread(Signed32, init, toks);
    if Run(Signed32, init, toks).failed.None? {
      BlockCounts(Signed32, init, toks);
    } else {
      RunIsFirstFour(Signed32, init, toks);
    }
  }
}
