/**
 * The header scanner shared by `parse_header` in src/imageio.rs and its
 * older copy in src/utils.rs: lines that start with `#` are skipped, every
 * other line is split on single spaces, and the pieces fill magic, width,
 * height and maxc in that order, counted by `info_block`.
 */
module HeaderScan {
  import opened Wrappers
  import opened RustText

  /** The four header fields, in the order the header gives them. */
  datatype Header = Header(magic: seq<byte>, width: int, height: int, maxc: int)

  /** The numeric header fields; a parse failure names the one that failed. */
  datatype Field = Width | Height | MaxColor

  /**
   * The scanner's progress: the fields so far, `info_block` (how many of the
   * four fields have been read) and the field that failed to parse, if any.
   */
  datatype Scan = Scan(header: Header, block: nat, failed: Option<Field>)

  predicate IsComment(line: seq<byte>)
  {
    |line| > 0 && line[0] == HASH
  }

  /** The tokens one header line offers: none for a comment line. */
  function LineTokens(line: seq<byte>): seq<seq<byte>>
  {
    if IsComment(line) then [] else Split(line, SP)
  }

  /**
   * A comment line offers nothing; any other line offers at least one token,
   * none holding a space, and together with single spaces they are the line.
   */
  lemma LineTokensOfLine(line: seq<byte>)
    ensures IsComment(line) ==> LineTokens(line) == []
    ensures !IsComment(line) ==> |LineTokens(line)| >= 1 && NoneHolds(LineTokens(line), SP)
    ensures !IsComment(line) ==> Join(LineTokens(line), SP) == line
  {
    JoinSplit(line, SP);
  }

  /** The tokens of a run of header lines, in order. */
  function Tokens(lines: seq<seq<byte>>): seq<seq<byte>>
  {
    Flatten(TokenLists(lines))
  }

  function TokenLists(lines: seq<seq<byte>>): (r: seq<seq<seq<byte>>>)
    ensures |r| == |lines|
  {
    seq(|lines|, i requires 0 <= i < |lines| => LineTokens(lines[i]))
  }

  /** No further token changes anything: four fields read, or a failure. */
  predicate Done(st: Scan)
  {
    st.failed.Some? || st.block >= 4
  }

  function FieldAt(block: nat): Field
  {
    if block == 1 then Width else if block == 2 then Height else MaxColor
  }

  function SetField(h: Header, block: nat, v: int): Header
  {
    if block == 1 then h.(width := v) else if block == 2 then h.(height := v) else h.(maxc := v)
  }

  /** One pass of the inner token loop: the `match info_block` arms. */
  function Step(kind: IntKind, st: Scan, tok: seq<byte>): (r: Scan)
    ensures Done(st) ==> r == st
    ensures !Done(st) ==> r.block == st.block + 1 || r.failed.Some?
    ensures !Done(st) && st.block > 0 ==> (r.failed.Some? <==> ParseInt(kind, tok).None?)
    ensures !Done(st) && r.failed.Some? ==> r.header == st.header && r.block == st.block && r.failed == Some(FieldAt(st.block))
  {
    if Done(st) then st
    else if st.block == 0 then Scan(st.header.(magic := tok), 1, None)
    else match ParseInt(kind, tok)
      case None => st.(failed := Some(FieldAt(st.block)))
      case Some(v) => Scan(SetField(st.header, st.block, v), st.block + 1, None)
  }

  /** The scanner after it has been fed `toks`, starting from the fields in `init`. */
  function Run(kind: IntKind, init: Header, toks: seq<seq<byte>>): Scan
  {
    if toks == [] then Scan(init, 0, None)
    else Step(kind, Run(kind, init, toks[..|toks| - 1]), toks[|toks| - 1])
  }

  /**
   * The scanner's outcome written out token by token: the first token is the
   * magic, whatever it says; then width, height and maxc, each of which must
   * parse, and the first that does not stops the scan with the earlier
   * fields set. Fields without a token keep their initial values; tokens
   * after the fourth are never looked at.
   */
  function FirstFour(kind: IntKind, init: Header, toks: seq<seq<byte>>): Scan
  {
    if |toks| == 0 then Scan(init, 0, None)
    else
      var h1 := init.(magic := toks[0]);
      if |toks| == 1 then Scan(h1, 1, None)
      else match ParseInt(kind, toks[1])
        case None => Scan(h1, 1, Some(Width))
        case Some(w) =>
          var h2 := h1.(width := w);
          if |toks| == 2 then Scan(h2, 2, None)
          else match ParseInt(kind, toks[2])
            case None => Scan(h2, 2, Some(Height))
            case Some(h) =>
              var h3 := h2.(height := h);
              if |toks| == 3 then Scan(h3, 3, None)
              else match ParseInt(kind, toks[3])
                case None => Scan(h3, 3, Some(MaxColor))
                case Some(m) => Scan(h3.(maxc := m), 4, None)
  }

  /** The token-by-token scanner computes exactly `FirstFour`. */
  lemma {:induction false} RunIsFirstFour(kind: IntKind, init: Header, toks: seq<seq<byte>>)
    ensures Run(kind, init, toks) == FirstFour(kind, init, toks)
  {
    if toks != [] {
      var front := toks[..|toks| - 1];
      RunIsFirstFour(kind, init, front);
      assert forall i :: 0 <= i < |front| ==> front[i] == toks[i];
    }
  }

  /** Once the scanner is done, later tokens change nothing. */
  lemma {:induction false} RunAbsorbs(kind: IntKind, init: Header, a: seq<seq<byte>>, b: seq<seq<byte>>)
    requires Done(Run(kind, init, a))
    ensures Run(kind, init, a + b) == Run(kind, init, a)
  {
    if b != [] {
      var front := b[..|b| - 1];
      RunAbsorbs(kind, init, a, front);
      assert (a + b)[..|a + b| - 1] == a + front;
    } else {
      assert a + b == a;
    }
  }

  /** Feeding one more token is one more `Step`. */
  lemma RunSnoc(kind: IntKind, init: Header, a: seq<seq<byte>>, t: seq<byte>)
    ensures Run(kind, init, a + [t]) == Step(kind, Run(kind, init, a), t)
  {
    assert (a + [t])[..|a|] == a;
  }

  /** While no field has failed, `info_block` counts the tokens read, up to four. */
  lemma BlockCounts(kind: IntKind, init: Header, toks: seq<seq<byte>>)
    requires Run(kind, init, toks).failed.None?
    ensures Run(kind, init, toks).block == if |toks| < 4 then |toks| else 4
  {
    RunIsFirstFour(kind, init, toks);
  }

  lemma TokensAppend(a: seq<seq<byte>>, b: seq<seq<byte>>)
    ensures Tokens(a + b) == Tokens(a) + Tokens(b)
  {
    assert TokenLists(a + b) == TokenLists(a) + TokenLists(b);
    FlattenAppend(TokenLists(a), TokenLists(b));
  }

  lemma TokensOne(line: seq<byte>)
    ensures Tokens([line]) == LineTokens(line)
  {
    assert TokenLists([line]) == [LineTokens(line)];
    FlattenOne(LineTokens(line));
  }

  /** The tokens of one more line follow those of the lines before it. */
  lemma TokensSnoc(lines: seq<seq<byte>>, line: seq<byte>)
    ensures Tokens(lines + [line]) == Tokens(lines) + LineTokens(line)
  {
    TokensAppend(lines, [line]);
    TokensOne(line);
  }

  /** A comment line contributes no token, wherever it stands. */
  lemma CommentAddsNoTokens(a: seq<seq<byte>>, c: seq<byte>, b: seq<seq<byte>>)
    requires IsComment(c)
    ensures Tokens(a + [c] + b) == Tokens(a + b)
  {
    TokensAppend(a + [c], b);
    TokensAppend(a, [c]);
    TokensOne(c);
    TokensAppend(a, b);
  }

  /**
   * The number of lines that hold the four header tokens: the smallest `k`
   * whose first `k` lines offer four tokens, or `None` if all lines together
   * offer fewer.
   */
  function HeaderEnd(lines: seq<seq<byte>>): (r: Option<nat>)
    ensures r.Some? ==> 1 <= r.value <= |lines|
    ensures r.Some? ==> |Tokens(lines[..r.value])| >= 4 && |Tokens(lines[..r.value - 1])| < 4
    ensures r.None? ==> |Tokens(lines)| < 4
  {
    if lines == [] then None
    else match HeaderEnd(lines[..|lines| - 1])
      case Some(k) =>
        assert lines[..|lines| - 1][..k] == lines[..k];
        assert lines[..|lines| - 1][..k - 1] == lines[..k - 1];
        Some(k)
      case None =>
        assert lines[..|lines|] == lines;
        if |Tokens(lines)| >= 4 then Some(|lines|) else None
  }

  /** More lines after the header do not move where it ends. */
  lemma {:induction false} HeaderEndStable(lines: seq<seq<byte>>, n: nat)
    requires n <= |lines|
    requires HeaderEnd(lines[..n]).Some?
    ensures HeaderEnd(lines) == HeaderEnd(lines[..n])
    decreases |lines| - n
  {
    if n < |lines| {
      assert lines[..n + 1][..n] == lines[..n];
      HeaderEndStable(lines, n + 1);
    } else {
      assert lines[..n] == lines;
    }
  }

  /** Token counts only grow as lines are added. */
  lemma TokensMonotone(lines: seq<seq<byte>>, a: nat, b: nat)
    requires a <= b <= |lines|
    ensures |Tokens(lines[..a])| <= |Tokens(lines[..b])|
  {
    assert lines[..b] == lines[..a] + lines[a..b];
    TokensAppend(lines[..a], lines[a..b]);
  }

  /** The header ends at the first line count that reaches four tokens, and only there. */
  lemma HeaderEndAt(lines: seq<seq<byte>>, k: nat)
    requires 1 <= k <= |lines|
    requires |Tokens(lines[..k])| >= 4 && |Tokens(lines[..k - 1])| < 4
    ensures HeaderEnd(lines) == Some(k)
  {
    TokensMonotone(lines, k, |lines|);
    assert lines[..|lines|] == lines;
    var e := HeaderEnd(lines);
    assert e.Some?;
    var found := e.value;
    NotBefore(lines, found, k);
    NotBefore(lines, k, found);
  }

  /** A prefix of fewer than `k` lines cannot offer four tokens when `k - 1` lines do not. */
  lemma NotBefore(lines: seq<seq<byte>>, a: nat, k: nat)
    requires 1 <= a <= |lines| && 1 <= k <= |lines|
    requires |Tokens(lines[..a])| >= 4 && |Tokens(lines[..k - 1])| < 4
    ensures k <= a
  {
    if a < k {
      TokensMonotone(lines, a, k - 1);
    }
  }

  /**
   * Once the scanner is done part-way through line `index` (after its first
   * `m` tokens), the rest of the input changes nothing.
   */
  lemma StopsInLine(kind: IntKind, init: Header, lines: seq<seq<byte>>, index: nat, m: nat)
    requires index < |lines| && m <= |LineTokens(lines[index])|
    requires Done(Run(kind, init, Tokens(lines[..index]) + LineTokens(lines[index])[..m]))
    ensures Run(kind, init, Tokens(lines)) == Run(kind, init, Tokens(lines[..index]) + LineTokens(lines[index])[..m])
  {
    TokensAround(lines, index);
    AbsorbsRest(kind, init, Tokens(lines[..index]), LineTokens(lines[index]), m, Tokens(lines[index + 1..]));
  }

  /** The tokens of all lines split around line `index`. */
  lemma TokensAround(lines: seq<seq<byte>>, index: nat)
    requires index < |lines|
    ensures Tokens(lines) == Tokens(lines[..index]) + LineTokens(lines[index]) + Tokens(lines[index + 1..])
  {
    var upTo := lines[..index + 1];
    assert upTo == lines[..index] + [lines[index]];
    TokensSnoc(lines[..index], lines[index]);
    assert lines == upTo + lines[index + 1..];
    TokensAppend(upTo, lines[index + 1..]);
  }

  lemma AbsorbsRest(kind: IntKind, init: Header, a: seq<seq<byte>>, t: seq<seq<byte>>, m: nat, rest: seq<seq<byte>>)
    requires m <= |t|
    requires Done(Run(kind, init, a + t[..m]))
    ensures Run(kind, init, a + t + rest) == Run(kind, init, a + t[..m])
  {
    assert a + t + rest == (a + t[..m]) + (t[m..] + rest);
    RunAbsorbs(kind, init, a + t[..m], t[m..] + rest);
  }

  /** Once the scanner is done after the first `index` lines, later lines change nothing. */
  lemma StopsAfterLines(kind: IntKind, init: Header, lines: seq<seq<byte>>, index: nat)
    requires index <= |lines|
    requires Done(Run(kind, init, Tokens(lines[..index])))
    ensures Run(kind, init, Tokens(lines)) == Run(kind, init, Tokens(lines[..index]))
  {
    assert lines == lines[..index] + lines[index..];
    TokensAppend(lines[..index], lines[index..]);
    RunAbsorbs(kind, init, Tokens(lines[..index]), Tokens(lines[index..]));
  }

  /** The inner loop's step: one more block of the current line. */
  lemma RunNextBlock(kind: IntKind, init: Header, a: seq<seq<byte>>, blocks: seq<seq<byte>>, j: nat)
    requires j < |blocks|
    ensures Run(kind, init, a + blocks[..j + 1]) == Step(kind, Run(kind, init, a + blocks[..j]), blocks[j])
  {
    assert a + blocks[..j + 1] == (a + blocks[..j]) + [blocks[j]];
    RunSnoc(kind, init, a + blocks[..j], blocks[j]);
  }

  /**
   * The outer loop's step: after the tokens of line `index` the scanner is
   * in state `Scan(h, b, None)`; so it is after the first `index + 1` lines,
   * and the header ends with this line exactly when `b` reaches four.
   */
  lemma RunNextLine(kind: IntKind, init: Header, lines: seq<seq<byte>>, index: nat, h: Header, b: nat)
    requires index < |lines| && HeaderEnd(lines[..index]) == None
    requires Run(kind, init, Tokens(lines[..index]) + LineTokens(lines[index])) == Scan(h, b, None)
    ensures Run(kind, init, Tokens(lines[..index + 1])) == Scan(h, b, None)
    ensures b < 4 ==> HeaderEnd(lines[..index + 1]) == None
    ensures b >= 4 ==> HeaderEnd(lines[..index + 1]) == Some(index + 1)
  {
    assert lines[..index + 1] == lines[..index] + [lines[index]];
    TokensSnoc(lines[..index], lines[index]);
    assert lines[..index + 1][..index] == lines[..index];
    BlockCounts(kind, init, Tokens(lines[..index + 1]));
  }

  /** A comment line adds no tokens. */
  lemma CommentLineTokens(before: seq<seq<byte>>, line: seq<byte>)
    requires IsComment(line)
    ensures before + LineTokens(line) == before
  {
  }

  /** The tokens of a four-line header, line by line. */
  lemma TokensOfFour(l1: seq<byte>, l2: seq<byte>, l3: seq<byte>, l4: seq<byte>)
    ensures Tokens([l1, l2]) == LineTokens(l1) + LineTokens(l2)
    ensures Tokens([l1, l2, l3]) == LineTokens(l1) + LineTokens(l2) + LineTokens(l3)
    ensures Tokens([l1, l2, l3, l4]) == LineTokens(l1) + LineTokens(l2) + LineTokens(l3) + LineTokens(l4)
  {
    TokensOne(l1);
    assert [l1, l2] == [l1] + [l2];
    TokensSnoc([l1], l2);
    assert [l1, l2, l3] == [l1, l2] + [l3];
    TokensSnoc([l1, l2], l3);
    assert [l1, l2, l3, l4] == [l1, l2, l3] + [l4];
    TokensSnoc([l1, l2, l3], l4);
  }

  /** A header of a magic line, a comment, a line of two blocks and a line of one. */
  lemma TokensOfHeaderLines(magic: seq<byte>, comment: seq<byte>, dims: seq<byte>, last: seq<byte>,
                            w: seq<byte>, h: seq<byte>)
    requires LineTokens(magic) == [magic] && LineTokens(comment) == []
    requires LineTokens(dims) == [w, h] && LineTokens(last) == [last]
    ensures Tokens([magic, comment, dims]) == [magic, w, h]
    ensures Tokens([magic, comment, dims, last]) == [magic, w, h, last]
  {
    TokensOfFour(magic, comment, dims, last);
    assert [magic] + [] + [w, h] == [magic, w, h];
    assert [magic, w, h] + [last] == [magic, w, h, last];
  }

  /**
   * A field the scanner has not reached keeps its initial value; that
   * includes the field whose block failed to parse.
   */
  lemma RunKeepsUnread(kind: IntKind, init: Header, toks: seq<seq<byte>>)
    ensures var st := Run(kind, init, toks);
      (st.block < 1 ==> st.header.magic == init.magic) &&
      (st.block < 2 ==> st.header.width == init.width) &&
      (st.block < 3 ==> st.header.height == init.height) &&
      (st.block < 4 ==> st.header.maxc == init.maxc)
  {
    RunIsFirstFour(kind, init, toks);
  }

  /** The scanner after one more line is the scanner fed that line's blocks. */
  lemma RunLineSnoc(kind: IntKind, init: Header, lines: seq<seq<byte>>, index: nat)
    requires index < |lines|
    ensures Run(kind, init, Tokens(lines[..index + 1])) == Run(kind, init, Tokens(lines[..index]) + LineTokens(lines[index]))
  {
    assert lines[..index + 1] == lines[..index] + [lines[index]];
    TokensSnoc(lines[..index], lines[index]);
  }

  /** A header of a magic line, a line of two blocks and a line of one ends with its third line. */
  lemma ThreeLineHeader(magic: seq<byte>, dims: seq<byte>, last: seq<byte>, w: seq<byte>, h: seq<byte>)
    requires LineTokens(magic) == [magic] && LineTokens(dims) == [w, h] && LineTokens(last) == [last]
    ensures Tokens([magic, dims, last]) == [magic, w, h, last]
    ensures HeaderEnd([magic, dims, last]) == Some(3)
  {
    var ls := [magic, dims, last];
    TokensOfFour(magic, dims, last, []);
    assert ls[..3] == ls && ls[..2] == [magic, dims];
    HeaderEndAt(ls, 3);
  }
}
