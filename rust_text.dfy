/**
 * The text primitives from Rust's standard library that both header parsers
 * use, modelled over bytes: `BufRead::lines`, `BufRead::read_line`,
 * `str::split(' ')`, `str::parse::<u32>` / `str::parse::<i32>`, and the
 * `{}` formatting of an unsigned integer.
 */
module RustText {
  import opened Wrappers

  type byte = x: int | 0 <= x < 0x100

  const NL: byte := 10
  const SP: byte := 32
  const HASH: byte := 35
  const PLUS: byte := 43
  const MINUS: byte := 45
  const ZERO: byte := 48

  const U32_LIMIT: int := 0x1_0000_0000
  const I32_LIMIT: int := 0x8000_0000

  /** The bytes of an ASCII string. */
  function Ascii(s: string): (b: seq<byte>)
    requires forall i :: 0 <= i < |s| ==> s[i] as int < 0x80
    ensures |b| == |s| && forall i :: 0 <= i < |s| ==> b[i] == s[i] as int
  {
    seq(|s|, i requires 0 <= i < |s| => s[i] as int)
  }

  /** A character the text lacks is a byte its encoding lacks. */
  lemma AsciiOmits(s: string, c: char)
    requires forall i :: 0 <= i < |s| ==> s[i] as int < 0x80
    requires c !in s && c as int < 0x80
    ensures c as int !in Ascii(s)
  {
    var b := Ascii(s);
    forall i | 0 <= i < |b|
      ensures b[i] != c as int
    {
      assert s[i] != c;
    }
  }

  /** The position of the first `c` in `s`, or `|s|` when there is none. */
  function IndexOf(s: seq<byte>, c: byte): (i: nat)
    ensures i <= |s|
    ensures i < |s| ==> s[i] == c
    ensures forall k :: 0 <= k < i ==> s[k] != c
  {
    if s == [] then 0
    else if s[0] == c then 0
    else 1 + IndexOf(s[1..], c)
  }

  /**
   * `BufRead::lines`: the pieces between newlines; a final newline does not
   * start an empty last line, and an empty input has no lines at all.
   */
  function Lines(s: seq<byte>): (ls: seq<seq<byte>>)
    decreases |s|
    ensures NoneHolds(ls, NL)
  {
    if s == [] then []
    else
      var i := IndexOf(s, NL);
      if i == |s| then [s] else [s[..i]] + Lines(s[i + 1..])
  }

  /** None of the pieces holds the byte `c`. */
  predicate NoneHolds(parts: seq<seq<byte>>, c: byte)
  {
    forall k :: 0 <= k < |parts| ==> c !in parts[k]
  }

  /** The concatenation of a sequence of sequences. */
  function Flatten<T>(xss: seq<seq<T>>): seq<T>
  {
    if xss == [] then [] else Flatten(xss[..|xss| - 1]) + xss[|xss| - 1]
  }

  lemma {:induction false} FlattenAppend<T>(a: seq<seq<T>>, b: seq<seq<T>>)
    ensures Flatten(a + b) == Flatten(a) + Flatten(b)
  {
    if b == [] {
      assert a + b == a;
    } else {
      var front := b[..|b| - 1];
      assert (a + b)[..|a + b| - 1] == a + front;
      FlattenAppend(a, front);
    }
  }

  lemma FlattenOne<T>(xs: seq<T>)
    ensures Flatten([xs]) == xs
  {
    assert [xs][..0] == [];
  }

  lemma FlattenCons<T>(xss: seq<seq<T>>)
    requires xss != []
    ensures Flatten(xss) == xss[0] + Flatten(xss[1..])
  {
    assert xss == [xss[0]] + xss[1..];
    FlattenAppend([xss[0]], xss[1..]);
    assert [xss[0]][..0] == [];
  }

  /** Each line followed by its newline: what `Lines` splits. */
  function Terminated(ls: seq<seq<byte>>): seq<byte>
  {
    Flatten(seq(|ls|, i requires 0 <= i < |ls| => ls[i] + [NL]))
  }

  lemma TerminatedCons(ls: seq<seq<byte>>)
    requires ls != []
    ensures Terminated(ls) == ls[0] + [NL] + Terminated(ls[1..])
  {
    var xs := seq(|ls|, i requires 0 <= i < |ls| => ls[i] + [NL]);
    FlattenCons(xs);
    assert xs[1..] == seq(|ls| - 1, i requires 0 <= i < |ls| - 1 => ls[1..][i] + [NL]);
  }

  lemma TerminatedSnoc(ls: seq<seq<byte>>)
    requires ls != []
    ensures Terminated(ls) == Terminated(ls[..|ls| - 1]) + (ls[|ls| - 1] + [NL])
  {
    var xs := seq(|ls|, i requires 0 <= i < |ls| => ls[i] + [NL]);
    assert xs[..|ls| - 1] == seq(|ls| - 1, i requires 0 <= i < |ls| - 1 => ls[..|ls| - 1][i] + [NL]);
  }

  /** Four lines, each ended by a newline. */
  lemma TerminatedFour(a: seq<byte>, b: seq<byte>, c: seq<byte>, d: seq<byte>)
    ensures Terminated([a, b, c, d]) == a + [NL] + b + [NL] + c + [NL] + d + [NL]
  {
    var ls: seq<seq<byte>> := [a, b, c, d];
    TerminatedCons(ls);
    TerminatedCons(ls[1..]);
    TerminatedCons(ls[2..]);
    TerminatedCons(ls[3..]);
    assert ls[1..][1..] == ls[2..] && ls[2..][1..] == ls[3..] && |ls[3..][1..]| == 0;
  }

  lemma {:induction false} LinesOfTerminated(ls: seq<seq<byte>>, rest: seq<byte>)
    requires NoneHolds(ls, NL)
    ensures Lines(Terminated(ls) + rest) == ls + Lines(rest)
  {
    if ls == [] {
      assert Terminated(ls) + rest == rest;
    } else {
      var tail := Terminated(ls[1..]) + rest;
      calc {
        Lines(Terminated(ls) + rest);
        { TerminatedCons(ls); assert Terminated(ls) + rest == ls[0] + [NL] + tail; }
        Lines(ls[0] + [NL] + tail);
        { LinesOfLine(ls[0], tail); }
        [ls[0]] + Lines(tail);
        { LinesOfTerminated(ls[1..], rest); }
        [ls[0]] + (ls[1..] + Lines(rest));
        { assert ls == [ls[0]] + ls[1..]; }
        ls + Lines(rest);
      }
    }
  }

  /** A newline-free line in front of a newline is the first line. */
  lemma LinesOfLine(a: seq<byte>, tail: seq<byte>)
    requires NL !in a
    ensures Lines(a + [NL] + tail) == [a] + Lines(tail)
  {
    var s := a + [NL] + tail;
    IndexOfPrefix(a, NL, tail);
    assert s[..|a|] == a;
    assert s[|a| + 1..] == tail;
  }

  /** The first `c` after a prefix free of `c` is right behind that prefix. */
  lemma {:induction false} IndexOfPrefix(a: seq<byte>, c: byte, b: seq<byte>)
    requires c !in a
    ensures IndexOf(a + [c] + b, c) == |a|
  {
    if a != [] {
      assert (a + [c] + b)[1..] == a[1..] + [c] + b;
      IndexOfPrefix(a[1..], c, b);
    }
  }

  /**
   * `read_line` from position `pos`: the position just past the next
   * newline, or the end of the input when no newline follows.
   */
  function NextLine(s: seq<byte>, pos: nat): (next: nat)
    requires pos <= |s|
    ensures pos <= next <= |s|
    ensures pos < |s| ==> pos < next
  {
    var i := IndexOf(s[pos..], NL);
    if pos + i < |s| then pos + i + 1 else |s|
  }

  /** The position after `n` calls of `read_line` from the start of `s`. */
  function SkipLines(s: seq<byte>, n: nat): (pos: nat)
    ensures pos <= |s|
  {
    if n == 0 then 0 else NextLine(s, SkipLines(s, n - 1))
  }

  /**
   * `read_line` stops just past the first newline at or after `pos`, or at
   * the end of the input when there is none.
   */
  lemma NextLineStops(s: seq<byte>, pos: nat)
    requires pos <= |s|
    ensures NextLine(s, pos) < |s| ==> s[NextLine(s, pos) - 1] == NL
    ensures forall k :: pos <= k < NextLine(s, pos) - 1 ==> s[k] != NL
  {
    var i := IndexOf(s[pos..], NL);
    assert forall k :: pos <= k < pos + i ==> s[k] == s[pos..][k - pos];
  }

  /** After skipping lines, the position is the start of the input or just past a newline. */
  lemma SkipLinesAfterNewline(s: seq<byte>, n: nat)
    ensures n == 0 ==> SkipLines(s, n) == 0
    ensures 0 < SkipLines(s, n) < |s| ==> s[SkipLines(s, n) - 1] == NL
  {
    if n > 0 {
      NextLineStops(s, SkipLines(s, n - 1));
    }
  }

  /** Skipping `|ls|` newline-terminated lines lands right after them. */
  lemma {:induction false} SkipTerminated(ls: seq<seq<byte>>, rest: seq<byte>)
    requires NoneHolds(ls, NL)
    ensures SkipLines(Terminated(ls) + rest, |ls|) == |Terminated(ls)|
  {
    if ls != [] {
      var front, last := ls[..|ls| - 1], ls[|ls| - 1];
      TerminatedSnoc(ls);
      var t := last + [NL] + rest;
      var s := Terminated(front) + t;
      assert Terminated(ls) + rest == s;
      SkipTerminated(front, t);
      var p := |Terminated(front)|;
      assert s[p..] == last + [NL] + rest;
      IndexOfPrefix(last, NL, rest);
    }
  }

  /** `str::split(c)`: always at least one piece; an empty input gives `[[]]`. */
  function Split(s: seq<byte>, c: byte): (parts: seq<seq<byte>>)
    decreases |s|
    ensures |parts| >= 1 && NoneHolds(parts, c)
  {
    var i := IndexOf(s, c);
    if i == |s| then [s] else [s[..i]] + Split(s[i + 1..], c)
  }

  /** The pieces put back together with `c` between them. */
  function Join(parts: seq<seq<byte>>, c: byte): seq<byte>
    requires |parts| >= 1
  {
    if |parts| == 1 then parts[0] else parts[0] + [c] + Join(parts[1..], c)
  }

  /** `split` loses nothing: joining the pieces gives the input back. */
  lemma {:induction false} JoinSplit(s: seq<byte>, c: byte)
    decreases |s|
    ensures Join(Split(s, c), c) == s
  {
    var i := IndexOf(s, c);
    if i < |s| {
      var rest := Split(s[i + 1..], c);
      var parts := [s[..i]] + rest;
      assert Split(s, c) == parts;
      assert parts[0] == s[..i] && parts[1..] == rest;
      assert Join(parts, c) == s[..i] + [c] + Join(rest, c);
      JoinSplit(s[i + 1..], c);
      assert s == s[..i] + [c] + s[i + 1..];
    }
  }

  /** ... and splitting a join of `c`-free pieces gives the pieces back. */
  lemma {:induction false} SplitJoin(parts: seq<seq<byte>>, c: byte)
    requires |parts| >= 1 && NoneHolds(parts, c)
    ensures Split(Join(parts, c), c) == parts
  {
    if |parts| > 1 {
      var rest := Join(parts[1..], c);
      IndexOfPrefix(parts[0], c, rest);
      var s := parts[0] + [c] + rest;
      assert s[..|parts[0]|] == parts[0];
      assert s[|parts[0]| + 1..] == rest;
      SplitJoin(parts[1..], c);
      assert parts == [parts[0]] + parts[1..];
    } else {
      IndexOfAbsent(parts[0], c);
    }
  }

  lemma {:induction false} IndexOfAbsent(s: seq<byte>, c: byte)
    requires c !in s
    ensures IndexOf(s, c) == |s|
  {
    if s != [] {
      IndexOfAbsent(s[1..], c);
    }
  }

  predicate IsDigit(b: byte) { ZERO <= b < ZERO + 10 }

  predicate AllDigits(s: seq<byte>) { forall k :: 0 <= k < |s| ==> IsDigit(s[k]) }

  /** The value of a string of decimal digits, most significant first. */
  function DigitsValue(s: seq<byte>): nat
    requires AllDigits(s)
  {
    if s == [] then 0 else DigitsValue(s[..|s| - 1]) * 10 + (s[|s| - 1] - ZERO)
  }

  /** `format!("{}", n)` for an unsigned integer: no sign, no leading zeros. */
  function Decimal(n: nat): (s: seq<byte>)
    ensures |s| >= 1 && AllDigits(s)
    ensures NL !in s && SP !in s && s[0] != PLUS && s[0] != MINUS
  {
    if n < 10 then [ZERO + n] else Decimal(n / 10) + [ZERO + n % 10]
  }

  lemma {:induction false} DigitsOfDecimal(n: nat)
    ensures DigitsValue(Decimal(n)) == n
  {
    if n >= 10 {
      DigitsOfDecimal(n / 10);
      var s := Decimal(n);
      assert s[..|s| - 1] == Decimal(n / 10);
    }
  }

  /** Which of Rust's two integer parsers a header parser calls. */
  datatype IntKind = Unsigned32 | Signed32

  /**
   * `str::parse::<u32>` / `str::parse::<i32>`: an optional sign (`+` for
   * both, `-` only for the signed kind), then at least one ASCII digit, and a
   * value inside the type's range. Anything else, the empty token included,
   * is a failure.
   */
  function ParseInt(kind: IntKind, tok: seq<byte>): (r: Option<int>)
    ensures tok == [] ==> r == None
    ensures r.Some? && kind == Unsigned32 ==> 0 <= r.value < U32_LIMIT
    ensures r.Some? && kind == Signed32 ==> -I32_LIMIT <= r.value < I32_LIMIT
    ensures r.Some? ==> forall k :: 1 <= k < |tok| ==> IsDigit(tok[k])
  {
    if tok == [] || (|tok| == 1 && (tok[0] == PLUS || tok[0] == MINUS)) then None
    else
      var negative := tok[0] == MINUS;
      var digits := if tok[0] == PLUS || tok[0] == MINUS then tok[1..] else tok;
      if negative && kind == Unsigned32 then None
      else if !AllDigits(digits) then None
      else
        var v: int := if negative then -(DigitsValue(digits) as int) else DigitsValue(digits);
        match kind
        case Unsigned32 => if v < U32_LIMIT then Some(v) else None
        case Signed32 => if -I32_LIMIT <= v < I32_LIMIT then Some(v) else None
  }

  /** What `{}` prints for a u32, `parse::<u32>` reads back. */
  lemma ParseDecimalUnsigned(n: nat)
    requires n < U32_LIMIT
    ensures ParseInt(Unsigned32, Decimal(n)) == Some(n)
  {
    DigitsOfDecimal(n);
  }

  /** `parse::<i32>` accepts a minus sign: "-3" is the value -3. */
  lemma ParseNegativeSigned(n: nat)
    requires n <= I32_LIMIT
    ensures ParseInt(Signed32, [MINUS] + Decimal(n)) == Some(-(n as int))
  {
    DigitsOfDecimal(n);
    assert ([MINUS] + Decimal(n))[1..] == Decimal(n);
  }

  /** ... which `parse::<u32>` refuses. */
  lemma ParseNegativeUnsigned(n: nat)
    ensures ParseInt(Unsigned32, [MINUS] + Decimal(n)) == None
  {
  }
}
