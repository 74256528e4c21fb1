/** The scanners that cut text without splitting a character: the capped tail of a
    guard's output and the windows of a help text. */
module ByteScanners {
  import opened Bytes
  import opened Text
  import opened Utf8

  // ---------------------------------------------------------------------------
  // Guard output

  function Ascii(text: string): (s: seq<Byte>)
    requires forall i :: 0 <= i < |text| ==> text[i] < '\U{0080}'
    ensures |s| == |text| && forall i :: 0 <= i < |s| ==> s[i] as int == text[i] as int
  {
    seq(|text|, i requires 0 <= i < |text| => text[i] as int as Byte)
  }

  const SHOWN := "[truncated, showing last 16 KB]\n"

  /** An ellipsis and the sentence. */
  const TRUNCATION_MARKER: seq<Byte> := [0xE2, 0x80, 0xA6] + Ascii(SHOWN)

  /** The longest suffix of at most `limit` bytes that starts on a boundary. */
  ghost predicate IsLongestTail(s: seq<Byte>, limit: nat, tail: seq<Byte>) {
    && |tail| <= limit && |tail| <= |s| && tail == s[|s| - |tail|..]
    && IsBoundary(s, |s| - |tail|)
    && forall i: nat :: i < |s| - |tail| && |s| - i <= limit ==> !IsBoundary(s, i)
  }

  method CapTail(s: seq<Byte>, limit: nat) returns (capped: seq<Byte>)
    ensures |s| <= limit ==> capped == s
    ensures |s| > limit ==> exists tail :: IsLongestTail(s, limit, tail) && capped == TRUNCATION_MARKER + tail
  {
    if |s| <= limit {
      return s;
    }
    var start := |s| - limit;
    while start < |s| && !IsBoundary(s, start)
      invariant |s| - limit <= start <= |s|
      invariant forall i: nat :: |s| - limit <= i < start ==> !IsBoundary(s, i)
    {
      start := start + 1;
    }
    assert |s[start..]| == |s| - start;
    assert IsLongestTail(s, limit, s[start..]);
    capped := TRUNCATION_MARKER + s[start..];
  }

  /** The UTF-8 bytes of a text. */
  ghost function Utf8Of(text: string): seq<Byte>
    requires forall i :: 0 <= i < |text| ==> IsScalar(text[i] as int)
  {
    EncodeAll(seq(|text|, i requires 0 <= i < |text| => text[i] as int))
  }

  lemma {:induction false} AsciiEncoded(cs: seq<int>)
    requires forall c :: c in cs ==> IsScalar(c) && c < 0x80
    ensures |EncodeAll(cs)| == |cs| && forall i :: 0 <= i < |cs| ==> EncodeAll(cs)[i] as int == cs[i]
  {
    if cs != [] {
      var rest := EncodeAll(cs[1..]);
      AsciiEncoded(cs[1..]);
      assert cs[0] in cs;
      assert EncodeAll(cs) == [cs[0] as Byte] + rest;
      forall i | 1 <= i < |cs|
        ensures EncodeAll(cs)[i] as int == cs[i]
      {
        assert EncodeAll(cs)[i] == rest[i - 1] && cs[i] == cs[1..][i - 1];
      }
    }
  }

  /** What the marker says. */
  lemma MarkerReads()
    ensures TRUNCATION_MARKER == Utf8Of("\U{2026}" + "[truncated, showing last 16 KB]\n")
  {
    MarkerIs("[truncated, showing last 16 KB]\n");
  }

  lemma MarkerIs(shown: string)
    requires forall i :: 0 <= i < |shown| ==> shown[i] < '\U{0080}'
    ensures [0xE2, 0x80, 0xA6] + Ascii(shown) == Utf8Of("\U{2026}" + shown)
  {
    var text := "\U{2026}" + shown;
    var cs := seq(|text|, i requires 0 <= i < |text| => text[i] as int);
    assert cs[0] == 0x2026 && Encode(cs[0]) == [0xE2, 0x80, 0xA6];
    assert forall i :: 0 <= i < |shown| ==> cs[1..][i] == shown[i] as int;
    AsciiEncoded(cs[1..]);
    assert EncodeAll(cs) == Encode(cs[0]) + EncodeAll(cs[1..]);
    hide EncodeAll, Encode;
    assert EncodeAll(cs[1..]) == Ascii(shown);
  }

  /** On valid text the tail is valid, and at most three bytes short of the limit. */
  lemma TailKeepsAlmostAll(s: seq<Byte>, limit: nat, tail: seq<Byte>)
    requires ValidUtf8(s) && |s| > limit && IsLongestTail(s, limit, tail)
    ensures ValidUtf8(tail) && |tail| + 3 >= limit
  {
    SplitAtBoundary(s, |s| - |tail|);
    var lo, hi := BoundaryNear(s, |s| - limit);
  }

  lemma {:induction false} AsciiValid(s: seq<Byte>)
    requires forall i :: 0 <= i < |s| ==> s[i] <= 0x7F
    ensures ValidUtf8(s)
  {
    if s != [] {
      AsciiValid(s[1..]);
    }
  }

  /** The capped output of a valid text is valid text. */
  lemma CappedValid(tail: seq<Byte>)
    requires ValidUtf8(tail)
    ensures ValidUtf8(TRUNCATION_MARKER + tail)
  {
    hide ValidUtf8;
    EllipsisThenAscii(TRUNCATION_MARKER);
    ValidConcat(TRUNCATION_MARKER, tail);
  }

  lemma EllipsisThenAscii(s: seq<Byte>)
    requires |s| >= 3 && s[0] == 0xE2 && s[1] == 0x80 && s[2] == 0xA6
    requires forall i :: 3 <= i < |s| ==> s[i] <= 0x7F
    ensures ValidUtf8(s)
  {
    AsciiValid(s[3..]);
    assert StartsWithChar(s);
  }

  // ---------------------------------------------------------------------------
  // Help text

  /** The greatest boundary at or below an index, clamped into the text. */
  ghost predicate IsFloor(s: seq<Byte>, i: nat, j: nat) {
    && j <= i && j <= |s| && IsBoundary(s, j)
    && forall k: nat :: j < k <= i && k <= |s| ==> !IsBoundary(s, k)
  }

  method FloorBoundary(s: seq<Byte>, index: nat) returns (i: nat)
    ensures IsFloor(s, index, i)
  {
    i := if index < |s| then index else |s|;
    while i > 0 && !IsBoundary(s, i)
      invariant i <= |s| && i <= index
      invariant forall k: nat :: i < k <= index && k <= |s| ==> !IsBoundary(s, k)
    {
      i := i - 1;
    }
  }

  /** A boundary at or below the index is at or below its floor. */
  lemma FloorAbove(s: seq<Byte>, i: nat, j: nat, k: nat)
    requires IsFloor(s, i, j) && IsBoundary(s, k) && k <= i && k <= |s|
    ensures k <= j
  {
  }

  /** On valid text the floor is at most three bytes below. */
  lemma FloorIsNear(s: seq<Byte>, i: nat, j: nat)
    requires ValidUtf8(s) && IsFloor(s, i, j) && i <= |s|
    ensures i <= j + 3
  {
    var lo, hi := BoundaryNear(s, i);
  }

  /** The window of `len` bytes at `from`, both ends snapped down to a boundary. */
  method WindowFrom(s: seq<Byte>, from: nat, len: nat) returns (window: seq<Byte>)
    ensures exists start: nat, end: nat :: IsFloor(s, from, start) && IsFloor(s, start + len, end)
                                 && start <= end && window == s[start..end]
  {
    var start := FloorBoundary(s, from);
    var limit := if start + len < |s| then start + len else |s|;
    var end := FloorBoundary(s, limit);
    assert IsFloor(s, start + len, end);
    FloorAbove(s, start + len, end, start);
    window := s[start..end];
  }

  /** A window never splits a character and loses at most six bytes of those asked. */
  lemma WindowValid(s: seq<Byte>, from: nat, len: nat, start: nat, end: nat)
    requires ValidUtf8(s) && IsFloor(s, from, start) && IsFloor(s, start + len, end) && start <= end
    ensures ValidUtf8(s[start..end]) && end - start <= len
    ensures from + len <= |s| ==> from - 3 <= start && start + len <= end + 3
  {
    SliceValid(s, start, end);
    if from + len <= |s| {
      FloorIsNear(s, from, start);
      FloorIsNear(s, start + len, end);
    }
  }

  // ---------------------------------------------------------------------------
  // The option block

  const WINDOW: nat := 800
  const OPTION_INDENT: nat := 8
  const LF: Byte := 0x0A
  const DASH: Byte := 0x2D

  /** The length of the white-space character at the head of `s`, or 0. */
  function SpaceLength(s: seq<Byte>): (n: nat)
    ensures n <= |s|
  {
    if |s| >= 1 && (0x09 <= s[0] <= 0x0D || s[0] == 0x20) then 1
    else if |s| >= 2 && s[0] == 0xC2 && (s[1] == 0x85 || s[1] == 0xA0) then 2
    else if |s| >= 3 && s[0] == 0xE1 && s[1] == 0x9A && s[2] == 0x80 then 3
    else if |s| >= 3 && s[0] == 0xE2 && s[1] == 0x80
            && (0x80 <= s[2] <= 0x8A || s[2] == 0xA8 || s[2] == 0xA9 || s[2] == 0xAF) then 3
    else if |s| >= 3 && s[0] == 0xE2 && s[1] == 0x81 && s[2] == 0x9F then 3
    else if |s| >= 3 && s[0] == 0xE3 && s[1] == 0x80 && s[2] == 0x80 then 3
    else 0
  }

  /** How many bytes of white space a line starts with. */
  function Indent(line: seq<Byte>): (n: nat)
    ensures n <= |line|
    decreases |line|
  {
    var n := SpaceLength(line);
    if n == 0 then 0 else n + Indent(line[n..])
  }

  predicate OpensNewOption(line: seq<Byte>) {
    Indent(line) < |line| && line[Indent(line)] == DASH && Indent(line) <= OPTION_INDENT
  }

  /** The end of the line that starts at `i`, its line feed included. */
  function LineEnd(s: seq<Byte>, i: nat): (e: nat)
    requires i <= |s|
    ensures i <= e <= |s| && (i < |s| ==> i < e)
    ensures forall k :: i <= k < e - 1 ==> s[k] != LF
    ensures e < |s| ==> s[e - 1] == LF && e > i
    decreases |s| - i
  {
    if i == |s| then i else if s[i] == LF then i + 1 else LineEnd(s, i + 1)
  }

  /** A line other than the first starts at `i`. */
  predicate StartsLine(s: seq<Byte>, i: nat) {
    0 < i < |s| && s[i - 1] == 0x0A
  }

  predicate OptionLineAt(s: seq<Byte>, i: nat) {
    StartsLine(s, i) && OpensNewOption(s[i..LineEnd(s, i)])
  }

  /** The block ends where the first later option line starts, or with the window. */
  ghost predicate IsOptionBlock(capped: seq<Byte>, block: seq<Byte>) {
    && block <= capped
    && (forall i: nat :: i < |block| ==> !OptionLineAt(capped, i))
    && (|block| < |capped| ==> OptionLineAt(capped, |block|))
  }

  method OptionBlock(help: seq<Byte>, from: nat) returns (block: seq<Byte>)
    requires from <= |help| && IsBoundary(help, from)
    ensures exists end: nat :: IsFloor(help, from + 800, end) && from <= end
                          && IsOptionBlock(help[from..end], block)
  {
    var end := FloorBoundary(help, from + WINDOW);
    FloorAbove(help, from + WINDOW, end, from);
    var capped := help[from..end];
    var offset := 0;
    while offset < |capped|
      invariant offset <= |capped|
      invariant offset == 0 || offset == |capped| || StartsLine(capped, offset)
      invariant forall i: nat :: i < offset ==> !OptionLineAt(capped, i)
    {
      var next := LineEnd(capped, offset);
      var line := capped[offset..next];
      if offset > 0 && OpensNewOption(line) {
        assert IsOptionBlock(capped, capped[..offset]);
        return capped[..offset];
      }
      assert forall i: nat :: offset < i < next ==> !StartsLine(capped, i);
      offset := next;
    }
    assert IsOptionBlock(capped, capped);
    return capped;
  }

  /** The block of a valid help text is valid text. */
  lemma OptionBlockValid(help: seq<Byte>, from: nat, end: nat, block: seq<Byte>)
    requires ValidUtf8(help) && from <= |help| && IsBoundary(help, from)
    requires IsFloor(help, from + WINDOW, end) && from <= end
    requires IsOptionBlock(help[from..end], block)
    ensures ValidUtf8(block) && |block| <= WINDOW
  {
    var capped := help[from..end];
    SliceValid(help, from, end);
    if 0 < |block| < |capped| {
      BoundaryAfterAscii(capped, |block|);
    }
    SplitAtBoundary(capped, |block|);
    assert block == capped[..|block|];
  }

  // ---------------------------------------------------------------------------
  // Option lines, as text

  /** The white space the scanner skips, byte by byte, is that of the text it encodes. */
  lemma SpaceIsWhitespace(c: int, rest: seq<Byte>)
    requires IsScalar(c)
    ensures SpaceLength(Encode(c) + rest) == if IsWhitespace(c as char) then |Encode(c)| else 0
  {
  }

  lemma {:induction false} IndentIs(space: seq<int>, rest: seq<Byte>)
    requires forall c :: c in space ==> IsScalar(c) && IsWhitespace(c as char)
    requires SpaceLength(rest) == 0
    ensures Indent(EncodeAll(space) + rest) == |EncodeAll(space)|
  {
    if space == [] {
      assert EncodeAll(space) + rest == rest;
    } else {
      var c, more := space[0], EncodeAll(space[1..]) + rest;
      SpaceIsWhitespace(c, more);
      IndentIs(space[1..], rest);
      assert EncodeAll(space) + rest == Encode(c) + more;
      assert (Encode(c) + more)[|Encode(c)|..] == more;
    }
  }

  /** A line opens an option exactly when it has a dash after its leading white space,
      and that takes at most eight bytes. */
  lemma OpensIff(space: seq<int>, c: int, rest: seq<Byte>)
    requires forall x :: x in space ==> IsScalar(x) && IsWhitespace(x as char)
    requires IsScalar(c) && !IsWhitespace(c as char)
    ensures OpensNewOption(EncodeAll(space) + (Encode(c) + rest))
            <==> c as char == '-' && |EncodeAll(space)| <= 8
    ensures !OpensNewOption(EncodeAll(space))
  {
    SpaceIsWhitespace(c, rest);
    IndentIs(space, Encode(c) + rest);
    IndentIs(space, []);
    assert EncodeAll(space) + [] == EncodeAll(space);
    var line := EncodeAll(space) + (Encode(c) + rest);
    assert line[|EncodeAll(space)|] == Encode(c)[0];
    FirstByte(c);
    hide Encode, EncodeAll, Indent, SpaceLength;
  }

  lemma FirstByte(c: int)
    requires IsScalar(c)
    ensures Encode(c)[0] == 0x2D <==> c == 0x2D
  {
  }
}
