/** The string operations the parsers and scanners rely on, on sequences of
    Unicode scalar values. */
module Text {
  import opened Options

  // ---------------------------------------------------------------------------
  // Splitting on a separator

  predicate Contains(s: string, c: char) {
    exists i :: 0 <= i < |s| && s[i] == c
  }

  /** The index of the first `c`, or the length of `s` when there is none. */
  function FindChar(s: string, c: char): (i: nat)
    ensures i <= |s|
    ensures forall j :: 0 <= j < i ==> s[j] != c
    ensures i < |s| ==> s[i] == c
  {
    if s == "" || s[0] == c then 0 else 1 + FindChar(s[1..], c)
  }

  /** All the parts between separators; there is always at least one. */
  function SplitOn(s: string, c: char): (parts: seq<string>)
    ensures |parts| > 0
    ensures forall p :: p in parts ==> !Contains(p, c)
    decreases |s|
  {
    var i := FindChar(s, c);
    if i == |s| then [s] else [s[..i]] + SplitOn(s[i + 1..], c)
  }

  function JoinOn(parts: seq<string>, c: char): string
    requires |parts| > 0
  {
    if |parts| == 1 then parts[0] else parts[0] + [c] + JoinOn(parts[1..], c)
  }

  /** Splitting loses nothing. */
  lemma {:induction false} JoinOfSplit(s: string, c: char)
    ensures JoinOn(SplitOn(s, c), c) == s
    decreases |s|
  {
    hide Contains, FindChar;
    var i := FindChar(s, c);
    if i < |s| {
      JoinOfSplit(s[i + 1..], c);
      assert SplitOn(s, c)[1..] == SplitOn(s[i + 1..], c);
      assert s == s[..i] + [c] + s[i + 1..];
    }
  }

  lemma {:induction false} FindNone(s: string, c: char)
    requires !Contains(s, c)
    ensures FindChar(s, c) == |s|
  {
  }

  lemma FindAfter(head: string, c: char, rest: string)
    requires !Contains(head, c)
    ensures FindChar(head + [c] + rest, c) == |head|
  {
    var s := head + [c] + rest;
    assert forall i :: 0 <= i < |head| ==> s[i] == head[i];
    assert s[|head|] == c;
  }

  /** Pieces without the separator are found again after joining. */
  lemma {:induction false} SplitOfJoinOn(parts: seq<string>, c: char)
    requires |parts| > 0 && forall p :: p in parts ==> !Contains(p, c)
    ensures SplitOn(JoinOn(parts, c), c) == parts
  {
    var p := parts[0];
    assert p in parts;
    if |parts| == 1 {
      FindNone(p, c);
    } else {
      var rest := JoinOn(parts[1..], c);
      SplitOfJoinOn(parts[1..], c);
      assert JoinOn(parts, c) == p + [c] + rest;
      hide JoinOn, SplitOn, FindChar;
      SplitAfter(p, c, rest);
      assert parts == [p] + parts[1..];
    }
  }

  lemma SplitAfter(head: string, c: char, rest: string)
    requires !Contains(head, c)
    ensures SplitOn(head + [c] + rest, c) == [head] + SplitOn(rest, c)
  {
    FindAfter(head, c, rest);
    hide Contains, FindChar;
    var s := head + [c] + rest;
    assert s[..|head|] == head && s[|head| + 1..] == rest;
  }

  /** The parts of a text are the one way to write it as pieces without the separator. */
  lemma SplitOnIff(s: string, c: char, parts: seq<string>)
    requires |parts| > 0 && forall p :: p in parts ==> !Contains(p, c)
    ensures JoinOn(parts, c) == s <==> SplitOn(s, c) == parts
  {
    JoinOfSplit(s, c);
    SplitOfJoinOn(parts, c);
  }

  function SplitOnce(s: string, c: char): Option<(string, string)> {
    var i := FindChar(s, c);
    if i == |s| then None else Some((s[..i], s[i + 1..]))
  }

  // ---------------------------------------------------------------------------
  // White space

  predicate IsWhitespace(c: char) {
    || '\t' <= c <= '\r' || c == ' ' || c == '\U{0085}' || c == '\U{00A0}' || c == '\U{1680}'
    || '\U{2000}' <= c <= '\U{200A}' || c == '\U{2028}' || c == '\U{2029}' || c == '\U{202F}'
    || c == '\U{205F}' || c == '\U{3000}'
  }

  predicate IsBlank(s: string) {
    forall i :: 0 <= i < |s| ==> IsWhitespace(s[i])
  }

  predicate IsWord(s: string) {
    |s| > 0 && forall i :: 0 <= i < |s| ==> !IsWhitespace(s[i])
  }

  /** The length of the longest prefix without white space. */
  function WordLength(s: string): (n: nat)
    ensures n <= |s|
    ensures forall i :: 0 <= i < n ==> !IsWhitespace(s[i])
    ensures n < |s| ==> IsWhitespace(s[n])
  {
    if s == "" || IsWhitespace(s[0]) then 0 else 1 + WordLength(s[1..])
  }

  /** The maximal runs of non-white-space characters. */
  function SplitWhitespace(s: string): (words: seq<string>)
    ensures forall w :: w in words ==> IsWord(w)
    decreases |s|
  {
    if s == "" then []
    else if IsWhitespace(s[0]) then SplitWhitespace(s[1..])
    else
      var n := WordLength(s);
      [s[..n]] + SplitWhitespace(s[n..])
  }

  function JoinSpaces(words: seq<string>): string {
    if words == [] then ""
    else if |words| == 1 then words[0]
    else words[0] + " " + JoinSpaces(words[1..])
  }

  lemma {:induction false} WordLengthOf(w: string, rest: string)
    requires forall i :: 0 <= i < |w| ==> !IsWhitespace(w[i])
    requires rest == "" || IsWhitespace(rest[0])
    ensures WordLength(w + rest) == |w|
  {
    assert rest != "" ==> (w + rest)[|w|] == rest[0];
    assert forall i :: 0 <= i < |w| ==> (w + rest)[i] == w[i];
  }

  /** Words joined by single spaces are split apart again. */
  lemma {:induction false} SplitOfJoin(words: seq<string>)
    requires forall w :: w in words ==> IsWord(w)
    ensures SplitWhitespace(JoinSpaces(words)) == words
  {
    if |words| > 0 {
      var w := words[0];
      assert w in words;
      if |words| == 1 {
        WordLengthOf(w, "");
        assert w + "" == w && w[|w|..] == "";
        assert SplitWhitespace(w) == [w] + SplitWhitespace("");
      } else {
        var rest := " " + JoinSpaces(words[1..]);
        WordLengthOf(w, rest);
        SplitOfJoin(words[1..]);
        assert JoinSpaces(words) == w + rest;
        assert (w + rest)[..|w|] == w && (w + rest)[|w|..] == rest;
        assert (w + rest)[0] == w[0];
        assert rest[1..] == JoinSpaces(words[1..]);
      }
    }
  }

  /** The text is these words with white space between them, and perhaps around them. */
  ghost predicate IsSpaced(s: string, words: seq<string>)
    decreases |words|
  {
    if words == [] then IsBlank(s)
    else exists gap, rest :: IsGapped(s, gap, words[0], rest) && IsSpaced(rest, words[1..])
  }

  ghost predicate IsGapped(s: string, gap: string, word: string, rest: string) {
    && s == gap + word + rest && IsBlank(gap)
    && (rest == "" || IsWhitespace(rest[0]))
  }

  lemma {:induction false} SkipBlank(gap: string, rest: string)
    requires IsBlank(gap)
    ensures SplitWhitespace(gap + rest) == SplitWhitespace(rest)
  {
    if gap == "" {
      assert gap + rest == rest;
    } else {
      assert (gap + rest)[1..] == gap[1..] + rest;
      SkipBlank(gap[1..], rest);
    }
  }

  /** However the words are spaced, splitting finds them. */
  lemma {:induction false} SplitOfSpaced(s: string, words: seq<string>)
    requires (forall w :: w in words ==> IsWord(w)) && IsSpaced(s, words)
    ensures SplitWhitespace(s) == words
    decreases |words|
  {
    hide IsWhitespace, IsBlank, WordLength, IsWord;
    if words == [] {
      SkipBlank(s, "");
      assert s + "" == s;
    } else {
      hide SplitWhitespace;
      var gap, rest :| IsGapped(s, gap, words[0], rest) && IsSpaced(rest, words[1..]);
      SplitOfSpaced(rest, words[1..]);
      FirstWord(words[0], rest);
      SkipBlank(gap, words[0] + rest);
      assert s == gap + (words[0] + rest);
    }
  }

  lemma FirstWord(word: string, rest: string)
    requires IsWord(word) && (rest == "" || IsWhitespace(rest[0]))
    ensures SplitWhitespace(word + rest) == [word] + SplitWhitespace(rest)
  {
    WordLengthOf(word, rest);
    assert (word + rest)[0] == word[0];
    assert (word + rest)[..|word|] == word && (word + rest)[|word|..] == rest;
  }

  function TrimStart(s: string): (t: string)
    ensures |t| <= |s| && s[|s| - |t|..] == t
    ensures t == "" || !IsWhitespace(t[0])
    ensures forall i :: 0 <= i < |s| - |t| ==> IsWhitespace(s[i])
  {
    if s != "" && IsWhitespace(s[0]) then TrimStart(s[1..]) else s
  }

  function TrimEnd(s: string): (t: string)
    ensures |t| <= |s| && s[..|t|] == t
    ensures t == "" || !IsWhitespace(t[|t| - 1])
    ensures forall i :: |t| <= i < |s| ==> IsWhitespace(s[i])
  {
    if s != "" && IsWhitespace(s[|s| - 1]) then TrimEnd(s[..|s| - 1]) else s
  }

  function Trim(s: string): (t: string)
    ensures t == "" || (!IsWhitespace(t[0]) && !IsWhitespace(t[|t| - 1]))
    ensures forall c :: c in t ==> c in s
  {
    var a := TrimStart(s);
    var t := TrimEnd(a);
    assert forall i :: 0 <= i < |a| ==> a[i] == s[|s| - |a| + i];
    assert forall i :: 0 <= i < |t| ==> t[i] == a[i];
    t
  }

  lemma {:induction false} TrimStartOf(before: string, rest: string)
    requires IsBlank(before) && (rest == "" || !IsWhitespace(rest[0]))
    ensures TrimStart(before + rest) == rest
  {
    if before == "" {
      assert before + rest == rest;
    } else {
      assert (before + rest)[1..] == before[1..] + rest;
      TrimStartOf(before[1..], rest);
    }
  }

  lemma {:induction false} TrimEndOf(rest: string, after: string)
    requires IsBlank(after) && (rest == "" || !IsWhitespace(rest[|rest| - 1]))
    ensures TrimEnd(rest + after) == rest
  {
    if after == "" {
      assert rest + after == rest;
    } else {
      assert (rest + after)[..|rest| + |after| - 1] == rest + after[..|after| - 1];
      TrimEndOf(rest, after[..|after| - 1]);
    }
  }

  /** Trimming takes away all the white space at both ends, and nothing else. */
  lemma TrimOf(before: string, s: string, after: string)
    requires IsBlank(before) && IsBlank(after)
    requires s == "" || (!IsWhitespace(s[0]) && !IsWhitespace(s[|s| - 1]))
    ensures Trim(before + s + after) == s
  {
    hide TrimStart, TrimEnd;
    if s == "" {
      assert before + s + after == (before + after) + "";
      TrimStartOf(before + after, "");
      TrimEndOf("", "");
      assert "" + "" == "";
    } else {
      assert before + s + after == before + (s + after);
      TrimStartOf(before, s + after);
      TrimEndOf(s, after);
    }
  }

  /** Only blank text is trimmed to nothing. */
  lemma TrimsToNothing(s: string)
    ensures Trim(s) == "" <==> IsBlank(s)
  {
    hide IsWhitespace, TrimStart, TrimEnd;
    if IsBlank(s) {
      assert s + "" + "" == s;
      TrimOf(s, "", "");
    } else {
      var a := TrimStart(s);
      assert a != "";
      assert IsWhitespace(a[0]) || TrimEnd(a) != "";
    }
  }

  lemma TrimTrimmed(s: string)
    requires s == "" || (!IsWhitespace(s[0]) && !IsWhitespace(s[|s| - 1]))
    ensures Trim(s) == s
  {
  }

  // ---------------------------------------------------------------------------
  // Decimal numbers

  predicate IsDigit(c: char) {
    '0' <= c <= '9'
  }

  function DigitValue(c: char): nat
    requires IsDigit(c)
  {
    c as int - '0' as int
  }

  function DecimalValue(s: string): nat
    requires forall i :: 0 <= i < |s| ==> IsDigit(s[i])
  {
    if s == "" then 0 else 10 * DecimalValue(s[..|s| - 1]) + DigitValue(s[|s| - 1])
  }

  function Digit(n: nat): (c: char)
    requires n < 10
    ensures IsDigit(c) && DigitValue(c) == n
  {
    ('0' as int + n) as char
  }

  /** The decimal numeral of `n`, without leading zeros. */
  function Decimal(n: nat): (s: string)
    ensures |s| > 0 && forall i :: 0 <= i < |s| ==> IsDigit(s[i])
    ensures s[0] == '0' ==> n == 0 && |s| == 1
  {
    if n < 10 then [Digit(n)] else Decimal(n / 10) + [Digit(n % 10)]
  }

  /** Reading a printed number gives it back. */
  lemma {:induction false} ValueOfDecimal(n: nat)
    ensures DecimalValue(Decimal(n)) == n
  {
    var s := Decimal(n);
    if n >= 10 {
      ValueOfDecimal(n / 10);
      assert s[..|s| - 1] == Decimal(n / 10);
    } else {
      assert s[..|s| - 1] == "";
    }
  }

  const U32_LIMIT: nat := 0x1_0000_0000

  predicate AllDigits(s: string) {
    forall i :: 0 <= i < |s| ==> IsDigit(s[i])
  }

  /** An unsigned 32-bit number: an optional plus sign, then digits only. */
  function ParseU32(s: string): (r: Option<nat>)
    ensures r.Some? ==> r.value < U32_LIMIT
  {
    var digits := if |s| > 0 && s[0] == '+' then s[1..] else s;
    if digits == "" || !AllDigits(digits) then None
    else if DecimalValue(digits) < U32_LIMIT then Some(DecimalValue(digits))
    else None
  }

  lemma ParsePrinted(n: nat)
    requires n < U32_LIMIT
    ensures ParseU32(Decimal(n)) == Some(n)
  {
    ValueOfDecimal(n);
  }
}
