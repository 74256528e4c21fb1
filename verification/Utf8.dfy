/** UTF-8 text as bytes, and its character boundaries: the syntax of section 4 of
    RFC 3629. */
module Utf8 {
  import opened Bytes

  predicate IsContinuation(b: Byte) {
    0x80 <= b <= 0xBF
  }

  /** The encoded length a lead byte announces; 0 when it is no lead byte. */
  function LeadLength(b: Byte): nat {
    if b <= 0x7F then 1
    else if 0xC2 <= b <= 0xDF then 2
    else if 0xE0 <= b <= 0xEF then 3
    else if 0xF0 <= b <= 0xF4 then 4
    else 0
  }

  /** The second byte's range depends on the lead: no overlong form, no surrogate,
      nothing beyond U+10FFFF. */
  predicate SecondOk(lead: Byte, second: Byte) {
    && IsContinuation(second)
    && (lead == 0xE0 ==> second >= 0xA0)
    && (lead == 0xED ==> second <= 0x9F)
    && (lead == 0xF0 ==> second >= 0x90)
    && (lead == 0xF4 ==> second <= 0x8F)
  }

  /** One character at the head of `s`. */
  predicate StartsWithChar(s: seq<Byte>) {
    && |s| > 0
    && var n := LeadLength(s[0]);
       0 < n <= |s|
       && (n >= 2 ==> SecondOk(s[0], s[1]))
       && (n >= 3 ==> IsContinuation(s[2]))
       && (n >= 4 ==> IsContinuation(s[3]))
  }

  predicate ValidUtf8(s: seq<Byte>)
    decreases |s|
  {
    s == [] || (StartsWithChar(s) && ValidUtf8(s[LeadLength(s[0])..]))
  }

  /** Where a character may start: at either end, or at a byte that does not
      continue one. */
  predicate IsBoundary(s: seq<Byte>, i: nat) {
    i == 0 || i == |s| || (i < |s| && !IsContinuation(s[i]))
  }

  /** A valid text cut at a boundary gives two valid texts. */
  lemma {:induction false} SplitAtBoundary(s: seq<Byte>, i: nat)
    requires ValidUtf8(s) && i <= |s| && IsBoundary(s, i)
    ensures ValidUtf8(s[..i]) && ValidUtf8(s[i..])
    decreases |s|
  {
    if i == 0 {
      assert s[0..] == s;
    } else {
      var n := LeadLength(s[0]);
      assert i >= n;
      var rest := s[n..];
      assert i < |s| ==> rest[i - n] == s[i];
      SplitAtBoundary(rest, i - n);
      SliceOfRest(s, n, i);
      FirstCharKept(s, i);
      hide ValidUtf8, StartsWithChar, LeadLength;
      CharThenValid(s[..i]);
    }
  }

  lemma SliceOfRest(s: seq<Byte>, n: nat, i: nat)
    requires n <= i <= |s|
    ensures s[i..] == s[n..][i - n..] && s[..i][n..] == s[n..][..i - n]
  {
  }

  lemma FirstCharKept(s: seq<Byte>, i: nat)
    requires StartsWithChar(s) && LeadLength(s[0]) <= i <= |s|
    ensures StartsWithChar(s[..i]) && s[..i][0] == s[0]
  {
  }

  lemma {:induction false} ValidConcat(a: seq<Byte>, b: seq<Byte>)
    requires ValidUtf8(a) && ValidUtf8(b)
    ensures ValidUtf8(a + b)
    decreases |a|
  {
    if a == [] {
      assert a + b == b;
    } else {
      var n := LeadLength(a[0]);
      ValidConcat(a[n..], b);
      CharKept(a, b);
      hide ValidUtf8, StartsWithChar, LeadLength;
      DropThenConcat(a, b, n);
      CharThenValid(a + b);
    }
  }

  lemma DropThenConcat(a: seq<Byte>, b: seq<Byte>, n: nat)
    requires n <= |a|
    ensures (a + b)[n..] == a[n..] + b
  {
  }

  lemma CharThenValid(s: seq<Byte>)
    requires StartsWithChar(s) && ValidUtf8(s[LeadLength(s[0])..])
    ensures ValidUtf8(s)
  {
  }

  lemma CharKept(a: seq<Byte>, b: seq<Byte>)
    requires StartsWithChar(a)
    ensures StartsWithChar(a + b) && (a + b)[0] == a[0]
  {
    assert forall i :: 0 <= i < |a| ==> (a + b)[i] == a[i];
  }

  /** What lies between two boundaries is valid. */
  lemma SliceValid(s: seq<Byte>, i: nat, j: nat)
    requires ValidUtf8(s) && i <= j <= |s| && IsBoundary(s, i) && IsBoundary(s, j)
    ensures ValidUtf8(s[i..j])
  {
    SplitAtBoundary(s, j);
    var t := s[..j];
    assert i < j ==> t[i] == s[i];
    SplitAtBoundary(t, i);
    assert t[i..] == s[i..j];
  }

  /** Characters are at most four bytes: a boundary is never more than three away. */
  lemma {:induction false} BoundaryNear(s: seq<Byte>, i: nat) returns (lo: nat, hi: nat)
    requires ValidUtf8(s) && i <= |s|
    ensures lo <= i <= hi <= |s| && i <= lo + 3 && hi <= i + 3
    ensures IsBoundary(s, lo) && IsBoundary(s, hi)
    decreases |s|
  {
    if i == |s| || i == 0 {
      lo, hi := i, i;
    } else {
      var n := LeadLength(s[0]);
      if i < n {
        lo, hi := 0, n;
        if n < |s| {
          assert StartsWithChar(s[n..]);
        }
      } else {
        var a, b := BoundaryNear(s[n..], i - n);
        lo, hi := a + n, b + n;
        if lo == n && n < |s| {
          assert StartsWithChar(s[n..]);
        }
        if hi == n && n < |s| {
          assert StartsWithChar(s[n..]);
        }
      }
    }
  }

  /** After an ASCII byte there is a boundary. */
  lemma {:induction false} BoundaryAfterAscii(s: seq<Byte>, i: nat)
    requires ValidUtf8(s) && 0 < i <= |s| && s[i - 1] <= 0x7F
    ensures IsBoundary(s, i)
    decreases |s|
  {
    var n := LeadLength(s[0]);
    if i < |s| {
      if i <= n {
        assert StartsWithChar(s[n..]);
      } else {
        BoundaryAfterAscii(s[n..], i - n);
        assert s[i] == s[n..][i - n];
      }
    }
  }

  // ---------------------------------------------------------------------------
  // Encoding

  predicate IsScalar(c: int) {
    0 <= c <= 0x10FFFF && !(0xD800 <= c <= 0xDFFF)
  }

  /** The bytes of one character: section 3 of RFC 3629. */
  function Encode(c: int): (s: seq<Byte>)
    requires IsScalar(c)
    ensures 1 <= |s| <= 4
  {
    if c < 0x80 then [c as Byte]
    else if c < 0x800 then [(0xC0 + c / 0x40) as Byte, Trailing(c)]
    else if c < 0x10000 then [(0xE0 + c / 0x1000) as Byte, Trailing(c / 0x40), Trailing(c)]
    else [(0xF0 + c / 0x40000) as Byte, Trailing(c / 0x1000), Trailing(c / 0x40), Trailing(c)]
  }

  function Trailing(c: int): Byte {
    (0x80 + c % 0x40) as Byte
  }

  ghost function EncodeAll(cs: seq<int>): (s: seq<Byte>)
    requires forall c :: c in cs ==> IsScalar(c)
  {
    if cs == [] then [] else Encode(cs[0]) + EncodeAll(cs[1..])
  }

  /** Every encoded character is a character. */
  lemma EncodedIsChar(c: int, rest: seq<Byte>)
    requires IsScalar(c)
    ensures StartsWithChar(Encode(c) + rest) && LeadLength(Encode(c)[0]) == |Encode(c)|
  {
  }

  /** Every character is the encoding of one. */
  lemma CharIsEncoded(s: seq<Byte>) returns (c: int)
    requires StartsWithChar(s)
    ensures IsScalar(c) && LeadLength(s[0]) == |Encode(c)| && s[..|Encode(c)|] == Encode(c)
  {
    var n := LeadLength(s[0]);
    if n == 1 {
      c := s[0] as int;
    } else if n == 2 {
      c := Joined(s[0] as int - 0xC0, s[1]);
    } else if n == 3 {
      var c' := Joined(s[0] as int - 0xE0, s[1]);
      c := Joined(c', s[2]);
      assert c / 0x1000 == c' / 0x40;
    } else {
      var c'' := Joined(s[0] as int - 0xF0, s[1]);
      var c' := Joined(c'', s[2]);
      c := Joined(c', s[3]);
      assert c / 0x1000 == c' / 0x40 && c / 0x40000 == c' / 0x1000 == c'' / 0x40;
    }
  }

  /** Six more bits, from a continuation byte. */
  lemma Joined(high: int, b: Byte) returns (c: int)
    requires IsContinuation(b)
    ensures c == high * 0x40 + (b as int - 0x80)
    ensures c / 0x40 == high && Trailing(c) == b
  {
    c := high * 0x40 + (b as int - 0x80);
  }

  /** Valid text is the encoding of some characters, and nothing else is. */
  lemma {:induction false} ValidIsEncoded(s: seq<Byte>) returns (cs: seq<int>)
    requires ValidUtf8(s)
    ensures (forall c :: c in cs ==> IsScalar(c)) && s == EncodeAll(cs)
    decreases |s|
  {
    cs := [];
    if s != [] {
      var c := CharIsEncoded(s);
      var n := LeadLength(s[0]);
      var rest := ValidIsEncoded(s[n..]);
      cs := [c] + rest;
      assert cs[1..] == rest;
      assert s == s[..n] + s[n..];
    }
  }

  lemma {:induction false} EncodedIsValid(cs: seq<int>)
    requires forall c :: c in cs ==> IsScalar(c)
    ensures ValidUtf8(EncodeAll(cs))
  {
    if cs != [] {
      EncodedIsValid(cs[1..]);
      EncodedIsChar(cs[0], EncodeAll(cs[1..]));
      var s := EncodeAll(cs);
      assert s[|Encode(cs[0])|..] == EncodeAll(cs[1..]);
      assert s[0] == Encode(cs[0])[0];
    }
  }

  /** The boundaries of a text are exactly the places between its characters. */
  lemma {:induction false} BoundaryIff(cs: seq<int>, i: nat)
    requires (forall c :: c in cs ==> IsScalar(c)) && i <= |EncodeAll(cs)|
    ensures IsBoundary(EncodeAll(cs), i) <==> exists k :: 0 <= k <= |cs| && i == |EncodeAll(cs[..k])|
  {
    var s := EncodeAll(cs);
    if i == 0 {
      assert i == |EncodeAll(cs[..0])|;
    } else {
      var head, rest := Encode(cs[0]), EncodeAll(cs[1..]);
      var n := |head|;
      forall k | 1 <= k <= |cs|
        ensures |EncodeAll(cs[..k])| == n + |EncodeAll(cs[1..][..k - 1])|
      {
        assert cs[..k][1..] == cs[1..][..k - 1];
      }
      if i < n {
        InsideChar(cs[0], i);
        assert s[i] == head[i];
        assert |EncodeAll(cs[..0])| == 0;
      } else {
        BoundaryIff(cs[1..], i - n);
        BoundaryPast(cs, i);
        if k :| 0 <= k <= |cs[1..]| && i - n == |EncodeAll(cs[1..][..k])| {
          assert i == |EncodeAll(cs[..k + 1])|;
        }
        if k :| 0 <= k <= |cs| && i == |EncodeAll(cs[..k])| {
          assert k > 0 && i - n == |EncodeAll(cs[1..][..k - 1])|;
        }
      }
    }
  }

  lemma InsideChar(c: int, i: nat)
    requires IsScalar(c) && 0 < i < |Encode(c)|
    ensures IsContinuation(Encode(c)[i])
  {
  }

  lemma BoundaryPast(cs: seq<int>, i: nat)
    requires cs != [] && (forall c :: c in cs ==> IsScalar(c)) && |Encode(cs[0])| <= i <= |EncodeAll(cs)|
    ensures IsBoundary(EncodeAll(cs), i) <==> IsBoundary(EncodeAll(cs[1..]), i - |Encode(cs[0])|)
  {
    hide Encode, IsScalar, IsBoundary, IsContinuation;
    var head, rest := Encode(cs[0]), EncodeAll(cs[1..]);
    assert EncodeAll(cs) == head + rest;
    if |cs| > 1 {
      FirstIsLead(cs[1..]);
    }
    hide EncodeAll;
    BoundaryOfRest(head, rest, i);
  }

  lemma BoundaryOfRest(head: seq<Byte>, rest: seq<Byte>, i: nat)
    requires 0 < |head| <= i <= |head| + |rest| && (rest != [] ==> !IsContinuation(rest[0]))
    ensures IsBoundary(head + rest, i) <==> IsBoundary(rest, i - |head|)
  {
    assert i < |head + rest| ==> (head + rest)[i] == rest[i - |head|];
  }

  lemma FirstIsLead(cs: seq<int>)
    requires cs != [] && forall c :: c in cs ==> IsScalar(c)
    ensures EncodeAll(cs) != [] && !IsContinuation(EncodeAll(cs)[0])
  {
    EncodedIsChar(cs[0], EncodeAll(cs[1..]));
    assert EncodeAll(cs)[0] == Encode(cs[0])[0];
  }
}
