/** Declared waits: the keystrokes that lift them, what declaring one does, and the
    message it shows. */
module DeclaredWait {
  import opened Bytes
  import opened Options
  import opened Text

  // ---------------------------------------------------------------------------
  // Classifying one input frame

  datatype InputSignal = InputSignal(typed: bool, enter: bool)

  const NOTHING := InputSignal(false, false)

  function Union(a: InputSignal, b: InputSignal): InputSignal {
    InputSignal(a.typed || b.typed, a.enter || b.enter)
  }

  const ESC: Byte := 0x1b
  const CR: Byte := 0x0d
  const LF: Byte := 0x0a

  /** Where a byte stands: in plain input, after ESC, inside a control sequence
      (`ESC [`), or after `ESC O`. */
  datatype Mode = Ground | Escape | Csi | Ss3

  function NextMode(m: Mode, b: Byte): Mode {
    match m
    case Ground => if b == ESC then Escape else Ground
    case Escape => if b == '[' as int as Byte then Csi else if b == 'O' as int as Byte then Ss3 else Ground
    case Csi => if 0x40 <= b <= 0x7e then Ground else Csi
    case Ss3 => Ground
  }

  /** What one byte of plain input signals. */
  function PlainSignal(b: Byte): InputSignal {
    InputSignal(0x20 <= b <= 0x7e || b >= 0x80, b == CR || b == LF)
  }

  function SignalOf(m: Mode, b: Byte): InputSignal {
    if m.Ground? && b != ESC then PlainSignal(b) else NOTHING
  }

  ghost function ModeAfter(m: Mode, bytes: seq<Byte>): Mode
    decreases |bytes|
  {
    if bytes == [] then m else ModeAfter(NextMode(m, bytes[0]), bytes[1..])
  }

  /** The signal of a frame read from a given mode, byte by byte. */
  ghost function SignalFrom(m: Mode, bytes: seq<Byte>): InputSignal
    decreases |bytes|
  {
    if bytes == [] then NOTHING
    else Union(SignalOf(m, bytes[0]), SignalFrom(NextMode(m, bytes[0]), bytes[1..]))
  }

  /** Reading two pieces one after the other. */
  lemma {:induction false} SignalSplits(m: Mode, a: seq<Byte>, b: seq<Byte>)
    ensures SignalFrom(m, a + b) == Union(SignalFrom(m, a), SignalFrom(ModeAfter(m, a), b))
    decreases |a|
  {
    if a == [] {
      assert a + b == b;
    } else {
      assert (a + b)[1..] == a[1..] + b;
      SignalSplits(NextMode(m, a[0]), a[1..], b);
    }
  }

  lemma OneStep(m: Mode, bytes: seq<Byte>, i: nat)
    requires i < |bytes|
    ensures SignalFrom(m, bytes[i..])
            == Union(SignalOf(m, bytes[i]), SignalFrom(NextMode(m, bytes[i]), bytes[i + 1..]))
  {
    assert bytes[i..][1..] == bytes[i + 1..];
  }

  /** The frame classifier: the loop of the source against the byte automaton. */
  method ClassifyInput(bytes: seq<Byte>) returns (signal: InputSignal)
    ensures signal == SignalFrom(Ground, bytes)
  {
    signal := NOTHING;
    var i := 0;
    while i < |bytes|
      invariant 0 <= i
      invariant Union(signal, if i <= |bytes| then SignalFrom(Ground, bytes[i..]) else NOTHING)
                == SignalFrom(Ground, bytes)
      decreases |bytes| - i
    {
      var b := bytes[i];
      OneStep(Ground, bytes, i);
      if b == ESC {
        i := i + 1;
        if i < |bytes| {
          OneStep(Escape, bytes, i);
          if bytes[i] == '[' as int as Byte {
            i := SkipControlSequence(bytes, i + 1);
          } else if bytes[i] == 'O' as int as Byte {
            if i + 1 < |bytes| {
              OneStep(Ss3, bytes, i + 1);
            }
            i := i + 2;
          } else {
            i := i + 1;
          }
        }
        continue;
      }
      if b == CR || b == LF {
        signal := signal.(enter := true);
      } else if 0x20 <= b <= 0x7e || b >= 0x80 {
        signal := signal.(typed := true);
      }
      i := i + 1;
    }
  }

  /** Skips a control sequence through its final byte. */
  method SkipControlSequence(bytes: seq<Byte>, start: nat) returns (i: nat)
    requires start <= |bytes|
    ensures start <= i <= |bytes|
    ensures SignalFrom(Csi, bytes[start..]) == SignalFrom(Ground, bytes[i..])
  {
    i := start;
    while i < |bytes|
      invariant start <= i <= |bytes|
      invariant SignalFrom(Csi, bytes[start..]) == SignalFrom(Csi, bytes[i..])
    {
      var c := bytes[i];
      assert bytes[i..][1..] == bytes[i + 1..];
      i := i + 1;
      if 0x40 <= c <= 0x7e {
        return;
      }
    }
  }

  /** What a frame signals, from its bytes: in plain input the printable bytes and those
      of longer characters are typed, carriage return and line feed are Enter. */
  lemma PlainBytes(b: Byte, rest: seq<Byte>)
    requires b != 0x1b
    ensures var signal, after := SignalFrom(Ground, [b] + rest), SignalFrom(Ground, rest);
            && (signal.typed <==> (0x20 <= b <= 0x7e || 0x80 <= b) || after.typed)
            && (signal.enter <==> b == 0x0d || b == 0x0a || after.enter)
  {
    assert ([b] + rest)[1..] == rest;
  }

  /** Escape sequences signal nothing: `ESC [` up to its final byte, `ESC O` and one byte,
      ESC and any other byte; an unfinished one swallows the rest of the frame. */
  lemma EscapeSequences(parameters: seq<Byte>, last: Byte, rest: seq<Byte>)
    requires forall i :: 0 <= i < |parameters| ==> !(0x40 <= parameters[i] <= 0x7e)
    ensures 0x40 <= last <= 0x7e ==>
              SignalFrom(Ground, [0x1b, 0x5b] + parameters + [last] + rest) == SignalFrom(Ground, rest)
    ensures SignalFrom(Ground, [0x1b, 0x4f, last] + rest) == SignalFrom(Ground, rest)
    ensures last != 0x5b && last != 0x4f ==>
              SignalFrom(Ground, [0x1b, last] + rest) == SignalFrom(Ground, rest)
    ensures SignalFrom(Ground, [0x1b, 0x5b] + parameters) == InputSignal(false, false)
    ensures SignalFrom(Ground, [0x1b, 0x4f]) == SignalFrom(Ground, [0x1b]) == InputSignal(false, false)
  {
    if 0x40 <= last <= 0x7e {
      var tail := parameters + [last] + rest;
      AfterEscape(0x5b, tail);
      assert [0x1b, 0x5b] + parameters + [last] + rest == [0x1b, 0x5b] + tail;
      Parameters(parameters, [last] + rest);
      assert tail == parameters + ([last] + rest);
      assert ([last] + rest)[1..] == rest;
    }
    AfterEscape(0x4f, [last] + rest);
    assert [0x1b, 0x4f, last] + rest == [0x1b, 0x4f] + ([last] + rest);
    assert ([last] + rest)[1..] == rest;
    AfterEscape(last, rest);
    AfterEscape(0x5b, parameters);
    Parameters(parameters, []);
    assert parameters + [] == parameters;
    AfterEscape(0x4f, []);
    assert [0x1b, 0x4f] + [] == [0x1b, 0x4f];
    assert [0x1b as Byte][1..] == [];
  }

  /** Past the ESC and the byte after it. */
  lemma AfterEscape(b: Byte, rest: seq<Byte>)
    ensures SignalFrom(Ground, [0x1b, b] + rest)
            == SignalFrom(if b == 0x5b then Csi else if b == 0x4f then Ss3 else Ground, rest)
  {
    var bytes := [0x1b, b] + rest;
    assert bytes[1..] == [b] + rest;
    assert ([b] + rest)[1..] == rest;
  }

  lemma {:induction false} Parameters(parameters: seq<Byte>, rest: seq<Byte>)
    requires forall i :: 0 <= i < |parameters| ==> !(0x40 <= parameters[i] <= 0x7e)
    ensures SignalFrom(Csi, parameters + rest) == SignalFrom(Csi, rest)
  {
    if parameters == [] {
      assert parameters + rest == rest;
    } else {
      assert (parameters + rest)[1..] == parameters[1..] + rest;
      Parameters(parameters[1..], rest);
    }
  }

  /** Frames may be cut anywhere outside an escape sequence, and only there, unless
      the first piece already signals everything. */
  lemma ClassifySplitsIff(a: seq<Byte>)
    ensures (forall b :: SignalFrom(Ground, a + b) == Union(SignalFrom(Ground, a), SignalFrom(Ground, b)))
            <==> (ModeAfter(Ground, a) == Ground || SignalFrom(Ground, a) == InputSignal(true, true))
  {
    var m, s := ModeAfter(Ground, a), SignalFrom(Ground, a);
    forall b
      ensures SignalFrom(Ground, a + b) == Union(s, SignalFrom(m, b))
    {
      SignalSplits(Ground, a, b);
    }
    if m != Ground && s != InputSignal(true, true) {
      var b: Byte := if s.enter then 0x20 else CR;
      Swallowed(m, b);
      assert SignalFrom(Ground, a + [b]) == Union(s, SignalFrom(m, [b]));
      assert SignalFrom(Ground, [b]) == PlainSignal(b) by { OneByte(Ground, b); }
      assert SignalFrom(Ground, a + [b]) != Union(s, SignalFrom(Ground, [b]));
    }
  }

  lemma OneByte(m: Mode, b: Byte)
    ensures SignalFrom(m, [b]) == SignalOf(m, b)
  {
    assert [b][1..] == [];
    assert SignalFrom(NextMode(m, b), []) == NOTHING;
  }

  lemma Swallowed(m: Mode, b: Byte)
    requires m != Ground
    ensures SignalFrom(m, [b]) == NOTHING
  {
    OneByte(m, b);
  }

  // ---------------------------------------------------------------------------
  // The message

  const MESSAGE_MAX_CHARS: nat := 100
  const ELLIPSIS: char := '\U{2026}'

  function TruncateMessage(raw: string): string {
    var oneLine := JoinSpaces(SplitWhitespace(raw));
    if |oneLine| <= MESSAGE_MAX_CHARS then oneLine else oneLine[..MESSAGE_MAX_CHARS - 1] + [ELLIPSIS]
  }

  /** White space only as single spaces between words. */
  ghost predicate IsOneLine(s: string) {
    forall i :: 0 <= i < |s| && IsWhitespace(s[i]) ==>
      s[i] == ' ' && 0 < i < |s| - 1 && !IsWhitespace(s[i + 1])
  }

  lemma {:induction false} JoinedIsOneLine(words: seq<string>)
    requires forall w :: w in words ==> IsWord(w)
    ensures IsOneLine(JoinSpaces(words))
    ensures words != [] ==> JoinSpaces(words) != "" && !IsWhitespace(JoinSpaces(words)[0])
  {
    if |words| == 1 {
      assert words[0] in words;
    } else if |words| > 1 {
      assert words[0] in words;
      JoinedIsOneLine(words[1..]);
      var w, rest := words[0], JoinSpaces(words[1..]);
      var s := w + " " + rest;
      forall i | 0 <= i < |s| && IsWhitespace(s[i])
        ensures s[i] == ' ' && 0 < i < |s| - 1 && !IsWhitespace(s[i + 1])
      {
        if i > |w| {
          assert s[i] == rest[i - |w| - 1];
        }
      }
    }
  }

  /** A message fits the banner: one line of at most 100 characters. */
  lemma TruncatedFits(raw: string)
    ensures |TruncateMessage(raw)| <= MESSAGE_MAX_CHARS && IsOneLine(TruncateMessage(raw))
  {
    JoinedIsOneLine(SplitWhitespace(raw));
  }

  /** The message is the words joined by single spaces, as long as that fits; otherwise
      its first 99 characters and an ellipsis. */
  lemma TruncateMeans(raw: string, words: seq<string>)
    requires (forall w :: w in words ==> IsWord(w)) && IsSpaced(raw, words)
    ensures var line := JoinSpaces(words);
            TruncateMessage(raw) == if |line| <= 100 then line else line[..99] + "\U{2026}"
  {
    SplitOfSpaced(raw, words);
  }

  /** Text that is one line already is put back together as it was. */
  lemma {:induction false} OneLineKept(s: string)
    requires IsOneLine(s)
    ensures JoinSpaces(SplitWhitespace(s)) == s
    decreases |s|
  {
    if s != "" {
      assert !IsWhitespace(s[0]);
      var n := WordLength(s);
      if n < |s| {
        var rest := s[n + 1..];
        assert s[n..][1..] == rest;
        assert IsOneLine(rest) by {
          forall i | 0 <= i < |rest| && IsWhitespace(rest[i])
            ensures rest[i] == ' ' && 0 < i < |rest| - 1 && !IsWhitespace(rest[i + 1])
          {
            assert rest[i] == s[n + 1 + i];
          }
        }
        OneLineKept(rest);
        assert SplitWhitespace(s[n..]) == SplitWhitespace(rest);
        assert s == s[..n] + " " + rest;
        assert SplitWhitespace(rest) != [];
      } else {
        assert s[..n] == s && s[n..] == "";
        assert SplitWhitespace(s) == [s];
      }
    }
  }

  /** Truncating twice is truncating once, so the client and the daemon agree. */
  lemma TruncateIdempotent(raw: string)
    ensures TruncateMessage(TruncateMessage(raw)) == TruncateMessage(raw)
  {
    TruncatedFits(raw);
    OneLineKept(TruncateMessage(raw));
  }

  // ---------------------------------------------------------------------------
  // Declaring a wait

  const CAUSE_DECLARED := "declared"

  datatype Wait = Wait(cause: string, message: Option<string>)

  /** The node as projected: whether it awaits its user, and on what. */
  datatype NodeView = NodeView(awaiting: bool, wait: Option<Wait>)

  datatype DeclareOutcome = Declared | Refreshed | Noop | Refused

  /** An agent's own message is cut to fit the banner, the daemon's only trimmed; a
      blank one is none. */
  function CleanMessage(cause: string, message: Option<string>): Option<string> {
    if message.None? then None
    else
      var clean := if cause == CAUSE_DECLARED then TruncateMessage(message.value) else Trim(message.value);
      if clean == "" then None else Some(clean)
  }

  /** What a declaration does, given whether the session is live and whether the event
      could be appended. */
  function OutcomeOf(live: bool, node: NodeView, wait: Wait, appended: bool): DeclareOutcome {
    if !live then Refused
    else if node.awaiting && node.wait == Some(Wait(wait.cause, CleanMessage(wait.cause, wait.message))) then Noop
    else if !appended then Refused
    else if node.awaiting then Refreshed
    else Declared
  }

  /** The node once the declaration is projected. */
  function ViewAfter(live: bool, node: NodeView, wait: Wait, appended: bool): NodeView {
    var outcome := OutcomeOf(live, node, wait, appended);
    if outcome.Declared? || outcome.Refreshed? then
      NodeView(true, Some(Wait(wait.cause, CleanMessage(wait.cause, wait.message))))
    else node
  }

  /** An agent's own message becomes the banner's line, any other keeps all but the white
      space around it; blank ones are none. */
  lemma CleanMeans(cause: string, before: string, s: string, after: string, words: seq<string>)
    requires IsBlank(before) && IsBlank(after)
    requires s == "" || (!IsWhitespace(s[0]) && !IsWhitespace(s[|s| - 1]))
    requires (forall w :: w in words ==> IsWord(w)) && IsSpaced(before + s + after, words)
    ensures cause != "declared" ==>
              CleanMessage(cause, Some(before + s + after)) == if s == "" then None else Some(s)
    ensures cause == "declared" ==>
              CleanMessage(cause, Some(before + s + after))
              == if words == [] then None else Some(TruncateMessage(before + s + after))
    ensures CleanMessage(cause, None) == None
  {
    TrimOf(before, s, after);
    TruncateMeans(before + s + after, words);
    JoinedIsOneLine(words);
    hide Trim, TruncateMessage, IsSpaced, IsBlank;
  }

  /** Cleaning a cleaned message changes nothing. */
  lemma CleanIdempotent(cause: string, message: Option<string>)
    ensures CleanMessage(cause, CleanMessage(cause, message)) == CleanMessage(cause, message)
  {
    hide TruncateMessage, Trim;
    if message.Some? {
      TruncateIdempotent(message.value);
      TrimTrimmed(Trim(message.value));
    }
  }

  /** After an accepted declaration, one for the same cause is a no-op exactly when its
      message reads the same once cleaned, as the message shown on the banner does; any
      other refreshes the banner. */
  lemma RepeatIsNoop(node: NodeView, wait: Wait, again: Wait)
    requires !OutcomeOf(true, node, wait, true).Refused?
    ensures var shown := ViewAfter(true, node, wait, true);
            && shown.awaiting && shown.wait.Some?
            && (OutcomeOf(true, shown, again, true).Noop?
                <==> again.cause == wait.cause
                     && CleanMessage(again.cause, again.message) == CleanMessage(wait.cause, wait.message))
            && (!OutcomeOf(true, shown, again, true).Noop? ==> OutcomeOf(true, shown, again, true).Refreshed?)
            && OutcomeOf(true, shown, shown.wait.value, true).Noop?
  {
    CleanIdempotent(wait.cause, wait.message);
  }

  // ---------------------------------------------------------------------------
  // The machine

  datatype Event =
    | Declare(session: string, live: bool, node: NodeView, wait: Wait, appended: bool)
    | TypedText(session: string)
    | Frame(session: string, bytes: seq<Byte>)

  /** The sessions in which something was typed, and whether the event lifts. */
  ghost function Step(typed: set<string>, e: Event): (set<string>, bool) {
    match e
    case Declare(s, _, _, _, _) => (if Declares(e, s) then typed - {s} else typed, false)
    case TypedText(s) => (typed + {s}, false)
    case Frame(s, bytes) =>
      var signal := SignalFrom(Ground, bytes);
      var armed := if signal.typed then typed + {s} else typed;
      if signal.enter && s in armed then (armed - {s}, true) else (armed, false)
  }

  class PtyTyped {
    var typed: set<string>

    constructor ()
      ensures typed == {}
    {
      typed := {};
    }

    method DeclareWait(session: string, live: bool, node: NodeView, wait: Wait, appended: bool)
      returns (outcome: DeclareOutcome)
      modifies this
      ensures outcome == OutcomeOf(live, node, wait, appended)
      ensures !live ==> outcome == Refused
      ensures outcome == Noop
              <==> && live && node.awaiting && node.wait.Some? && node.wait.value.cause == wait.cause
                   && node.wait.value.message == CleanMessage(wait.cause, wait.message)
      ensures outcome == Declared <==> live && appended && !node.awaiting
      ensures outcome.Noop? || outcome.Refused? ==> typed == old(typed)
      ensures typed == Step(old(typed), Declare(session, live, node, wait, appended)).0
    {
      if !live {
        return Refused;
      }
      var message := CleanMessage(wait.cause, wait.message);
      if node.awaiting && node.wait.Some? {
        var current := node.wait.value;
        if current.cause == wait.cause && current.message == message {
          return Noop;
        }
      }
      if !appended {
        return Refused;
      }
      typed := typed - {session};
      outcome := if node.awaiting then Refreshed else Declared;
    }

    method NoteTypedText(session: string)
      modifies this
      ensures typed == Step(old(typed), TypedText(session)).0
    {
      typed := typed + {session};
    }

    method NotePtyInput(session: string, bytes: seq<Byte>) returns (lift: bool)
      modifies this
      ensures (typed, lift) == Step(old(typed), Frame(session, bytes))
    {
      var signal := ClassifyInput(bytes);
      if !signal.typed && !signal.enter {
        return false;
      }
      if signal.typed {
        typed := typed + {session};
      }
      if signal.enter && session in typed {
        typed := typed - {session};
        return true;
      }
      return false;
    }
  }

  ghost function TypedAfter(history: seq<Event>): set<string> {
    if history == [] then {}
    else Step(TypedAfter(history[..|history| - 1]), history[|history| - 1]).0
  }

  /** Something was typed in the session at this event. */
  ghost predicate Types(e: Event, s: string) {
    e.session == s && (e.TypedText? || (e.Frame? && SignalFrom(Ground, e.bytes).typed))
  }

  ghost predicate Enters(e: Event, s: string) {
    e.session == s && e.Frame? && SignalFrom(Ground, e.bytes).enter
  }

  /** An accepted declaration that was not a no-op. */
  ghost predicate Declares(e: Event, s: string) {
    && e.session == s && e.Declare?
    && var outcome := OutcomeOf(e.live, e.node, e.wait, e.appended);
       outcome.Declared? || outcome.Refreshed?
  }

  /** Something was typed in the session with no Enter at or after it, and no
      declaration after it: nothing has used it up or forgotten it. */
  ghost predicate TypedSince(history: seq<Event>, s: string) {
    exists i :: 0 <= i < |history| && TypedAt(history, s, i)
  }

  ghost predicate TypedAt(history: seq<Event>, s: string, i: nat)
    requires i < |history|
  {
    && Types(history[i], s) && !Enters(history[i], s)
    && forall j :: i < j < |history| ==> !Enters(history[j], s) && !Declares(history[j], s)
  }

  /** The set the machine keeps is exactly what the history says. */
  lemma {:induction false} TypedSetMeaning(history: seq<Event>, s: string)
    ensures s in TypedAfter(history) <==> TypedSince(history, s)
  {
    if history != [] {
      var k := |history| - 1;
      var before, e := history[..k], history[k];
      TypedSetMeaning(before, s);
      forall i | 0 <= i < k
        ensures TypedAt(history, s, i) <==> TypedAt(before, s, i) && !Enters(e, s) && !Declares(e, s)
      {
        assert history[i] == before[i];
        assert forall j :: i < j < k ==> history[j] == before[j];
      }
      if TypedSince(before, s) && !Enters(e, s) && !Declares(e, s) {
        var i :| 0 <= i < |before| && TypedAt(before, s, i);
        assert TypedAt(history, s, i);
      }
      if Types(e, s) && !Enters(e, s) {
        assert TypedAt(history, s, k);
      }
    }
  }

  /** A frame lifts exactly when it holds an Enter and something was typed in it or
      since the session's last declaration or lift. */
  lemma LiftsIff(history: seq<Event>, s: string, bytes: seq<Byte>)
    ensures var signal := SignalFrom(Ground, bytes);
            Step(TypedAfter(history), Frame(s, bytes)).1
            <==> signal.enter && (signal.typed || TypedSince(history, s))
  {
    TypedSetMeaning(history, s);
  }

  /** Events of one session leave every other session's typing alone. */
  lemma OtherSessionsUntouched(typed: set<string>, e: Event, s: string)
    requires e.session != s
    ensures s in Step(typed, e).0 <==> s in typed
  {
  }

  // ---------------------------------------------------------------------------
  // The rule as it is described, byte by byte

  /** Reads bytes one at a time: a typed byte is remembered, and an Enter lifts when
      there is one to use up. Returns whether typing is remembered at the end, and
      whether some Enter lifted. */
  ghost function ByteRule(m: Mode, armed: bool, bytes: seq<Byte>): (bool, bool)
    decreases |bytes|
  {
    if bytes == [] then (armed, false)
    else
      var signal := SignalOf(m, bytes[0]);
      var rest := ByteRule(NextMode(m, bytes[0]), (armed || signal.typed) && !signal.enter, bytes[1..]);
      (rest.0, (armed && signal.enter) || rest.1)
  }

  /** The machine that applies the rule byte by byte. */
  ghost function RuleStep(typed: set<string>, e: Event): (set<string>, bool) {
    match e
    case Frame(s, bytes) =>
      var (armed, lift) := ByteRule(Ground, s in typed, bytes);
      (if armed then typed + {s} else typed - {s}, lift)
    case _ => Step(typed, e)
  }

  ghost function RuleAfter(history: seq<Event>): set<string> {
    if history == [] then {}
    else RuleStep(RuleAfter(history[..|history| - 1]), history[|history| - 1]).0
  }

  /** What is signalled from the `k`-th byte on. */
  ghost function SignalAfter(m: Mode, bytes: seq<Byte>, k: nat): InputSignal
    requires k <= |bytes|
  {
    SignalFrom(ModeAfter(m, bytes[..k]), bytes[k..])
  }

  /** Some Enter of the frame comes after one of its typed bytes. */
  ghost predicate EnterAfterTyping(m: Mode, bytes: seq<Byte>) {
    exists k :: 0 <= k <= |bytes| && SignalFrom(m, bytes[..k]).typed && SignalAfter(m, bytes, k).enter
  }

  /** Some typed byte of the frame has no Enter after it. */
  ghost predicate TypingAfterEnters(m: Mode, bytes: seq<Byte>) {
    exists k :: 0 <= k <= |bytes| && SignalAfter(m, bytes, k).typed && !SignalAfter(m, bytes, k).enter
  }

  /** A cut after the first byte is a cut of the rest. */
  lemma CutOfRest(m: Mode, bytes: seq<Byte>, k: nat)
    requires 0 < k <= |bytes|
    ensures var m' := NextMode(m, bytes[0]);
            && SignalAfter(m, bytes, k) == SignalAfter(m', bytes[1..], k - 1)
            && SignalFrom(m, bytes[..k]) == Union(SignalOf(m, bytes[0]), SignalFrom(m', bytes[1..][..k - 1]))
  {
    assert bytes[..k][1..] == bytes[1..][..k - 1];
    assert bytes[k..] == bytes[1..][k - 1..];
  }

  lemma NoCut(m: Mode, bytes: seq<Byte>)
    ensures SignalAfter(m, bytes, 0) == SignalFrom(m, bytes)
    ensures SignalFrom(m, bytes[..0]) == NOTHING
  {
    assert bytes[0..] == bytes;
  }

  /** What the rule makes of a frame, said without reading it byte by byte. */
  lemma {:induction false} ByteRuleMeaning(m: Mode, armed: bool, bytes: seq<Byte>)
    ensures ByteRule(m, armed, bytes).1
            <==> (armed && SignalFrom(m, bytes).enter) || EnterAfterTyping(m, bytes)
    ensures ByteRule(m, armed, bytes).0
            <==> (armed && !SignalFrom(m, bytes).enter) || TypingAfterEnters(m, bytes)
    decreases |bytes|
  {
    NoCut(m, bytes);
    if bytes != [] {
      var m', rest, signal := NextMode(m, bytes[0]), bytes[1..], SignalOf(m, bytes[0]);
      ByteRuleMeaning(m', (armed || signal.typed) && !signal.enter, rest);
      NoCut(m', rest);
      EnterAfterFirst(m, bytes);
      TypingAfterFirst(m, bytes);
    }
  }

  /** Where the two predicates on a frame stand to those on its rest. */
  lemma EnterAfterFirst(m: Mode, bytes: seq<Byte>)
    requires bytes != []
    ensures var m', rest := NextMode(m, bytes[0]), bytes[1..];
            EnterAfterTyping(m, bytes)
            <==> (SignalOf(m, bytes[0]).typed && SignalFrom(m', rest).enter) || EnterAfterTyping(m', rest)
  {
    hide SignalFrom, SignalOf, SignalAfter;
    var m', rest := NextMode(m, bytes[0]), bytes[1..];
    NoCut(m, bytes);
    NoCut(m', rest);
    CutOfRest(m, bytes, 1);
    if k :| 0 <= k <= |bytes| && SignalFrom(m, bytes[..k]).typed && SignalAfter(m, bytes, k).enter {
      CutOfRest(m, bytes, k);
      EnterOfSuffix(m', rest, k - 1);
    }
    if k :| 0 <= k <= |rest| && SignalFrom(m', rest[..k]).typed && SignalAfter(m', rest, k).enter {
      CutOfRest(m, bytes, k + 1);
      assert EnterAfterTyping(m, bytes);
    }
  }

  lemma EnterOfSuffix(m: Mode, bytes: seq<Byte>, k: nat)
    requires k <= |bytes|
    ensures SignalAfter(m, bytes, k).enter ==> SignalFrom(m, bytes).enter
    ensures SignalAfter(m, bytes, k).typed ==> SignalFrom(m, bytes).typed
  {
    SignalSplits(m, bytes[..k], bytes[k..]);
    assert bytes[..k] + bytes[k..] == bytes;
  }

  lemma TypingAfterFirst(m: Mode, bytes: seq<Byte>)
    requires bytes != []
    ensures TypingAfterEnters(m, bytes)
            <==> || (SignalFrom(m, bytes).typed && !SignalFrom(m, bytes).enter)
                 || TypingAfterEnters(NextMode(m, bytes[0]), bytes[1..])
  {
    hide SignalFrom, SignalOf, SignalAfter;
    var m', rest := NextMode(m, bytes[0]), bytes[1..];
    NoCut(m, bytes);
    if k :| 0 <= k <= |bytes| && SignalAfter(m, bytes, k).typed && !SignalAfter(m, bytes, k).enter && k > 0 {
      CutOfRest(m, bytes, k);
      assert TypingAfterEnters(m', rest);
    }
    if k :| 0 <= k <= |rest| && SignalAfter(m', rest, k).typed && !SignalAfter(m', rest, k).enter {
      CutOfRest(m, bytes, k + 1);
      assert TypingAfterEnters(m, bytes);
    }
  }

  /** One frame judged as a whole, against the rule, from the same remembered typing:
      the verdicts agree unless the frame brings typing of its own but only after its
      last Enter, and the same typing stays remembered unless the frame types after
      its last Enter. */
  lemma FrameAgreesIff(typed: set<string>, s: string, bytes: seq<Byte>)
    ensures var signal, code, rule :=
              SignalFrom(Ground, bytes), Step(typed, Frame(s, bytes)), RuleStep(typed, Frame(s, bytes));
            && (code.1 == rule.1
                <==> !(signal.enter && signal.typed) || s in typed || EnterAfterTyping(Ground, bytes))
            && (code.0 == rule.0 <==> !(signal.enter && TypingAfterEnters(Ground, bytes)))
  {
    hide SignalFrom, EnterAfterTyping, TypingAfterEnters;
    ByteRuleMeaning(Ground, s in typed, bytes);
    WholeFrame(bytes);
  }

  /** In a frame without an Enter no typed byte has one after it. */
  lemma WholeFrame(bytes: seq<Byte>)
    ensures !SignalFrom(Ground, bytes).enter ==>
              !EnterAfterTyping(Ground, bytes)
              && (TypingAfterEnters(Ground, bytes) <==> SignalFrom(Ground, bytes).typed)
    ensures TypingAfterEnters(Ground, bytes) || EnterAfterTyping(Ground, bytes) ==> SignalFrom(Ground, bytes).typed
  {
    hide SignalFrom;
    NoCut(Ground, bytes);
    forall k | 0 <= k <= |bytes|
      ensures SignalFrom(Ground, bytes) == Union(SignalFrom(Ground, bytes[..k]), SignalAfter(Ground, bytes, k))
    {
      SignalSplits(Ground, bytes[..k], bytes[k..]);
      assert bytes[..k] + bytes[k..] == bytes;
    }
  }

  /** The frame holds an Enter, and typed bytes after its last one. */
  ghost predicate TypesAfterEnter(e: Event, s: string) {
    Enters(e, s) && TypingAfterEnters(Ground, e.bytes)
  }

  /** The session's last news is such a frame: what it typed last is forgotten by the
      code, though no Enter has used it up. */
  ghost predicate TypingLost(history: seq<Event>, s: string) {
    exists i :: 0 <= i < |history| && LostAt(history, s, i)
  }

  ghost predicate LostAt(history: seq<Event>, s: string, i: nat)
    requires i < |history|
  {
    && TypesAfterEnter(history[i], s)
    && forall j :: i < j < |history| ==> !IsNews(history[j], s)
  }

  /** The event says something new of the session: typing, an Enter or a declaration. */
  ghost predicate IsNews(e: Event, s: string) {
    Types(e, s) || Enters(e, s) || Declares(e, s)
  }

  lemma LostOneMore(before: seq<Event>, e: Event, s: string)
    ensures TypingLost(before + [e], s) <==> TypesAfterEnter(e, s) || (TypingLost(before, s) && !IsNews(e, s))
  {
    hide TypesAfterEnter, IsNews;
    var history, k := before + [e], |before|;
    forall i | 0 <= i < k
      ensures LostAt(history, s, i) <==> LostAt(before, s, i) && !IsNews(e, s)
    {
      assert history[i] == before[i] && history[k] == e;
      assert forall j :: i < j < k ==> history[j] == before[j];
    }
    if TypesAfterEnter(e, s) {
      assert LostAt(history, s, k);
    }
    if TypingLost(before, s) && !IsNews(e, s) {
      var i :| 0 <= i < k && LostAt(before, s, i);
      assert LostAt(history, s, i);
    }
  }

  /** The rule remembers what the code does, and besides it only lost typing. */
  lemma {:induction false} RuleSetMeaning(history: seq<Event>, s: string)
    ensures s in RuleAfter(history) <==> s in TypedAfter(history) || TypingLost(history, s)
    ensures !(s in TypedAfter(history) && TypingLost(history, s))
  {
    if history != [] {
      var k := |history| - 1;
      var before, e := history[..k], history[k];
      assert history == before + [e];
      RuleSetMeaning(before, s);
      LostOneMore(before, e, s);
      hide SignalFrom, TypingLost, TypingAfterEnters, EnterAfterTyping;
      if e.Frame? {
        ByteRuleMeaning(Ground, e.session in RuleAfter(before), e.bytes);
        WholeFrame(e.bytes);
      }
    }
  }

  /** The main theorem on the Enter rule. After any history, the code's verdict on a
      frame is the rule's exactly when the frame holds no Enter, or typing is
      remembered, or else what the frame types makes up for what was lost. */
  lemma VerdictsAgreeIff(history: seq<Event>, s: string, bytes: seq<Byte>)
    ensures var signal := SignalFrom(Ground, bytes);
            Step(TypedAfter(history), Frame(s, bytes)).1 == RuleStep(RuleAfter(history), Frame(s, bytes)).1
            <==> || !signal.enter || TypedSince(history, s)
                 || if signal.typed then TypingLost(history, s) || EnterAfterTyping(Ground, bytes)
                    else !TypingLost(history, s)
  {
    hide SignalFrom, EnterAfterTyping, TypingLost, TypedSince;
    TypedSetMeaning(history, s);
    RuleSetMeaning(history, s);
    ByteRuleMeaning(Ground, s in RuleAfter(history), bytes);
    WholeFrame(bytes);
  }

  /** Both remember the same throughout a history exactly when no frame of it types
      after its last Enter. */
  lemma MemoriesAgreeIff(history: seq<Event>)
    ensures (forall n :: 0 <= n <= |history| ==> RuleAfter(history[..n]) == TypedAfter(history[..n]))
            <==> forall i :: 0 <= i < |history| ==> !TypesAfterEnter(history[i], history[i].session)
  {
    hide TypesAfterEnter;
    forall i | 0 <= i < |history| && TypesAfterEnter(history[i], history[i].session)
      ensures RuleAfter(history[..i + 1]) != TypedAfter(history[..i + 1])
    {
      var s := history[i].session;
      assert history[..i + 1] == history[..i] + [history[i]];
      LostOneMore(history[..i], history[i], s);
      RuleSetMeaning(history[..i + 1], s);
    }
    if forall i :: 0 <= i < |history| ==> !TypesAfterEnter(history[i], history[i].session) {
      forall n | 0 <= n <= |history|
        ensures RuleAfter(history[..n]) == TypedAfter(history[..n])
      {
        forall s
          ensures s in RuleAfter(history[..n]) <==> s in TypedAfter(history[..n])
        {
          RuleSetMeaning(history[..n], s);
          NothingLost(history[..n], s);
        }
      }
    }
  }

  lemma NothingLost(history: seq<Event>, s: string)
    requires forall i :: 0 <= i < |history| ==> !TypesAfterEnter(history[i], history[i].session)
    ensures !TypingLost(history, s)
  {
  }

  const LETTER: Byte := 0x61

  lemma ReadTwo(m: Mode, a: Byte, b: Byte)
    ensures SignalFrom(m, [a, b]) == Union(SignalOf(m, a), SignalOf(NextMode(m, a), b))
  {
    assert [a, b][1..] == [b];
    OneByte(NextMode(m, a), b);
  }

  /** A frame is judged as a whole: an Enter before the frame's only typed byte lifts,
      where the rule would not. */
  lemma EnterBeforeTypingLifts(s: string)
    ensures Step({}, Frame(s, [CR, LETTER])) == ({}, true)
    ensures RuleStep({}, Frame(s, [CR, LETTER])) == ({s}, false)
  {
    ReadTwo(Ground, CR, LETTER);
    assert [CR, LETTER][1..] == [LETTER] && [LETTER][1..] == [];
    assert ByteRule(Ground, true, []) == (true, false);
    assert ByteRule(Ground, false, [LETTER]) == (true, false);
    assert ByteRule(Ground, false, [CR, LETTER]) == (true, false);
    assert {} + {s} == {s};
  }

  /** The other way round: what is typed after an Enter that lifted is forgotten, so the
      Enter that follows it does not lift, where the rule would. */
  lemma TypedAfterLiftForgotten(s: string)
    ensures var history := [Frame(s, [LETTER, CR, LETTER])];
            && Step({}, history[0]) == ({}, true) && RuleStep({}, history[0]) == ({s}, true)
            && !Step(TypedAfter(history), Frame(s, [CR])).1
            && RuleStep(RuleAfter(history), Frame(s, [CR])).1
  {
    var bytes := [LETTER, CR, LETTER];
    var history := [Frame(s, bytes)];
    assert bytes[1..] == [CR, LETTER] && [CR, LETTER][1..] == [LETTER] && [LETTER][1..] == [] && [CR][1..] == [];
    ReadTwo(Ground, CR, LETTER);
    OneByte(Ground, CR);
    assert ByteRule(Ground, true, []) == (true, false);
    assert ByteRule(Ground, false, [LETTER]) == (true, false);
    assert ByteRule(Ground, true, [CR, LETTER]) == (true, true);
    assert ByteRule(Ground, false, bytes) == (true, true);
    assert {} + {s} == {s};
    assert ByteRule(Ground, true, [CR]) == (ByteRule(Ground, false, []).0, true);
    assert history[..0] == [];
    assert TypedAfter(history) == Step(TypedAfter([]), history[0]).0;
    assert RuleAfter(history) == RuleStep(RuleAfter([]), history[0]).0;
  }
}
