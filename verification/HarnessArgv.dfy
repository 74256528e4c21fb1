/** Turning a list of token templates into one tail of command-line text. */
module HarnessArgv {
  import opened Options
  import opened Text

  datatype Holes = Holes(
    prompt: string, model: string, effort: string, sessionId: string, settings: string, resume: string)
  {
    /** An unknown name has no value. */
    function Resolve(name: string): string {
      if name == "prompt" then prompt
      else if name == "model" then model
      else if name == "effort" then effort
      else if name == "session_id" then sessionId
      else if name == "settings" then settings
      else if name == "resume" then resume
      else ""
    }
  }

  /** Appending to a rendering that may have been dropped. */
  function Prepend(s: string, rest: Option<string>): Option<string> {
    if rest.Some? then Some(s + rest.value) else None
  }

  /** The first closed brace pair of a text: what is before it, the name inside,
      and what is after. */
  function NextHole(token: string): (r: Option<(string, string, string)>)
    ensures r.Some? ==> |r.value.2| < |token|
  {
    var open := FindChar(token, '{');
    if open == |token| then None
    else
      var inside := token[open + 1..];
      var close := FindChar(inside, '}');
      if close == |inside| then None else Some((token[..open], inside[..close], inside[close + 1..]))
  }

  /** One pass over a token, from the left: text stands for itself, a closed brace
      pair for its value. */
  ghost function Rendering(token: string, holes: Holes): Option<string>
    decreases |token|
  {
    match NextHole(token)
    case None => Some(token)
    case Some((head, name, tail)) =>
      if holes.Resolve(name) == "" then None
      else Prepend(head + holes.Resolve(name), Rendering(tail, holes))
  }

  lemma PrependTwice(a: string, b: string, rest: Option<string>)
    ensures Prepend(a, Prepend(b, rest)) == Prepend(a + b, rest)
  {
    if rest.Some? {
      assert a + (b + rest.value) == (a + b) + rest.value;
    }
  }

  lemma PrependNothing(rest: Option<string>)
    ensures Prepend("", rest) == rest
  {
    if rest.Some? {
      assert "" + rest.value == rest.value;
    }
  }

  method RenderToken(token: string, holes: Holes) returns (r: Option<string>)
    ensures r == Rendering(token, holes)
  {
    var out := "";
    var rest := token;
    PrependNothing(Rendering(token, holes));
    while true
      invariant Prepend(out, Rendering(rest, holes)) == Rendering(token, holes)
      decreases |rest|
    {
      hide Holes.Resolve, FindChar, Prepend;
      var open := FindChar(rest, '{');
      if open == |rest| {
        return Some(out + rest);
      }
      var inside := rest[open + 1..];
      var close := FindChar(inside, '}');
      if close == |inside| {
        return Some(out + rest);
      }
      var value := holes.Resolve(inside[..close]);
      if value == "" {
        return None;
      }
      PrependTwice(out, rest[..open] + value, Rendering(inside[close + 1..], holes));
      out := out + (rest[..open] + value);
      rest := inside[close + 1..];
    }
  }

  /** The tokens that survive, rendered, in order. */
  ghost function Survivors(tokens: seq<string>, holes: Holes): seq<string> {
    if tokens == [] then []
    else
      var k := |tokens| - 1;
      var last := Rendering(tokens[k], holes);
      Survivors(tokens[..k], holes) + if last.Some? then [last.value] else []
  }

  method Render(tokens: seq<string>, holes: Holes) returns (tail: string)
    ensures tail == JoinSpaces(Survivors(tokens, holes))
  {
    var survivors: seq<string> := [];
    for i := 0 to |tokens|
      invariant survivors == Survivors(tokens[..i], holes)
    {
      assert tokens[..i + 1][..i] == tokens[..i];
      var rendered := RenderToken(tokens[i], holes);
      if rendered.Some? {
        survivors := survivors + [rendered.value];
      }
    }
    assert tokens[..|tokens|] == tokens;
    tail := JoinSpaces(survivors);
  }

  // ---------------------------------------------------------------------------
  // Templates

  /** A token as its author means it: literal text and named holes. */
  datatype Piece = Literal(text: string) | Hole(name: string)

  ghost predicate IsTemplate(pieces: seq<Piece>) {
    forall i :: 0 <= i < |pieces| ==>
      match pieces[i]
      case Literal(text) => !Contains(text, '{')
      case Hole(name) => !Contains(name, '}')
  }

  function Print(pieces: seq<Piece>): string {
    if pieces == [] then ""
    else
      (match pieces[0]
       case Literal(text) => text
       case Hole(name) => "{" + name + "}") + Print(pieces[1..])
  }

  /** What a template means: dropped if some hole is empty, else every literal as
      it stands and every hole replaced by its value, once. */
  ghost function Meaning(pieces: seq<Piece>, holes: Holes): Option<string> {
    if exists i :: 0 <= i < |pieces| && pieces[i].Hole? && holes.Resolve(pieces[i].name) == "" then None
    else Some(Substituted(pieces, holes))
  }

  function Substituted(pieces: seq<Piece>, holes: Holes): string {
    if pieces == [] then ""
    else
      (match pieces[0]
       case Literal(text) => text
       case Hole(name) => holes.Resolve(name)) + Substituted(pieces[1..], holes)
  }

  /** Text without an opening brace is carried over. */
  lemma LiteralCarried(text: string, rest: string, holes: Holes)
    requires !Contains(text, '{')
    ensures Rendering(text + rest, holes) == Prepend(text, Rendering(rest, holes))
  {
    hide Holes.Resolve, NextHole;
    LiteralBeforeHole(text, rest);
    var next := NextHole(rest);
    if next.Some? {
      var (head, name, tail) := next.value;
      PrependTwice(text, head + holes.Resolve(name), Rendering(tail, holes));
      assert (text + head) + holes.Resolve(name) == text + (head + holes.Resolve(name));
    }
  }

  lemma LiteralBeforeHole(text: string, rest: string)
    requires !Contains(text, '{')
    ensures NextHole(text + rest)
            == match NextHole(rest)
               case None => None
               case Some((head, name, tail)) => Some((text + head, name, tail))
  {
    var token := text + rest;
    var open := FindChar(rest, '{');
    FindAfter(text, rest, '{');
    hide FindChar;
    if open < |rest| {
      assert token[|text| + open + 1..] == rest[open + 1..];
      assert token[..|text| + open] == text + rest[..open];
    }
  }

  lemma FindAfter(text: string, rest: string, c: char)
    requires !Contains(text, c)
    ensures FindChar(text + rest, c) == |text| + FindChar(rest, c)
  {
    var s := text + rest;
    var i := FindChar(rest, c);
    assert forall j :: 0 <= j < |text| ==> s[j] == text[j] && text[j] != c;
    assert forall j :: 0 <= j < i ==> s[|text| + j] == rest[j];
    assert i < |rest| ==> s[|text| + i] == c;
  }

  /** A closed hole is replaced by its value, which is not looked at again. */
  lemma HoleReplaced(name: string, rest: string, holes: Holes)
    requires !Contains(name, '}')
    ensures Rendering("{" + name + "}" + rest, holes)
            == if holes.Resolve(name) == "" then None else Prepend(holes.Resolve(name), Rendering(rest, holes))
  {
    hide Holes.Resolve;
    var token := "{" + name + "}" + rest;
    assert token[0] == '{' && FindChar(token, '{') == 0;
    assert token[1..] == name + ("}" + rest);
    FindAfter(name, "}" + rest, '}');
    assert FindChar("}" + rest, '}') == 0;
    assert token[1..1 + |name|] == name;
    assert token[|name| + 2..] == rest;
    assert NextHole(token) == Some(("", name, rest));
    assert "" + holes.Resolve(name) == holes.Resolve(name);
  }

  /** Rendering a printed template gives its meaning. */
  lemma {:induction false} RenderingIsMeaning(pieces: seq<Piece>, holes: Holes)
    requires IsTemplate(pieces)
    ensures Rendering(Print(pieces), holes) == Meaning(pieces, holes)
  {
    hide Holes.Resolve, Rendering, Meaning;
    if pieces == [] {
      EmptyRendering(holes);
    } else {
      var rest := pieces[1..];
      RenderingIsMeaning(rest, holes);
      assert forall i :: 0 <= i < |rest| ==> rest[i] == pieces[i + 1];
      MeaningStep(pieces, holes);
      match pieces[0] {
        case Literal(text) => LiteralCarried(text, Print(rest), holes);
        case Hole(name) =>
          assert Print(pieces) == "{" + name + "}" + Print(rest);
          HoleReplaced(name, Print(rest), holes);
      }
    }
  }

  lemma EmptyRendering(holes: Holes)
    ensures Rendering("", holes) == Meaning([], holes) == Some("")
  {
  }

  lemma MeaningStep(pieces: seq<Piece>, holes: Holes)
    requires pieces != []
    ensures Meaning(pieces, holes)
            == match pieces[0]
               case Literal(text) => Prepend(text, Meaning(pieces[1..], holes))
               case Hole(name) =>
                 if holes.Resolve(name) == "" then None
                 else Prepend(holes.Resolve(name), Meaning(pieces[1..], holes))
  {
    var rest := pieces[1..];
    assert forall i :: 0 <= i < |rest| ==> rest[i] == pieces[i + 1];
    if i :| 0 <= i < |pieces| && pieces[i].Hole? && holes.Resolve(pieces[i].name) == "" {
      assert i > 0 ==> rest[i - 1] == pieces[i];
    }
    if i :| 0 <= i < |rest| && rest[i].Hole? && holes.Resolve(rest[i].name) == "" {
      assert pieces[i + 1] == rest[i];
    }
  }

  // ---------------------------------------------------------------------------
  // The tail

  lemma {:induction false} SurvivorsSplit(a: seq<string>, b: seq<string>, holes: Holes)
    ensures Survivors(a + b, holes) == Survivors(a, holes) + Survivors(b, holes)
  {
    hide Rendering;
    if b == [] {
      assert a + b == a;
    } else {
      var k := |b| - 1;
      assert (a + b)[..|a| + k] == a + b[..k];
      SurvivorsSplit(a, b[..k], holes);
    }
  }

  /** A dropped token leaves no trace: the tail is that of the template without it. */
  lemma DroppedLeavesNoTrace(before: seq<string>, token: string, after: seq<string>, holes: Holes)
    requires Rendering(token, holes).None?
    ensures Survivors(before + [token] + after, holes) == Survivors(before + after, holes)
  {
    hide Rendering;
    SurvivorsSplit(before + [token], after, holes);
    SurvivorsSplit(before, [token], holes);
    SurvivorsSplit(before, after, holes);
    assert [token][..0] == [];
  }

  /** The six holes by name, each with the value of that name; any other name has none,
      so a token that holds it is dropped. */
  lemma HoleOfName(holes: Holes, name: string)
    requires !Contains(name, '}')
    ensures var value := match name
                         case "prompt" => holes.prompt
                         case "model" => holes.model
                         case "effort" => holes.effort
                         case "session_id" => holes.sessionId
                         case "settings" => holes.settings
                         case "resume" => holes.resume
                         case _ => "";
            Rendering("{" + name + "}", holes) == if value == "" then None else Some(value)
  {
    HoleReplaced(name, "", holes);
    EmptyRendering(holes);
    assert "{" + name + "}" + "" == "{" + name + "}";
    hide Rendering;
    var value := holes.Resolve(name);
    assert value + "" == value;
  }
}
