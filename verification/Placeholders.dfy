/**
 `{name}` placeholders: how a text falls into literal characters and holes, and how holes are filled
 (app/i18n.py). Parameter values are the texts `str` makes of them.
 */
module Placeholders {
  import opened Options

  predicate IsStart(c: char) {
    'A' <= c <= 'Z' || 'a' <= c <= 'z' || c == '_'
  }

  predicate IsWord(c: char) {
    IsStart(c) || '0' <= c <= '9'
  }

  /** The characters of a name by code: letters and the underscore, and digits behind the first. */
  lemma {:induction false} NameCharactersByCode(c: char)
    ensures IsStart(c) <==> 65 <= c as int <= 90 || 97 <= c as int <= 122 || c as int == 95
    ensures IsWord(c) <==> IsStart(c) || 48 <= c as int <= 57
  {
  }

  /** The longest run of word characters the text starts with. */
  function Word(text: string): string {
    if text != [] && IsWord(text[0]) then [text[0]] + Word(text[1..]) else []
  }

  /** The name of the placeholder the text starts with, as the regular expression would match it. */
  function HoleAt(text: string): Option<string> {
    if text == [] || text[0] != '{' then None
    else
      var name := Word(text[1..]);
      if name != [] && IsStart(name[0]) && 1 + |name| < |text| && text[1 + |name|] == '}' then Some(name) else None
  }

  datatype Token = Literal(c: char) | Hole(name: string)

  /** Leftmost, non-overlapping matches; every other character stands for itself. */
  function Tokens(text: string): seq<Token>
    decreases |text|
  {
    if text == [] then []
    else
      var hole := HoleAt(text);
      if hole.Some? then [Hole(hole.value)] + Tokens(text[|hole.value| + 2..])
      else [Literal(text[0])] + Tokens(text[1..])
  }

  function Braced(name: string): string {
    ['{'] + name + ['}']
  }

  function FillOne(t: Token, params: map<string, string>): string {
    match t
    case Literal(c) => [c]
    case Hole(name) => if name in params then params[name] else Braced(name)
  }

  function Fill(tokens: seq<Token>, params: map<string, string>): string {
    if tokens == [] then [] else FillOne(tokens[0], params) + Fill(tokens[1..], params)
  }

  /** `interpolate`, with its short cut. */
  function Interpolate(text: string, params: map<string, string>): string {
    if params == map[] || '{' !in text then text else Fill(Tokens(text), params)
  }

  function NamesIn(tokens: seq<Token>): set<string> {
    set t | t in tokens && t.Hole? :: t.name
  }

  /** `_placeholders`. */
  function Names(text: string): set<string> {
    NamesIn(Tokens(text))
  }

  // ----- Tokens and text

  lemma {:induction false} WordIsAPrefix(text: string)
    ensures |Word(text)| <= |text| && Word(text) == text[..|Word(text)|]
    ensures forall i :: 0 <= i < |Word(text)| ==> IsWord(Word(text)[i])
    ensures |Word(text)| < |text| ==> !IsWord(text[|Word(text)|])
  {
    if text != [] && IsWord(text[0]) {
      WordIsAPrefix(text[1..]);
    }
  }

  lemma {:induction false} HoleIsWritten(text: string)
    requires HoleAt(text).Some?
    ensures |HoleAt(text).value| + 2 <= |text|
    ensures text == Braced(HoleAt(text).value) + text[|HoleAt(text).value| + 2..]
  {
    WordIsAPrefix(text[1..]);
  }

  /** With nothing to fill in, the tokens give the text back: tokenising loses and invents nothing. */
  lemma {:induction false} UnfilledTokensAreTheText(text: string)
    ensures Fill(Tokens(text), map[]) == text
    decreases |text|
  {
    if text != [] {
      if HoleAt(text).Some? {
        HoleIsWritten(text);
        var rest := text[|HoleAt(text).value| + 2..];
        UnfilledTokensAreTheText(rest);
        assert Tokens(text)[1..] == Tokens(rest);
      } else {
        UnfilledTokensAreTheText(text[1..]);
        assert Tokens(text)[1..] == Tokens(text[1..]);
      }
    }
  }

  lemma {:induction false} NoBraceNoHole(text: string, params: map<string, string>)
    requires '{' !in text
    ensures Fill(Tokens(text), params) == text
  {
    if text != [] {
      NoBraceNoHole(text[1..], params);
      assert Tokens(text)[1..] == Tokens(text[1..]);
    }
  }

  /** The short cut is only a short cut: interpolation is always filling the tokens. */
  lemma {:induction false} InterpolateFillsTheTokens(text: string, params: map<string, string>)
    ensures Interpolate(text, params) == Fill(Tokens(text), params)
  {
    if params == map[] {
      UnfilledTokensAreTheText(text);
    } else if '{' !in text {
      NoBraceNoHole(text, params);
    }
  }

  // ----- Tokens of a concatenation

  /** A text that no placeholder begun before it can run into. */
  predicate Breaks(text: string) {
    text == [] || (!IsWord(text[0]) && text[0] != '}')
  }

  lemma {:induction false} WordStopsAtBreak(a: string, b: string)
    requires Breaks(b)
    ensures Word(a + b) == Word(a)
  {
    if a == [] {
      assert a + b == b;
    } else if IsWord(a[0]) {
      assert (a + b)[1..] == a[1..] + b;
      WordStopsAtBreak(a[1..], b);
    }
  }

  lemma {:induction false} HoleStopsAtBreak(a: string, b: string)
    requires a != [] && Breaks(b)
    ensures HoleAt(a + b) == HoleAt(a)
  {
    assert (a + b)[1..] == a[1..] + b;
    WordStopsAtBreak(a[1..], b);
    WordIsAPrefix(a[1..]);
  }

  /** The first token and how many characters it takes. */
  function First(text: string): (Token, nat)
    requires text != []
  {
    if HoleAt(text).Some? then (Hole(HoleAt(text).value), |HoleAt(text).value| + 2) else (Literal(text[0]), 1)
  }

  lemma {:induction false} TokensFromTheFirst(text: string)
    requires text != []
    ensures First(text).1 <= |text| && Tokens(text) == [First(text).0] + Tokens(text[First(text).1..])
  {
    if HoleAt(text).Some? {
      HoleIsWritten(text);
    }
  }

  lemma {:induction false} FirstStopsAtBreak(a: string, b: string)
    requires a != [] && Breaks(b)
    ensures a + b != [] && First(a + b) == First(a)
  {
    HoleStopsAtBreak(a, b);
  }

  lemma {:induction false} TokensOfConcat(a: string, b: string)
    requires Breaks(b)
    ensures Tokens(a + b) == Tokens(a) + Tokens(b)
    decreases |a|
  {
    if a == [] {
      assert a + b == b;
    } else {
      var t, n := SameFirstToken(a, b);
      TokensOfConcat(a[n..], b);
      Regroup([t], Tokens(a[n..]), Tokens(b));
    }
  }

  lemma {:induction false} SameFirstToken(a: string, b: string) returns (t: Token, n: nat)
    requires a != [] && Breaks(b)
    ensures 0 < n <= |a|
    ensures Tokens(a) == [t] + Tokens(a[n..]) && Tokens(a + b) == [t] + Tokens(a[n..] + b)
  {
    TokensFromTheFirst(a);
    t, n := First(a).0, First(a).1;
    RestOfConcat(a, b, t, n);
  }

  lemma {:induction false} RestOfConcat(a: string, b: string, t: Token, n: nat)
    requires a != [] && Breaks(b) && First(a) == (t, n) && n <= |a|
    ensures Tokens(a + b) == [t] + Tokens(a[n..] + b)
  {
    FirstStopsAtBreak(a, b);
    TokensFromTheFirst(a + b);
    assert (a + b)[n..] == a[n..] + b;
  }

  lemma {:induction false} Regroup(x: seq<Token>, y: seq<Token>, z: seq<Token>)
    ensures x + (y + z) == (x + y) + z
  {
  }

  predicate IsName(name: string) {
    name != [] && IsStart(name[0]) && forall i :: 0 <= i < |name| ==> IsWord(name[i])
  }

  lemma {:induction false} WordOfName(name: string, rest: string)
    requires (forall i :: 0 <= i < |name| ==> IsWord(name[i])) && rest != [] && !IsWord(rest[0])
    ensures Word(name + rest) == name
  {
    if name == [] {
      assert name + rest == rest;
    } else {
      assert (name + rest)[1..] == name[1..] + rest;
      WordOfName(name[1..], rest);
    }
  }

  lemma {:induction false} TokensOfHole(name: string, rest: string)
    requires IsName(name)
    ensures Tokens(Braced(name) + rest) == [Hole(name)] + Tokens(rest)
  {
    var text := Braced(name) + rest;
    assert text[1..] == name + (['}'] + rest);
    WordOfName(name, ['}'] + rest);
    assert HoleAt(text) == Some(name);
    assert text[|name| + 2..] == rest;
  }

  lemma {:induction false} FillOfConcat(a: seq<Token>, b: seq<Token>, params: map<string, string>)
    ensures Fill(a + b, params) == Fill(a, params) + Fill(b, params)
  {
    if a == [] {
      assert a + b == b;
    } else {
      assert (a + b)[1..] == a[1..] + b;
      FillOfConcat(a[1..], b, params);
    }
  }

  lemma {:induction false} FillHoleFirst(name: string, rest: seq<Token>, params: map<string, string>)
    ensures Fill([Hole(name)] + rest, params) == FillOne(Hole(name), params) + Fill(rest, params)
  {
    assert ([Hole(name)] + rest)[1..] == rest;
  }

  /**
   A placeholder is replaced by its value, or stays when it has none, and what stands around it is filled on its own:
   the value is never scanned again, whatever braces it contains, and no match straddles it.
   */
  lemma {:induction false} ValuesAreNeverRescanned(before: string, name: string, after: string, params: map<string, string>)
    requires IsName(name)
    ensures Interpolate(before + (Braced(name) + after), params)
         == Interpolate(before, params) + ((if name in params then params[name] else "{" + name + "}") + Interpolate(after, params))
  {
    InterpolateFillsTheTokens(before + (Braced(name) + after), params);
    InterpolateFillsTheTokens(before, params);
    InterpolateFillsTheTokens(after, params);
    TokensOfConcat(before, Braced(name) + after);
    TokensOfHole(name, after);
    FillOfConcat(Tokens(before), [Hole(name)] + Tokens(after), params);
    FillHoleFirst(name, Tokens(after), params);
  }

  /** The placeholder of this name is written in the text at position `i`. */
  ghost predicate WrittenAt(text: string, i: nat, name: string) {
    IsName(name) && i + |name| + 2 <= |text| && text[i..i + |name| + 2] == "{" + name + "}"
  }

  lemma {:induction false} HoleIsAName(text: string)
    requires HoleAt(text).Some?
    ensures WrittenAt(text, 0, HoleAt(text).value)
  {
    WordIsAPrefix(text[1..]);
    HoleIsWritten(text);
    assert text[..|HoleAt(text).value| + 2] == Braced(HoleAt(text).value);
  }

  lemma {:induction false} WrittenHoleIsRead(text: string, name: string)
    requires WrittenAt(text, 0, name)
    ensures HoleAt(text) == Some(name)
  {
    var rest := text[|name| + 2..];
    assert text == Braced(name) + rest;
    assert text[1..] == name + (['}'] + rest);
    WordOfName(name, ['}'] + rest);
  }

  lemma {:induction false} WrittenBehind(text: string, n: nat, i: nat, name: string)
    requires n <= i <= |text|
    ensures WrittenAt(text, i, name) <==> WrittenAt(text[n..], i - n, name)
  {
    if i + |name| + 2 <= |text| {
      assert text[n..][i - n..i - n + |name| + 2] == text[i..i + |name| + 2];
    }
  }

  /** Inside a placeholder no other begins. */
  lemma {:induction false} NothingInsideAHole(text: string, i: nat, name: string)
    requires HoleAt(text).Some? && WrittenAt(text, i, name) && i < |HoleAt(text).value| + 2
    ensures i == 0 && name == HoleAt(text).value
  {
    OpensWithABrace(text, i, name);
    if i > 0 {
      NoBraceInsideAHole(text, i);
    } else {
      WrittenHoleIsRead(text, name);
    }
  }

  lemma {:induction false} OpensWithABrace(text: string, i: nat, name: string)
    requires WrittenAt(text, i, name)
    ensures text[i] == '{'
  {
    assert text[i..i + |name| + 2][0] == '{';
  }

  lemma {:induction false} NoBraceInsideAHole(text: string, i: nat)
    requires HoleAt(text).Some? && 0 < i < |HoleAt(text).value| + 2
    ensures i < |text| && text[i] != '{'
  {
    var hole := HoleAt(text).value;
    HoleIsAName(text);
    assert text[i] == text[0..|hole| + 2][i] == if i <= |hole| then hole[i - 1] else '}';
  }

  /** The placeholders of a text are exactly those written in it, wherever they stand. */
  lemma {:induction false} NamesAreTheWrittenOnes(text: string, name: string)
    ensures name in Names(text) <==> exists i: nat :: WrittenAt(text, i, name)
    decreases |text|
  {
    if text != [] {
      var t, n := First(text).0, First(text).1;
      TokensFromTheFirst(text);
      NamesAreTheWrittenOnes(text[n..], name);
      NamesFromTheFirst(text, t, n, name);
      if HoleAt(text).Some? {
        HoleIsAName(text);
      }
      if i: nat :| WrittenAt(text, i, name) {
        WrittenInTheFirstOrBehind(text, i, name);
      }
      if i: nat :| WrittenAt(text[n..], i, name) {
        WrittenBehind(text, n, i + n, name);
      }
    }
  }

  lemma {:induction false} NamesFromTheFirst(text: string, t: Token, n: nat, name: string)
    requires n <= |text| && Tokens(text) == [t] + Tokens(text[n..])
    ensures name in Names(text) <==> t == Hole(name) || name in Names(text[n..])
  {
    if name in Names(text) {
      var u :| u in Tokens(text) && u.Hole? && u.name == name;
      assert u == t || u in Tokens(text[n..]);
    }
    assert t == Hole(name) ==> t in Tokens(text);
    if name in Names(text[n..]) {
      var u :| u in Tokens(text[n..]) && u.Hole? && u.name == name;
      assert u in Tokens(text);
    }
  }

  lemma {:induction false} WrittenInTheFirstOrBehind(text: string, i: nat, name: string)
    requires text != [] && WrittenAt(text, i, name)
    ensures First(text).0 == Hole(name) || (First(text).1 <= i && WrittenAt(text[First(text).1..], i - First(text).1, name))
  {
    if i < First(text).1 {
      if HoleAt(text).Some? {
        NothingInsideAHole(text, i, name);
      } else {
        WrittenHoleIsRead(text, name);
      }
    } else {
      WrittenBehind(text, First(text).1, i, name);
    }
  }

  /** A text in which no placeholder is written is left as it is. */
  lemma {:induction false} NothingWrittenNothingFilled(text: string, params: map<string, string>)
    requires forall name, i: nat :: !WrittenAt(text, i, name)
    ensures Interpolate(text, params) == text
  {
    forall name ensures name !in Names(text) {
      NamesAreTheWrittenOnes(text, name);
    }
    assert NamesIn(Tokens(text)) == Names(text) == {};
    InterpolateFillsTheTokens(text, params);
    InterpolateFillsTheTokens(text, map[]);
    MoreParametersChangeNothing(Tokens(text), map[], params);
    assert map[] + params == params;
  }

  // ----- Names of a concatenation

  lemma {:induction false} NamesOfJoined(one: string, other: string)
    ensures Names(one + (['|'] + other)) == Names(one) + Names(other)
  {
    TokensOfConcat(one, ['|'] + other);
    assert (['|'] + other)[1..] == other;
    assert Tokens(['|'] + other) == [Literal('|')] + Tokens(other);
  }

  // ----- What it means to leave nothing unfilled

  lemma {:induction false} MoreParametersChangeNothing(tokens: seq<Token>, params: map<string, string>, more: map<string, string>)
    requires NamesIn(tokens) <= params.Keys && more.Keys !! params.Keys
    ensures Fill(tokens, params + more) == Fill(tokens, params)
  {
    if tokens != [] {
      assert tokens[0] in tokens;
      assert tokens[0].Hole? ==> tokens[0].name in NamesIn(tokens);
      assert NamesIn(tokens[1..]) <= NamesIn(tokens);
      MoreParametersChangeNothing(tokens[1..], params, more);
    }
  }

  lemma {:induction false} EmptyValueShortens(tokens: seq<Token>, params: map<string, string>, name: string)
    requires name !in params
    ensures |Fill(tokens, params + map[name := ""])| <= |Fill(tokens, params)|
    ensures Hole(name) in tokens ==> |Fill(tokens, params + map[name := ""])| < |Fill(tokens, params)|
  {
    if tokens != [] {
      EmptyValueShortens(tokens[1..], params, name);
      assert Hole(name) in tokens ==> tokens[0] == Hole(name) || Hole(name) in tokens[1..];
    }
  }

  /**
   The parameters cover a text's placeholders exactly when nothing is left to fill: no further parameter,
   of any name and value, could change what the text renders to.
   */
  lemma {:induction false} CoveredIffNothingLeftToFill(text: string, params: map<string, string>)
    ensures Names(text) <= params.Keys <==>
            forall more: map<string, string> :: more.Keys !! params.Keys ==> Interpolate(text, params + more) == Interpolate(text, params)
  {
    InterpolateFillsTheTokens(text, params);
    if Names(text) <= params.Keys {
      forall more: map<string, string> | more.Keys !! params.Keys ensures Interpolate(text, params + more) == Interpolate(text, params) {
        InterpolateFillsTheTokens(text, params + more);
        MoreParametersChangeNothing(Tokens(text), params, more);
      }
    } else {
      var name :| name in Names(text) && name !in params;
      var more: map<string, string> := map[name := ""];
      InterpolateFillsTheTokens(text, params + more);
      EmptyValueShortens(Tokens(text), params, name);
      assert more.Keys !! params.Keys && Interpolate(text, params + more) != Interpolate(text, params);
    }
  }
}
