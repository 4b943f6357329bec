/**
 The JSON inlined in a `<script>` element: five replacements made one after the other over the whole text
 (app/i18n.py), and what a JSON reader makes of the result (strings as in section 7 of RFC 8259).
 */
module InlineJson {
  import opened Options
  import opened LiteralParser

  /** The characters that must not appear inside the element. */
  predicate Affected(c: char) {
    c == '<' || c == '>' || c == '&' || c == '\U{2028}' || c == '\U{2029}'
  }

  lemma {:induction false} AffectedByCode(c: char)
    ensures Affected(c) <==> c as int in [0x26, 0x3C, 0x3E, 0x2028, 0x2029]
  {
  }

  /** `text.replace(c, escape)` for a single character. */
  function Replace(text: string, c: char, escape: string): string {
    if text == [] then [] else (if text[0] == c then escape else [text[0]]) + Replace(text[1..], c, escape)
  }

  /** The escape that stands for each affected character; any other character stands for itself. */
  function EscapeOne(c: char): string {
    if c == '<' then UnicodeEscape('0', '0', '3', 'c')
    else if c == '>' then UnicodeEscape('0', '0', '3', 'e')
    else if c == '&' then UnicodeEscape('0', '0', '2', '6')
    else if c == '\U{2028}' then UnicodeEscape('2', '0', '2', '8')
    else if c == '\U{2029}' then UnicodeEscape('2', '0', '2', '9')
    else [c]
  }

  function UnicodeEscape(a: char, b: char, c: char, d: char): string {
    ['\\', 'u', a, b, c, d]
  }

  function Pass(text: string, c: char): string {
    Replace(text, c, EscapeOne(c))
  }

  /** The five replacements of `i18n_bootstrap`, in their order. */
  function Inlined(text: string): string {
    Pass(Pass(Pass(Pass(Pass(text, '<'), '>'), '&'), '\U{2028}'), '\U{2029}')
  }

  // ----- One pass instead of five

  function EscapeAll(text: string): string {
    if text == [] then [] else EscapeOne(text[0]) + EscapeAll(text[1..])
  }

  lemma {:induction false} ReplaceConcat(a: string, b: string, c: char, escape: string)
    ensures Replace(a + b, c, escape) == Replace(a, c, escape) + Replace(b, c, escape)
  {
    if a == [] {
      assert a + b == b;
    } else {
      assert (a + b)[1..] == a[1..] + b;
      ReplaceConcat(a[1..], b, c, escape);
    }
  }

  lemma {:induction false} ReplaceAbsent(text: string, c: char, escape: string)
    requires c !in text
    ensures Replace(text, c, escape) == text
  {
    if text != [] {
      ReplaceAbsent(text[1..], c, escape);
    }
  }

  lemma {:induction false} InlinedConcat(a: string, b: string)
    ensures Inlined(a + b) == Inlined(a) + Inlined(b)
  {
    ReplaceConcat(a, b, '<', EscapeOne('<'));
    var a1, b1 := Pass(a, '<'), Pass(b, '<');
    ReplaceConcat(a1, b1, '>', EscapeOne('>'));
    var a2, b2 := Pass(a1, '>'), Pass(b1, '>');
    ReplaceConcat(a2, b2, '&', EscapeOne('&'));
    var a3, b3 := Pass(a2, '&'), Pass(b2, '&');
    ReplaceConcat(a3, b3, '\U{2028}', EscapeOne('\U{2028}'));
    var a4, b4 := Pass(a3, '\U{2028}'), Pass(b3, '\U{2028}');
    ReplaceConcat(a4, b4, '\U{2029}', EscapeOne('\U{2029}'));
  }

  /** What a pass does to a character, before or after its own pass. */
  lemma {:induction false} PassOnOne(c: char, t: string, d: char)
    requires Affected(d) && (t == [c] || t == EscapeOne(c))
    ensures Pass(t, d) == if c == d && t == [c] then EscapeOne(c) else t
  {
    if t == [c] {
      assert t[1..] == [];
      assert Pass(t, d) == (if c == d then EscapeOne(d) else [c]) + Replace([], d, EscapeOne(d));
    } else {
      ReplaceAbsent(t, d, EscapeOne(d));
    }
  }

  lemma {:induction false} InlinedSingle(c: char)
    ensures Inlined([c]) == EscapeOne(c)
  {
    PassOnOne(c, [c], '<');
    var t1 := Pass([c], '<');
    PassOnOne(c, t1, '>');
    var t2 := Pass(t1, '>');
    PassOnOne(c, t2, '&');
    var t3 := Pass(t2, '&');
    PassOnOne(c, t3, '\U{2028}');
    PassOnOne(c, Pass(t3, '\U{2028}'), '\U{2029}');
  }

  /** No replacement disturbs another: the five passes are one character-wise pass. */
  lemma {:induction false} FivePassesAreOne(text: string)
    ensures Inlined(text) == EscapeAll(text)
  {
    if text != [] {
      assert text == [text[0]] + text[1..];
      InlinedConcat([text[0]], text[1..]);
      InlinedSingle(text[0]);
      FivePassesAreOne(text[1..]);
    }
  }

  /** Nothing that could end or open markup is left, nor a raw line separator. */
  lemma {:induction false} NothingAffectedIsLeft(text: string)
    ensures forall c :: c in Inlined(text) ==> c as int !in [0x26, 0x3C, 0x3E, 0x2028, 0x2029]
  {
    FivePassesAreOne(text);
    NothingAffectedInOnePass(text);
  }

  lemma {:induction false} NothingAffectedInOnePass(text: string)
    ensures forall c :: c in EscapeAll(text) ==> !Affected(c)
  {
    if text != [] {
      NothingAffectedInOnePass(text[1..]);
      assert forall c :: c in EscapeOne(text[0]) ==> !Affected(c);
    }
  }

  // ----- What a JSON reader sees

  /** One element per raw character or escape of a string; pairing surrogate escapes works on this list. */
  type Units = seq<nat>

  datatype StringRead = BadString | StringRead(units: Units, rest: string)

  function SimpleEscape(c: char): Option<nat> {
    if c == '"' || c == '\\' || c == '/' then Some(c as int)
    else if c == 'b' then Some(8)
    else if c == 'f' then Some(12)
    else if c == 'n' then Some(10)
    else if c == 'r' then Some(13)
    else if c == 't' then Some(9)
    else None
  }

  function WithUnit(u: nat, r: StringRead): StringRead {
    if r.BadString? then r else StringRead([u] + r.units, r.rest)
  }

  /** The rest of a string after its opening quote. */
  function ReadString(s: string): (r: StringRead)
    ensures r.StringRead? ==> |r.rest| < |s|
    decreases |s|
  {
    if s == [] then BadString
    else if s[0] == '"' then StringRead([], s[1..])
    else if s[0] == '\\' then
      if |s| < 2 then BadString
      else if SimpleEscape(s[1]).Some? then WithUnit(SimpleEscape(s[1]).value, ReadString(s[2..]))
      else if s[1] == 'u' && 6 <= |s| && AllHex(s[2..6]) then WithUnit(HexValue(s[2..6]), ReadString(s[6..]))
      else BadString
    else if s[0] < ' ' then BadString
    else WithUnit(s[0] as int, ReadString(s[1..]))
  }

  /** One raw character of a string, in the numbers of section 7 of RFC 8259. */
  lemma {:induction false} ReadsRawCharacter(c: char, rest: string)
    ensures c as int == 34 ==> ReadString([c] + rest) == StringRead([], rest)
    ensures c as int < 32 ==> ReadString([c] + rest) == BadString
    ensures 32 <= c as int && c as int != 34 && c as int != 92 ==> ReadString([c] + rest) == WithUnit(c as int, ReadString(rest))
  {
    assert ([c] + rest)[1..] == rest;
  }

  /** The short escapes of the same section; no other character but `u` may stand behind a backslash. */
  lemma {:induction false} ShortEscapesByCode(c: char)
    ensures SimpleEscape(c) ==
            match c as int {
              case 34 => Some(34) case 92 => Some(92) case 47 => Some(47)
              case 98 => Some(8) case 102 => Some(12) case 110 => Some(10) case 114 => Some(13) case 116 => Some(9)
              case _ => None
            }
  {
  }

  lemma {:induction false} ReadsShortEscape(c: char, rest: string)
    requires c != 'u'
    ensures ReadString(['\\', c] + rest) == if SimpleEscape(c).Some? then WithUnit(SimpleEscape(c).value, ReadString(rest)) else BadString
  {
    assert (['\\', c] + rest)[2..] == rest;
  }

  lemma {:induction false} ReadsUnicodeEscape(d: string, rest: string)
    requires |d| == 4 && AllHex(d)
    ensures ReadString(['\\', 'u'] + d + rest) == WithUnit(HexValue(d), ReadString(rest))
  {
    var s := ['\\', 'u'] + d + rest;
    assert s[2..6] == d && s[6..] == rest;
  }

  datatype Token = Raw(c: char) | Text(units: Units)

  datatype Lexed = BadText | Lexed(tokens: seq<Token>)

  function WithToken(t: Token, r: Lexed): Lexed {
    if r.BadText? then r else Lexed([t] + r.tokens)
  }

  /** The characters outside strings and the decoded strings, in order: they determine the JSON value. */
  function Lex(s: string): Lexed
    decreases |s|
  {
    if s == [] then Lexed([])
    else if s[0] == '"' then
      var r := ReadString(s[1..]);
      if r.BadString? then BadText else WithToken(Text(r.units), Lex(r.rest))
    else WithToken(Token.Raw(s[0]), Lex(s[1..]))
  }

  predicate PlainText(s: string) {
    forall i :: 0 <= i < |s| ==> 32 <= s[i] as int && s[i] as int != 34 && s[i] as int != 92
  }

  function Codes(s: string): Units {
    if s == [] then [] else [s[0] as int] + Codes(s[1..])
  }

  /** A string of ordinary characters reads as their codes. */
  lemma {:induction false} ReadsPlainText(s: string, rest: string)
    requires PlainText(s)
    ensures ReadString(s + (['"'] + rest)) == StringRead(Codes(s), rest)
  {
    if s == [] {
      assert s + (['"'] + rest) == ['"'] + rest;
      ReadsRawCharacter('"', rest);
    } else {
      assert s + (['"'] + rest) == [s[0]] + (s[1..] + (['"'] + rest));
      ReadsPlainText(s[1..], rest);
      ReadsRawCharacter(s[0], s[1..] + (['"'] + rest));
    }
  }

  /** What a JSON text is taken for: a quoted string for its codes, any other character for itself, and then the rest. */
  lemma {:induction false} LexesInOrder(s: string, c: char, rest: string, tokens: seq<Token>)
    requires PlainText(s) && c as int != 34 && Lex(rest) == Lexed(tokens)
    ensures Lex(['"'] + (s + (['"'] + rest))) == Lexed([Text(Codes(s))] + tokens)
    ensures Lex([c] + rest) == Lexed([Token.Raw(c)] + tokens)
    ensures Lex([]) == Lexed([])
  {
    ReadsPlainText(s, rest);
    assert (['"'] + (s + (['"'] + rest)))[1..] == s + (['"'] + rest);
    assert ([c] + rest)[1..] == rest;
  }

  lemma {:induction false} EscapeConcat(a: string, b: string)
    ensures EscapeAll(a + b) == EscapeAll(a) + EscapeAll(b)
  {
    if a == [] {
      assert a + b == b;
    } else {
      assert (a + b)[1..] == a[1..] + b;
      EscapeConcat(a[1..], b);
    }
  }

  lemma {:induction false} EscapeUntouched(a: string)
    requires forall i :: 0 <= i < |a| ==> !Affected(a[i])
    ensures EscapeAll(a) == a
  {
    if a != [] {
      EscapeUntouched(a[1..]);
    }
  }

  /** A prefix with no affected character is copied. */
  lemma {:induction false} EscapeKeepsPrefix(s: string, n: nat)
    requires n <= |s| && forall i :: 0 <= i < n ==> !Affected(s[i])
    ensures EscapeAll(s) == s[..n] + EscapeAll(s[n..])
  {
    assert s == s[..n] + s[n..];
    EscapeConcat(s[..n], s[n..]);
    EscapeUntouched(s[..n]);
  }

  lemma {:induction false} FourDigits(a: char, b: char, c: char, d: char)
    requires IsHex(a) && IsHex(b) && IsHex(c) && IsHex(d)
    ensures AllHex([a, b, c, d])
    ensures HexValue([a, b, c, d]) == 4096 * HexDigit(a) + 256 * HexDigit(b) + 16 * HexDigit(c) + HexDigit(d)
  {
    var s := [a, b, c, d];
    assert s[..3] == [a, b, c] && [a, b, c][..2] == [a, b] && [a, b][..1] == [a] && [a][..0] == [];
    assert HexValue([a]) == HexDigit(a);
    assert HexValue([a, b]) == 16 * HexDigit(a) + HexDigit(b);
    assert HexValue([a, b, c]) == 16 * HexValue([a, b]) + HexDigit(c);
  }

  /** The escape written for an affected character reads back as that character. */
  lemma {:induction false} EscapeReadsBack(c: char, rest: string)
    requires Affected(c)
    ensures ReadString(EscapeOne(c) + rest) == WithUnit(c as int, ReadString(rest))
  {
    var e := EscapeOne(c);
    var s := e + rest;
    assert s[2..6] == [e[2], e[3], e[4], e[5]] && s[6..] == rest && s[0] == '\\' && s[1] == 'u';
    FourDigits(e[2], e[3], e[4], e[5]);
  }

  lemma {:induction false} EscapedStringReadsTheSame(s: string)
    requires ReadString(s).StringRead?
    ensures ReadString(EscapeAll(s)) == StringRead(ReadString(s).units, EscapeAll(ReadString(s).rest))
    decreases |s|
  {
    if s[0] == '"' {
      EscapeKeepsPrefix(s, 1);
      assert (s[..1] + EscapeAll(s[1..]))[1..] == EscapeAll(s[1..]);
    } else if s[0] == '\\' {
      var n := if SimpleEscape(s[1]).Some? then 2 else 6;
      EscapedStringReadsTheSame(s[n..]);
      EscapedEscape(s, n);
    } else {
      EscapedStringReadsTheSame(s[1..]);
      if Affected(s[0]) {
        EscapeReadsBack(s[0], EscapeAll(s[1..]));
      } else {
        assert EscapeAll(s) == [s[0]] + EscapeAll(s[1..]);
        assert ([s[0]] + EscapeAll(s[1..]))[1..] == EscapeAll(s[1..]);
      }
    }
  }

  /** An escape that was in the text already is copied and read as before. */
  lemma {:induction false} EscapedEscape(s: string, n: nat)
    requires ReadString(s).StringRead? && s[0] == '\\' && n == if SimpleEscape(s[1]).Some? then 2 else 6
    ensures n <= |s|
    ensures var unit := if n == 2 then SimpleEscape(s[1]).value else HexValue(s[2..6]);
            ReadString(EscapeAll(s)) == WithUnit(unit, ReadString(EscapeAll(s[n..])))
  {
    if n == 6 {
      assert forall i :: 2 <= i < 6 ==> s[i] == s[2..6][i - 2];
    }
    EscapeKeepsPrefix(s, n);
    var t := s[..n] + EscapeAll(s[n..]);
    assert t[n..] == EscapeAll(s[n..]) && t[0] == s[0] && t[1] == s[1];
    if n == 6 {
      assert t[2..6] == s[2..6];
    }
  }

  /** The affected characters lie only inside strings. */
  predicate OnlyInStrings(text: string) {
    Lex(text).Lexed? && forall t :: t in Lex(text).tokens && t.Raw? ==> !Affected(t.c)
  }

  /**
   Inlining preserves meaning exactly when it can: a JSON text reads, after the five replacements, as the same
   characters and strings in the same order if and only if its affected characters lie only inside strings.
   */
  lemma {:induction false} InliningPreservesMeaningIff(text: string)
    requires Lex(text).Lexed?
    ensures Lex(Inlined(text)) == Lex(text) <==> OnlyInStrings(text)
  {
    FivePassesAreOne(text);
    OnePassPreservesMeaningIff(text);
  }

  lemma {:induction false} OnePassPreservesMeaningIff(text: string)
    requires Lex(text).Lexed?
    ensures Lex(EscapeAll(text)) == Lex(text) <==> OnlyInStrings(text)
    decreases |text|
  {
    if text != [] {
      if Affected(text[0]) {
        AffectedCharacterIsLost(text);
      } else if text[0] == '"' {
        StringThenRest(text);
        OnePassPreservesMeaningIff(ReadString(text[1..]).rest);
      } else {
        CharacterThenRest(text);
        OnePassPreservesMeaningIff(text[1..]);
      }
    }
  }

  /** A raw affected character comes back as the backslash of its escape. */
  lemma {:induction false} AffectedCharacterIsLost(text: string)
    requires text != [] && Affected(text[0]) && Lex(text).Lexed?
    ensures Lex(EscapeAll(text)) != Lex(text) && !OnlyInStrings(text)
  {
    assert EscapeAll(text)[0] == '\\';
    assert Lex(text).tokens[0] == Token.Raw(text[0]) && Token.Raw(text[0]) in Lex(text).tokens;
    assert Lex(EscapeAll(text)).Lexed? ==> Lex(EscapeAll(text)).tokens[0] == Token.Raw('\\');
  }

  /** A first token that stays the same leaves the question to the rest of the text. */
  lemma {:induction false} TokenThenRest(t: Token, whole: Lexed, rest: Lexed, escapedWhole: Lexed, escapedRest: Lexed)
    requires whole == WithToken(t, rest) && escapedWhole == WithToken(t, escapedRest)
    ensures escapedWhole == whole <==> escapedRest == rest
    ensures whole.Lexed? <==> rest.Lexed?
    ensures whole.Lexed? ==> forall u :: u in whole.tokens <==> u == t || u in rest.tokens
  {
    if whole.Lexed? && escapedWhole.Lexed? {
      assert whole.tokens[1..] == rest.tokens && escapedWhole.tokens[1..] == escapedRest.tokens;
    }
  }

  lemma {:induction false} StringThenRest(text: string)
    requires text != [] && text[0] == '"' && Lex(text).Lexed?
    ensures var rest := ReadString(text[1..]).rest;
            && |rest| < |text| && Lex(rest).Lexed?
            && (Lex(EscapeAll(text)) == Lex(text) <==> Lex(EscapeAll(rest)) == Lex(rest))
            && (OnlyInStrings(text) <==> OnlyInStrings(rest))
  {
    var r := ReadString(text[1..]);
    EscapedStringReadsTheSame(text[1..]);
    EscapeKeepsPrefix(text, 1);
    var t := text[..1] + EscapeAll(text[1..]);
    assert t[0] == '"' && t[1..] == EscapeAll(text[1..]);
    TokenThenRest(Text(r.units), Lex(text), Lex(r.rest), Lex(t), Lex(EscapeAll(r.rest)));
  }

  lemma {:induction false} CharacterThenRest(text: string)
    requires text != [] && text[0] != '"' && !Affected(text[0]) && Lex(text).Lexed?
    ensures Lex(text[1..]).Lexed?
    ensures Lex(EscapeAll(text)) == Lex(text) <==> Lex(EscapeAll(text[1..])) == Lex(text[1..])
    ensures OnlyInStrings(text) <==> OnlyInStrings(text[1..])
  {
    EscapeKeepsPrefix(text, 1);
    var t := text[..1] + EscapeAll(text[1..]);
    assert t[0] == text[0] && t[1..] == EscapeAll(text[1..]);
    TokenThenRest(Token.Raw(text[0]), Lex(text), Lex(text[1..]), Lex(t), Lex(EscapeAll(text[1..])));
  }
}
