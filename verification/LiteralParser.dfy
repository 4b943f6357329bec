/**
 The key extractor's reader of string literals and call arguments (scripts/i18n_check.py). Source text
 is read as Unicode scalar values; the values it yields are Python characters, so any code point below
 0x110000, surrogates included.
 */
module LiteralParser {

  type CodePoint = c: int | 0 <= c < 0x110000

  function Code(c: char): CodePoint {
    c as int
  }

  // ----- Hexadecimal digits

  predicate IsHex(c: char) {
    '0' <= c <= '9' || 'a' <= c <= 'f' || 'A' <= c <= 'F'
  }

  function HexDigit(c: char): (v: nat)
    requires IsHex(c)
    ensures v < 16
  {
    if c <= '9' then c as int - '0' as int else if c <= 'F' then c as int - 'A' as int + 10 else c as int - 'a' as int + 10
  }

  /** The characters of a hexadecimal number: a digit is worth its place in this table, in either case. */
  const LOWER_DIGITS := "0123456789abcdef"
  const UPPER_DIGITS := "0123456789ABCDEF"

  lemma {:induction false} HexDigitsAreTheTable(v: nat)
    requires v < 16
    ensures IsHex(LOWER_DIGITS[v]) && HexDigit(LOWER_DIGITS[v]) == v
    ensures IsHex(UPPER_DIGITS[v]) && HexDigit(UPPER_DIGITS[v]) == v
  {
  }

  lemma {:induction false} OnlyTheTableIsHex(c: char)
    requires IsHex(c)
    ensures c == LOWER_DIGITS[HexDigit(c)] || c == UPPER_DIGITS[HexDigit(c)]
  {
  }

  predicate AllHex(digits: string) {
    forall i :: 0 <= i < |digits| ==> IsHex(digits[i])
  }

  /** `int(digits, 16)`. */
  function HexValue(digits: string): nat
    requires AllHex(digits)
  {
    if digits == [] then 0 else 16 * HexValue(digits[..|digits| - 1]) + HexDigit(digits[|digits| - 1])
  }

  // ----- Escapes

  /** `_decode_hex_escape`: a decoded character, no hex escape here, or the ValueError of `chr`. */
  datatype Escape = NotHex | Decoded(value: CodePoint, end: nat) | OutOfRange

  /** The first position of `c` at or after `i`, or the end of the text. */
  function Find(text: string, c: char, i: nat): (at: nat)
    requires i <= |text|
    ensures i <= at <= |text|
    ensures at < |text| ==> text[at] == c
    ensures forall k :: i <= k < at ==> text[k] != c
    decreases |text| - i
  {
    if i == |text| || text[i] == c then i else Find(text, c, i + 1)
  }

  function DecodeHexEscape(text: string, i: nat): (r: Escape)
    requires i + 1 < |text|
    ensures r.Decoded? ==> i + 1 < r.end <= |text|
  {
    if text[i + 1] == 'x' then
      if i + 4 <= |text| && AllHex(text[i + 2..i + 4]) then
        TwoDigitsAreSmall(text[i + 2..i + 4]);
        Decoded(HexValue(text[i + 2..i + 4]), i + 4)
      else NotHex
    else if text[i + 1] != 'u' then NotHex
    else if i + 2 < |text| && text[i + 2] == '{' then
      var end := Find(text, '}', i + 3);
      var digits := if end < |text| then text[i + 3..end] else [];
      if digits == [] || 6 < |digits| || !AllHex(digits) then NotHex
      else if HexValue(digits) < 0x110000 then Decoded(HexValue(digits), end + 1)
      else OutOfRange
    else if i + 6 <= |text| && AllHex(text[i + 2..i + 6]) then
      FourDigitsAreSmall(text[i + 2..i + 6]);
      Decoded(HexValue(text[i + 2..i + 6]), i + 6)
    else NotHex
  }

  /** The short escapes; any other character stands for itself. */
  function ShortEscape(c: char): CodePoint {
    if c == 'n' then 10 else if c == 't' then 9 else if c == 'r' then 13 else Code(c)
  }

  function Power16(n: nat): nat {
    if n == 0 then 1 else 16 * Power16(n - 1)
  }

  lemma {:induction false} HexBound(digits: string)
    requires AllHex(digits)
    ensures HexValue(digits) < Power16(|digits|)
  {
    if digits != [] {
      HexBound(digits[..|digits| - 1]);
    }
  }

  lemma {:induction false} TwoDigitsAreSmall(digits: string)
    requires |digits| == 2 && AllHex(digits)
    ensures HexValue(digits) < 256
  {
    HexBound(digits);
    assert Power16(2) == 16 * Power16(1) == 256;
  }

  lemma {:induction false} FourDigitsAreSmall(digits: string)
    requires |digits| == 4 && AllHex(digits)
    ensures HexValue(digits) < 65536
  {
    HexBound(digits);
    assert Power16(2) == 16 * Power16(1) == 256;
    assert Power16(4) == 16 * Power16(3) == 256 * Power16(2);
  }

  // ----- Literals

  /** `None` in the source, a value with the index past it, or an exception. */
  datatype Literal = NoLiteral | Parsed(value: seq<CodePoint>, end: nat) | Raises

  function Prepend(head: seq<CodePoint>, rest: Literal): Literal {
    if rest.Parsed? then Parsed(head + rest.value, rest.end) else rest
  }

  /** The rest of a literal opened with `quote`, from position `i`. */
  function ParseBody(text: string, i: nat, quote: char): (r: Literal)
    requires i <= |text|
    ensures r.Parsed? ==> i < r.end <= |text|
    decreases |text| - i
  {
    if i == |text| then NoLiteral
    else if text[i] == '\\' && i + 1 < |text| then
      match DecodeHexEscape(text, i)
      case Decoded(value, end) => Prepend([value], ParseBody(text, end, quote))
      case OutOfRange => Raises
      case NotHex => Prepend([ShortEscape(text[i + 1])], ParseBody(text, i + 2, quote))
    else if text[i] == quote then Parsed([], i + 1)
    else if text[i] == '\n' then NoLiteral
    else Prepend([Code(text[i])], ParseBody(text, i + 1, quote))
  }

  predicate IsQuote(c: char) {
    c == '\'' || c == '"'
  }

  function ParseLiteral(text: string, index: nat): (r: Literal)
    ensures r.Parsed? ==> index + 1 < r.end <= |text|
  {
    if |text| <= index || !IsQuote(text[index]) then NoLiteral else ParseBody(text, index + 1, text[index])
  }

  lemma {:induction false} PrependTwice(a: seq<CodePoint>, b: seq<CodePoint>, rest: Literal)
    ensures Prepend(a + b, rest) == Prepend(a, Prepend(b, rest))
  {
    if rest.Parsed? {
      assert a + b + rest.value == a + (b + rest.value);
    }
  }

  /** `_parse_string_literal`. */
  method ParseStringLiteral(text: string, index: nat) returns (r: Literal)
    ensures r == ParseLiteral(text, index)
  {
    if |text| <= index || !IsQuote(text[index]) {
      return NoLiteral;
    }
    var quote := text[index];
    var out: seq<CodePoint> := [];
    var i := index + 1;
    while i < |text|
      invariant index < i <= |text|
      invariant ParseBody(text, index + 1, quote) == Prepend(out, ParseBody(text, i, quote))
    {
      var c := text[i];
      if c == '\\' && i + 1 < |text| {
        var decoded := DecodeHexEscape(text, i);
        if decoded.OutOfRange? {
          return Raises;
        }
        var value := if decoded.Decoded? then decoded.value else ShortEscape(text[i + 1]);
        var next := if decoded.Decoded? then decoded.end else i + 2;
        PrependTwice(out, [value], ParseBody(text, next, quote));
        out, i := out + [value], next;
      } else if c == quote {
        return Parsed(out, i + 1);
      } else if c == '\n' {
        return NoLiteral;
      } else {
        PrependTwice(out, [Code(c)], ParseBody(text, i + 1, quote));
        out, i := out + [Code(c)], i + 1;
      }
    }
    r := NoLiteral;
  }

  // ----- Every way to spell a character

  datatype Spelling =
    | Raw(c: char)
    | Short(c: char)
    | HexX(digits: string)
    | HexU(digits: string)
    | Brace(digits: string)

  predicate Valid(s: Spelling, quote: char) {
    match s
    case Raw(c) => c != '\\' && c != quote && c != '\n'
    case Short(c) => c != 'x' && c != 'u'
    case HexX(d) => |d| == 2 && AllHex(d)
    case HexU(d) => |d| == 4 && AllHex(d)
    case Brace(d) => 0 < |d| <= 6 && AllHex(d) && HexValue(d) < 0x110000
  }

  function Spelled(s: Spelling): string {
    match s
    case Raw(c) => [c]
    case Short(c) => ['\\', c]
    case HexX(d) => ['\\', 'x'] + d
    case HexU(d) => ['\\', 'u'] + d
    case Brace(d) => ['\\', 'u', '{'] + d + ['}']
  }

  function Meaning(s: Spelling, quote: char): CodePoint
    requires Valid(s, quote)
  {
    match s
    case Raw(c) => Code(c)
    case Short('n') => 10
    case Short('t') => 9
    case Short('r') => 13
    case Short(c) => Code(c)
    case HexX(d) => TwoDigitsAreSmall(d); HexValue(d)
    case HexU(d) => FourDigitsAreSmall(d); HexValue(d)
    case Brace(d) => HexValue(d)
  }

  ghost predicate AllValid(ss: seq<Spelling>, quote: char) {
    forall i :: 0 <= i < |ss| ==> Valid(ss[i], quote)
  }

  function SpelledAll(ss: seq<Spelling>): string {
    if ss == [] then [] else Spelled(ss[0]) + SpelledAll(ss[1..])
  }

  function Meanings(ss: seq<Spelling>, quote: char): seq<CodePoint>
    requires AllValid(ss, quote)
  {
    if ss == [] then [] else [Meaning(ss[0], quote)] + Meanings(ss[1..], quote)
  }

  /** `s` stands in `text` at position `i`. */
  ghost predicate At(text: string, i: nat, s: string) {
    i + |s| <= |text| && text[i..i + |s|] == s
  }

  lemma {:induction false} AtSplit(text: string, i: nat, a: string, b: string)
    requires At(text, i, a + b)
    ensures At(text, i, a) && At(text, i + |a|, b)
  {
    var s := text[i..i + |a + b|];
    assert s[..|a|] == a && s[|a|..] == b;
    assert text[i..i + |a|] == s[..|a|] && text[i + |a|..i + |a| + |b|] == s[|a|..];
  }

  lemma {:induction false} AtIndex(text: string, i: nat, s: string, k: nat)
    requires At(text, i, s) && k < |s|
    ensures text[i + k] == s[k]
  {
    assert text[i..i + |s|][k] == s[k];
  }

  /** Where the pieces of a braced escape stand: its digits, and the first closing brace right behind them. */
  lemma {:induction false} BracePieces(text: string, i: nat, d: string)
    requires At(text, i, ['\\', 'u', '{'] + d + ['}']) && AllHex(d)
    ensures i + 4 + |d| <= |text| && text[i + 1] == 'u' && text[i + 2] == '{'
    ensures Find(text, '}', i + 3) == i + 3 + |d| && text[i + 3..i + 3 + |d|] == d
  {
    var s := ['\\', 'u', '{'] + d + ['}'];
    AtIndex(text, i, s, 1);
    AtIndex(text, i, s, 2);
    AtIndex(text, i, s, 3 + |d|);
    AtSplit(text, i, ['\\', 'u', '{'] + d, ['}']);
    AtSplit(text, i, ['\\', 'u', '{'], d);
    forall k | i + 3 <= k < i + 3 + |d|
      ensures text[k] != '}'
    {
      AtIndex(text, i + 3, d, k - i - 3);
    }
  }

  lemma {:induction false} BraceIsDecoded(text: string, i: nat, d: string)
    requires At(text, i, ['\\', 'u', '{'] + d + ['}'])
    requires 0 < |d| <= 6 && AllHex(d)
    ensures i + 1 < |text|
    ensures DecodeHexEscape(text, i) == if HexValue(d) < 0x110000 then Decoded(HexValue(d), i + 4 + |d|) else OutOfRange
  {
    BracePieces(text, i, d);
  }

  lemma {:induction false} TwoDigitsAreDecoded(text: string, i: nat, d: string)
    requires At(text, i, ['\\', 'x'] + d) && |d| == 2 && AllHex(d)
    ensures i + 1 < |text|
    ensures var r := DecodeHexEscape(text, i); r.Decoded? && r.value == HexValue(d) && r.end == i + 4
  {
    AtIndex(text, i, ['\\', 'x'] + d, 1);
    AtSplit(text, i, ['\\', 'x'], d);
    assert text[i + 2..i + 4] == d;
  }

  lemma {:induction false} FourDigitsAreDecoded(text: string, i: nat, d: string)
    requires At(text, i, ['\\', 'u'] + d) && |d| == 4 && AllHex(d)
    ensures i + 1 < |text|
    ensures var r := DecodeHexEscape(text, i); r.Decoded? && r.value == HexValue(d) && r.end == i + 6
  {
    AtIndex(text, i, ['\\', 'u'] + d, 1);
    AtIndex(text, i, ['\\', 'u'] + d, 2);
    AtSplit(text, i, ['\\', 'u'], d);
    assert text[i + 2..i + 6] == d && IsHex(d[0]);
  }

  lemma {:induction false} ShortIsNotHex(text: string, i: nat, c: char)
    requires At(text, i, ['\\', c]) && c != 'x' && c != 'u'
    ensures i + 1 < |text| && text[i + 1] == c && DecodeHexEscape(text, i) == NotHex
  {
    AtIndex(text, i, ['\\', c], 1);
  }

  /** An escape that decodes is read as its value. */
  lemma {:induction false} ReadsDecoded(text: string, i: nat, end: nat, value: CodePoint, quote: char)
    requires i + 1 < |text| && text[i] == '\\' && DecodeHexEscape(text, i) == Decoded(value, end)
    ensures Reads(text, i, end, quote, [value])
  {
  }

  lemma {:induction false} ReadsRaw(text: string, i: nat, c: char, quote: char)
    requires At(text, i, [c]) && c != '\\' && c != quote && c != '\n'
    ensures Reads(text, i, i + 1, quote, [Code(c)])
  {
    AtIndex(text, i, [c], 0);
  }

  lemma {:induction false} ReadsShort(text: string, i: nat, c: char, quote: char)
    requires At(text, i, ['\\', c]) && c != 'x' && c != 'u'
    ensures Reads(text, i, i + 2, quote, [ShortEscape(c)])
  {
    ShortIsNotHex(text, i, c);
    AtIndex(text, i, ['\\', c], 0);
  }

  /** The short escapes in numbers: a line feed, a tab, a carriage return, and any other character for itself. */
  lemma {:induction false} ShortEscapesInNumbers(text: string, i: nat, c: char, quote: char)
    requires At(text, i, ['\\', c]) && c != 'x' && c != 'u'
    ensures c == 'n' ==> Reads(text, i, i + 2, quote, [10])
    ensures c == 't' ==> Reads(text, i, i + 2, quote, [9])
    ensures c == 'r' ==> Reads(text, i, i + 2, quote, [13])
    ensures c != 'n' && c != 't' && c != 'r' ==> Reads(text, i, i + 2, quote, [c as int])
  {
    ReadsShort(text, i, c, quote);
  }

  /** No hex escape of any of the three forms stands at `i`. */
  ghost predicate NoHexEscapeAt(text: string, i: nat) {
    && (forall d :: |d| == 2 && AllHex(d) ==> !At(text, i, ['\\', 'x'] + d))
    && (forall d :: |d| == 4 && AllHex(d) ==> !At(text, i, ['\\', 'u'] + d))
    && (forall d :: 0 < |d| <= 6 && AllHex(d) ==> !At(text, i, ['\\', 'u', '{'] + d + ['}']))
  }

  lemma {:induction false} AtJoined(text: string, i: nat, a: string, b: string)
    requires At(text, i, a) && At(text, i + |a|, b)
    ensures At(text, i, a + b)
  {
    assert text[i..i + |a + b|] == text[i..i + |a|] + text[i + |a|..i + |a| + |b|];
  }

  /** An `x` or `u` behind a backslash that starts no hex escape is read as that letter. */
  lemma {:induction false} BrokenHexIsTheLetter(text: string, i: nat, c: char, quote: char)
    requires (c == 'x' || c == 'u') && At(text, i, ['\\', c]) && NoHexEscapeAt(text, i)
    ensures Reads(text, i, i + 2, quote, [c as int])
  {
    AtIndex(text, i, ['\\', c], 0);
    AtIndex(text, i, ['\\', c], 1);
    BrokenHexIsNotHex(text, i, c);
  }

  /** The digits a fixed-width escape decodes stand behind its letter. */
  lemma {:induction false} DigitsStand(text: string, i: nat, head: string, end: nat)
    requires At(text, i, head) && i + |head| <= end <= |text|
    ensures At(text, i, head + text[i + |head|..end])
  {
    AtJoined(text, i, head, text[i + |head|..end]);
  }

  lemma {:induction false} BracedDigitsStand(text: string, i: nat, end: nat)
    requires At(text, i, ['\\', 'u']) && i + 2 < end < |text| && text[i + 2] == '{' && text[end] == '}'
    ensures At(text, i, ['\\', 'u', '{'] + text[i + 3..end] + ['}'])
  {
    AtJoined(text, i, ['\\', 'u'], ['{']);
    assert ['\\', 'u'] + ['{'] == ['\\', 'u', '{'];
    DigitsStand(text, i, ['\\', 'u', '{'], end);
    AtJoined(text, i, ['\\', 'u', '{'] + text[i + 3..end], ['}']);
  }

  lemma {:induction false} BrokenHexIsNotHex(text: string, i: nat, c: char)
    requires (c == 'x' || c == 'u') && i + 1 < |text| && text[i + 1] == c && At(text, i, ['\\', c]) && NoHexEscapeAt(text, i)
    ensures DecodeHexEscape(text, i) == NotHex
  {
    if c == 'x' {
      if i + 4 <= |text| {
        DigitsStand(text, i, ['\\', 'x'], i + 4);
      }
    } else if i + 2 < |text| && text[i + 2] == '{' {
      var end := Find(text, '}', i + 3);
      if end < |text| {
        BracedDigitsStand(text, i, end);
      }
    } else if i + 6 <= |text| {
      DigitsStand(text, i, ['\\', 'u'], i + 6);
    }
  }

  /** One spelled character is read as its meaning, and reading goes on right behind it. */
  lemma {:induction false} ReadsOneSpelling(text: string, i: nat, s: Spelling, quote: char, j: nat) returns (value: CodePoint)
    requires Valid(s, quote) && At(text, i, Spelled(s)) && IsQuote(quote) && j == i + |Spelled(s)|
    ensures value == Meaning(s, quote) && Reads(text, i, j, quote, [value])
  {
    value := Meaning(s, quote);
    AtIndex(text, i, Spelled(s), 0);
    match s
    case Raw(c) => ReadsRaw(text, i, c, quote);
    case Short(c) => ReadsShort(text, i, c, quote);
    case HexX(d) =>
      TwoDigitsAreDecoded(text, i, d);
      ReadsDecoded(text, i, j, value, quote);
    case HexU(d) =>
      FourDigitsAreDecoded(text, i, d);
      ReadsDecoded(text, i, j, value, quote);
    case Brace(d) =>
      BraceIsDecoded(text, i, d);
      ReadsDecoded(text, i, j, value, quote);
  }

  lemma {:induction false} Compose(p: Literal, q: Literal, r: Literal, a: seq<CodePoint>, b: seq<CodePoint>)
    requires p == Prepend(a, q) && q == Prepend(b, r)
    ensures p == Prepend(a + b, r)
  {
    PrependTwice(a, b, r);
  }

  /** Reading `text` from `i` yields these characters and then whatever reading from `j` yields. */
  ghost predicate Reads(text: string, i: nat, j: nat, quote: char, values: seq<CodePoint>) {
    i <= |text| && j <= |text| && ParseBody(text, i, quote) == Prepend(values, ParseBody(text, j, quote))
  }

  lemma {:induction false} ReadsNothing(text: string, i: nat, quote: char)
    requires i <= |text|
    ensures Reads(text, i, i, quote, [])
  {
  }

  lemma {:induction false} ReadsInTurn(text: string, i: nat, j: nat, k: nat, quote: char, a: seq<CodePoint>, b: seq<CodePoint>, all: seq<CodePoint>)
    requires Reads(text, i, j, quote, a) && Reads(text, j, k, quote, b) && all == a + b
    ensures Reads(text, i, k, quote, all)
  {
    Compose(ParseBody(text, i, quote), ParseBody(text, j, quote), ParseBody(text, k, quote), a, b);
  }

  lemma {:induction false} ReadsTheFirst(text: string, i: nat, ss: seq<Spelling>, quote: char) returns (j: nat, value: CodePoint)
    requires AllValid(ss, quote) && IsQuote(quote) && At(text, i, SpelledAll(ss)) && ss != []
    ensures Reads(text, i, j, quote, [value])
    ensures At(text, j, SpelledAll(ss[1..])) && j + |SpelledAll(ss[1..])| == i + |SpelledAll(ss)|
    ensures AllValid(ss[1..], quote) && Meanings(ss, quote) == [value] + Meanings(ss[1..], quote)
  {
    var first;
    j, first := FirstSpelled(text, i, ss);
    value := ReadsOneSpelling(text, i, first, quote, j);
    MeaningsFromTheFirst(ss, quote);
  }

  lemma {:induction false} FirstSpelled(text: string, i: nat, ss: seq<Spelling>) returns (j: nat, first: Spelling)
    requires At(text, i, SpelledAll(ss)) && ss != []
    ensures first == ss[0] && At(text, i, Spelled(first)) && j == i + |Spelled(first)|
    ensures At(text, j, SpelledAll(ss[1..])) && j + |SpelledAll(ss[1..])| == i + |SpelledAll(ss)|
  {
    first := ss[0];
    j := SplitBehind(text, i, SpelledAll(ss), Spelled(first), SpelledAll(ss[1..]));
  }

  /** Where the second part of a text that stands in two parts begins. */
  lemma {:induction false} SplitBehind(text: string, i: nat, whole: string, a: string, b: string) returns (j: nat)
    requires At(text, i, whole) && whole == a + b
    ensures j == i + |a| && At(text, i, a) && At(text, j, b) && j + |b| == i + |whole|
  {
    j := i + |a|;
    AtSplit(text, i, a, b);
  }

  lemma {:induction false} MeaningsFromTheFirst(ss: seq<Spelling>, quote: char)
    requires AllValid(ss, quote) && ss != []
    ensures Valid(ss[0], quote) && AllValid(ss[1..], quote)
    ensures Meanings(ss, quote) == [Meaning(ss[0], quote)] + Meanings(ss[1..], quote)
  {
  }

  /** Any number of spelled characters, one after the other. */
  lemma {:induction false} ReadsUpTo(text: string, i: nat, ss: seq<Spelling>, quote: char) returns (end: nat, values: seq<CodePoint>)
    requires AllValid(ss, quote) && IsQuote(quote) && At(text, i, SpelledAll(ss))
    ensures end == i + |SpelledAll(ss)| && values == Meanings(ss, quote) && Reads(text, i, end, quote, values)
    decreases |ss|
  {
    if ss == [] {
      end, values := i, [];
      ReadsNothing(text, i, quote);
    } else {
      var j, value := ReadsTheFirst(text, i, ss, quote);
      var rest;
      end, rest := ReadsUpTo(text, j, ss[1..], quote);
      values := [value] + rest;
      ReadsInTurn(text, i, j, end, quote, [value], rest, values);
    }
  }

  function Quoted(ss: seq<Spelling>, quote: char): string {
    [quote] + SpelledAll(ss) + [quote]
  }

  /**
   The parser inverts every spelling: wherever a quoted literal stands in a text, however each of its
   characters is written, the parser returns those characters and the index just past the closing quote.
   */
  lemma {:induction false} ParserInvertsEverySpelling(text: string, index: nat, ss: seq<Spelling>, quote: char)
    requires (quote == '\'' || quote == '"') && AllValid(ss, quote) && At(text, index, Quoted(ss, quote))
    ensures ParseLiteral(text, index) == Parsed(Meanings(ss, quote), index + |Quoted(ss, quote)|)
  {
    AtSplit(text, index, [quote] + SpelledAll(ss), [quote]);
    var end, values, rest := ReadsFromTheQuote(text, index, ss, quote);
    EndsAtTheQuote(text, end, quote);
    assert values + [] == values;
  }

  lemma {:induction false} EndsAtTheQuote(text: string, i: nat, quote: char)
    requires IsQuote(quote) && At(text, i, [quote])
    ensures i < |text| && ParseBody(text, i, quote) == Parsed([], i + 1)
  {
    AtIndex(text, i, [quote], 0);
  }

  /** From the opening quote on, a literal yields the spelled characters and then what is read behind them. */
  lemma {:induction false} ReadsFromTheQuote(text: string, index: nat, ss: seq<Spelling>, quote: char)
      returns (end: nat, values: seq<CodePoint>, rest: Literal)
    requires IsQuote(quote) && AllValid(ss, quote) && At(text, index, [quote] + SpelledAll(ss))
    ensures end == index + 1 + |SpelledAll(ss)| <= |text| && values == Meanings(ss, quote) && rest == ParseBody(text, end, quote)
    ensures ParseLiteral(text, index) == Prepend(values, rest)
  {
    OpensAtTheQuote(text, index, SpelledAll(ss), quote);
    end, values := ReadsUpTo(text, index + 1, ss, quote);
    rest := ParseBody(text, end, quote);
  }

  lemma {:induction false} OpensAtTheQuote(text: string, index: nat, written: string, quote: char)
    requires IsQuote(quote) && At(text, index, [quote] + written)
    ensures At(text, index + 1, written) && ParseLiteral(text, index) == ParseBody(text, index + 1, quote)
  {
    AtSplit(text, index, [quote], written);
    AtIndex(text, index, [quote], 0);
  }

  /** A braced escape above the last code point makes the extractor raise, whatever surrounds it. */
  lemma {:induction false} OutOfRangeEscapeRaises(text: string, index: nat, ss: seq<Spelling>, quote: char, digits: string)
    requires IsQuote(quote) && AllValid(ss, quote)
    requires 0 < |digits| <= 6 && AllHex(digits) && 0x110000 <= HexValue(digits)
    requires At(text, index, [quote] + SpelledAll(ss)) && At(text, index + 1 + |SpelledAll(ss)|, ['\\', 'u', '{'] + digits + ['}'])
    ensures ParseLiteral(text, index) == Raises
  {
    var whole := RaisesInTheEnd(text, index, ss, quote, index + 1 + |SpelledAll(ss)|, digits);
  }

  /** A text that does not start with a quote holds no literal there. */
  lemma {:induction false} NoQuoteNoLiteral(text: string, index: nat)
    ensures !At(text, index, ['\'']) && !At(text, index, ['"']) <==> |text| <= index || !IsQuote(text[index])
    ensures !At(text, index, ['\'']) && !At(text, index, ['"']) ==> ParseLiteral(text, index) == NoLiteral
  {
    if index < |text| {
      assert text[index..index + 1] == [text[index]];
    }
  }

  /** A literal that the text, or the line, ends in the middle of is none; a lone backslash at the end does not help. */
  lemma {:induction false} UnterminatedLiteralIsNone(text: string, index: nat, ss: seq<Spelling>, quote: char)
    requires (quote == '\'' || quote == '"') && AllValid(ss, quote) && At(text, index, [quote] + SpelledAll(ss))
    requires var end := index + 1 + |SpelledAll(ss)|;
             end == |text| || At(text, end, ['\n']) || (At(text, end, ['\\']) && end + 1 == |text|)
    ensures ParseLiteral(text, index) == NoLiteral
  {
    var end, values, rest := ReadsFromTheQuote(text, index, ss, quote);
    if end < |text| {
      AtIndex(text, end, if At(text, end, ['\n']) then ['\n'] else ['\\'], 0);
    }
  }

  lemma {:induction false} RaisesInTheEnd(text: string, index: nat, ss: seq<Spelling>, quote: char, at: nat, digits: string) returns (whole: Literal)
    requires IsQuote(quote) && AllValid(ss, quote)
    requires 0 < |digits| <= 6 && AllHex(digits) && 0x110000 <= HexValue(digits)
    requires At(text, index, [quote] + SpelledAll(ss)) && at == index + 1 + |SpelledAll(ss)|
    requires At(text, at, ['\\', 'u', '{'] + digits + ['}'])
    ensures whole == ParseLiteral(text, index) && whole.Raises?
  {
    BodyRaises(text, at, digits, quote);
    var end, values, rest := ReadsFromTheQuote(text, index, ss, quote);
    RestRaises(text, at, end, quote, rest);
    whole := Prepend(values, rest);
  }

  lemma {:induction false} RestRaises(text: string, at: nat, end: nat, quote: char, rest: Literal)
    requires at == end <= |text| && ParseBody(text, at, quote) == Raises && rest == ParseBody(text, end, quote)
    ensures rest == Raises
  {
  }

  lemma {:induction false} BodyRaises(text: string, i: nat, digits: string, quote: char)
    requires IsQuote(quote) && At(text, i, ['\\', 'u', '{'] + digits + ['}'])
    requires 0 < |digits| <= 6 && AllHex(digits) && 0x110000 <= HexValue(digits)
    ensures i <= |text| && ParseBody(text, i, quote) == Raises
  {
    BraceIsDecoded(text, i, digits);
    AtIndex(text, i, ['\\', 'u', '{'] + digits + ['}'], 0);
  }

  // ----- Spellings exist

  function HexChar(v: nat): (c: char)
    requires v < 16
    ensures IsHex(c) && HexDigit(c) == v
  {
    if v < 10 then ('0' as int + v) as char else ('a' as int + v - 10) as char
  }

  /** `v` in exactly `n` digits. */
  function ToHex(v: nat, n: nat): string {
    if n == 0 then [] else ToHex(v / 16, n - 1) + [HexChar(v % 16)]
  }

  lemma {:induction false} ToHexHasTheValue(v: nat, n: nat)
    requires v < Power16(n)
    ensures |ToHex(v, n)| == n && AllHex(ToHex(v, n)) && HexValue(ToHex(v, n)) == v
  {
    if n != 0 {
      ToHexHasTheValue(v / 16, n - 1);
      assert ToHex(v, n)[..n - 1] == ToHex(v / 16, n - 1);
    }
  }

  /** Every code point has a braced spelling, and the small ones the fixed-width spellings too. */
  lemma {:induction false} EveryCodePointCanBeSpelled(v: CodePoint, quote: char)
    ensures Valid(Brace(ToHex(v, 6)), quote) && Meaning(Brace(ToHex(v, 6)), quote) == v
    ensures v < 0x10000 ==> Valid(HexU(ToHex(v, 4)), quote) && Meaning(HexU(ToHex(v, 4)), quote) == v
    ensures v < 0x100 ==> Valid(HexX(ToHex(v, 2)), quote) && Meaning(HexX(ToHex(v, 2)), quote) == v
  {
    assert Power16(2) == 256;
    assert Power16(4) == 256 * Power16(2);
    assert Power16(6) == 256 * Power16(4);
    ToHexHasTheValue(v, 6);
    if v < 0x10000 {
      ToHexHasTheValue(v, 4);
    }
    if v < 0x100 {
      ToHexHasTheValue(v, 2);
    }
  }
}
