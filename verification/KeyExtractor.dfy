/**
 Which translation key a call in the source uses (scripts/i18n_check.py): `t(` and `N_(` take one string
 literal, `tn(` takes a count of any shape and then two literals.
 */
module KeyExtractor {
  import opened LiteralParser

  predicate IsWs(c: char) {
    c == ' ' || c == '\t' || c == '\r' || c == '\n'
  }

  function SkipWs(text: string, i: nat): (j: nat)
    requires i <= |text|
    ensures i <= j <= |text|
    decreases |text| - i
  {
    if i < |text| && IsWs(text[i]) then SkipWs(text, i + 1) else i
  }

  /** `_ends_argument`: the literal is a whole argument when a comma or a closing parenthesis follows. */
  predicate EndsArgument(text: string, i: nat)
    requires i <= |text|
  {
    var j := SkipWs(text, i);
    j < |text| && (text[j] == ',' || text[j] == ')')
  }

  predicate IsOpen(c: char) {
    c == '(' || c == '[' || c == '{'
  }

  predicate IsClose(c: char) {
    c == ')' || c == ']' || c == '}'
  }

  /** Whitespace, brackets and quotes by code. */
  lemma {:induction false} CharactersByCode(c: char)
    ensures IsWs(c) <==> c as int in [9, 10, 13, 32]
    ensures IsOpen(c) <==> c as int in [40, 91, 123]
    ensures IsClose(c) <==> c as int in [41, 93, 125]
    ensures IsQuote(c) <==> c as int in [34, 39]
  {
  }

  datatype Skip = NoComma | Comma(at: nat) | SkipRaises

  /** Where `_skip_argument` ends up from position `i` inside `depth` brackets. */
  function SkipFrom(text: string, i: nat, depth: nat): (r: Skip)
    requires i <= |text|
    ensures r.Comma? ==> r.at < |text| && text[r.at] == ','
    decreases |text| - i
  {
    if i == |text| then NoComma
    else
      var c := text[i];
      if IsQuote(c) then
        match ParseLiteral(text, i)
        case NoLiteral => NoComma
        case Raises => SkipRaises
        case Parsed(_, end) => SkipFrom(text, end, depth)
      else if c == '`' then
        var end := Find(text, '`', i + 1);
        if end == |text| then NoComma else SkipFrom(text, end + 1, depth)
      else if IsOpen(c) then SkipFrom(text, i + 1, depth + 1)
      else if IsClose(c) then if depth == 0 then NoComma else SkipFrom(text, i + 1, depth - 1)
      else if c == ',' && depth == 0 then Comma(i)
      else if c == '\n' && depth == 0 then NoComma
      else SkipFrom(text, i + 1, depth)
  }

  /** `_skip_argument`. */
  method SkipArgument(text: string, index: nat) returns (r: Skip)
    requires index <= |text|
    ensures r == SkipFrom(text, index, 0)
  {
    var depth: nat := 0;
    var i := index;
    while i < |text|
      invariant index <= i <= |text|
      invariant SkipFrom(text, index, 0) == SkipFrom(text, i, depth)
    {
      var c := text[i];
      if IsQuote(c) {
        var parsed := ParseStringLiteral(text, i);
        if !parsed.Parsed? {
          return if parsed.Raises? then SkipRaises else NoComma;
        }
        i := parsed.end;
        continue;
      }
      if c == '`' {
        var end := Find(text, '`', i + 1);
        if end == |text| {
          return NoComma;
        }
        i := end + 1;
        continue;
      }
      if IsOpen(c) {
        depth := depth + 1;
      } else if IsClose(c) {
        if depth == 0 {
          return NoComma;
        }
        depth := depth - 1;
      } else if c == ',' && depth == 0 {
        return Comma(i);
      } else if c == '\n' && depth == 0 {
        return NoComma;
      }
      i := i + 1;
    }
    r := NoComma;
  }

  // ----- Arguments of any shape

  /** The pieces of an argument: literals and template strings are skipped whole, brackets nest. */
  datatype Piece =
    | Literally(ss: seq<Spelling>, quote: char)
    | Template(body: string)
    | Open(c: char)
    | Close(c: char)
    | Plain(c: char)

  ghost predicate Fits(p: Piece, depth: nat) {
    match p
    case Literally(ss, quote) => IsQuote(quote) && AllValid(ss, quote)
    case Template(body) => '`' !in body
    case Open(c) => IsOpen(c)
    case Close(c) => IsClose(c) && 0 < depth
    case Plain(c) => !IsQuote(c) && c != '`' && !IsOpen(c) && !IsClose(c) && (depth == 0 ==> c != ',' && c != '\n')
  }

  function DepthAfter(p: Piece, depth: nat): nat {
    if p.Open? then depth + 1 else if p.Close? && 0 < depth then depth - 1 else depth
  }

  /** Brackets never close more than they opened; the pieces lead from one depth to the other. */
  ghost predicate Nested(pieces: seq<Piece>, depth: nat, after: nat)
    decreases |pieces|
  {
    if pieces == [] then depth == after
    else Fits(pieces[0], depth) && Nested(pieces[1..], DepthAfter(pieces[0], depth), after)
  }

  /** The argument ends outside all brackets. */
  ghost predicate Balanced(pieces: seq<Piece>, depth: nat) {
    Nested(pieces, depth, 0)
  }

  function Written(p: Piece): string {
    match p
    case Literally(ss, quote) => Quoted(ss, quote)
    case Template(body) => ['`'] + body + ['`']
    case Open(c) => [c]
    case Close(c) => [c]
    case Plain(c) => [c]
  }

  function WrittenAll(pieces: seq<Piece>): string {
    if pieces == [] then [] else Written(pieces[0]) + WrittenAll(pieces[1..])
  }

  lemma {:induction false} SkipsTemplate(text: string, i: nat, body: string, depth: nat)
    requires At(text, i, ['`'] + body + ['`']) && '`' !in body
    ensures i + 2 + |body| <= |text| && SkipFrom(text, i, depth) == SkipFrom(text, i + 2 + |body|, depth)
  {
    var s := ['`'] + body + ['`'];
    AtIndex(text, i, s, 0);
    AtIndex(text, i, s, 1 + |body|);
    AtSplit(text, i, ['`'] + body, ['`']);
    AtSplit(text, i, ['`'], body);
    forall k | i + 1 <= k < i + 1 + |body| ensures text[k] != '`' {
      AtIndex(text, i + 1, body, k - i - 1);
    }
    assert Find(text, '`', i + 1) == i + 1 + |body|;
  }

  /** One piece is skipped whole. */
  lemma {:induction false} SkipsOnePiece(text: string, i: nat, p: Piece, depth: nat)
    requires At(text, i, Written(p)) && Fits(p, depth)
    ensures i + |Written(p)| <= |text|
    ensures SkipFrom(text, i, depth) == SkipFrom(text, i + |Written(p)|, DepthAfter(p, depth))
  {
    AtIndex(text, i, Written(p), 0);
    match p
    case Literally(ss, quote) => ParserInvertsEverySpelling(text, i, ss, quote);
    case Template(body) => SkipsTemplate(text, i, body, depth);
    case _ =>
  }

  lemma {:induction false} SkipsTheFirstPiece(text: string, i: nat, pieces: seq<Piece>, depth: nat, after: nat) returns (j: nat, next: nat)
    requires pieces != [] && Nested(pieces, depth, after) && At(text, i, WrittenAll(pieces))
    ensures At(text, j, WrittenAll(pieces[1..])) && j + |WrittenAll(pieces[1..])| == i + |WrittenAll(pieces)|
    ensures Nested(pieces[1..], next, after) && SkipFrom(text, i, depth) == SkipFrom(text, j, next)
  {
    AtSplit(text, i, Written(pieces[0]), WrittenAll(pieces[1..]));
    j, next := i + |Written(pieces[0])|, DepthAfter(pieces[0], depth);
    SkipsOnePiece(text, i, pieces[0], depth);
  }

  /** Any number of pieces is skipped. */
  lemma {:induction false} SkipsThePieces(text: string, i: nat, pieces: seq<Piece>, depth: nat, after: nat) returns (end: nat)
    requires Nested(pieces, depth, after) && At(text, i, WrittenAll(pieces))
    ensures end == i + |WrittenAll(pieces)| <= |text| && SkipFrom(text, i, depth) == SkipFrom(text, end, after)
    decreases |pieces|
  {
    end := i;
    if pieces != [] {
      var j, next := SkipsTheFirstPiece(text, i, pieces, depth, after);
      end := SkipsThePieces(text, j, pieces[1..], next, after);
    }
  }

  /** However the argument is built, the top-level comma after it is the one that is found. */
  lemma {:induction false} FindsTheCommaAfterTheArgument(text: string, i: nat, pieces: seq<Piece>, depth: nat)
    requires Balanced(pieces, depth) && At(text, i, WrittenAll(pieces) + [','])
    ensures SkipFrom(text, i, depth) == Comma(i + |WrittenAll(pieces)|)
  {
    AtSplit(text, i, WrittenAll(pieces), [',']);
    var end := SkipsThePieces(text, i, pieces, depth, 0);
    AtIndex(text, end, [','], 0);
  }

  /** What ends the search without a comma: the text, the call's own bracket or line, a template or literal left open. */
  ghost predicate BreaksOff(text: string, end: nat, depth: nat) {
    || end == |text|
    || (end < |text| && depth == 0 && text[end] in "\n)]}")
    || (end < |text| && text[end] == '`' && forall k :: end < k < |text| ==> text[k] != '`')
    || (end < |text| && text[end] in "'\"" && ParseLiteral(text, end) == NoLiteral)
  }

  /** An argument that breaks off before a top-level comma has none. */
  lemma {:induction false} NoCommaWhenItBreaksOff(text: string, i: nat, pieces: seq<Piece>, depth: nat, after: nat)
    requires Nested(pieces, depth, after) && At(text, i, WrittenAll(pieces)) && BreaksOff(text, i + |WrittenAll(pieces)|, after)
    ensures SkipFrom(text, i, depth) == NoComma
  {
    var end := SkipsThePieces(text, i, pieces, depth, after);
  }

  // ----- Calls

  datatype Call = T | Tn

  /** `Prose` is a mention of the helper with no argument; `Unreadable` is reported as an error. */
  datatype Extracted = Prose | Unreadable | Crashes | Key(text: seq<CodePoint>, plural: bool)

  /** The key of the call whose opening parenthesis ends at `after`. */
  function Extract(call: Call, text: string, after: nat): Extracted
    requires after <= |text|
  {
    var index := SkipWs(text, after);
    if index < |text| && text[index] == ')' then Prose
    else if call.T? then WholeKey(text, ParseLiteral(text, index))
    else AfterCount(text, SkipFrom(text, index, 0))
  }

  /** A literal that is a whole argument is the key. */
  function WholeKey(text: string, parsed: Literal): Extracted
    requires parsed.Parsed? ==> parsed.end <= |text|
  {
    if parsed.Raises? then Crashes
    else if parsed.NoLiteral? || !EndsArgument(text, parsed.end) then Unreadable
    else Key(parsed.value, false)
  }

  function AfterCount(text: string, comma: Skip): Extracted
    requires comma.Comma? ==> comma.at < |text|
  {
    if comma.SkipRaises? then Crashes
    else if comma.NoComma? then Unreadable
    else ExtractForms(text, comma.at + 1)
  }

  /** The two literals of a plural call, from just behind the comma after its count. */
  function ExtractForms(text: string, from: nat): Extracted
    requires from <= |text|
  {
    AfterFirstForm(text, ParseLiteral(text, SkipWs(text, from)))
  }

  function AfterFirstForm(text: string, one: Literal): Extracted
    requires one.Parsed? ==> one.end <= |text|
  {
    if one.Raises? then Crashes
    else if one.NoLiteral? then Unreadable
    else
      var afterOne := SkipWs(text, one.end);
      if |text| <= afterOne || text[afterOne] != ',' then Unreadable
      else AfterBothForms(text, one.value, ParseLiteral(text, SkipWs(text, afterOne + 1)))
  }

  function AfterBothForms(text: string, one: seq<CodePoint>, other: Literal): Extracted
    requires other.Parsed? ==> other.end <= |text|
  {
    if other.Raises? then Crashes
    else if other.NoLiteral? || !EndsArgument(text, other.end) then Unreadable
    else Key(one + [Code('|')] + other.value, true)
  }

  predicate Whitespace(s: string) {
    forall i :: 0 <= i < |s| ==> IsWs(s[i])
  }

  lemma {:induction false} SkipsWhitespace(text: string, i: nat, ws: string)
    requires At(text, i, ws) && Whitespace(ws)
    requires i + |ws| < |text| ==> !IsWs(text[i + |ws|])
    ensures SkipWs(text, i) == i + |ws|
    decreases |ws|
  {
    if ws != [] {
      AtIndex(text, i, ws, 0);
      assert ws == [ws[0]] + ws[1..];
      AtSplit(text, i, [ws[0]], ws[1..]);
      SkipsWhitespace(text, i + 1, ws[1..]);
    }
  }

  /** A literal argument with whitespace around it. */
  datatype Argument = Argument(before: string, ss: seq<Spelling>, quote: char, after: string)

  function Length(a: Argument): nat {
    |a.before| + |Quoted(a.ss, a.quote)| + |a.after|
  }

  /** The argument stands at position `i` of the text, directly followed by `next`. */
  ghost predicate Stands(text: string, i: nat, a: Argument, next: char) {
    && Whitespace(a.before) && Whitespace(a.after) && !IsWs(next) && IsQuote(a.quote) && AllValid(a.ss, a.quote)
    && At(text, i, a.before + Quoted(a.ss, a.quote) + a.after + [next])
  }

  function Spells(a: Argument): seq<CodePoint>
    requires AllValid(a.ss, a.quote)
  {
    Meanings(a.ss, a.quote)
  }

  lemma {:induction false} ArgumentParts(text: string, i: nat, a: Argument, next: char)
    requires Stands(text, i, a, next)
    ensures At(text, i, a.before) && At(text, i + |a.before|, Quoted(a.ss, a.quote))
    ensures At(text, i + |a.before| + |Quoted(a.ss, a.quote)|, a.after)
    ensures i + Length(a) < |text| && text[i + Length(a)] == next
  {
    var literal := Quoted(a.ss, a.quote);
    AtSplit(text, i, a.before + literal + a.after, [next]);
    AtSplit(text, i, a.before + literal, a.after);
    AtSplit(text, i, a.before, literal);
    AtIndex(text, i + Length(a), [next], 0);
  }

  lemma {:induction false} ReadsArgument(text: string, i: nat, a: Argument, next: char) returns (end: nat)
    requires Stands(text, i, a, next)
    ensures i <= |text| && ParseLiteral(text, SkipWs(text, i)) == Parsed(Spells(a), end) && end <= |text|
    ensures SkipWs(text, end) == i + Length(a) < |text| && text[i + Length(a)] == next
  {
    var start;
    start, end := ReadsTheLiteral(text, i, a, next);
    SkipsWhitespace(text, end, a.after);
  }

  lemma {:induction false} ReadsTheLiteral(text: string, i: nat, a: Argument, next: char) returns (start: nat, end: nat)
    requires Stands(text, i, a, next)
    ensures i <= |text| && SkipWs(text, i) == start && ParseLiteral(text, start) == Parsed(Spells(a), end)
    ensures At(text, end, a.after) && end + |a.after| == i + Length(a) < |text| && text[i + Length(a)] == next
  {
    ArgumentParts(text, i, a, next);
    start := i + |a.before|;
    ParserInvertsEverySpelling(text, start, a.ss, a.quote);
    end := start + |Quoted(a.ss, a.quote)|;
    AtIndex(text, start, Quoted(a.ss, a.quote), 0);
    SkipsWhitespace(text, i, a.before);
  }

  /** `t("...")`: the key is the text the literal spells, when a comma or the parenthesis follows it. */
  lemma {:induction false} SimpleCallYieldsItsKey(text: string, i: nat, a: Argument, next: char)
    requires Stands(text, i, a, next) && (next == ',' || next == ')')
    ensures i <= |text| && Extract(T, text, i) == Key(Spells(a), false)
  {
    var end := ReadsArgument(text, i, a, next);
  }

  /** Anything else directly behind the literal, such as a `+` or a second literal, is refused. */
  lemma {:induction false} ComposedKeyIsRefused(text: string, i: nat, a: Argument, next: char)
    requires Stands(text, i, a, next) && next != ',' && next != ')'
    ensures i <= |text| && Extract(T, text, i) == Unreadable
  {
    var end := ReadsArgument(text, i, a, next);
  }

  /** A call without an argument is prose about the helper, whichever helper it is. */
  lemma {:induction false} NoArgumentIsProse(call: Call, text: string, i: nat, ws: string)
    requires Whitespace(ws) && At(text, i, ws + [')'])
    ensures i <= |text| && Extract(call, text, i) == Prose
  {
    AtSplit(text, i, ws, [')']);
    AtIndex(text, i + |ws|, [')'], 0);
    SkipsWhitespace(text, i, ws);
  }

  /**
   What cannot be read: a plain call whose argument is no literal, a plural call whose count is followed by no comma.
   A literal in them that holds an escape above the last code point makes the extractor raise.
   */
  lemma {:induction false} WhatCannotBeRead(text: string, i: nat, ws: string)
    requires Whitespace(ws) && At(text, i, ws)
    requires var start := i + |ws|; start < |text| ==> !IsWs(text[start]) && text[start] != ')'
    ensures i <= |text|
    ensures ParseLiteral(text, i + |ws|) == NoLiteral ==> Extract(T, text, i) == Unreadable
    ensures ParseLiteral(text, i + |ws|) == Raises ==> Extract(T, text, i) == Crashes
    ensures SkipFrom(text, i + |ws|, 0) == NoComma ==> Extract(Tn, text, i) == Unreadable
    ensures SkipFrom(text, i + |ws|, 0) == SkipRaises ==> Extract(Tn, text, i) == Crashes
  {
    SkipsWhitespace(text, i, ws);
  }

  /** A count argument followed by a comma, as it stands in the text behind optional whitespace. */
  ghost predicate CountArgument(text: string, i: nat, ws: string, count: seq<Piece>) {
    && Whitespace(ws) && Balanced(count, 0)
    && At(text, i, ws + (WrittenAll(count) + [',']))
    && !IsWs((WrittenAll(count) + [','])[0])
  }

  lemma {:induction false} FirstOfArgument(count: seq<Piece>)
    requires Balanced(count, 0)
    ensures (WrittenAll(count) + [','])[0] != ')'
  {
  }

  lemma {:induction false} CountParts(text: string, i: nat, ws: string, count: seq<Piece>) returns (index: nat)
    requires CountArgument(text, i, ws, count)
    ensures index == i + |ws| < |text| && At(text, i, ws) && At(text, index, WrittenAll(count) + [','])
    ensures !IsWs(text[index]) && text[index] != ')'
  {
    index := i + |ws|;
    AtSplit(text, i, ws, WrittenAll(count) + [',']);
    AtIndex(text, index, WrittenAll(count) + [','], 0);
    FirstOfArgument(count);
  }

  lemma {:induction false} PluralReads(text: string, i: nat, index: nat, skip: Skip) returns (read: Extracted)
    requires i <= |text| && SkipWs(text, i) == index < |text| && text[index] != ')' && skip == SkipFrom(text, index, 0)
    ensures (skip.Comma? ==> skip.at < |text|) && read == Extract(Tn, text, i) && read == AfterCount(text, skip)
  {
    read := AfterCount(text, skip);
  }

  lemma {:induction false} CountIsSkipped(text: string, i: nat, ws: string, count: seq<Piece>) returns (read: Extracted, comma: nat)
    requires CountArgument(text, i, ws, count)
    ensures i <= |text| && comma == i + |ws| + |WrittenAll(count)| < |text|
    ensures read == Extract(Tn, text, i) && read == AfterCount(text, Comma(comma))
  {
    var index := CountParts(text, i, ws, count);
    comma := index + |WrittenAll(count)|;
    SkipsWhitespace(text, i, ws);
    FindsTheCommaAfterTheArgument(text, index, count, 0);
    read := PluralReads(text, i, index, Comma(comma));
  }

  lemma {:induction false} FormsFollowTheComma(text: string, comma: nat, from: nat)
    requires comma < |text| && from == comma + 1
    ensures AfterCount(text, Comma(comma)) == ExtractForms(text, from)
  {
  }

  /** What is read of a plural call is what stands behind its count. */
  lemma {:induction false} ExtractsBehindTheCount(text: string, i: nat, ws: string, count: seq<Piece>, from: nat) returns (read: Extracted)
    requires CountArgument(text, i, ws, count) && from == i + |ws| + |WrittenAll(count)| + 1
    ensures i <= |text| && from <= |text| && read == Extract(Tn, text, i) && read == ExtractForms(text, from)
  {
    var comma;
    read, comma := CountIsSkipped(text, i, ws, count);
    FormsFollowTheComma(text, comma, from);
  }

  /** The singular form and the comma behind it, and what is read from there. */
  lemma {:induction false} ReadsUpToTheComma(text: string, from: nat, one: Argument) returns (first: Literal, comma: nat)
    requires Stands(text, from, one, ',')
    ensures from <= |text| && comma == from + Length(one) < |text| && text[comma] == ','
    ensures first.Parsed? && first.value == Spells(one) && first.end <= |text| && SkipWs(text, first.end) == comma
    ensures ExtractForms(text, from) == AfterFirstForm(text, first)
  {
    first := ReadsTheFirstForm(text, from, one);
    comma := CommaAfterTheFirstForm(text, from, one, first);
  }

  /** A plural call is refused when its singular form is followed by anything but a comma. */
  lemma {:induction false} ComposedSingularIsRefused(text: string, from: nat, one: Argument, next: char)
    requires Stands(text, from, one, next) && next != ','
    ensures from <= |text| && ExtractForms(text, from) == Unreadable
  {
    var end := ReadsArgument(text, from, one, next);
  }

  /** It is refused when its plural form is followed by neither a comma nor a parenthesis. */
  lemma {:induction false} ComposedPluralIsRefused(text: string, from: nat, one: Argument, behind: nat, other: Argument, next: char)
    requires Stands(text, from, one, ',') && behind == from + Length(one) + 1
    requires Stands(text, behind, other, next) && next != ',' && next != ')'
    ensures from <= |text| && ExtractForms(text, from) == Unreadable
  {
    var first, comma := ReadsUpToTheComma(text, from, one);
    NotEndedIsRefused(text, first, comma, behind, other, next);
  }

  lemma {:induction false} NotEndedIsRefused(text: string, first: Literal, comma: nat, behind: nat, other: Argument, next: char)
    requires first.Parsed? && first.end <= |text| && SkipWs(text, first.end) == comma < |text| && text[comma] == ','
    requires behind == comma + 1 && Stands(text, behind, other, next) && next != ',' && next != ')'
    ensures AfterFirstForm(text, first) == Unreadable
  {
    var end := ReadsArgument(text, behind, other, next);
  }

  /** And it is refused when either form is no literal. */
  lemma {:induction false} MissingPluralIsRefused(text: string, from: nat, one: Argument, behind: nat)
    requires Stands(text, from, one, ',') && behind == from + Length(one) + 1 <= |text|
    requires ParseLiteral(text, SkipWs(text, behind)) == NoLiteral
    ensures ExtractForms(text, from) == Unreadable
  {
    var first, comma := ReadsUpToTheComma(text, from, one);
    MissingBehindTheComma(text, first, comma, behind);
  }

  lemma {:induction false} MissingBehindTheComma(text: string, first: Literal, comma: nat, behind: nat)
    requires first.Parsed? && first.end <= |text| && SkipWs(text, first.end) == comma < |text| && text[comma] == ','
    requires behind == comma + 1 && ParseLiteral(text, SkipWs(text, behind)) == NoLiteral
    ensures AfterFirstForm(text, first) == Unreadable
  {
  }

  lemma {:induction false} MissingSingularIsRefused(text: string, from: nat)
    requires from <= |text| && ParseLiteral(text, SkipWs(text, from)) == NoLiteral
    ensures ExtractForms(text, from) == Unreadable
  {
  }

  lemma {:induction false} KeyOfBothForms(text: string, from: nat, one: Argument, behind: nat, other: Argument, next: char) returns (forms: Extracted)
    requires Stands(text, from, one, ',') && behind == from + Length(one) + 1
    requires Stands(text, behind, other, next) && (next == ',' || next == ')')
    ensures from <= |text| && forms == ExtractForms(text, from) && forms == Key(Spells(one) + [Code('|')] + Spells(other), true)
  {
    var first, comma := ReadsUpToTheComma(text, from, one);
    var second := ReadsTheSecondForm(text, behind, other, next);
    JoinsTheForms(text, first, comma, behind, second);
    forms := AfterFirstForm(text, first);
  }

  lemma {:induction false} ReadsTheFirstForm(text: string, from: nat, one: Argument) returns (first: Literal)
    requires Stands(text, from, one, ',')
    ensures from <= |text| && ParseLiteral(text, SkipWs(text, from)) == first
    ensures first.Parsed? && first.value == Spells(one) && first.end <= |text| && SkipWs(text, first.end) == from + Length(one)
  {
    var end := ReadsArgument(text, from, one, ',');
    first := Parsed(Spells(one), end);
  }

  lemma {:induction false} CommaAfterTheFirstForm(text: string, from: nat, one: Argument, first: Literal) returns (comma: nat)
    requires Stands(text, from, one, ',') && first.Parsed? && first.end <= |text| && SkipWs(text, first.end) == from + Length(one)
    ensures comma == from + Length(one) < |text| && SkipWs(text, first.end) == comma && text[comma] == ','
  {
    ArgumentParts(text, from, one, ',');
    comma := from + Length(one);
  }

  lemma {:induction false} ReadsTheSecondForm(text: string, from: nat, other: Argument, next: char) returns (second: Literal)
    requires Stands(text, from, other, next) && (next == ',' || next == ')')
    ensures from <= |text| && ParseLiteral(text, SkipWs(text, from)) == second
    ensures second.Parsed? && second.value == Spells(other) && second.end <= |text| && EndsArgument(text, second.end)
  {
    var end := ReadsArgument(text, from, other, next);
    second := Parsed(Spells(other), end);
  }

  lemma {:induction false} JoinsTheForms(text: string, first: Literal, comma: nat, behind: nat, second: Literal)
    requires first.Parsed? && first.end <= |text| && SkipWs(text, first.end) == comma < |text| && text[comma] == ','
    requires behind == comma + 1 && second == ParseLiteral(text, SkipWs(text, behind)) && second.Parsed? && EndsArgument(text, second.end)
    ensures AfterFirstForm(text, first) == Key(first.value + [Code('|')] + second.value, true)
  {
  }

  /**
   `tn(count, "one", "other")`: for a count of any shape and forms spelled in any way, the key is the two
   texts joined by the separator.
   */
  lemma {:induction false} PluralCallYieldsBothForms(
      text: string, i: nat, ws: string, count: seq<Piece>, from: nat, one: Argument, behind: nat, other: Argument, next: char)
    requires CountArgument(text, i, ws, count) && from == i + |ws| + |WrittenAll(count)| + 1
    requires Stands(text, from, one, ',') && behind == from + Length(one) + 1
    requires Stands(text, behind, other, next) && (next == ',' || next == ')')
    ensures i <= |text| && Extract(Tn, text, i) == Key(Spells(one) + [Code('|')] + Spells(other), true)
  {
    var read := ExtractsBehindTheCount(text, i, ws, count, from);
    var forms := KeyOfBothForms(text, from, one, behind, other, next);
  }
}
