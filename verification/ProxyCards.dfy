/**
 The Proxy connector's cards, its default and the table of which connector uses which proxy (app/web.py,
 `_proxy_rows_error` and the card branch of `_proxy_section_from_form`). What a usable proxy URL is is a parameter.
 */
module ProxyCards {
  import opened Options
  import opened PyText
  import opened KeyedRows

  /** A card: its name, its URL, and whatever else it carries. */
  datatype Proxy = Proxy(name: string, url: string, username: string, password: string, noProxy: string)

  datatype Choice = Direct | Use(name: string)

  /** A connector of the table: its type and what the form posts for it. */
  datatype Assignment = Assignment(connector: nat, posted: string)

  datatype Fault =
    | NeedsName(index: nat) | BadName(name: string) | RepeatedName(name: string) | BadUrl(name: string)
    | UnknownDefault(name: string) | UnknownChoice(connector: nat, name: string)

  /** The stored section; `default` is None when there are no cards. */
  datatype Section = Section(enabled: bool, proxies: seq<Proxy>, default: Option<string>, assignments: map<nat, Choice>)

  /** The cards, the default and the nonblank choices exactly as posted, to be shown again. */
  datatype Posted = Posted(enabled: bool, proxies: seq<Proxy>, default: string, choices: map<nat, string>)

  datatype Result = Stored(section: Section) | Refused(why: Fault, posted: Posted)

  predicate NameStart(c: char) {
    'A' <= c <= 'Z' || 'a' <= c <= 'z' || '0' <= c <= '9'
  }

  /** The name pattern: a letter or digit, then at most 63 letters, digits, `_` or `-`. */
  predicate UsableName(name: string) {
    1 <= |name| <= 64 && NameStart(name[0])
    && forall i :: 1 <= i < |name| ==> NameStart(name[i]) || name[i] == '_' || name[i] == '-'
  }

  function Trim(row: Proxy): Proxy {
    Proxy(Strip(row.name), Strip(row.url), Strip(row.username), Strip(row.password), Strip(row.noProxy))
  }

  function NameId(row: Proxy): string {
    Lower(row.name)
  }

  /** What is wrong with card `i` (counted from 1 in the message), given the cards before it; the cards are trimmed. */
  function RowFault(rows: seq<Proxy>, i: nat, url: string -> bool): Option<Fault>
    requires i < |rows|
  {
    if rows[i].name == [] then Some(NeedsName(i + 1))
    else if !UsableName(rows[i].name) then Some(BadName(rows[i].name))
    else if NameId(rows[i]) in KeysBefore(rows, i, NameId) then Some(RepeatedName(rows[i].name))
    else if !url(rows[i].url) then Some(BadUrl(rows[i].name))
    else None
  }

  function RowsFault(rows: seq<Proxy>, n: nat, url: string -> bool): Option<Fault>
    requires n <= |rows|
  {
    if n == 0 then None
    else if RowsFault(rows, n - 1, url).Some? then RowsFault(rows, n - 1, url)
    else RowFault(rows, n - 1, url)
  }

  method ProxyRowsError(rows: seq<Proxy>, url: string -> bool) returns (fault: Option<Fault>)
    ensures fault == RowsFault(rows, |rows|, url)
  {
    var seen: set<string> := {};
    for i := 0 to |rows|
      invariant seen == KeysBefore(rows, i, NameId)
      invariant RowsFault(rows, i, url).None?
    {
      fault := None;
      if rows[i].name == [] {
        fault := Some(NeedsName(i + 1));
      } else if !UsableName(rows[i].name) {
        fault := Some(BadName(rows[i].name));
      } else if Lower(rows[i].name) in seen {
        fault := Some(RepeatedName(rows[i].name));
      } else if !url(rows[i].url) {
        fault := Some(BadUrl(rows[i].name));
      }
      if fault.Some? {
        FaultIsFirst(rows, i + 1, |rows|, url);
        return;
      }
      seen := seen + {Lower(rows[i].name)};
    }
    fault := None;
  }

  lemma {:induction false} FaultIsFirst(rows: seq<Proxy>, n: nat, m: nat, url: string -> bool)
    requires n <= m <= |rows| && RowsFault(rows, n, url).Some?
    ensures RowsFault(rows, m, url) == RowsFault(rows, n, url)
  {
    if n < m {
      FaultIsFirst(rows, n, m - 1, url);
    }
  }

  ghost predicate EachUsable(rows: seq<Proxy>, n: nat, url: string -> bool)
    requires n <= |rows|
  {
    forall i :: 0 <= i < n ==> UsableName(rows[i].name) && url(rows[i].url)
  }

  /** The cards pass exactly when every name and URL is usable and no two names are equal ignoring case. */
  lemma {:induction false} RowsPassIff(rows: seq<Proxy>, n: nat, url: string -> bool)
    requires n <= |rows|
    ensures RowsFault(rows, n, url).None? <==> EachUsable(rows, n, url) && KeysDistinct(rows, n, NameId)
  {
    if n > 0 {
      RowsPassIff(rows, n - 1, url);
      DistinctSoFar(rows, n, NameId);
      UsableOneMore(rows, n, url);
    }
  }

  /** The characters of a name by their codes: digits, capitals and small letters, and behind the first also `-` and `_`. */
  lemma {:induction false} UsableNamesByCode(name: string)
    ensures UsableName(name) <==> 1 <= |name| <= 64 && forall i :: 0 <= i < |name| ==>
              var c := name[i] as int; 48 <= c <= 57 || 65 <= c <= 90 || 97 <= c <= 122 || (i > 0 && (c == 45 || c == 95))
  {
  }

  /** What is said of a card: it needs a name, or a usable one, or one no earlier card has in any case, or a usable URL. */
  lemma {:induction false} FaultOfACard(rows: seq<Proxy>, i: nat, url: string -> bool)
    requires i < |rows|
    ensures var card, fault := rows[i], RowFault(rows, i, url);
            var repeated := exists j :: 0 <= j < i && Lower(rows[j].name) == Lower(card.name);
            && (fault == Some(NeedsName(i + 1)) <==> card.name == "")
            && (fault == Some(BadName(card.name)) <==> card.name != "" && !UsableName(card.name))
            && (fault == Some(RepeatedName(card.name)) <==> UsableName(card.name) && repeated)
            && (fault == Some(BadUrl(card.name)) <==> UsableName(card.name) && !repeated && !url(card.url))
            && (fault == None <==> UsableName(card.name) && !repeated && url(card.url))
  {
    KeysBeforeAreTheKeys(rows, i, NameId, NameId(rows[i]));
    assert forall j :: 0 <= j < i ==> NameId(rows[j]) == Lower(rows[j].name);
  }

  /** The first card with a fault is the one reported. */
  lemma {:induction false} TheFirstFaultIsReported(rows: seq<Proxy>, i: nat, url: string -> bool)
    requires i < |rows| && RowFault(rows, i, url).Some? && forall j :: 0 <= j < i ==> RowFault(rows, j, url).None?
    ensures RowsFault(rows, |rows|, url) == RowFault(rows, i, url)
  {
    NoFaultSoFar(rows, i, url);
    FaultIsFirst(rows, i + 1, |rows|, url);
  }

  lemma {:induction false} NoFaultSoFar(rows: seq<Proxy>, n: nat, url: string -> bool)
    requires n <= |rows| && forall j :: 0 <= j < n ==> RowFault(rows, j, url).None?
    ensures RowsFault(rows, n, url).None?
  {
    if n > 0 {
      NoFaultSoFar(rows, n - 1, url);
    }
  }

  lemma {:induction false} UsableOneMore(rows: seq<Proxy>, n: nat, url: string -> bool)
    requires 0 < n <= |rows|
    ensures EachUsable(rows, n, url) <==> EachUsable(rows, n - 1, url) && UsableName(rows[n - 1].name) && url(rows[n - 1].url)
  {
  }

  // ----- The default and the assignments

  predicate Names(proxies: seq<Proxy>, name: string) {
    exists i :: 0 <= i < |proxies| && proxies[i].name == name
  }

  predicate NoneWord(value: string) {
    Lower(value) == ['n', 'o', 'n', 'e']
  }

  datatype Table = Table(choices: map<nat, Choice>) | NoTable(why: Fault)

  function Choose(before: Table, a: Assignment, proxies: seq<Proxy>): Table {
    var value := Strip(a.posted);
    if before.NoTable? || value == [] then before
    else if NoneWord(value) then Table(before.choices[a.connector := Direct])
    else if Names(proxies, value) then Table(before.choices[a.connector := Use(value)])
    else NoTable(UnknownChoice(a.connector, value))
  }

  function Chosen(table: seq<Assignment>, n: nat, proxies: seq<Proxy>): Table
    requires n <= |table|
  {
    if n == 0 then Table(map[]) else Choose(Chosen(table, n - 1, proxies), table[n - 1], proxies)
  }

  /** What was posted for each connector; a blank choice counts as none. */
  function Choices(table: seq<Assignment>): map<nat, string> {
    if table == [] then map[] else
      var last := table[|table| - 1];
      var before := Choices(table[..|table| - 1]);
      if Strip(last.posted) != [] then before[last.connector := Strip(last.posted)] else before
  }

  /** No later nonblank choice was posted for the connector of assignment `i`. */
  ghost predicate LastChoice(table: seq<Assignment>, n: nat, i: nat)
    requires i < n <= |table|
  {
    Strip(table[i].posted) != [] && forall j :: i < j < n && table[j].connector == table[i].connector ==> Strip(table[j].posted) == []
  }

  /** A refusal loses no edit: a nonblank choice posted for a connector is among those shown again. */
  lemma {:induction false} EveryChoiceIsShownAgain(table: seq<Assignment>, connector: nat)
    ensures connector in Choices(table) <==> exists i :: 0 <= i < |table| && table[i].connector == connector && Strip(table[i].posted) != []
  {
    if table != [] {
      var front, last := table[..|table| - 1], |table| - 1;
      EveryChoiceIsShownAgain(front, connector);
      assert forall i :: 0 <= i < last ==> front[i] == table[i];
      if i :| 0 <= i < |front| && front[i].connector == connector && Strip(front[i].posted) != [] {
        assert table[i].connector == connector && Strip(table[i].posted) != [];
      }
      if i :| 0 <= i < |table| && table[i].connector == connector && Strip(table[i].posted) != [] && i < last {
        assert front[i].connector == connector && Strip(front[i].posted) != [];
      }
    }
  }

  /** What is shown again for a connector is the last nonblank choice posted for it, trimmed. */
  lemma {:induction false} TheLastChoiceIsShown(table: seq<Assignment>, i: nat)
    requires i < |table| && LastChoice(table, |table|, i)
    ensures table[i].connector in Choices(table) && Choices(table)[table[i].connector] == Strip(table[i].posted)
  {
    if i < |table| - 1 {
      TheLastChoiceIsShown(table[..|table| - 1], i);
    }
  }

  method ReadChoices(table: seq<Assignment>) returns (choices: map<nat, string>)
    ensures choices == Choices(table)
  {
    choices := map[];
    for i := 0 to |table|
      invariant choices == Choices(table[..i])
    {
      assert table[..i + 1][..i] == table[..i];
      if Strip(table[i].posted) != [] {
        choices := choices[table[i].connector := Strip(table[i].posted)];
      }
    }
    assert table[..|table|] == table;
  }

  function SectionOf(enabled: bool, cards: seq<Proxy>, default: string, table: seq<Assignment>, url: string -> bool): Result {
    var posted := Posted(enabled, cards, default, Choices(table));
    if RowsFault(cards, |cards|, url).Some? then Refused(RowsFault(cards, |cards|, url).value, posted)
    else if cards != [] && default != [] && !Names(cards, default) then Refused(UnknownDefault(default), posted)
    else
      var chosen := Chosen(table, |table|, cards);
      if chosen.NoTable? then Refused(chosen.why, posted)
      else Stored(Section(enabled, cards, if cards == [] then None else Some(if default != [] then default else cards[0].name), chosen.choices))
  }

  function Trimmed(rows: seq<Proxy>): (r: seq<Proxy>)
    ensures |r| == |rows| && forall i :: 0 <= i < |rows| ==> r[i] == rows[i].(
              name := Strip(rows[i].name), url := Strip(rows[i].url), username := Strip(rows[i].username),
              password := Strip(rows[i].password), noProxy := Strip(rows[i].noProxy))
  {
    if rows == [] then [] else Trimmed(rows[..|rows| - 1]) + [Trim(rows[|rows| - 1])]
  }

  /** The card branch of `_proxy_section_from_form`, from the parsed cards on. */
  method ProxySectionFromForm(enabled: bool, rows: seq<Proxy>, postedDefault: string, table: seq<Assignment>, url: string -> bool) returns (r: Result)
    ensures r == SectionOf(enabled, Trimmed(rows), Strip(postedDefault), table, url)
  {
    var entries := ReadEntries(rows);
    var default := Strip(postedDefault);
    var choices := ReadChoices(table);
    var posted := Posted(enabled, entries, default, choices);
    var fault := ProxyRowsError(entries, url);
    if fault.Some? {
      return Refused(fault.value, posted);
    }
    var section := Section(enabled, entries, None, map[]);
    if entries != [] {
      if default != [] && !Names(entries, default) {
        return Refused(UnknownDefault(default), posted);
      }
      section := section.(default := Some(if default != [] then default else entries[0].name));
    }
    var chosen := ReadAssignments(table, entries);
    if chosen.NoTable? {
      return Refused(chosen.why, posted);
    }
    r := Stored(section.(assignments := chosen.choices));
  }

  /** The loop that trims the cards. */
  method ReadEntries(rows: seq<Proxy>) returns (entries: seq<Proxy>)
    ensures entries == Trimmed(rows)
  {
    entries := [];
    for i := 0 to |rows|
      invariant entries == Trimmed(rows[..i])
    {
      assert rows[..i + 1][..i] == rows[..i];
      entries := entries + [Trim(rows[i])];
    }
    assert rows[..|rows|] == rows;
  }

  /** The loop over the connectors of the table. */
  method ReadAssignments(table: seq<Assignment>, entries: seq<Proxy>) returns (r: Table)
    ensures r == Chosen(table, |table|, entries)
  {
    r := Table(map[]);
    for i := 0 to |table|
      invariant r == Chosen(table, i, entries) && r.Table?
    {
      r := ReadAssignment(r.choices, table[i], entries);
      if r.NoTable? {
        RefusedChoiceIsFirst(table, i + 1, |table|, entries);
        return;
      }
    }
  }

  method ReadAssignment(assignments: map<nat, Choice>, a: Assignment, entries: seq<Proxy>) returns (r: Table)
    ensures r == Choose(Table(assignments), a, entries)
  {
    var value := Strip(a.posted);
    if value == [] {
      return Table(assignments);
    }
    if NoneWord(value) {
      return Table(assignments[a.connector := Direct]);
    }
    if Names(entries, value) {
      return Table(assignments[a.connector := Use(value)]);
    }
    return NoTable(UnknownChoice(a.connector, value));
  }

  lemma {:induction false} RefusedChoiceIsFirst(table: seq<Assignment>, n: nat, m: nat, proxies: seq<Proxy>)
    requires n <= m <= |table| && Chosen(table, n, proxies).NoTable?
    ensures Chosen(table, m, proxies) == Chosen(table, n, proxies)
  {
    if n < m {
      RefusedChoiceIsFirst(table, n, m - 1, proxies);
    }
  }

  /** What an assignment of the table ends up as: the last nonblank one posted for its connector. */
  lemma {:induction false} ChoicesAreResolved(table: seq<Assignment>, n: nat, proxies: seq<Proxy>, connector: nat)
    requires n <= |table| && Chosen(table, n, proxies).Table?
    requires connector in Chosen(table, n, proxies).choices
    ensures var choice := Chosen(table, n, proxies).choices[connector];
            choice == Direct || (Names(proxies, choice.name) && !NoneWord(choice.name))
    ensures exists i :: 0 <= i < n && table[i].connector == connector && Strip(table[i].posted) != []
  {
    var value := Strip(table[n - 1].posted);
    if value == [] || table[n - 1].connector != connector {
      ChoicesAreResolved(table, n - 1, proxies, connector);
    }
  }

  /** The last nonblank choice of a connector decides: the word "none" in any case is a direct connection, anything else the proxy of that name. */
  lemma {:induction false} TheLastChoiceDecides(table: seq<Assignment>, n: nat, proxies: seq<Proxy>, i: nat)
    requires i < n <= |table| && Chosen(table, n, proxies).Table? && LastChoice(table, n, i)
    ensures var choices, value := Chosen(table, n, proxies).choices, Strip(table[i].posted);
            table[i].connector in choices && choices[table[i].connector] == if Lower(value) == "none" then Direct else Use(value)
  {
    assert "none" == ['n', 'o', 'n', 'e'];
    if i < n - 1 {
      TheLastChoiceDecides(table, n - 1, proxies, i);
    }
  }

  /** A connector without a nonblank choice is not assigned. */
  lemma {:induction false} NoChoiceNoAssignment(table: seq<Assignment>, n: nat, proxies: seq<Proxy>, connector: nat)
    requires n <= |table| && Chosen(table, n, proxies).Table?
    requires forall j :: 0 <= j < n && table[j].connector == connector ==> Strip(table[j].posted) == []
    ensures connector !in Chosen(table, n, proxies).choices
  {
    if n > 0 {
      NoChoiceNoAssignment(table, n - 1, proxies, connector);
    }
  }

  /** The first choice that is neither is refused by its connector and name. */
  lemma {:induction false} FirstBadChoiceIsNamed(table: seq<Assignment>, n: nat, proxies: seq<Proxy>, i: nat)
    requires i < n <= |table| && !Acceptable(table[i], proxies) && forall j :: 0 <= j < i ==> Acceptable(table[j], proxies)
    ensures Chosen(table, n, proxies) == NoTable(UnknownChoice(table[i].connector, Strip(table[i].posted)))
  {
    AllAcceptableMeansEach(table, i, proxies);
    ChosenIffAllAcceptable(table, i, proxies);
    RefusedChoiceIsFirst(table, i + 1, n, proxies);
  }

  predicate Acceptable(a: Assignment, proxies: seq<Proxy>) {
    var value := Strip(a.posted);
    value == [] || NoneWord(value) || Names(proxies, value)
  }

  predicate AllAcceptable(table: seq<Assignment>, n: nat, proxies: seq<Proxy>)
    requires n <= |table|
  {
    n == 0 || (AllAcceptable(table, n - 1, proxies) && Acceptable(table[n - 1], proxies))
  }

  lemma {:induction false} AllAcceptableMeansEach(table: seq<Assignment>, n: nat, proxies: seq<Proxy>)
    requires n <= |table|
    ensures AllAcceptable(table, n, proxies) <==> forall i :: 0 <= i < n ==> Acceptable(table[i], proxies)
  {
    if n > 0 {
      AllAcceptableMeansEach(table, n - 1, proxies);
    }
  }

  lemma {:induction false} ChooseAccepts(before: Table, a: Assignment, proxies: seq<Proxy>)
    ensures Choose(before, a, proxies).Table? <==> before.Table? && Acceptable(a, proxies)
  {
  }

  lemma {:induction false} ChosenIffAllAcceptable(table: seq<Assignment>, n: nat, proxies: seq<Proxy>)
    requires n <= |table|
    ensures Chosen(table, n, proxies).Table? <==> AllAcceptable(table, n, proxies)
  {
    if n > 0 {
      ChosenIffAllAcceptable(table, n - 1, proxies);
      ChooseAccepts(Chosen(table, n - 1, proxies), table[n - 1], proxies);
    }
  }

  /** The choices are accepted exactly when each nonblank one is "none", in any case, or the exact name of a card. */
  lemma {:induction false} ChoicesAcceptedIff(table: seq<Assignment>, proxies: seq<Proxy>)
    ensures Chosen(table, |table|, proxies).Table? <==> forall i :: 0 <= i < |table| ==> Acceptable(table[i], proxies)
  {
    ChosenIffAllAcceptable(table, |table|, proxies);
    AllAcceptableMeansEach(table, |table|, proxies);
  }

  /**
   What the form is answered: the first faulty card, else a default that names no card, else the first bad choice,
   refuses it and shows everything as posted; otherwise the section has the switch, the cards, the default asked for
   or the first card's name, and the choices.
   */
  lemma {:induction false} SectionAnswers(enabled: bool, cards: seq<Proxy>, default: string, table: seq<Assignment>, url: string -> bool)
    ensures var r, fault, chosen := SectionOf(enabled, cards, default, table, url), RowsFault(cards, |cards|, url), Chosen(table, |table|, cards);
            var unknown := cards != [] && default != "" && forall i :: 0 <= i < |cards| ==> cards[i].name != default;
            && (r.Refused? ==> r.posted == Posted(enabled, cards, default, Choices(table)))
            && (fault.Some? ==> r.Refused? && r.why == fault.value)
            && (fault.None? && unknown ==> r.Refused? && r.why == UnknownDefault(default))
            && (fault.None? && !unknown && chosen.NoTable? ==> r.Refused? && r.why == chosen.why)
            && (fault.None? && !unknown && chosen.Table? ==>
                  && r.Stored? && r.section.enabled == enabled && r.section.proxies == cards && r.section.assignments == chosen.choices
                  && (cards == [] ==> r.section.default == None)
                  && (cards != [] ==> r.section.default == Some(if default == "" then cards[0].name else default)))
  {
  }

  /**
   No dangling references in a stored section: its names are usable and unique ignoring case, its default, when it
   has cards, is one of them, and every assignment is direct or one of them.
   */
  lemma {:induction false} StoredSectionHasNoDanglingReference(enabled: bool, cards: seq<Proxy>, default: string, table: seq<Assignment>, url: string -> bool, connector: nat)
    requires SectionOf(enabled, cards, default, table, url).Stored?
    ensures var s := SectionOf(enabled, cards, default, table, url).section;
            && s.proxies == cards && EachUsable(cards, |cards|, url) && KeysDistinct(cards, |cards|, NameId)
            && (s.default.None? <==> cards == [])
            && (s.default.Some? ==> Names(cards, s.default.value))
            && (connector in s.assignments ==>
                  s.assignments[connector] == Direct || (Names(cards, s.assignments[connector].name) && !NoneWord(s.assignments[connector].name)))
  {
    RowsPassIff(cards, |cards|, url);
    if connector in Chosen(table, |table|, cards).choices {
      ChoicesAreResolved(table, |table|, cards, connector);
    }
  }

  /** A proxy may be called "none", but no connector can be assigned to it: the word always means a direct connection. */
  lemma {:induction false} AProxyNamedNoneCannotBeAssigned(enabled: bool, cards: seq<Proxy>, default: string, table: seq<Assignment>, url: string -> bool, connector: nat, name: string)
    requires SectionOf(enabled, cards, default, table, url).Stored? && NoneWord(name)
    ensures var s := SectionOf(enabled, cards, default, table, url).section;
            connector in s.assignments ==> s.assignments[connector] != Use(name)
    ensures UsableName(name)
  {
    LowerByCharacter(name);
    assert forall i :: 0 <= i < 4 ==> LowerChar(name[i]) == Lower(name)[i];
    if connector in Chosen(table, |table|, cards).choices {
      ChoicesAreResolved(table, |table|, cards, connector);
    }
  }
}
