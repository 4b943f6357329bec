/**
 The cards of a connector's settings form, merged with the stored rows (app/web.py, `_settings_parse_instances`):
 a field to be kept that the form does not carry is taken from the stored row the card came from. Pages post stored
 passwords prefilled; the fields without an input on the card, and those of older pages, are the ones left out.
 */
module ConnectorCards {
  import opened Options
  import opened PyText

  datatype Field = Enabled | Name | Url | AccountId | RoleName | Regions | Other(id: nat)

  /** What a posted key says about card `i`: the identity it was rendered with, a field, or its "clear" box. */
  datatype Part = OriginalName | OriginalUrl | Value(f: Field) | Clear(f: Field)

  /** A posted form; `count` is None when it is absent or not an integer. */
  datatype Form = Form(count: Option<int>, values: map<(nat, Part), string>)

  datatype Card = Card(enabled: bool, texts: map<Field, string>)

  /** A stored list may hold things that are not rows (None). */
  type Stored = seq<Option<Card>>

  function TextOf(row: Card, f: Field): string {
    if f in row.texts then row.texts[f] else []
  }

  function Norm(value: string): string {
    Lower(RStripChar(Strip(value), '/'))
  }

  /** Identities are compared without surrounding whitespace, closing slashes and case. */
  lemma {:induction false} IdentitiesIgnoreClosingSlashes(value: string) returns (core: string)
    ensures Norm(value) == Lower(core) && core <= Strip(value) && (core != [] ==> core[|core| - 1] != '/')
    ensures forall i :: |core| <= i < |Strip(value)| ==> Strip(value)[i] == '/'
  {
    core := RStripChar(Strip(value), '/');
    RStripCharShape(Strip(value), '/');
  }

  function Raw(form: Form, i: nat, part: Part): string {
    if (i, part) in form.values then form.values[(i, part)] else []
  }

  function Posted(form: Form, i: nat, part: Part): string {
    Strip(Raw(form, i, part))
  }

  predicate Truthy(value: string) {
    var v := Lower(value);
    v == "1" || v == "true" || v == "on" || v == "yes"
  }

  function CardCount(form: Form): nat {
    if form.count.Some? && form.count.value > 0 then form.count.value else 0
  }

  /** As many cards are read as the form says, none when it does not say or says a negative number. */
  lemma {:induction false} CountsNoNegativeCards(form: Form)
    ensures form.count == None ==> CardCount(form) == 0
    ensures forall n :: form.count == Some(n) ==> CardCount(form) == if n < 0 then 0 else n
  {
  }

  // ----- The unique index

  /** How many stored rows have this key. */
  function Count<K(==)>(items: Stored, key: Card -> Option<K>, k: K): nat {
    if items == [] then 0 else
      Count(items[..|items| - 1], key, k) + if Hit(items, key, k, |items| - 1) then 1 else 0
  }

  predicate Hit<K(==)>(items: Stored, key: Card -> Option<K>, k: K, i: int) {
    0 <= i < |items| && items[i].Some? && key(items[i].value) == Some(k)
  }

  /** The first stored row with this key. */
  function First<K(==)>(items: Stored, key: Card -> Option<K>, k: K): Option<Card> {
    if items == [] then None
    else if First(items[..|items| - 1], key, k).Some? then First(items[..|items| - 1], key, k)
    else if Hit(items, key, k, |items| - 1) then items[|items| - 1]
    else None
  }

  /** The stored row with this key, when there is exactly one. */
  function OnlyRow<K(==)>(items: Stored, key: Card -> Option<K>, k: K): Option<Card> {
    if Count(items, key, k) == 1 then First(items, key, k) else None
  }

  lemma {:induction false} HitsAreCounted<K>(items: Stored, key: Card -> Option<K>, k: K)
    ensures Count(items, key, k) == 0 <==> First(items, key, k).None?
    ensures Count(items, key, k) == 0 <==> forall i :: !Hit(items, key, k, i)
  {
    if items != [] {
      var front := items[..|items| - 1];
      HitsAreCounted(front, key, k);
      assert forall i :: 0 <= i < |front| ==> (Hit(items, key, k, i) <==> Hit(front, key, k, i));
    }
  }

  /** `OnlyRow` is what its name says: it gives the row at position `i` exactly when no other position has its key. */
  lemma {:induction false} OnlyRowIsTheOnlyOne<K>(items: Stored, key: Card -> Option<K>, k: K, i: nat)
    requires Hit(items, key, k, i)
    ensures OnlyRow(items, key, k).Some? <==> forall j :: Hit(items, key, k, j) ==> j == i
    ensures OnlyRow(items, key, k).Some? ==> OnlyRow(items, key, k) == items[i]
  {
    var last := |items| - 1;
    var front := items[..last];
    HitsAreCounted(front, key, k);
    assert forall j :: 0 <= j < last ==> (Hit(items, key, k, j) <==> Hit(front, key, k, j));
    if i < last {
      OnlyRowIsTheOnlyOne(front, key, k, i);
      CountWithOther(front, key, k, i);
    }
  }

  lemma {:induction false} CountWithOther<K>(items: Stored, key: Card -> Option<K>, k: K, i: nat)
    requires Hit(items, key, k, i)
    ensures Count(items, key, k) == 1 <==> forall j :: Hit(items, key, k, j) ==> j == i
  {
    var last := |items| - 1;
    var front := items[..last];
    HitsAreCounted(front, key, k);
    assert forall j :: 0 <= j < last ==> (Hit(items, key, k, j) <==> Hit(front, key, k, j));
    if i < last {
      CountWithOther(front, key, k, i);
    }
  }

  /** A dictionary built in one pass over the rows, with a key dropped again once a second row had it. */
  method BuildUniqueIndex<K(!new)>(items: Stored, key: Card -> Option<K>) returns (index: map<K, Card>)
    ensures forall k :: (k in index <==> OnlyRow(items, key, k).Some?) && (k in index ==> Some(index[k]) == OnlyRow(items, key, k))
  {
    index := map[];
    var duplicates: set<K> := {};
    for i := 0 to |items|
      invariant forall k :: k in index <==> Count(items[..i], key, k) >= 1
      invariant forall k :: k in duplicates <==> Count(items[..i], key, k) >= 2
      invariant forall k :: k in index ==> Some(index[k]) == First(items[..i], key, k)
    {
      assert items[..i + 1][..i] == items[..i] && items[..i + 1][i] == items[i];
      forall k: K
        ensures Count(items[..i], key, k) == 0 <==> First(items[..i], key, k).None?
      {
        HitsAreCounted(items[..i], key, k);
      }
      if items[i].Some? && key(items[i].value).Some? {
        var k := key(items[i].value).value;
        if k in index {
          duplicates := duplicates + {k};
        } else {
          index := index[k := items[i].value];
        }
      }
    }
    assert items[..|items|] == items;
    forall k: K
      ensures Count(items, key, k) == 0 <==> First(items, key, k).None?
    {
      HitsAreCounted(items, key, k);
    }
    index := index - duplicates;
  }

  // ----- The stored row a card came from

  datatype Identity = Identity(name: string, url: string)

  function NameKey(row: Card): Option<string> {
    if Norm(TextOf(row, Name)) == [] then None else Some(Norm(TextOf(row, Name)))
  }

  function UrlKey(row: Card): Option<string> {
    if Norm(TextOf(row, Url)) == [] then None else Some(Norm(TextOf(row, Url)))
  }

  function PairKey(row: Card): Option<Identity> {
    var pair := Identity(Norm(TextOf(row, Name)), Norm(TextOf(row, Url)));
    if pair.name == [] && pair.url == [] then None else Some(pair)
  }

  /** A row has a key exactly when its normalised texts are that key's; a blank key is nobody's. */
  lemma {:induction false} RowsAreHitByTheirTexts(stored: Stored, name: string, url: string, j: nat)
    requires j < |stored| && stored[j].Some?
    ensures var rowName, rowUrl := Norm(TextOf(stored[j].value, Name)), Norm(TextOf(stored[j].value, Url));
            && (Hit(stored, NameKey, Norm(name), j) <==> Norm(name) != "" && rowName == Norm(name))
            && (Hit(stored, UrlKey, Norm(url), j) <==> Norm(url) != "" && rowUrl == Norm(url))
            && (Hit(stored, PairKey, Identity(Norm(name), Norm(url)), j) <==>
                  (Norm(name) != "" || Norm(url) != "") && rowName == Norm(name) && rowUrl == Norm(url))
  {
  }

  /** The stored row for a card rendered with this name and URL: by both, else by name, else by URL. */
  function FindExisting(stored: Stored, name: string, url: string): Option<Card> {
    var pair := Identity(Norm(name), Norm(url));
    if pair.name == [] && pair.url == [] then None
    else if OnlyRow(stored, PairKey, pair).Some? then OnlyRow(stored, PairKey, pair)
    else if pair.name != [] && OnlyRow(stored, NameKey, pair.name).Some? then OnlyRow(stored, NameKey, pair.name)
    else if pair.url != [] then OnlyRow(stored, UrlKey, pair.url)
    else None
  }

  /** Position `i` holds the only stored row with this key. */
  ghost predicate OnlyHit<K>(items: Stored, key: Card -> Option<K>, k: K, i: int) {
    Hit(items, key, k, i) && forall j :: Hit(items, key, k, j) ==> j == i
  }

  lemma {:induction false} OnlyRowHasTheKey<K>(items: Stored, key: Card -> Option<K>, k: K) returns (i: nat)
    requires OnlyRow(items, key, k).Some?
    ensures OnlyHit(items, key, k, i) && items[i] == OnlyRow(items, key, k)
  {
    HitsAreCounted(items, key, k);
    i :| Hit(items, key, k, i);
    OnlyRowIsTheOnlyOne(items, key, k, i);
  }

  /** A row found for a card is the only stored row with the card's original name and URL, or its name, or its URL. */
  lemma {:induction false} FoundRowSharesTheIdentity(stored: Stored, name: string, url: string) returns (i: nat)
    requires FindExisting(stored, name, url).Some?
    ensures i < |stored| && stored[i] == FindExisting(stored, name, url)
    ensures OnlyHit(stored, PairKey, Identity(Norm(name), Norm(url)), i) || OnlyHit(stored, NameKey, Norm(name), i) || OnlyHit(stored, UrlKey, Norm(url), i)
  {
    var pair := Identity(Norm(name), Norm(url));
    if OnlyRow(stored, PairKey, pair).Some? {
      i := OnlyRowHasTheKey(stored, PairKey, pair);
    } else if pair.name != [] && OnlyRow(stored, NameKey, pair.name).Some? {
      i := OnlyRowHasTheKey(stored, NameKey, pair.name);
    } else {
      i := OnlyRowHasTheKey(stored, UrlKey, pair.url);
    }
  }

  /**
   The keys are tried in turn: the only row with both name and URL, else the only row with the name, else the only row
   with the URL; a card rendered with neither has no row.
   */
  lemma {:induction false} KeysAreTriedInTurn(stored: Stored, name: string, url: string, i: nat)
    ensures var pair := Identity(Norm(name), Norm(url));
            var byPair := exists j :: OnlyHit(stored, PairKey, pair, j);
            var byName := pair.name != "" && exists j :: OnlyHit(stored, NameKey, pair.name, j);
            && (pair.name == "" && pair.url == "" ==> FindExisting(stored, name, url) == None)
            && (OnlyHit(stored, PairKey, pair, i) ==> FindExisting(stored, name, url) == stored[i])
            && (!byPair && pair.name != "" && OnlyHit(stored, NameKey, pair.name, i) ==> FindExisting(stored, name, url) == stored[i])
            && (!byPair && !byName && pair.url != "" && OnlyHit(stored, UrlKey, pair.url, i) ==> FindExisting(stored, name, url) == stored[i])
  {
    var pair := Identity(Norm(name), Norm(url));
    OnlyHitIsFound(stored, PairKey, pair, i);
    OnlyHitIsFound(stored, NameKey, pair.name, i);
    OnlyHitIsFound(stored, UrlKey, pair.url, i);
    if OnlyRow(stored, PairKey, pair).Some? {
      var j := OnlyRowHasTheKey(stored, PairKey, pair);
    }
    if OnlyRow(stored, NameKey, pair.name).Some? {
      var j := OnlyRowHasTheKey(stored, NameKey, pair.name);
    }
  }

  lemma {:induction false} OnlyHitIsFound<K>(items: Stored, key: Card -> Option<K>, k: K, i: nat)
    ensures OnlyHit(items, key, k, i) ==> OnlyRow(items, key, k) == items[i]
  {
    if OnlyHit(items, key, k, i) {
      OnlyRowIsTheOnlyOne(items, key, k, i);
    }
  }

  /** A stored row is found again under its own name and URL exactly when no other stored row has both. */
  lemma {:induction false} OwnRowIsFoundIff(stored: Stored, i: nat)
    requires i < |stored| && stored[i].Some? && PairKey(stored[i].value).Some?
    ensures var row := stored[i].value;
            var alone := OnlyHit(stored, PairKey, PairKey(row).value, i);
            && (alone ==> FindExisting(stored, TextOf(row, Name), TextOf(row, Url)) == Some(row))
            && (!alone ==> FindExisting(stored, TextOf(row, Name), TextOf(row, Url)).None?)
  {
    var row := stored[i].value;
    var pair := PairKey(row).value;
    OnlyRowIsTheOnlyOne(stored, PairKey, pair, i);
    if j :| Hit(stored, PairKey, pair, j) && j != i {
      assert pair.name != [] ==> Hit(stored, NameKey, pair.name, i) && Hit(stored, NameKey, pair.name, j);
      assert pair.url != [] ==> Hit(stored, UrlKey, pair.url, i) && Hit(stored, UrlKey, pair.url, j);
      if pair.name != [] {
        OnlyRowIsTheOnlyOne(stored, NameKey, pair.name, i);
      }
      if pair.url != [] {
        OnlyRowIsTheOnlyOne(stored, UrlKey, pair.url, i);
      }
    }
  }

  // ----- The merged cards

  /** One field of card `i`, given the stored row it came from. */
  function FieldText(form: Form, i: nat, f: Field, origin: Option<Card>, preserve: set<Field>, clearable: set<Field>): string {
    if f in clearable && Truthy(Raw(form, i, Clear(f))) then []
    else if (i, Value(f)) !in form.values && f in preserve then (if origin.Some? then TextOf(origin.value, f) else [])
    else Posted(form, i, Value(f))
  }

  function Origin(form: Form, i: nat, stored: Stored): Option<Card> {
    FindExisting(stored, Posted(form, i, OriginalName), Posted(form, i, OriginalUrl))
  }

  function Texts(form: Form, i: nat, fields: seq<Field>, origin: Option<Card>, preserve: set<Field>, clearable: set<Field>): map<Field, string> {
    map f | f in fields && f != Enabled :: FieldText(form, i, f, origin, preserve, clearable)
  }

  function MergedCard(form: Form, i: nat, fields: seq<Field>, stored: Stored, preserve: set<Field>, clearable: set<Field>): Card {
    Card(Enabled in fields && Truthy(Raw(form, i, Value(Enabled))),
         Texts(form, i, fields, Origin(form, i, stored), preserve, clearable))
  }

  predicate Kept(card: Card) {
    TextOf(card, Name) != [] || TextOf(card, Url) != []
  }

  /** The values of a function at the first `n` numbers. */
  function FirstOf<T>(n: nat, f: nat -> T): seq<T> {
    if n == 0 then [] else FirstOf(n - 1, f) + [f(n - 1)]
  }

  lemma {:induction false} FirstOfAt<T>(n: nat, f: nat -> T)
    ensures |FirstOf(n, f)| == n && forall i :: 0 <= i < n ==> FirstOf(n, f)[i] == f(i)
  {
    if n > 0 {
      FirstOfAt(n - 1, f);
    }
  }

  function CardReader(form: Form, fields: seq<Field>, stored: Stored, preserve: set<Field>, clearable: set<Field>): nat -> Card {
    (i: nat) => MergedCard(form, i, fields, stored, preserve, clearable)
  }

  /** The first `n` cards of the form. */
  function EveryCard(form: Form, n: nat, fields: seq<Field>, stored: Stored, preserve: set<Field>, clearable: set<Field>): seq<Card> {
    FirstOf(n, CardReader(form, fields, stored, preserve, clearable))
  }

  /** The cards that have a name or a URL, in order. */
  function Named(cards: seq<Card>): seq<Card> {
    if cards == [] then [] else
      Named(cards[..|cards| - 1]) + if Kept(cards[|cards| - 1]) then [cards[|cards| - 1]] else []
  }

  function Merged(form: Form, n: nat, fields: seq<Field>, stored: Stored, preserve: set<Field>, clearable: set<Field>): seq<Card> {
    Named(EveryCard(form, n, fields, stored, preserve, clearable))
  }

  lemma {:induction false} NamedAndOneMore(cards: seq<Card>, card: Card)
    ensures Named(cards + [card]) == Named(cards) + if Kept(card) then [card] else []
  {
    assert (cards + [card])[..|cards|] == cards;
  }

  /** The cards kept are those with a name or a URL, each in its place: this determines `Named`. */
  lemma {:induction false} NamedKeepsOrder(a: seq<Card>, b: seq<Card>, card: Card)
    ensures Named(a + b) == Named(a) + Named(b)
    ensures Named([card]) == if TextOf(card, Name) == "" && TextOf(card, Url) == "" then [] else [card]
  {
    assert [card][..0] == [];
    if b == [] {
      assert a + b == a;
    } else {
      var init, last := b[..|b| - 1], b[|b| - 1];
      assert (a + b)[..|a + b| - 1] == a + init;
      NamedKeepsOrder(a, init, card);
    }
  }

  lemma {:induction false} AllNamed(cards: seq<Card>)
    requires forall i :: 0 <= i < |cards| ==> Kept(cards[i])
    ensures Named(cards) == cards
  {
    if cards != [] {
      AllNamed(cards[..|cards| - 1]);
    }
  }

  method SettingsParseInstances(form: Form, fields: seq<Field>, stored: Stored, preserve: set<Field>, clearable: set<Field>)
      returns (instances: seq<Card>)
    ensures instances == Merged(form, CardCount(form), fields, stored, preserve, clearable)
  {
    var byNameUrl := BuildUniqueIndex(stored, PairKey);
    var byName := BuildUniqueIndex(stored, NameKey);
    var byUrl := BuildUniqueIndex(stored, UrlKey);
    instances := [];
    for i := 0 to CardCount(form)
      invariant instances == Merged(form, i, fields, stored, preserve, clearable)
    {
      var origin := Lookup(stored, byNameUrl, byName, byUrl, Posted(form, i, OriginalName), Posted(form, i, OriginalUrl));
      var item := ReadCard(form, i, fields, origin, preserve, clearable);
      NamedAndOneMore(EveryCard(form, i, fields, stored, preserve, clearable), item);
      if TextOf(item, Name) != [] || TextOf(item, Url) != [] {
        instances := instances + [item];
      }
    }
  }

  /** `_find_existing_for_row`, over the three indexes. */
  method Lookup(ghost stored: Stored, byNameUrl: map<Identity, Card>, byName: map<string, Card>, byUrl: map<string, Card>,
                originalName: string, originalUrl: string) returns (found: Option<Card>)
    requires forall k :: (if k in byNameUrl then Some(byNameUrl[k]) else None) == OnlyRow(stored, PairKey, k)
    requires forall k :: (if k in byName then Some(byName[k]) else None) == OnlyRow(stored, NameKey, k)
    requires forall k :: (if k in byUrl then Some(byUrl[k]) else None) == OnlyRow(stored, UrlKey, k)
    ensures found == FindExisting(stored, originalName, originalUrl)
  {
    var pair := Identity(Norm(originalName), Norm(originalUrl));
    if pair.name == [] && pair.url == [] {
      return None;
    }
    if pair in byNameUrl {
      return Some(byNameUrl[pair]);
    }
    if pair.name != [] && pair.name in byName {
      return Some(byName[pair.name]);
    }
    if pair.url != [] && pair.url in byUrl {
      return Some(byUrl[pair.url]);
    }
    return None;
  }

  /** The inner loop over the fields of one card. */
  method ReadCard(form: Form, i: nat, fields: seq<Field>, origin: Option<Card>, preserve: set<Field>, clearable: set<Field>)
      returns (item: Card)
    ensures item.texts == Texts(form, i, fields, origin, preserve, clearable)
    ensures item.enabled <==> Enabled in fields && Truthy(Raw(form, i, Value(Enabled)))
  {
    item := Card(false, map[]);
    for k := 0 to |fields|
      invariant item.texts == Texts(form, i, fields[..k], origin, preserve, clearable)
      invariant item.enabled <==> Enabled in fields[..k] && Truthy(Raw(form, i, Value(Enabled)))
    {
      var f := fields[k];
      assert fields[..k + 1] == fields[..k] + [f];
      TextsAndOneMore(form, i, fields[..k], f, origin, preserve, clearable);
      if f == Enabled {
        item := item.(enabled := Truthy(Raw(form, i, Value(f))));
      } else {
        var value := ReadField(form, i, f, origin, preserve, clearable);
        item := item.(texts := item.texts[f := value]);
      }
    }
    assert fields[..|fields|] == fields;
  }

  lemma {:induction false} TextsAndOneMore(form: Form, i: nat, fields: seq<Field>, f: Field, origin: Option<Card>, preserve: set<Field>, clearable: set<Field>)
    ensures Texts(form, i, fields + [f], origin, preserve, clearable)
         == if f == Enabled then Texts(form, i, fields, origin, preserve, clearable)
            else Texts(form, i, fields, origin, preserve, clearable)[f := FieldText(form, i, f, origin, preserve, clearable)]
  {
  }

  method ReadField(form: Form, i: nat, f: Field, origin: Option<Card>, preserve: set<Field>, clearable: set<Field>) returns (value: string)
    ensures value == FieldText(form, i, f, origin, preserve, clearable)
  {
    var clear := f in clearable && Truthy(Raw(form, i, Clear(f)));
    value := Posted(form, i, Value(f));
    if clear {
      value := [];
    } else if (i, Value(f)) !in form.values && value == [] && f in preserve {
      value := if origin.Some? then TextOf(origin.value, f) else [];
    }
  }

  // ----- Where a field of a merged card comes from

  /** The box of this name is ticked on card `i`: it was posted, with a word for yes in any case. */
  ghost predicate Ticked(form: Form, i: nat, part: Part) {
    (i, part) in form.values && exists yes :: yes in ["1", "true", "on", "yes"] && Lower(form.values[(i, part)]) == yes
  }

  lemma {:induction false} TickedIsTruthy(form: Form, i: nat, part: Part)
    ensures Ticked(form, i, part) <==> Truthy(Raw(form, i, part))
  {
    var words := ["1", "true", "on", "yes"];
    assert words[0] in words && words[1] in words && words[2] in words && words[3] in words;
  }

  /** What the member typed into a field that was not cleared is what is stored, whatever was stored before. */
  lemma {:induction false} EditsArrive(form: Form, i: nat, f: Field, fields: seq<Field>, stored: Stored, preserve: set<Field>, clearable: set<Field>)
    requires f in fields && f != Enabled && (i, Value(f)) in form.values && !(f in clearable && Ticked(form, i, Clear(f)))
    ensures TextOf(MergedCard(form, i, fields, stored, preserve, clearable), f) == Strip(form.values[(i, Value(f))])
  {
    TickedIsTruthy(form, i, Clear(f));
  }

  /** A ticked "clear" box leaves the field blank, whatever is stored and whatever was typed. */
  lemma {:induction false} ClearedFieldsAreBlank(form: Form, i: nat, f: Field, fields: seq<Field>, stored: Stored, preserve: set<Field>, clearable: set<Field>)
    requires f in fields && f != Enabled && f in clearable && Ticked(form, i, Clear(f))
    ensures TextOf(MergedCard(form, i, fields, stored, preserve, clearable), f) == []
  {
    TickedIsTruthy(form, i, Clear(f));
  }

  /** An absent field is the found row's text when it is to be kept, and blank otherwise; the switch is its own box. */
  lemma {:induction false} AbsentFieldsAreInheritedIff(form: Form, i: nat, f: Field, fields: seq<Field>, stored: Stored, preserve: set<Field>, clearable: set<Field>)
    requires f in fields && f != Enabled && (i, Value(f)) !in form.values && !(f in clearable && Ticked(form, i, Clear(f)))
    ensures var card, origin := MergedCard(form, i, fields, stored, preserve, clearable), Origin(form, i, stored);
            TextOf(card, f) == if f in preserve && origin.Some? && f in origin.value.texts then origin.value.texts[f] else []
  {
    TickedIsTruthy(form, i, Clear(f));
    StripTrimmed([]);
  }

  lemma {:induction false} TheSwitchIsItsBox(form: Form, i: nat, fields: seq<Field>, stored: Stored, preserve: set<Field>, clearable: set<Field>)
    ensures MergedCard(form, i, fields, stored, preserve, clearable).enabled <==> Enabled in fields && Ticked(form, i, Value(Enabled))
    ensures MergedCard(form, i, fields, stored, preserve, clearable).texts.Keys == (set f | f in fields && f != Enabled)
  {
    TickedIsTruthy(form, i, Value(Enabled));
  }

  /**
   A brand-new card (rendered with neither a name nor a URL) inherits nothing, and neither does one whose name
   and URL, name, and URL each belong to no stored row or to several: its absent fields come out blank.
   */
  lemma {:induction false} AmbiguousOrNewCardInheritsNothing(form: Form, i: nat, f: Field, stored: Stored, preserve: set<Field>, clearable: set<Field>)
    requires (i, Value(f)) !in form.values
    requires NoSingleRow(stored, Posted(form, i, OriginalName), Posted(form, i, OriginalUrl))
    ensures FieldText(form, i, f, Origin(form, i, stored), preserve, clearable) == []
  {
    NothingIsFound(stored, Posted(form, i, OriginalName), Posted(form, i, OriginalUrl));
    StripTrimmed([]);
  }

  /** Neither key is filled in, or no stored row stands alone under any of the three keys. */
  ghost predicate NoSingleRow(stored: Stored, name: string, url: string) {
    || (Norm(name) == [] && Norm(url) == [])
    || forall j :: !OnlyHit(stored, PairKey, Identity(Norm(name), Norm(url)), j)
             && !OnlyHit(stored, NameKey, Norm(name), j) && !OnlyHit(stored, UrlKey, Norm(url), j)
  }

  lemma {:induction false} NothingIsFound(stored: Stored, name: string, url: string)
    requires NoSingleRow(stored, name, url)
    ensures FindExisting(stored, name, url).None?
  {
    if FindExisting(stored, name, url).Some? {
      var j := FoundRowSharesTheIdentity(stored, name, url);
      assert false;
    }
  }

  // ----- Saving a page nobody edited

  /**
   Card `i` of the form is this stored row as a page renders it: each field is posted with the stored text, but a
   field to be kept may be left out of the form.
   */
  ghost predicate Renders(form: Form, i: nat, row: Card, fields: seq<Field>, preserve: set<Field>) {
    && (Enabled in fields ==> (row.enabled <==> Truthy(Raw(form, i, Value(Enabled)))))
    && Posted(form, i, OriginalName) == TextOf(row, Name) && Posted(form, i, OriginalUrl) == TextOf(row, Url)
    && (forall f :: f in fields && f != Enabled && (f !in preserve || (i, Value(f)) in form.values) ==> Posted(form, i, Value(f)) == TextOf(row, f))
    && (forall f :: f in fields ==> !Truthy(Raw(form, i, Clear(f))))
  }

  /** The card says in every field what the row says. */
  ghost predicate SameFields(card: Card, row: Card, fields: seq<Field>) {
    && (Enabled in fields ==> (card.enabled <==> row.enabled))
    && forall f :: f in fields && f != Enabled ==> TextOf(card, f) == TextOf(row, f)
  }

  /** The row has a name or URL and no other stored row has the same of both. */
  ghost predicate StandsAlone(stored: Stored, i: nat)
    requires i < |stored| && stored[i].Some?
  {
    PairKey(stored[i].value).Some? && OnlyHit(stored, PairKey, PairKey(stored[i].value).value, i)
  }

  /** The form leaves out a field in which the row has something to keep. */
  ghost predicate LeavesOut(form: Form, i: nat, row: Card, fields: seq<Field>, preserve: set<Field>) {
    exists f :: f in fields && f != Enabled && f in preserve && (i, Value(f)) !in form.values && TextOf(row, f) != []
  }

  lemma {:induction false} OriginOfARenderedCard(form: Form, i: nat, fields: seq<Field>, stored: Stored, preserve: set<Field>)
    requires i < |stored| && stored[i].Some? && Renders(form, i, stored[i].value, fields, preserve)
    ensures Origin(form, i, stored) == if StandsAlone(stored, i) then stored[i] else None
  {
    if PairKey(stored[i].value).Some? {
      OwnRowIsFoundIff(stored, i);
    }
  }

  lemma {:induction false} FieldOfARenderedCard(form: Form, i: nat, f: Field, row: Card, fields: seq<Field>, origin: Option<Card>, preserve: set<Field>, clearable: set<Field>)
    requires Renders(form, i, row, fields, preserve) && f in fields && f != Enabled && (origin == Some(row) || origin == None)
    ensures FieldText(form, i, f, origin, preserve, clearable)
         == if f in preserve && (i, Value(f)) !in form.values && origin.None? then [] else TextOf(row, f)
  {
  }

  /**
   An unedited card comes back with every field of its row exactly when the row stands alone or the form leaves
   out nothing the row would have to be found for.
   */
  lemma {:induction false} RenderedCardIsRestoredIff(form: Form, i: nat, fields: seq<Field>, stored: Stored, preserve: set<Field>, clearable: set<Field>)
    requires i < |stored| && stored[i].Some? && Renders(form, i, stored[i].value, fields, preserve)
    ensures SameFields(MergedCard(form, i, fields, stored, preserve, clearable), stored[i].value, fields)
       <==> StandsAlone(stored, i) || !LeavesOut(form, i, stored[i].value, fields, preserve)
  {
    var row := stored[i].value;
    OriginOfARenderedCard(form, i, fields, stored, preserve);
    var origin := Origin(form, i, stored);
    var card := MergedCard(form, i, fields, stored, preserve, clearable);
    forall f | f in fields && f != Enabled
      ensures TextOf(card, f) == if f in preserve && (i, Value(f)) !in form.values && origin.None? then [] else TextOf(row, f)
    {
      FieldOfARenderedCard(form, i, f, row, fields, origin, preserve, clearable);
    }
    if LeavesOut(form, i, row, fields, preserve) && origin.None? {
      var f :| f in fields && f != Enabled && f in preserve && (i, Value(f)) !in form.values && TextOf(row, f) != [];
      assert TextOf(card, f) != TextOf(row, f);
    }
  }

  /** A row with a name or URL, rendered with inputs for both, comes back as a card with a name or URL. */
  lemma {:induction false} RenderedCardIsKept(form: Form, i: nat, fields: seq<Field>, stored: Stored, preserve: set<Field>, clearable: set<Field>)
    requires i < |stored| && stored[i].Some? && Renders(form, i, stored[i].value, fields, preserve)
    requires Name !in preserve && Url !in preserve && HasIdentity(stored[i].value, fields)
    ensures Kept(MergedCard(form, i, fields, stored, preserve, clearable))
  {
    var row := stored[i].value;
    OriginOfARenderedCard(form, i, fields, stored, preserve);
    var origin := Origin(form, i, stored);
    if Name in fields {
      FieldOfARenderedCard(form, i, Name, row, fields, origin, preserve, clearable);
    }
    if Url in fields {
      FieldOfARenderedCard(form, i, Url, row, fields, origin, preserve, clearable);
    }
  }

  /** The row has a name or a URL among the fields of the connector. */
  predicate HasIdentity(row: Card, fields: seq<Field>) {
    (Name in fields && TextOf(row, Name) != []) || (Url in fields && TextOf(row, Url) != [])
  }

  ghost predicate Restored(i: nat, fields: seq<Field>, stored: Stored, cards: seq<Card>)
    requires i < |stored| && stored[i].Some? && i < |cards|
  {
    SameFields(cards[i], stored[i].value, fields)
  }

  /**
   Saving an unedited page gives every stored row back, passwords included, exactly when no row shares its name and URL
   with another while the form leaves out something it has to keep. Each row comes back at its own place.
   */
  lemma {:induction false} UneditedPageKeepsEverythingIff(form: Form, fields: seq<Field>, stored: Stored, preserve: set<Field>, clearable: set<Field>)
    requires form.count == Some(|stored|) && Name !in preserve && Url !in preserve
    requires forall i :: 0 <= i < |stored| ==> stored[i].Some? && HasIdentity(stored[i].value, fields) && Renders(form, i, stored[i].value, fields, preserve)
    ensures |Merged(form, CardCount(form), fields, stored, preserve, clearable)| == |stored|
    ensures (forall i :: 0 <= i < |stored| ==> Restored(i, fields, stored, Merged(form, CardCount(form), fields, stored, preserve, clearable)))
       <==> forall i :: 0 <= i < |stored| ==> StandsAlone(stored, i) || !LeavesOut(form, i, stored[i].value, fields, preserve)
  {
    var n, cards := |stored|, EveryCard(form, |stored|, fields, stored, preserve, clearable);
    FirstOfAt(n, CardReader(form, fields, stored, preserve, clearable));
    forall i | 0 <= i < n
      ensures Kept(cards[i])
      ensures Restored(i, fields, stored, cards) <==> StandsAlone(stored, i) || !LeavesOut(form, i, stored[i].value, fields, preserve)
    {
      RenderedCardIsKept(form, i, fields, stored, preserve, clearable);
      RenderedCardIsRestoredIff(form, i, fields, stored, preserve, clearable);
    }
    AllNamed(cards);
  }
}
