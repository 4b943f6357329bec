/**
 Translation catalogues: the checker that compares them with the keys in use (scripts/i18n_check.py) and
 the lookups that render a key at run time (app/i18n.py).
 */
module Catalogues {
  import opened Options
  import opened PyText
  import opened Placeholders

  /** A JSON value of a catalogue: only strings are translations. */
  datatype Entry = Translation(text: string) | OtherJson

  type Catalogue = map<string, Entry>

  /** A key as the sources use it; `plural` keys hold both English forms. */
  datatype Key = Key(text: string, plural: bool)

  datatype Problem =
    | Missing(locale: string, key: string)
    | Extra(locale: string, key: string, names: set<string>)
    | Dropped(locale: string, key: string, names: set<string>)

  datatype Orphan = Orphan(locale: string, key: string)

  // ----- The checker

  /** `{key.text: key for key in keys}`: of several uses of one text, the last decides whether it is plural. */
  function Used(keys: seq<Key>): map<string, bool> {
    if keys == [] then map[] else Used(keys[..|keys| - 1])[keys[|keys| - 1].text := keys[|keys| - 1].plural]
  }

  /** A present translation: a string with something besides whitespace in it. */
  function Present(data: Catalogue, key: string): Option<string> {
    if key in data && data[key].Translation? && !Blank(data[key].text) then Some(data[key].text) else None
  }

  function Allowed(key: string, plural: bool): set<string> {
    Names(key) + if plural then {"n"} else {}
  }

  function ProblemsOf(locale: string, key: string, plural: bool, data: Catalogue): seq<Problem> {
    var value := Present(data, key);
    if value.None? then [Missing(locale, key)]
    else
      var extra := Names(value.value) - Allowed(key, plural);
      var dropped := Names(key) - Names(value.value);
      (if extra != {} then [Extra(locale, key, extra)] else []) + (if dropped != {} then [Dropped(locale, key, dropped)] else [])
  }

  /** Of several uses of one text the last says whether it is plural. */
  lemma {:induction false} TheLastUseDecides(keys: seq<Key>, i: nat)
    requires i < |keys| && forall j :: i < j < |keys| ==> keys[j].text != keys[i].text
    ensures keys[i].text in Used(keys) && Used(keys)[keys[i].text] == keys[i].plural
  {
    if i < |keys| - 1 {
      TheLastUseDecides(keys[..|keys| - 1], i);
    }
  }

  /**
   What is reported of a key: nothing but that it is missing when there is no translation; else the placeholders the
   translation has beyond the key's, where a plural may also have `n`, and those of the key that it drops.
   */
  lemma {:induction false} ProblemsOfAKey(locale: string, key: string, plural: bool, data: Catalogue, e: Problem)
    ensures var missing := key !in data || data[key].OtherJson? || Strip(data[key].text) == "";
            && (missing ==> (e in ProblemsOf(locale, key, plural, data) <==> e == Missing(locale, key)))
            && (!missing ==>
                  var added := (set n | n in Names(data[key].text) && n !in Names(key) && !(plural && n == "n"));
                  var lost := (set n | n in Names(key) && n !in Names(data[key].text));
                  (e in ProblemsOf(locale, key, plural, data) <==>
                    (added != {} && e == Extra(locale, key, added)) || (lost != {} && e == Dropped(locale, key, lost))))
  {
    if key in data && data[key].Translation? && Strip(data[key].text) != "" {
      var value := data[key].text;
      assert Names(value) - Allowed(key, plural) == set n | n in Names(value) && n !in Names(key) && !(plural && n == "n");
      assert Names(key) - Names(value) == set n | n in Names(key) && n !in Names(value);
    }
  }

  function DataOf(catalogues: map<string, Catalogue>, locale: string): Catalogue {
    if locale in catalogues then catalogues[locale] else map[]
  }

  /** The texts in use, each once. */
  method CollectUsed(keys: seq<Key>) returns (used: map<string, bool>, texts: seq<string>)
    ensures used == Used(keys)
    ensures forall t :: t in texts <==> t in used
  {
    used, texts := map[], [];
    for i := 0 to |keys|
      invariant used == Used(keys[..i])
      invariant forall t :: t in texts <==> t in used
    {
      assert keys[..i + 1][..i] == keys[..i];
      if keys[i].text !in used {
        texts := texts + [keys[i].text];
      }
      used := used[keys[i].text := keys[i].plural];
    }
    assert keys[..|keys|] == keys;
  }

  ghost predicate Reported(e: Problem, locales: seq<string>, catalogues: map<string, Catalogue>, used: map<string, bool>) {
    exists l, t :: l in locales && t in used && e in ProblemsOf(l, t, used[t], DataOf(catalogues, l))
  }

  /** The loop over the keys of one locale. */
  method CheckLocale(locale: string, texts: seq<string>, used: map<string, bool>, data: Catalogue) returns (errors: seq<Problem>)
    requires forall t :: t in texts ==> t in used
    ensures forall e :: e in errors <==> exists t :: t in texts && e in ProblemsOf(locale, t, used[t], data)
  {
    errors := [];
    for i := 0 to |texts|
      invariant forall e :: e in errors <==> exists k :: 0 <= k < i && e in ProblemsOf(locale, texts[k], used[texts[k]], data)
    {
      errors := errors + ProblemsOf(locale, texts[i], used[texts[i]], data);
    }
  }

  method FindOrphans(locale: string, used: map<string, bool>, data: Catalogue) returns (orphans: seq<Orphan>)
    ensures forall o :: o in orphans <==> o.locale == locale && o.key in data && o.key !in used
  {
    orphans := [];
    var rest := data.Keys;
    while rest != {}
      invariant rest <= data.Keys
      invariant forall o :: o in orphans <==> o.locale == locale && o.key in data && o.key !in rest && o.key !in used
      decreases |rest|
    {
      var t :| t in rest;
      rest := rest - {t};
      if t !in used {
        orphans := orphans + [Orphan(locale, t)];
      }
    }
  }

  /** `check_catalogues`: every problem of every key in every locale, and the entries nothing uses. */
  method CheckCatalogues(locales: seq<string>, catalogues: map<string, Catalogue>, keys: seq<Key>)
    returns (errors: seq<Problem>, warnings: seq<Orphan>)
    ensures forall e :: e in errors <==> Reported(e, locales, catalogues, Used(keys))
    ensures forall o :: o in warnings <==>
              o.locale in locales && o.key in DataOf(catalogues, o.locale) && forall k :: k in keys ==> k.text != o.key
  {
    var used, texts := CollectUsed(keys);
    UsedAreTheTexts(keys);
    errors, warnings := [], [];
    for i := 0 to |locales|
      invariant forall e :: e in errors <==> Reported(e, locales[..i], catalogues, used)
      invariant forall o :: o in warnings <==> o.locale in locales[..i] && o.key in DataOf(catalogues, o.locale) && o.key !in used
    {
      var data := DataOf(catalogues, locales[i]);
      assert locales[..i + 1] == locales[..i] + [locales[i]];
      var found := CheckLocale(locales[i], texts, used, data);
      var orphans := FindOrphans(locales[i], used, data);
      ghost var before := errors;
      errors, warnings := errors + found, warnings + orphans;
      forall e ensures e in errors <==> Reported(e, locales[..i + 1], catalogues, used) {
        ReportedStep(e, locales, i, catalogues, used, texts, found);
      }
    }
    assert locales[..|locales|] == locales;
  }

  lemma {:induction false} ReportedStep(e: Problem, locales: seq<string>, i: nat, catalogues: map<string, Catalogue>,
                                        used: map<string, bool>, texts: seq<string>, found: seq<Problem>)
    requires i < |locales| && forall t :: t in texts <==> t in used
    requires e in found <==> exists t :: t in texts && e in ProblemsOf(locales[i], t, used[t], DataOf(catalogues, locales[i]))
    ensures Reported(e, locales[..i + 1], catalogues, used) <==> Reported(e, locales[..i], catalogues, used) || e in found
  {
    assert locales[..i + 1] == locales[..i] + [locales[i]];
  }

  lemma {:induction false} UsedAreTheTexts(keys: seq<Key>)
    ensures forall t :: t in Used(keys) <==> exists k :: k in keys && k.text == t
  {
    if keys != [] {
      UsedAreTheTexts(keys[..|keys| - 1]);
      assert keys == keys[..|keys| - 1] + [keys[|keys| - 1]];
    }
  }

  // ----- Rendering

  /** The text `translate` interpolates: the translation, or the English key when there is none. */
  function Chosen(data: Catalogue, key: string): string {
    if Present(data, key).Some? then Present(data, key).value else key
  }

  function Translate(data: Catalogue, key: string, params: map<string, string>): string {
    Interpolate(Chosen(data, key), params)
  }

  function PluralKey(one: string, other: string): string {
    one + (['|'] + other)
  }

  /** The text `translate_plural` interpolates; `single` is whether the count equals one. */
  function ChosenPlural(data: Catalogue, single: bool, one: string, other: string): string {
    if Present(data, PluralKey(one, other)).Some? then Present(data, PluralKey(one, other)).value
    else if single then one else other
  }

  /** `{"n": count, **params}`: a caller's own `n` wins. */
  function Merged(count: string, params: map<string, string>): map<string, string> {
    map["n" := count] + params
  }

  function TranslatePlural(data: Catalogue, count: string, single: bool, one: string, other: string, params: map<string, string>): string {
    Interpolate(ChosenPlural(data, single, one, other), Merged(count, params))
  }

  /**
   Which text a plural lookup renders: the catalogue's one entry for both forms when it has one, else the English
   form for the count. The count fills `{n}` unless the caller passes its own `n`.
   */
  lemma {:induction false} PluralRendersTheFormOfTheCount(data: Catalogue, count: string, one: string, other: string, params: map<string, string>)
    ensures var key := one + "|" + other;
            var filled := if "n" in params then params else params["n" := count];
            && (key in data && data[key].Translation? && Strip(data[key].text) != "" ==>
                  TranslatePlural(data, count, true, one, other, params) == TranslatePlural(data, count, false, one, other, params)
                    == Interpolate(data[key].text, filled))
            && (key !in data || data[key].OtherJson? || Strip(data[key].text) == "" ==>
                  && TranslatePlural(data, count, true, one, other, params) == Interpolate(one, filled)
                  && TranslatePlural(data, count, false, one, other, params) == Interpolate(other, filled))
  {
    assert PluralKey(one, other) == one + "|" + other;
    assert Merged(count, params) == if "n" in params then params else params["n" := count];
  }

  /** A plain lookup renders the catalogue's entry when it is a string with something in it, else the English key. */
  lemma {:induction false} PlainLookupFallsBackToTheKey(data: Catalogue, key: string, params: map<string, string>)
    ensures Translate(data, key, params)
         == Interpolate(if key in data && data[key].Translation? && Strip(data[key].text) != "" then data[key].text else key, params)
  {
  }

  /** Every placeholder of the text is given a value. */
  predicate FillsAll(text: string, params: map<string, string>) {
    Names(text) <= params.Keys
  }

  /** The checker accepted the catalogue of this locale for this key. */
  predicate Passes(locale: string, data: Catalogue, keys: seq<Key>, key: string) {
    key in Used(keys) && ProblemsOf(locale, key, Used(keys)[key], data) == []
  }

  lemma {:induction false} SomeProblemIsReported(l: string, t: string, locales: seq<string>, catalogues: map<string, Catalogue>, used: map<string, bool>)
      returns (e: Problem)
    requires l in locales && t in used && ProblemsOf(l, t, used[t], DataOf(catalogues, l)) != []
    ensures Reported(e, locales, catalogues, used)
  {
    e := ProblemsOf(l, t, used[t], DataOf(catalogues, l))[0];
    assert e in ProblemsOf(l, t, used[t], DataOf(catalogues, l));
  }

  /** No error reported is exactly: every key in use passes in every locale. */
  lemma {:induction false} NoErrorsMeansEveryKeyPasses(locales: seq<string>, catalogues: map<string, Catalogue>, keys: seq<Key>)
    ensures (forall e :: !Reported(e, locales, catalogues, Used(keys))) <==>
            forall l, k :: l in locales && k in keys ==> Passes(l, DataOf(catalogues, l), keys, k.text)
  {
    UsedAreTheTexts(keys);
    if forall e :: !Reported(e, locales, catalogues, Used(keys)) {
      forall l, k | l in locales && k in keys ensures Passes(l, DataOf(catalogues, l), keys, k.text) {
        if ProblemsOf(l, k.text, Used(keys)[k.text], DataOf(catalogues, l)) != [] {
          var e := SomeProblemIsReported(l, k.text, locales, catalogues, Used(keys));
        }
      }
    }
    if forall l, k :: l in locales && k in keys ==> Passes(l, DataOf(catalogues, l), keys, k.text) {
      forall l, t | l in locales && t in Used(keys) ensures ProblemsOf(l, t, Used(keys)[t], DataOf(catalogues, l)) == [] {
        var k :| k in keys && k.text == t;
        assert Passes(l, DataOf(catalogues, l), keys, k.text);
      }
    }
  }

  lemma {:induction false} PassingTranslation(locale: string, data: Catalogue, keys: seq<Key>, key: string)
    requires Passes(locale, data, keys, key)
    ensures Present(data, key).Some?
    ensures Names(key) <= Names(Present(data, key).value) <= Allowed(key, Used(keys)[key])
  {
  }

  /** Nothing is left to fill in what `translate` renders: no further parameter could change it. */
  ghost predicate RendersFully(data: Catalogue, key: string, params: map<string, string>) {
    forall more: map<string, string> :: more.Keys !! params.Keys ==> Translate(data, key, params + more) == Translate(data, key, params)
  }

  lemma {:induction false} RendersFullyIffFilled(data: Catalogue, key: string, params: map<string, string>)
    ensures RendersFully(data, key, params) <==> FillsAll(Chosen(data, key), params)
  {
    CoveredIffNothingLeftToFill(Chosen(data, key), params);
    var text := Chosen(data, key);
    assert forall more: map<string, string> :: Translate(data, key, params + more) == Interpolate(text, params + more);
  }

  /** The same for `translate_plural`, where the count is a parameter of its own. */
  ghost predicate PluralRendersFully(data: Catalogue, count: string, single: bool, one: string, other: string, params: map<string, string>) {
    forall more: map<string, string> :: more.Keys !! params.Keys + {"n"} ==>
      TranslatePlural(data, count, single, one, other, params + more) == TranslatePlural(data, count, single, one, other, params)
  }

  lemma {:induction false} FilledPluralRendersFully(
      data: Catalogue, count: string, single: bool, one: string, other: string, params: map<string, string>)
    requires FillsAll(ChosenPlural(data, single, one, other), Merged(count, params))
    ensures PluralRendersFully(data, count, single, one, other, params)
  {
    var text, merged := ChosenPlural(data, single, one, other), Merged(count, params);
    CoveredIffNothingLeftToFill(text, merged);
    forall more: map<string, string> | more.Keys !! params.Keys + {"n"}
      ensures TranslatePlural(data, count, single, one, other, params + more) == TranslatePlural(data, count, single, one, other, params)
    {
      MergedWithMore(count, params, more);
      assert more.Keys !! merged.Keys;
    }
  }

  lemma {:induction false} MergedWithMore(count: string, params: map<string, string>, more: map<string, string>)
    ensures Merged(count, params + more) == Merged(count, params) + more
    ensures Merged(count, params).Keys == params.Keys + {"n"}
  {
  }

  /**
   A plural key of a catalogue that passes renders fully: whatever the count, parameters that cover the
   placeholders of the English key, all but the `n` the count itself gives, leave no placeholder of the chosen
   text unfilled; and every placeholder of the key appears in the translation.
   */
  lemma {:induction false} CheckedPluralRendersFully(
      locale: string, data: Catalogue, keys: seq<Key>, one: string, other: string,
      count: string, single: bool, params: map<string, string>)
    requires Passes(locale, data, keys, PluralKey(one, other))
    requires Names(PluralKey(one, other)) <= params.Keys + {"n"}
    ensures FillsAll(ChosenPlural(data, single, one, other), Merged(count, params))
    ensures PluralRendersFully(data, count, single, one, other, params)
    ensures Names(one) + Names(other) <= Names(ChosenPlural(data, single, one, other))
  {
    PassingTranslation(locale, data, keys, PluralKey(one, other));
    NamesOfJoined(one, other);
    FilledPluralRendersFully(data, count, single, one, other, params);
  }

  /** Without a catalogue entry the English forms render fully under the same parameters. */
  lemma {:induction false} EnglishPluralRendersFully(
      data: Catalogue, one: string, other: string, count: string, single: bool, params: map<string, string>)
    requires Present(data, PluralKey(one, other)).None?
    requires Names(PluralKey(one, other)) <= params.Keys + {"n"}
    ensures FillsAll(ChosenPlural(data, single, one, other), Merged(count, params))
    ensures PluralRendersFully(data, count, single, one, other, params)
  {
    NamesOfJoined(one, other);
    FilledPluralRendersFully(data, count, single, one, other, params);
  }

  /**
   A plain key of a catalogue that passes renders fully, for all parameters covering the key, exactly
   when the checker did not take the same text for a plural key and so let `{n}` into its translation.
   */
  lemma {:induction false} CheckedKeyRendersFullyIff(locale: string, data: Catalogue, keys: seq<Key>, key: string)
    requires Passes(locale, data, keys, key)
    ensures (forall params: map<string, string> :: Names(key) <= params.Keys ==> RendersFully(data, key, params)) <==>
            !(Used(keys)[key] && "n" in Names(Chosen(data, key)) && "n" !in Names(key))
  {
    PassingTranslation(locale, data, keys, key);
    if !(Used(keys)[key] && "n" in Names(Chosen(data, key)) && "n" !in Names(key)) {
      assert Names(Chosen(data, key)) <= Names(key);
      forall params: map<string, string> | Names(key) <= params.Keys
        ensures RendersFully(data, key, params)
      {
        RendersFullyIffFilled(data, key, params);
      }
    } else {
      var exact := map name | name in Names(key) :: "";
      assert exact.Keys == Names(key);
      RendersFullyIffFilled(data, key, exact);
      assert !RendersFully(data, key, exact);
    }
  }

  /** The case exists: one text used both as a plain and, later, as a plural key. */
  lemma {:induction false} PlainUseOfAPluralTextIsNotCovered(locale: string, key: string, value: string)
    requires Names(key) == {} && Names(value) == {"n"} && !Blank(value)
    ensures var keys := [Key(key, false), Key(key, true)];
            var data: Catalogue := map[key := Translation(value)];
            Passes(locale, data, keys, key) && !RendersFully(data, key, map[])
  {
    var keys := [Key(key, false), Key(key, true)];
    assert keys[..1] == [Key(key, false)];
    assert Used(keys)[key];
    RendersFullyIffFilled(map[key := Translation(value)], key, map[]);
  }
}
