/**
 The model catalog and the clamps that read it (app/contracts/llm_catalog.py): a registration replaces the
 whole catalog, and whatever is registered decides which context sizes and thinking levels a model offers.
 */
module LlmCatalog {
  import opened Options
  import opened PyText

  datatype Provider = Copilot | AiPlatform

  /** A reported window: an integer that is not a boolean, or anything else. */
  datatype Window = Tokens(n: int) | OddWindow

  /** `SUPPORTED_REASONING_EFFORTS`, least first. */
  datatype Effort = Low | Medium | High | XHigh | Max

  /** A thinking-level text after `strip().lower()`: a supported level, another word, or nothing usable. */
  datatype Word = Level(level: Effort) | OtherWord(text: string) | NoWord

  /** What a catalog row says about thinking levels: a list or tuple, whose items may not be texts, or anything else. */
  datatype Listing = Words(words: seq<Option<string>>) | OddListing

  const Presets: seq<int> := [64_000, 128_000, 256_000, 1_000_000]
  const DefaultSize := 256_000
  const MaxSize := 1_000_000
  const Ladder: seq<Effort> := [Low, Medium, High, XHigh, Max]

  function Rank(e: Effort): nat {
    match e case Low => 0 case Medium => 1 case High => 2 case XHigh => 3 case Max => 4
  }

  lemma {:induction false} LadderByRank(e: Effort)
    ensures Rank(e) < |Ladder| == 5 && Ladder[Rank(e)] == e
    ensures forall i :: 0 <= i < 5 ==> Rank(Ladder[i]) == i
  {
  }

  // ----- What a registration leaves behind

  predicate UsableWindow(item: (string, Window)) {
    Normalize(item.0) != [] && item.1.Tokens? && item.1.n > 0
  }

  /** A level named in any case and with any space around it. */
  function WordOf(text: string): Word {
    var word := Normalize(text);
    if word == [] then NoWord
    else if word == "low" then Level(Low)
    else if word == "medium" then Level(Medium)
    else if word == "high" then Level(High)
    else if word == "xhigh" then Level(XHigh)
    else if word == "max" then Level(Max)
    else OtherWord(word)
  }

  function NameOf(e: Effort): string {
    match e case Low => "low" case Medium => "medium" case High => "high" case XHigh => "xhigh" case Max => "max"
  }

  /** A text names a level in any case and between any spaces; a blank text says nothing; any other is its own word. */
  lemma {:induction false} WordsByName(text: string, e: Effort)
    ensures var word := Lower(Strip(text));
            && (word == NameOf(e) ==> WordOf(text) == Level(e))
            && (WordOf(text) == Level(e) ==> word == NameOf(e))
            && (word == "" <==> WordOf(text) == NoWord)
            && (WordOf(text).OtherWord? ==> WordOf(text).text == word)
  {
    assert |"low"| == 3 && |"medium"| == 6 && |"high"| == 4 && |"xhigh"| == 5 && |"max"| == 3;
    assert "low"[0] != "max"[0];
  }

  function Usable(words: seq<Option<string>>): seq<Word> {
    if words == [] then [] else
      var rest := Usable(words[..|words| - 1]);
      var last := words[|words| - 1];
      if last.None? || WordOf(last.value).NoWord? then rest else rest + [WordOf(last.value)]
  }

  /** A registered listing has exactly the words of its texts. */
  lemma {:induction false} UsableAreTheWords(words: seq<Option<string>>, word: Word)
    ensures word in Usable(words) <==> !word.NoWord? && exists i :: 0 <= i < |words| && words[i].Some? && WordOf(words[i].value) == word
  {
    if words != [] {
      var front, last := words[..|words| - 1], |words| - 1;
      UsableAreTheWords(front, word);
      assert forall i :: 0 <= i < last ==> front[i] == words[i];
      assert word in Usable(words) <==>
          word in Usable(front) || (words[last].Some? && !word.NoWord? && WordOf(words[last].value) == word);
      if i :| 0 <= i < |front| && front[i].Some? && WordOf(front[i].value) == word {
        assert words[i].Some? && WordOf(words[i].value) == word;
      }
      if i :| 0 <= i < |words| && words[i].Some? && WordOf(words[i].value) == word && i < last {
        assert front[i].Some? && WordOf(front[i].value) == word;
      }
    }
  }

  function Listed(listing: Listing): seq<Word> {
    if listing.Words? then Usable(listing.words) else []
  }

  function Identifiers(ids: seq<string>): set<string> {
    set id | id in ids && Normalize(id) != [] :: Normalize(id)
  }

  function Windows(items: seq<(string, Window)>): map<string, int> {
    if items == [] then map[] else
      var last := items[|items| - 1];
      var rest := Windows(items[..|items| - 1]);
      if UsableWindow(last) then rest[Normalize(last.0) := last.1.n] else rest
  }

  function Efforts(items: seq<(string, Listing)>): map<string, seq<Word>> {
    if items == [] then map[] else
      var last := items[|items| - 1];
      var rest := Efforts(items[..|items| - 1]);
      if Normalize(last.0) != [] && Listed(last.1) != [] then rest[Normalize(last.0) := Listed(last.1)] else rest
  }

  /** The row has a usable window and its model id spells the key. */
  predicate Spells(item: (string, Window), key: string) {
    Lower(Strip(item.0)) == key && key != "" && item.1.Tokens? && item.1.n >= 1
  }

  /** A key is registered exactly when some usable row spells it. */
  lemma {:induction false} RegisteredIffSpelled(items: seq<(string, Window)>, key: string)
    ensures key in Windows(items) <==> exists i :: 0 <= i < |items| && Spells(items[i], key)
  {
    if items != [] {
      var front, last := items[..|items| - 1], |items| - 1;
      RegisteredIffSpelled(front, key);
      assert key in Windows(items) <==> key in Windows(front) || Spells(items[last], key);
      if i :| 0 <= i < |front| && Spells(front[i], key) {
        assert Spells(items[i], key);
      }
      if i :| 0 <= i < |items| && Spells(items[i], key) && i < last {
        assert Spells(front[i], key);
      }
    }
  }

  /** The last usable row that spells a key decides its window. */
  lemma {:induction false} TheLastUsableRowDecides(items: seq<(string, Window)>, key: string, i: nat)
    requires i < |items| && Spells(items[i], key) && forall j :: i < j < |items| ==> !Spells(items[j], key)
    ensures key in Windows(items) && Windows(items)[key] == items[i].1.n
  {
    var front, last := items[..|items| - 1], |items| - 1;
    if i < last {
      assert !Spells(items[last], key);
      TheLastUsableRowDecides(front, key, i);
    }
  }

  /** The row lists some word and its model id spells the key. */
  predicate ListsFor(item: (string, Listing), key: string) {
    Lower(Strip(item.0)) == key && key != "" && item.1.Words? && Usable(item.1.words) != []
  }

  lemma {:induction false} ListingsAndOneMore(items: seq<(string, Listing)>, key: string)
    requires items != []
    ensures var before, last := Efforts(items[..|items| - 1]), items[|items| - 1];
            && (ListsFor(last, key) ==> key in Efforts(items) && Efforts(items)[key] == Usable(last.1.words))
            && (!ListsFor(last, key) ==> (key in Efforts(items) <==> key in before) && (key in before ==> Efforts(items)[key] == before[key]))
  {
  }

  /** The last row that lists something for a key decides its levels. */
  lemma {:induction false} TheLastListingDecides(items: seq<(string, Listing)>, key: string, i: nat)
    requires i < |items| && ListsFor(items[i], key) && forall j :: i < j < |items| ==> !ListsFor(items[j], key)
    ensures key in Efforts(items) && Efforts(items)[key] == Usable(items[i].1.words)
  {
    ListingsAndOneMore(items, key);
    if i < |items| - 1 {
      TheLastListingDecides(items[..|items| - 1], key, i);
    }
  }

  /** A key that no such row spells has no levels of its own. */
  lemma {:induction false} UnlistedKeysHaveNoLevels(items: seq<(string, Listing)>, key: string)
    requires forall j :: 0 <= j < |items| ==> !ListsFor(items[j], key)
    ensures key !in Efforts(items)
  {
    if items != [] {
      ListingsAndOneMore(items, key);
      UnlistedKeysHaveNoLevels(items[..|items| - 1], key);
    }
  }

  /** The known models are the nonblank ids, trimmed and lower-cased. */
  lemma {:induction false} ModelsAreTheIds(ids: seq<string>, key: string)
    ensures key in Identifiers(ids) <==> key != "" && exists i :: 0 <= i < |ids| && Lower(Strip(ids[i])) == key
  {
    if key in Identifiers(ids) {
      var id :| id in ids && Normalize(id) != [] && Normalize(id) == key;
      var i :| 0 <= i < |ids| && ids[i] == id;
    }
    if i :| 0 <= i < |ids| && Lower(Strip(ids[i])) == key {
      assert ids[i] in ids && Normalize(ids[i]) == key;
    }
  }

  lemma {:induction false} RegisteredValuesAreUsable(windows: seq<(string, Window)>, efforts: seq<(string, Listing)>)
    ensures forall key :: key in Windows(windows) ==> Windows(windows)[key] > 0
    ensures forall key :: key in Efforts(efforts) ==> Efforts(efforts)[key] != []
  {
    WindowsArePositive(windows);
    ListingsAreNonempty(efforts);
  }

  lemma {:induction false} WindowsArePositive(items: seq<(string, Window)>)
    ensures forall key :: key in Windows(items) ==> Windows(items)[key] > 0
  {
    if items != [] {
      WindowsArePositive(items[..|items| - 1]);
    }
  }

  lemma {:induction false} ListingsAreNonempty(items: seq<(string, Listing)>)
    ensures forall key :: key in Efforts(items) ==> Efforts(items)[key] != []
  {
    if items != [] {
      ListingsAreNonempty(items[..|items| - 1]);
    }
  }

  // ----- Context sizes

  function PresetsUpTo(window: int, n: nat): (r: seq<int>)
    requires n <= |Presets|
  {
    if n == 0 then [] else
      var rest := PresetsUpTo(window, n - 1);
      if Presets[n - 1] <= window then rest + [Presets[n - 1]] else rest
  }

  /** `context_size_options` for a model with this window (None when nobody knows it). */
  function SizeOptions(window: Option<int>): seq<int> {
    if window.None? || window.value >= MaxSize then Presets
    else
      var options := PresetsUpTo(window.value, |Presets|);
      if options == [] || options[|options| - 1] < window.value then options + [window.value] else options
  }

  predicate Increasing(s: seq<int>) {
    forall i, j :: 0 <= i < j < |s| ==> s[i] < s[j]
  }

  lemma {:induction false} LadderCut(window: int, n: nat)
    requires n <= |Presets|
    ensures var r := PresetsUpTo(window, n);
            && Increasing(r)
            && (forall x :: x in r <==> x in Presets[..n] && x <= window)
            && (n > 0 ==> forall x :: x in r ==> x <= Presets[n - 1])
  {
    if n > 0 {
      LadderCut(window, n - 1);
      var rest := PresetsUpTo(window, n - 1);
      assert n > 1 ==> Presets[n - 2] < Presets[n - 1];
      forall i | 0 <= i < |rest|
        ensures rest[i] < Presets[n - 1]
      {
        assert rest[i] in rest;
      }
      assert Presets[..n] == Presets[..n - 1] + [Presets[n - 1]];
    }
  }

  function Least(a: int, b: int): int {
    if a <= b then a else b
  }

  /**
   The offered sizes strictly increase, are the presets the window holds plus its own end, and for a known
   window stop exactly at the window or at 1,000,000, whichever is smaller.
   */
  lemma {:induction false} OptionsAreALadder(window: Option<int>)
    ensures var options := SizeOptions(window);
            && options != [] && Increasing(options)
            && (window.None? ==> options == Presets)
            && (window.Some? ==>
                  (options[|options| - 1] == Least(window.value, MaxSize)
                  && forall x :: x in options <==> x == Least(window.value, MaxSize) || (x in Presets && x <= window.value)))
  {
    if window.Some? && window.value < MaxSize {
      CutLadderEndsAtTheWindow(window.value);
    } else {
      assert Increasing(Presets) && Presets[|Presets| - 1] == MaxSize;
      assert forall x :: x in Presets ==> x <= MaxSize;
    }
  }

  lemma {:induction false} CutLadderEndsAtTheWindow(window: int)
    requires window < MaxSize
    ensures var options := SizeOptions(Some(window));
            && options != [] && Increasing(options) && options[|options| - 1] == window
            && forall x :: x in options <==> x == window || (x in Presets && x <= window)
  {
    LadderCut(window, |Presets|);
    assert Presets[..|Presets|] == Presets;
    ClosingTheLadder(PresetsUpTo(window, |Presets|), window);
  }

  lemma {:induction false} ClosingTheLadder(cut: seq<int>, window: int)
    requires Increasing(cut) && forall x :: x in cut ==> x <= window
    ensures var options := if cut == [] || cut[|cut| - 1] < window then cut + [window] else cut;
            && options != [] && Increasing(options) && options[|options| - 1] == window
            && forall x :: x in options <==> x == window || x in cut
  {
    forall i | 0 <= i < |cut|
      ensures cut[i] <= window
    {
      assert cut[i] in cut;
    }
    if cut != [] && cut[|cut| - 1] >= window {
      assert window in cut;
    }
  }

  /** `default_context_size` over a list of options. */
  function DefaultOf(options: seq<int>): int
    requires options != []
  {
    if DefaultSize in options then DefaultSize
    else if Below(options) != [] then Below(options)[|Below(options)| - 1]
    else options[0]
  }

  function Below(options: seq<int>): seq<int> {
    if options == [] then [] else
      var rest := Below(options[..|options| - 1]);
      if options[|options| - 1] < DefaultSize then rest + [options[|options| - 1]] else rest
  }

  lemma {:induction false} BelowMembers(options: seq<int>)
    ensures forall x :: x in Below(options) <==> x in options && x < DefaultSize
  {
    if options != [] {
      BelowMembers(options[..|options| - 1]);
      assert options == options[..|options| - 1] + [options[|options| - 1]];
    }
  }

  lemma {:induction false} Extended(s: seq<int>, x: int)
    requires Increasing(s) && forall y :: y in s ==> y < x
    ensures Increasing(s + [x])
  {
    forall i | 0 <= i < |s|
      ensures s[i] < x
    {
      assert s[i] in s;
    }
  }

  /** In an increasing list everything before the last is smaller. */
  lemma {:induction false} FrontIsSmaller(s: seq<int>, x: int)
    requires Increasing(s) && s != [] && x in s[..|s| - 1]
    ensures x < s[|s| - 1]
  {
    var i :| 0 <= i < |s| - 1 && s[..|s| - 1][i] == x;
    assert s[i] < s[|s| - 1];
  }

  lemma {:induction false} BelowKeepsOrder(options: seq<int>)
    requires Increasing(options)
    ensures Increasing(Below(options))
    ensures forall x :: x in Below(options) <==> x in options && x < DefaultSize
  {
    BelowMembers(options);
    if options != [] {
      var front, last := options[..|options| - 1], options[|options| - 1];
      BelowKeepsOrder(front);
      forall x | x in Below(front)
        ensures x < last
      {
        FrontIsSmaller(options, x);
      }
      Extended(Below(front), last);
    }
  }

  /** `size` is the greatest offered size not above `bound`. */
  predicate GreatestWithin(options: seq<int>, bound: int, size: int) {
    size in options && size <= bound && forall x :: x in options && x <= bound ==> x <= size
  }

  /** The default is the greatest offered size within 256,000, else the least offered. */
  lemma {:induction false} DefaultIsClosest(options: seq<int>)
    requires options != [] && Increasing(options)
    ensures DefaultOf(options) in options
    ensures (exists x :: x in options && x <= DefaultSize) ==> GreatestWithin(options, DefaultSize, DefaultOf(options))
    ensures (forall x :: x in options ==> x > DefaultSize) ==> forall x :: x in options ==> DefaultOf(options) <= x
  {
    BelowKeepsOrder(options);
    if Below(options) != [] {
      LastIsGreatest(Below(options));
    }
    LeastIsFirst(options);
  }

  lemma {:induction false} LastIsGreatest(s: seq<int>)
    requires Increasing(s) && s != []
    ensures s[|s| - 1] in s && forall x :: x in s ==> x <= s[|s| - 1]
  {
  }

  lemma {:induction false} LeastIsFirst(s: seq<int>)
    requires Increasing(s) && s != []
    ensures s[0] in s && forall x :: x in s ==> s[0] <= x
  {
  }

  /** `effective_context_size` over a list of options; None for a request that is not an integer. */
  function EffectiveSize(options: seq<int>, requested: Option<int>): int
    requires options != []
  {
    if requested.None? then DefaultOf(options)
    else if requested.value in options then requested.value
    else if requested.value > options[|options| - 1] then options[|options| - 1]
    else DefaultOf(options)
  }

  /** Whatever is requested, the effective size is offered and asking for it again gives it back. */
  lemma {:induction false} SizeClampIsARetraction(window: Option<int>, requested: Option<int>)
    requires window.Some? ==> window.value > 0
    ensures var options := SizeOptions(window);
            options != []
            && var size := EffectiveSize(options, requested);
               && size in options && EffectiveSize(options, Some(size)) == size
               && (window.Some? ==> size <= window.value) && 0 < size <= MaxSize
               && (requested.Some? && requested.value in options ==> size == requested.value)
  {
    OptionsAreALadder(window);
    DefaultIsClosest(SizeOptions(window));
    EffectiveIsOffered(SizeOptions(window), requested);
    OptionIsWithin(window, EffectiveSize(SizeOptions(window), requested));
  }

  lemma {:induction false} EffectiveIsOffered(options: seq<int>, requested: Option<int>)
    requires options != [] && DefaultOf(options) in options
    ensures EffectiveSize(options, requested) in options
    ensures EffectiveSize(options, Some(EffectiveSize(options, requested))) == EffectiveSize(options, requested)
    ensures requested.Some? && requested.value in options ==> EffectiveSize(options, requested) == requested.value
  {
    assert options[|options| - 1] in options;
  }

  lemma {:induction false} OptionIsWithin(window: Option<int>, x: int)
    requires (window.Some? ==> window.value > 0) && x in SizeOptions(window)
    ensures 0 < x <= MaxSize && (window.Some? ==> x <= window.value)
  {
    OptionsAreALadder(window);
    assert forall p :: p in Presets ==> 0 < p <= MaxSize;
  }

  /** No offered size lies strictly between the default and the top. */
  lemma {:induction false} NothingBetweenDefaultAndTop(window: Option<int>, x: int)
    requires x in SizeOptions(window)
    ensures SizeOptions(window) != []
    ensures var options := SizeOptions(window); x <= DefaultOf(options) || x == options[|options| - 1]
  {
    OptionsAreALadder(window);
    var options := SizeOptions(window);
    DefaultIsClosest(options);
    if window.None? || window.value >= MaxSize {
      assert DefaultSize == Presets[2] && Presets[2] in options;
    }
  }

  /**
   When the clamp rounds down and when it does not: a request at or above the default becomes the greatest
   offered size within it; a lower one that is not offered is replaced by the default, which is larger.
   */
  lemma {:induction false} SizeRoundsDownIff(window: Option<int>, requested: int)
    ensures SizeOptions(window) != []
    ensures var options := SizeOptions(window);
            GreatestWithin(options, requested, EffectiveSize(options, Some(requested)))
            <==> requested in options || DefaultOf(options) <= requested
    ensures var options := SizeOptions(window);
            EffectiveSize(options, Some(requested)) > requested <==> requested !in options && requested < DefaultOf(options)
  {
    OptionsAreALadder(window);
    var options := SizeOptions(window);
    DefaultIsClosest(options);
    var top := options[|options| - 1];
    assert top in options;
    forall x | x in options && x <= requested
      ensures x <= DefaultOf(options) || x == top
    {
      NothingBetweenDefaultAndTop(window, x);
    }
    assert forall x :: x in options ==> x <= top;
  }

  // ----- Thinking levels

  /** The supported levels a row lists, in ladder order (the first `n` of the ladder). */
  function OfferedUpTo(listed: seq<Word>, n: nat): seq<Effort>
    requires n <= |Ladder|
  {
    if n == 0 then [] else
      var rest := OfferedUpTo(listed, n - 1);
      if Level(Ladder[n - 1]) in listed then rest + [Ladder[n - 1]] else rest
  }

  /** A blank or unknown word asks for the managed default. */
  function Wanted(word: Word): Effort {
    if word.Level? then word.level else Medium
  }

  /** A text that names a level asks for it; any other, a blank one included, asks for medium. */
  lemma {:induction false} WantedByName(text: string, e: Effort)
    ensures Lower(Strip(text)) == NameOf(e) ==> Wanted(WordOf(text)) == e
    ensures (forall d: Effort :: Lower(Strip(text)) != NameOf(d)) ==> Wanted(WordOf(text)) == Medium
  {
    WordsByName(text, e);
    if WordOf(text).Level? {
      WordsByName(text, WordOf(text).level);
    }
  }

  function LevelOptions(listed: Option<seq<Word>>): seq<Effort> {
    if listed.Some? && listed.value != [] && OfferedUpTo(listed.value, |Ladder|) != []
    then OfferedUpTo(listed.value, |Ladder|)
    else Ladder
  }

  lemma {:induction false} OfferedAreTheListed(listed: seq<Word>, n: nat)
    requires n <= |Ladder|
    ensures forall e :: e in OfferedUpTo(listed, n) <==> Rank(e) < n && Level(e) in listed
    ensures forall i, j :: 0 <= i < j < |OfferedUpTo(listed, n)| ==> Rank(OfferedUpTo(listed, n)[i]) < Rank(OfferedUpTo(listed, n)[j])
  {
    if n > 0 {
      OfferedAreTheListed(listed, n - 1);
      var rest := OfferedUpTo(listed, n - 1);
      assert forall i :: 0 <= i < |rest| ==> rest[i] in rest;
      forall e | e in OfferedUpTo(listed, n) || Rank(e) < n
        ensures e in OfferedUpTo(listed, n) <==> Rank(e) < n && Level(e) in listed
      {
        LadderByRank(e);
      }
    }
  }

  lemma {:induction false} NothingOffered(listed: seq<Word>, n: nat)
    requires n <= |Ladder| && forall d :: Level(d) !in listed
    ensures OfferedUpTo(listed, n) == []
  {
    if n > 0 {
      NothingOffered(listed, n - 1);
    }
  }

  /** A model offers exactly the supported levels its row lists, or all five when it lists none of them; in order. */
  lemma {:induction false} LevelsOffered(listed: Option<seq<Word>>)
    ensures LevelOptions(listed) != []
    ensures forall e :: e in LevelOptions(listed) <==>
              listed.None? || Level(e) in listed.value || forall d :: Level(d) !in listed.value
    ensures forall i, j :: 0 <= i < j < |LevelOptions(listed)| ==> Rank(LevelOptions(listed)[i]) < Rank(LevelOptions(listed)[j])
  {
    if listed.Some? {
      OfferedAreTheListed(listed.value, |Ladder|);
      if forall d :: Level(d) !in listed.value {
        NothingOffered(listed.value, |Ladder|);
      } else {
        var d :| Level(d) in listed.value;
        LadderByRank(d);
      }
    }
    forall e ensures e in Ladder && Rank(e) < |Ladder| {
      LadderByRank(e);
    }
    LadderByRank(Low);
  }

  /** `level` is the greatest offered level not above `wanted`, or the least offered when there is none. */
  ghost predicate Closest(options: seq<Effort>, wanted: Effort, level: Effort) {
    && level in options
    && (forall e :: e in options && Rank(e) <= Rank(wanted) ==> Rank(e) <= Rank(level) <= Rank(wanted))
    && (Rank(level) > Rank(wanted) ==> forall e :: e in options ==> Rank(level) <= Rank(e))
  }

  /** The clamp is determined, keeps an offered level, is stable when reapplied, and never reverses two requests. */
  lemma {:induction false} LevelClampIsAMonotoneRetraction(options: seq<Effort>, low: Effort, high: Effort, a: Effort, b: Effort)
    requires Closest(options, low, a) && Closest(options, high, b) && Rank(low) <= Rank(high)
    ensures Rank(a) <= Rank(b)
    ensures low == high ==> a == b
    ensures low in options ==> a == low
    ensures Closest(options, a, a)
  {
    LadderByRank(a);
    LadderByRank(b);
    LadderByRank(low);
  }

  // ----- The registry

  /** What the clamps read: the catalog, and the models each provider is known to have anyway. */
  class ModelRegistry {
    const bundled: Provider -> set<string>
    var models: set<string>
    var windows: map<string, int>
    var efforts: map<string, seq<Word>>
    var known: bool

    ghost predicate Valid()
      reads this
    {
      && (known <==> models != {})
      && (forall key :: key in windows ==> windows[key] > 0)
      && (forall key :: key in efforts ==> efforts[key] != [])
    }

    constructor (bundled: Provider -> set<string>)
      ensures Valid() && this.bundled == bundled
      ensures models == {} && windows == map[] && efforts == map[] && !known
    {
      this.bundled := bundled;
      models, windows, efforts, known := {}, map[], map[], false;
    }

    /** Nothing of an earlier registration survives: the new state depends on the arguments alone. */
    method RegisterCatalogModels(ids: seq<string>, contextWindows: seq<(string, Window)>, reasoningEfforts: seq<(string, Listing)>)
        returns (normalized: set<string>)
      modifies this
      ensures Valid()
      ensures normalized == models == Identifiers(ids)
      ensures windows == Windows(contextWindows) && efforts == Efforts(reasoningEfforts)
      ensures known <==> exists i :: 0 <= i < |ids| && Normalize(ids[i]) != []
    {
      normalized := Identifiers(ids);
      models := normalized;
      windows := map[];
      for i := 0 to |contextWindows|
        invariant windows == Windows(contextWindows[..i]) && models == normalized
      {
        assert contextWindows[..i + 1][..i] == contextWindows[..i];
        if UsableWindow(contextWindows[i]) {
          windows := windows[Normalize(contextWindows[i].0) := contextWindows[i].1.n];
        }
      }
      assert contextWindows[..|contextWindows|] == contextWindows;
      efforts := map[];
      for i := 0 to |reasoningEfforts|
        invariant efforts == Efforts(reasoningEfforts[..i])
        invariant windows == Windows(contextWindows) && models == normalized
      {
        assert reasoningEfforts[..i + 1][..i] == reasoningEfforts[..i];
        var listed := Listed(reasoningEfforts[i].1);
        if Normalize(reasoningEfforts[i].0) != [] && listed != [] {
          efforts := efforts[Normalize(reasoningEfforts[i].0) := listed];
        }
      }
      assert reasoningEfforts[..|reasoningEfforts|] == reasoningEfforts;
      known := normalized != {};
      RegisteredValuesAreUsable(contextWindows, reasoningEfforts);
      assert known ==> exists id :: id in normalized;
      assert forall i :: 0 <= i < |ids| && Normalize(ids[i]) != [] ==> Normalize(ids[i]) in normalized;
    }

    method ClearCatalogModels()
      modifies this
      ensures Valid() && models == {} && windows == map[] && efforts == map[] && !known
    {
      models, windows, efforts, known := {}, map[], map[], false;
    }

    function ModelContextWindow(provider: Provider, model: string): (r: Option<int>)
      requires Valid()
      reads this
      ensures r.Some? ==> r.value > 0
    {
      if provider.Copilot? && Normalize(model) in windows then Some(windows[Normalize(model)])
      else if Strip(model) !in bundled(provider) then None
      else Some(MaxSize)
    }

    function ContextSizeOptions(provider: Provider, model: string): seq<int>
      requires Valid()
      reads this
    {
      SizeOptions(ModelContextWindow(provider, model))
    }

    function ReasoningEffortOptions(provider: Provider, model: string): seq<Effort>
      reads this
    {
      LevelOptions(if provider.Copilot? && Normalize(model) in efforts then Some(efforts[Normalize(model)]) else None)
    }

    /** `effective_reasoning_effort`: the two searching loops find the closest offered level. */
    method EffectiveReasoningEffort(provider: Provider, model: string, requested: string) returns (level: Effort)
      ensures Closest(ReasoningEffortOptions(provider, model), Wanted(WordOf(requested)), level)
    {
      var options := ReasoningEffortOptions(provider, model);
      LevelsOffered(if provider.Copilot? && Normalize(model) in efforts then Some(efforts[Normalize(model)]) else None);
      LadderByRank(options[0]);
      assert options[0] in options && Rank(options[0]) < 5;
      var wanted := Wanted(WordOf(requested));
      if wanted in options {
        return wanted;
      }
      LadderByRank(wanted);
      var index := Rank(wanted);
      var i := index;
      while i > 0
        invariant 0 <= i <= index
        invariant forall e :: e in options && Rank(e) <= index ==> Rank(e) < i
      {
        i := i - 1;
        LadderByRank(Ladder[i]);
        if Ladder[i] in options {
          return Ladder[i];
        }
        RankIsInjective(Ladder[i]);
      }
      i := index + 1;
      while i < |Ladder|
        invariant index < i <= 5
        invariant forall e :: e in options ==> i <= Rank(e)
      {
        LadderByRank(Ladder[i]);
        if Ladder[i] in options {
          return Ladder[i];
        }
        RankIsInjective(Ladder[i]);
        i := i + 1;
      }
      // The last resort of the source is never reached: some supported level is always offered.
      assert false;
      level := wanted;
    }
  }

  lemma {:induction false} RankIsInjective(d: Effort)
    ensures forall e :: Rank(e) == Rank(d) ==> e == d
  {
  }

  /**
   Which window a model has: the registered one, for Copilot only; else the 1,000,000 of a bundled model, whose exact
   id counts; else nobody knows it.
   */
  lemma {:induction false} WindowOfAModel(registry: ModelRegistry, provider: Provider, model: string)
    requires registry.Valid()
    ensures provider == Copilot && Lower(Strip(model)) in registry.windows ==>
              registry.ModelContextWindow(provider, model) == Some(registry.windows[Lower(Strip(model))])
    ensures provider == AiPlatform || Lower(Strip(model)) !in registry.windows ==>
              registry.ModelContextWindow(provider, model) == if Strip(model) in registry.bundled(provider) then Some(1_000_000) else None
  {
  }

  /** Which levels a model offers: those its row lists, for Copilot only, else all five. */
  lemma {:induction false} LevelsOfAModel(registry: ModelRegistry, provider: Provider, model: string)
    ensures provider == Copilot && Lower(Strip(model)) in registry.efforts ==>
              registry.ReasoningEffortOptions(provider, model) == LevelOptions(Some(registry.efforts[Lower(Strip(model))]))
    ensures provider == AiPlatform || Lower(Strip(model)) !in registry.efforts ==>
              registry.ReasoningEffortOptions(provider, model) == [Low, Medium, High, XHigh, Max]
  {
  }

  /** A Copilot model is never offered a size beyond the window of the last usable row of its catalog, however the rows spell it. */
  lemma {:induction false} RegisteredWindowBoundsTheSizes(registry: ModelRegistry, rows: seq<(string, Window)>, model: string, i: nat)
    requires registry.Valid() && registry.windows == Windows(rows)
    requires i < |rows| && Spells(rows[i], Normalize(model)) && forall j :: i < j < |rows| ==> !Spells(rows[j], Normalize(model))
    ensures var options, window := registry.ContextSizeOptions(Copilot, model), rows[i].1.n;
            && options != [] && options[|options| - 1] == (if window <= 1_000_000 then window else 1_000_000)
            && forall size :: size in options <==> size == options[|options| - 1] || (size in [64_000, 128_000, 256_000, 1_000_000] && size <= window)
  {
    TheLastUsableRowDecides(rows, Normalize(model), i);
    OptionsAreALadder(registry.ModelContextWindow(Copilot, model));
    assert Presets == [64_000, 128_000, 256_000, 1_000_000];
  }

  /** What a request that is no number is given: 256,000 when it is offered, else the greatest size below it, else the least offered. */
  lemma {:induction false} NoRequestGetsTheDefault(window: Option<int>)
    ensures SizeOptions(window) != []
    ensures var options := SizeOptions(window);
            var size := EffectiveSize(options, None);
            && size in options
            && (256_000 in options ==> size == 256_000)
            && (forall x :: x in options && x <= 256_000 ==> x <= size <= 256_000)
            && (size > 256_000 ==> forall x :: x in options ==> size <= x)
  {
    OptionsAreALadder(window);
    DefaultIsClosest(SizeOptions(window));
  }

  /** For every registered catalog, provider, model and request. */
  lemma {:induction false} EffectiveSizeIsSound(registry: ModelRegistry, provider: Provider, model: string, requested: Option<int>)
    requires registry.Valid()
    ensures var options := registry.ContextSizeOptions(provider, model);
            options != []
            && var size := EffectiveSize(options, requested);
               && size in options
               && EffectiveSize(options, Some(size)) == size
               && (registry.ModelContextWindow(provider, model).Some? ==> size <= registry.ModelContextWindow(provider, model).value)
  {
    SizeClampIsARetraction(registry.ModelContextWindow(provider, model), requested);
  }
}
