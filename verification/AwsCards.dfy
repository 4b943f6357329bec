/**
 The AWS account cards, the EKS cards that refer to them, and the default account (app/web.py). Which regions are
 supported and which endpoint addresses are usable is decided elsewhere: both are parameters.
 */
module AwsCards {
  import opened Options
  import opened PyText
  import opened ConnectorCards
  import opened KeyedRows

  // ----- Accounts

  const AccountFields: seq<Field> := [Enabled, Name, AccountId, RoleName, Regions, Other(0), Other(1)]
  const ApiOnlyFields: set<Field> := {Other(0), Other(1)}

  predicate IsDigit(c: char) {
    '0' <= c <= '9'
  }

  /** `normalize_aws_account_id`: the trimmed text when it is twelve digits, else blank. */
  function AccountNumber(value: string): string {
    var cleaned := Strip(value);
    if |cleaned| == 12 && (forall i :: 0 <= i < 12 ==> IsDigit(cleaned[i])) then cleaned else []
  }

  /** Twelve characters with codes 48 to 57 are a number; anything else is none. */
  lemma {:induction false} NumberByCode(value: string)
    ensures var text := Strip(value);
            AccountNumber(value) == if |text| == 12 && (forall i :: 0 <= i < 12 ==> 48 <= text[i] as int <= 57) then text else ""
  {
  }

  function NameOf(row: Card): string {
    Strip(TextOf(row, Name))
  }

  datatype AccountFault = Unnamed(card: nat) | BadNumber(name: string) | NameRepeated(name: string) | BadRegion(name: string, region: string)

  datatype AccountsResult = Accounts(rows: seq<Card>) | AccountsRefused(why: AccountFault)

  /** `_split_regions` of a text: the pieces between commas and whitespace. */
  function RegionTokens(value: string): seq<string> {
    TokensAfter([], value)
  }

  function TokensAfter(current: string, rest: string): seq<string>
    decreases |rest|
  {
    if rest == [] then (if current == [] then [] else [current])
    else if rest[0] == ',' || IsSpace(rest[0]) then (if current == [] then [] else [current]) + TokensAfter([], rest[1..])
    else TokensAfter(current + [rest[0]], rest[1..])
  }

  predicate IsRegionSeparator(c: char) {
    c == ',' || IsSpace(c)
  }

  predicate NoSeparators(piece: string) {
    forall i :: 0 <= i < |piece| ==> !IsRegionSeparator(piece[i])
  }

  lemma {:induction false} TokensAfterPiece(current: string, piece: string, rest: string)
    requires NoSeparators(piece)
    ensures TokensAfter(current, piece + rest) == TokensAfter(current + piece, rest)
    decreases |piece|
  {
    if piece == [] {
      assert piece + rest == rest && current + piece == current;
    } else {
      assert (piece + rest)[1..] == piece[1..] + rest;
      TokensAfterPiece(current + [piece[0]], piece[1..], rest);
      assert current + [piece[0]] + piece[1..] == current + piece;
    }
  }

  /** Regions stand between commas and whitespace, and nothing stands between two of those: this determines `RegionTokens`. */
  lemma {:induction false} RegionsBetweenSeparators(piece: string, separator: char, rest: string)
    requires NoSeparators(piece) && (separator as int == 44 || IsSpace(separator))
    ensures RegionTokens(piece) == if piece == "" then [] else [piece]
    ensures RegionTokens(piece + ([separator] + rest)) == RegionTokens(piece) + RegionTokens(rest)
  {
    TokensAfterPiece([], piece, []);
    TokensAfterPiece([], piece, [separator] + rest);
    assert piece + [] == piece && [] + piece == piece;
    assert ([separator] + rest)[1..] == rest;
  }

  function FirstUnsupported(tokens: seq<string>, supported: string -> bool): Option<string> {
    if tokens == [] then None
    else if !supported(Lower(tokens[0])) then Some(tokens[0])
    else FirstUnsupported(tokens[1..], supported)
  }

  method FindUnsupported(tokens: seq<string>, supported: string -> bool) returns (region: Option<string>)
    ensures region == FirstUnsupported(tokens, supported)
  {
    for i := 0 to |tokens|
      invariant FirstUnsupported(tokens, supported) == FirstUnsupported(tokens[i..], supported)
    {
      assert tokens[i..][1..] == tokens[i + 1..];
      if !supported(Lower(tokens[i])) {
        return Some(tokens[i]);
      }
    }
    region := None;
  }

  ghost predicate RegionsSupported(row: Card, supported: string -> bool) {
    forall k :: 0 <= k < |RegionTokens(TextOf(row, Regions))| ==> supported(Lower(RegionTokens(TextOf(row, Regions))[k]))
  }

  lemma {:induction false} NoneUnsupportedIff(tokens: seq<string>, supported: string -> bool)
    ensures FirstUnsupported(tokens, supported).None? <==> forall k :: 0 <= k < |tokens| ==> supported(Lower(tokens[k]))
  {
    if tokens != [] {
      NoneUnsupportedIff(tokens[1..], supported);
      assert forall k :: 0 < k < |tokens| ==> tokens[k] == tokens[1..][k - 1];
      assert forall k :: 0 <= k < |tokens[1..]| ==> tokens[1..][k] == tokens[k + 1];
    }
  }

  /** A card with something typed in but no name. */
  predicate TypedWithoutName(form: Form, i: nat) {
    Posted(form, i, Value(Name)) == []
    && (Posted(form, i, Value(AccountId)) != [] || Posted(form, i, Value(RoleName)) != [] || Posted(form, i, Value(Regions)) != [])
  }

  function FirstUnnamed(form: Form, n: nat): Option<AccountFault> {
    if n == 0 then None
    else if FirstUnnamed(form, n - 1).Some? then FirstUnnamed(form, n - 1)
    else if TypedWithoutName(form, n - 1) then Some(Unnamed(n - 1))
    else None
  }

  function NameId(row: Card): string {
    Lower(NameOf(row))
  }

  /** What is wrong with one row, given the rows before it. */
  function FaultAt(rows: seq<Card>, i: nat, supported: string -> bool): Option<AccountFault>
    requires i < |rows|
  {
    var row := rows[i];
    var region := FirstUnsupported(RegionTokens(TextOf(row, Regions)), supported);
    if AccountNumber(TextOf(row, AccountId)) == [] then Some(BadNumber(NameOf(row)))
    else if NameId(row) in KeysBefore(rows, i, NameId) then Some(NameRepeated(NameOf(row)))
    else if region.Some? then Some(AccountFault.BadRegion(NameOf(row), region.value))
    else None
  }

  function FirstFault(rows: seq<Card>, n: nat, supported: string -> bool): Option<AccountFault>
    requires n <= |rows|
  {
    if n == 0 then None
    else if FirstFault(rows, n - 1, supported).Some? then FirstFault(rows, n - 1, supported)
    else FaultAt(rows, n - 1, supported)
  }

  /** What is said of an account row: a bad number, a name some earlier row has, or its first unsupported region. */
  lemma {:induction false} FaultOfAnAccount(rows: seq<Card>, i: nat, supported: string -> bool, k: nat)
    requires i < |rows|
    ensures var fault, name := FaultAt(rows, i, supported), Strip(TextOf(rows[i], Name));
            var regions := RegionTokens(TextOf(rows[i], Regions));
            var numbered := AccountNumber(TextOf(rows[i], AccountId)) != "";
            var repeated := exists j :: 0 <= j < i && Lower(Strip(TextOf(rows[j], Name))) == Lower(name);
            && (!numbered ==> fault == Some(BadNumber(name)))
            && (numbered && repeated ==> fault == Some(NameRepeated(name)))
            && (numbered && !repeated && FirstBad(regions, k, supported) ==> fault == Some(AccountFault.BadRegion(name, regions[k])))
            && (numbered && !repeated && (forall l :: 0 <= l < |regions| ==> supported(Lower(regions[l]))) ==> fault == None)
  {
    KeysBeforeAreTheKeys(rows, i, NameId, NameId(rows[i]));
    assert forall j :: 0 <= j < i ==> NameId(rows[j]) == Lower(Strip(TextOf(rows[j], Name)));
    var regions := RegionTokens(TextOf(rows[i], Regions));
    NoneUnsupportedIff(regions, supported);
    if FirstBad(regions, k, supported) {
      FirstBadIsFound(regions, k, supported);
    }
  }

  /** Token `k` is the first whose lower-case form is not supported. */
  ghost predicate FirstBad(tokens: seq<string>, k: nat, supported: string -> bool) {
    k < |tokens| && !supported(Lower(tokens[k])) && forall l :: 0 <= l < k ==> supported(Lower(tokens[l]))
  }

  lemma {:induction false} FirstBadIsFound(tokens: seq<string>, k: nat, supported: string -> bool)
    requires FirstBad(tokens, k, supported)
    ensures FirstUnsupported(tokens, supported) == Some(tokens[k])
  {
    if k > 0 {
      assert forall l :: 0 <= l < k - 1 ==> tokens[1..][l] == tokens[l + 1];
      FirstBadIsFound(tokens[1..], k - 1, supported);
    }
  }

  /** The first row with a fault is the one refused. */
  lemma {:induction false} TheFirstFaultIsRefused(rows: seq<Card>, i: nat, supported: string -> bool)
    requires i < |rows| && FaultAt(rows, i, supported).Some? && forall j :: 0 <= j < i ==> FaultAt(rows, j, supported).None?
    ensures FirstFault(rows, |rows|, supported) == FaultAt(rows, i, supported)
  {
    NoFaultSoFar(rows, i, supported);
    FaultIsFirst(rows, i + 1, |rows|, supported);
  }

  lemma {:induction false} NoFaultSoFar(rows: seq<Card>, n: nat, supported: string -> bool)
    requires n <= |rows| && forall j :: 0 <= j < n ==> FaultAt(rows, j, supported).None?
    ensures FirstFault(rows, n, supported).None?
  {
    if n > 0 {
      NoFaultSoFar(rows, n - 1, supported);
    }
  }

  /** Something is posted for the part, besides whitespace. */
  predicate Typed(form: Form, i: nat, part: Part) {
    (i, part) in form.values && Strip(form.values[(i, part)]) != ""
  }

  lemma {:induction false} TypedIsPosted(form: Form, i: nat, part: Part)
    ensures Typed(form, i, part) <==> Posted(form, i, part) != []
  {
    StripTrimmed([]);
  }

  /** Card `i` carries a number, a role or regions, but no name. */
  predicate NeedsAName(form: Form, i: nat) {
    !Typed(form, i, Value(Name)) && (Typed(form, i, Value(AccountId)) || Typed(form, i, Value(RoleName)) || Typed(form, i, Value(Regions)))
  }

  /**
   What the account form is answered: the first card that needs a name, else the first fault of the merged rows, refuses
   it; otherwise the accounts are the merged cards, which keep the stored values of the two fields the page does not show.
   */
  lemma {:induction false} AccountsAnswers(form: Form, stored: Stored, supported: string -> bool, i: nat)
    ensures var rows := Merged(form, CardCount(form), [Enabled, Name, AccountId, RoleName, Regions, Other(0), Other(1)], stored, {Other(0), Other(1)}, {});
            var unnamed := exists j :: 0 <= j < CardCount(form) && NeedsAName(form, j);
            && (i < CardCount(form) && NeedsAName(form, i) && (forall j :: 0 <= j < i ==> !NeedsAName(form, j)) ==>
                  AccountsOf(form, stored, supported) == AccountsRefused(Unnamed(i)))
            && (!unnamed && FirstFault(rows, |rows|, supported).Some? ==>
                  AccountsOf(form, stored, supported) == AccountsRefused(FirstFault(rows, |rows|, supported).value))
            && (!unnamed && FirstFault(rows, |rows|, supported).None? ==> AccountsOf(form, stored, supported) == Accounts(rows))
  {
    forall j: nat
      ensures TypedWithoutName(form, j) <==> NeedsAName(form, j)
    {
      TypedIsPosted(form, j, Value(Name));
      TypedIsPosted(form, j, Value(AccountId));
      TypedIsPosted(form, j, Value(RoleName));
      TypedIsPosted(form, j, Value(Regions));
    }
    FirstUnnamedIs(form, CardCount(form), i);
  }

  lemma {:induction false} FirstUnnamedIs(form: Form, n: nat, i: nat)
    ensures (forall j :: 0 <= j < n ==> !TypedWithoutName(form, j)) ==> FirstUnnamed(form, n) == None
    ensures i < n && TypedWithoutName(form, i) && (forall j :: 0 <= j < i ==> !TypedWithoutName(form, j)) ==> FirstUnnamed(form, n) == Some(Unnamed(i))
  {
    if n > 0 {
      FirstUnnamedIs(form, n - 1, i);
    }
  }

  function AccountsOf(form: Form, stored: Stored, supported: string -> bool): AccountsResult {
    var rows := Merged(form, CardCount(form), AccountFields, stored, ApiOnlyFields, {});
    if FirstUnnamed(form, CardCount(form)).Some? then AccountsRefused(FirstUnnamed(form, CardCount(form)).value)
    else if FirstFault(rows, |rows|, supported).Some? then AccountsRefused(FirstFault(rows, |rows|, supported).value)
    else Accounts(rows)
  }

  method SettingsParseAwsAccounts(form: Form, stored: Stored, supported: string -> bool) returns (r: AccountsResult)
    ensures r == AccountsOf(form, stored, supported)
  {
    for index := 0 to CardCount(form)
      invariant FirstUnnamed(form, index).None?
    {
      var name := Posted(form, index, Value(Name));
      if name == [] {
        var typed := Posted(form, index, Value(AccountId)) != [] || Posted(form, index, Value(RoleName)) != [] || Posted(form, index, Value(Regions)) != [];
        if typed {
          UnnamedIsFirst(form, index + 1, CardCount(form));
          return AccountsRefused(Unnamed(index));
        }
      }
    }
    var rows := SettingsParseInstances(form, AccountFields, stored, ApiOnlyFields, {});
    var fault := CheckAccounts(rows, supported);
    if fault.Some? {
      return AccountsRefused(fault.value);
    }
    return Accounts(rows);
  }

  lemma {:induction false} UnnamedIsFirst(form: Form, n: nat, m: nat)
    requires n <= m && FirstUnnamed(form, n).Some?
    ensures FirstUnnamed(form, m) == FirstUnnamed(form, n)
  {
    if n < m {
      UnnamedIsFirst(form, n, m - 1);
    }
  }

  /** The loop over the merged rows. */
  method CheckAccounts(rows: seq<Card>, supported: string -> bool) returns (fault: Option<AccountFault>)
    ensures fault == FirstFault(rows, |rows|, supported)
  {
    var seenNames: set<string> := {};
    for i := 0 to |rows|
      invariant seenNames == KeysBefore(rows, i, NameId)
      invariant FirstFault(rows, i, supported).None?
    {
      var name := NameOf(rows[i]);
      fault := None;
      if AccountNumber(TextOf(rows[i], AccountId)) == [] {
        fault := Some(BadNumber(name));
      } else if Lower(name) in seenNames {
        fault := Some(NameRepeated(name));
      } else {
        var region := FindUnsupported(RegionTokens(TextOf(rows[i], Regions)), supported);
        if region.Some? {
          fault := Some(AccountFault.BadRegion(name, region.value));
        }
      }
      if fault.Some? {
        FaultIsFirst(rows, i + 1, |rows|, supported);
        return;
      }
      seenNames := seenNames + {Lower(name)};
    }
    fault := None;
  }

  lemma {:induction false} FaultIsFirst(rows: seq<Card>, n: nat, m: nat, supported: string -> bool)
    requires n <= m <= |rows| && FirstFault(rows, n, supported).Some?
    ensures FirstFault(rows, m, supported) == FirstFault(rows, n, supported)
  {
    if n < m {
      FaultIsFirst(rows, n, m - 1, supported);
    }
  }

  ghost predicate AccountsGood(rows: seq<Card>, n: nat, supported: string -> bool)
    requires n <= |rows|
  {
    forall i :: 0 <= i < n ==> AccountNumber(TextOf(rows[i], AccountId)) != [] && RegionsSupported(rows[i], supported)
  }

  /** The rows pass exactly when each has a twelve-digit number and good regions and no two share a name, ignoring case. */
  lemma {:induction false} AccountsPassIff(rows: seq<Card>, n: nat, supported: string -> bool)
    requires n <= |rows|
    ensures FirstFault(rows, n, supported).None? <==> AccountsGood(rows, n, supported) && KeysDistinct(rows, n, NameId)
  {
    if n > 0 {
      AccountsPassIff(rows, n - 1, supported);
      DistinctSoFar(rows, n, NameId);
      var good := OneMoreRow(rows, n, supported);
    }
  }

  /** One more row passes when it is good by itself and its name is new. */
  lemma {:induction false} OneMoreRow(rows: seq<Card>, n: nat, supported: string -> bool) returns (good: bool)
    requires 0 < n <= |rows|
    ensures FirstFault(rows, n, supported).None? <==>
            FirstFault(rows, n - 1, supported).None? && NameId(rows[n - 1]) !in KeysBefore(rows, n - 1, NameId) && good
    ensures AccountsGood(rows, n, supported) <==> AccountsGood(rows, n - 1, supported) && good
  {
    good := AccountNumber(TextOf(rows[n - 1], AccountId)) != [] && RegionsSupported(rows[n - 1], supported);
    PassingOneMore(rows, n, supported);
    GoodOneMore(rows, n, supported);
  }

  lemma {:induction false} PassingOneMore(rows: seq<Card>, n: nat, supported: string -> bool)
    requires 0 < n <= |rows|
    ensures FirstFault(rows, n, supported).None? <==>
            && FirstFault(rows, n - 1, supported).None? && NameId(rows[n - 1]) !in KeysBefore(rows, n - 1, NameId)
            && AccountNumber(TextOf(rows[n - 1], AccountId)) != [] && RegionsSupported(rows[n - 1], supported)
  {
    NoneUnsupportedIff(RegionTokens(TextOf(rows[n - 1], Regions)), supported);
  }

  lemma {:induction false} GoodOneMore(rows: seq<Card>, n: nat, supported: string -> bool)
    requires 0 < n <= |rows|
    ensures AccountsGood(rows, n, supported) <==>
            AccountsGood(rows, n - 1, supported) && AccountNumber(TextOf(rows[n - 1], AccountId)) != [] && RegionsSupported(rows[n - 1], supported)
  {
  }

  // ----- EKS clusters

  datatype EksRow = EksRow(enabled: bool, account: string, cluster: string, region: string, endpoint: string, serverCa: string, tlsName: string)

  /** The supported regions and certificate modes, and the endpoint sanitizer (blank when it refuses). */
  datatype Rules = Rules(region: string -> bool, endpoint: string -> string, serverCa: string -> bool)

  datatype EksFault = NoAccount | UnknownAccount | NoCluster | BadRegion | BadEndpoint | BadServerCa | Repeated

  datatype EksResult = Clusters(rows: seq<EksRow>) | EksRefused(index: nat, why: EksFault)

  /** What tells two rows apart. */
  datatype EksKey = EksKey(account: string, region: string, cluster: string)

  function Trim(row: EksRow): EksRow {
    EksRow(row.enabled, Strip(row.account), Strip(row.cluster), Strip(row.region), Strip(row.endpoint), Strip(row.serverCa), Strip(row.tlsName))
  }

  predicate Filled(row: EksRow) {
    row.account != [] || row.cluster != [] || row.region != [] || row.endpoint != [] || row.serverCa != [] || row.tlsName != []
  }

  function CardsOf(posted: seq<EksRow>): seq<EksRow> {
    if posted == [] then [] else
      var row := Trim(posted[|posted| - 1]);
      CardsOf(posted[..|posted| - 1]) + if Filled(row) then [row] else []
  }

  /** An EKS card is read when any of its texts has something besides whitespace, trimmed, each in its place: this determines `CardsOf`. */
  lemma {:induction false} FilledCardsKeepOrder(a: seq<EksRow>, b: seq<EksRow>, row: EksRow)
    ensures CardsOf(a + b) == CardsOf(a) + CardsOf(b)
    ensures CardsOf([row]) ==
            if Strip(row.account) == "" && Strip(row.cluster) == "" && Strip(row.region) == "" && Strip(row.endpoint) == ""
               && Strip(row.serverCa) == "" && Strip(row.tlsName) == ""
            then []
            else [EksRow(row.enabled, Strip(row.account), Strip(row.cluster), Strip(row.region), Strip(row.endpoint), Strip(row.serverCa), Strip(row.tlsName))]
  {
    assert [row][..0] == [];
    if b == [] {
      assert a + b == a;
    } else {
      assert (a + b)[..|a + b| - 1] == a + b[..|b| - 1];
      FilledCardsKeepOrder(a, b[..|b| - 1], row);
    }
  }

  /** The posted cards, as texts with an unposted field blank. */
  method ParseAwsEksClusterCards(posted: seq<EksRow>) returns (rows: seq<EksRow>)
    ensures rows == CardsOf(posted)
  {
    rows := [];
    for i := 0 to |posted|
      invariant rows == CardsOf(posted[..i])
    {
      assert posted[..i + 1][..i] == posted[..i];
      var row := Trim(posted[i]);
      if Filled(row) {
        rows := rows + [row];
      }
    }
    assert posted[..|posted|] == posted;
  }

  /** The names and numbers the EKS cards may refer to. */
  function Known(accounts: Stored): set<string> {
    if accounts == [] then {} else
      var rest := Known(accounts[..|accounts| - 1]);
      var last := accounts[|accounts| - 1];
      if last.None? then rest
      else rest + ({Lower(NameOf(last.value)), AccountNumber(TextOf(last.value, AccountId))} - {[]})
  }

  /** `key` is the lower-case name or the number of this listed account. */
  predicate Refers(account: Option<Card>, key: string) {
    account.Some? && key != [] && (key == Lower(NameOf(account.value)) || key == AccountNumber(TextOf(account.value, AccountId)))
  }

  /** Some listed account is meant by this key. */
  predicate Listed(accounts: Stored, key: string) {
    exists j :: 0 <= j < |accounts| && Refers(accounts[j], key)
  }

  lemma {:induction false} KnownAreTheListed(accounts: Stored, key: string)
    ensures key in Known(accounts) <==> Listed(accounts, key)
  {
    if accounts != [] {
      KnownAreTheListed(accounts[..|accounts| - 1], key);
      KnownAndOneMore(accounts, key);
      ListedAndOneMore(accounts, key);
    }
  }

  lemma {:induction false} ListedAndOneMore(accounts: Stored, key: string)
    requires accounts != []
    ensures Listed(accounts, key) <==> Listed(accounts[..|accounts| - 1], key) || Refers(accounts[|accounts| - 1], key)
  {
    var front, last := accounts[..|accounts| - 1], |accounts| - 1;
    if j :| 0 <= j < |accounts| && Refers(accounts[j], key) && j < last {
      assert Refers(front[j], key);
    }
    if j :| 0 <= j < |front| && Refers(front[j], key) {
      assert Refers(accounts[j], key);
    }
  }

  lemma {:induction false} KnownAndOneMore(accounts: Stored, key: string)
    requires accounts != []
    ensures key in Known(accounts) <==> key in Known(accounts[..|accounts| - 1]) || Refers(accounts[|accounts| - 1], key)
  {
  }

  function AccountKey(account: string): string {
    if AccountNumber(account) != [] then AccountNumber(account) else Lower(account)
  }

  function KeyOf(row: EksRow): EksKey {
    EksKey(AccountKey(row.account), Lower(row.region), row.cluster)
  }

  /** What is wrong with a row by itself. */
  function OwnFault(row: EksRow, known: set<string>, rules: Rules): Option<EksFault> {
    if row.account == [] then Some(NoAccount)
    else if AccountKey(row.account) !in known then Some(UnknownAccount)
    else if row.cluster == [] then Some(NoCluster)
    else if row.region != [] && !rules.region(Lower(row.region)) then Some(EksFault.BadRegion)
    else if rules.endpoint(row.endpoint) == [] then Some(BadEndpoint)
    else if row.serverCa != [] && !rules.serverCa(Lower(row.serverCa)) then Some(BadServerCa)
    else None
  }

  function Normalised(row: EksRow, rules: Rules): EksRow {
    row.(region := Lower(row.region), endpoint := rules.endpoint(row.endpoint), serverCa := Lower(row.serverCa))
  }

  /** What is said of an EKS row by itself, in the order the fields are looked at. */
  lemma {:induction false} OwnFaults(row: EksRow, known: set<string>, rules: Rules)
    ensures var key := if AccountNumber(row.account) != "" then AccountNumber(row.account) else Lower(row.account);
            var account, cluster := row.account != "" && key in known, row.cluster != "";
            var region := row.region == "" || rules.region(Lower(row.region));
            var endpoint, serverCa := rules.endpoint(row.endpoint) != "", row.serverCa == "" || rules.serverCa(Lower(row.serverCa));
            var fault := OwnFault(row, known, rules);
            && (row.account == "" ==> fault == Some(NoAccount))
            && (row.account != "" && !account ==> fault == Some(UnknownAccount))
            && (account && !cluster ==> fault == Some(NoCluster))
            && (account && cluster && !region ==> fault == Some(EksFault.BadRegion))
            && (account && cluster && region && !endpoint ==> fault == Some(BadEndpoint))
            && (account && cluster && region && endpoint && !serverCa ==> fault == Some(BadServerCa))
            && (account && cluster && region && endpoint && serverCa ==> fault == None)
  {
  }

  /** Why a row is refused, given the rows before it. */
  function RefusalAt(rows: seq<EksRow>, i: nat, known: set<string>, rules: Rules): Option<EksFault>
    requires i < |rows|
  {
    if OwnFault(rows[i], known, rules).Some? then OwnFault(rows[i], known, rules)
    else if KeyOf(rows[i]) in KeysBefore(rows, i, KeyOf) then Some(Repeated)
    else None
  }

  /** The first refusal, with the card's number counted from one, or the rows normalised. */
  function Validated(rows: seq<EksRow>, n: nat, known: set<string>, rules: Rules): EksResult
    requires n <= |rows|
  {
    if n == 0 then Clusters([]) else
      var before := Validated(rows, n - 1, known, rules);
      if before.EksRefused? then before
      else if RefusalAt(rows, n - 1, known, rules).Some? then EksRefused(n, RefusalAt(rows, n - 1, known, rules).value)
      else Clusters(before.rows + [Normalised(rows[n - 1], rules)])
  }

  method SettingsParseAwsEksClusters(posted: seq<EksRow>, accounts: Stored, rules: Rules) returns (r: EksResult)
    ensures r == Validated(CardsOf(posted), |CardsOf(posted)|, Known(accounts), rules)
  {
    var rows := ParseAwsEksClusterCards(posted);
    var known := ListKnown(accounts);
    r := ValidateClusters(rows, known, rules);
  }

  /** The first loop of `_settings_parse_aws_eks_clusters`. */
  method ListKnown(accounts: Stored) returns (known: set<string>)
    ensures known == Known(accounts)
  {
    known := {};
    for i := 0 to |accounts|
      invariant known - {[]} == Known(accounts[..i])
    {
      assert accounts[..i + 1][..i] == accounts[..i];
      if accounts[i].Some? {
        known := known + {Lower(NameOf(accounts[i].value))};
        known := known + {AccountNumber(TextOf(accounts[i].value, AccountId))};
      }
    }
    assert accounts[..|accounts|] == accounts;
    known := known - {[]};
  }

  /** The second loop: the rows are checked and normalised in place. */
  method ValidateClusters(cards: seq<EksRow>, known: set<string>, rules: Rules) returns (r: EksResult)
    ensures r == Validated(cards, |cards|, known, rules)
  {
    var rows := cards;
    var seen: set<EksKey> := {};
    for i := 0 to |rows|
      invariant |rows| == |cards| && forall j :: i <= j < |rows| ==> rows[j] == cards[j]
      invariant seen == KeysBefore(cards, i, KeyOf)
      invariant Validated(cards, i, known, rules) == Clusters(rows[..i])
    {
      var row := rows[i];
      var fault := OwnFault(row, known, rules);
      if fault.None? && KeyOf(row) in seen {
        fault := Some(Repeated);
      }
      ValidatingOneMore(cards, i, known, rules);
      if fault.Some? {
        RefusalIsFirst(cards, i + 1, |cards|, known, rules);
        return EksRefused(i + 1, fault.value);
      }
      seen := seen + {KeyOf(row)};
      rows := rows[i := Normalised(row, rules)];
      assert rows[..i + 1] == rows[..i] + [Normalised(row, rules)];
    }
    assert rows[..|rows|] == rows;
    r := Clusters(rows);
  }

  lemma {:induction false} ValidatingOneMore(rows: seq<EksRow>, n: nat, known: set<string>, rules: Rules)
    requires n < |rows| && Validated(rows, n, known, rules).Clusters?
    ensures var own, repeated := OwnFault(rows[n], known, rules), KeyOf(rows[n]) in KeysBefore(rows, n, KeyOf);
            Validated(rows, n + 1, known, rules)
            == if own.Some? then EksRefused(n + 1, own.value)
               else if repeated then EksRefused(n + 1, Repeated)
               else Clusters(Validated(rows, n, known, rules).rows + [Normalised(rows[n], rules)])
  {
  }

  lemma {:induction false} RefusalIsFirst(rows: seq<EksRow>, n: nat, m: nat, known: set<string>, rules: Rules)
    requires n <= m <= |rows| && Validated(rows, n, known, rules).EksRefused?
    ensures Validated(rows, m, known, rules) == Validated(rows, n, known, rules)
  {
    if n < m {
      RefusalIsFirst(rows, n, m - 1, known, rules);
    }
  }

  /** Two rows name one cluster: by the same account number or, up to case, account name, and region, and by the same cluster. */
  predicate SameCluster(a: EksRow, b: EksRow) {
    AccountKey(a.account) == AccountKey(b.account) && Lower(a.region) == Lower(b.region) && a.cluster == b.cluster
  }

  ghost predicate AllApart(rows: seq<EksRow>, n: nat)
    requires n <= |rows|
  {
    forall i, j :: 0 <= i < j < n ==> !SameCluster(rows[i], rows[j])
  }

  /** The first row that does not pass, or has the key of an earlier one, is refused by its place counted from one. */
  lemma {:induction false} TheFirstBadRowIsRefused(rows: seq<EksRow>, i: nat, known: set<string>, rules: Rules)
    requires i < |rows| && EachPasses(rows, i, known, rules) && AllApart(rows, i)
    ensures OwnFault(rows[i], known, rules).Some? ==> Validated(rows, |rows|, known, rules) == EksRefused(i + 1, OwnFault(rows[i], known, rules).value)
    ensures OwnFault(rows[i], known, rules).None? && (exists j :: 0 <= j < i && SameCluster(rows[j], rows[i])) ==>
              Validated(rows, |rows|, known, rules) == EksRefused(i + 1, Repeated)
  {
    ClustersAcceptedIff(rows, i, known, rules);
    SeenBefore(rows, i);
    var refusal := RefusalAt(rows, i, known, rules);
    if refusal.Some? {
      RefusedHere(rows, i, known, rules, refusal.value);
    }
  }

  lemma {:induction false} SeenBefore(rows: seq<EksRow>, i: nat)
    requires i < |rows|
    ensures KeyOf(rows[i]) in KeysBefore(rows, i, KeyOf) <==> exists j :: 0 <= j < i && SameCluster(rows[j], rows[i])
  {
    KeysBeforeAreTheKeys(rows, i, KeyOf, KeyOf(rows[i]));
    if j :| 0 <= j < i && SameCluster(rows[j], rows[i]) {
      assert KeyOf(rows[j]) == KeyOf(rows[i]);
    }
    if j :| 0 <= j < i && KeyOf(rows[j]) == KeyOf(rows[i]) {
      assert SameCluster(rows[j], rows[i]);
    }
  }

  lemma {:induction false} RefusedHere(rows: seq<EksRow>, i: nat, known: set<string>, rules: Rules, why: EksFault)
    requires i < |rows| && Validated(rows, i, known, rules).Clusters? && RefusalAt(rows, i, known, rules) == Some(why)
    ensures Validated(rows, |rows|, known, rules) == EksRefused(i + 1, why)
  {
    RefusalIsFirst(rows, i + 1, |rows|, known, rules);
  }

  ghost predicate EachPasses(rows: seq<EksRow>, n: nat, known: set<string>, rules: Rules)
    requires n <= |rows|
  {
    forall i :: 0 <= i < n ==> OwnFault(rows[i], known, rules).None?
  }

  /** The cards are accepted exactly when each passes by itself and no two share (account key, region, cluster). */
  lemma {:induction false} ClustersAcceptedIff(rows: seq<EksRow>, n: nat, known: set<string>, rules: Rules)
    requires n <= |rows|
    ensures Validated(rows, n, known, rules).Clusters? <==> EachPasses(rows, n, known, rules) && AllApart(rows, n)
  {
    if n > 0 {
      ClustersAcceptedIff(rows, n - 1, known, rules);
      AcceptingOneMore(rows, n, known, rules);
      SeenBefore(rows, n - 1);
      ApartOneMore(rows, n);
      PassesOneMore(rows, n, known, rules);
    }
  }

  lemma {:induction false} ApartOneMore(rows: seq<EksRow>, n: nat)
    requires 0 < n <= |rows|
    ensures AllApart(rows, n) <==> AllApart(rows, n - 1) && !exists j :: 0 <= j < n - 1 && SameCluster(rows[j], rows[n - 1])
  {
  }

  lemma {:induction false} AcceptingOneMore(rows: seq<EksRow>, n: nat, known: set<string>, rules: Rules)
    requires 0 < n <= |rows|
    ensures Validated(rows, n, known, rules).Clusters? <==>
            Validated(rows, n - 1, known, rules).Clusters?
            && OwnFault(rows[n - 1], known, rules).None? && KeyOf(rows[n - 1]) !in KeysBefore(rows, n - 1, KeyOf)
  {
  }

  lemma {:induction false} PassesOneMore(rows: seq<EksRow>, n: nat, known: set<string>, rules: Rules)
    requires 0 < n <= |rows|
    ensures EachPasses(rows, n, known, rules) <==> EachPasses(rows, n - 1, known, rules) && OwnFault(rows[n - 1], known, rules).None?
  {
  }

  /** Accepted cards are stored in their order, each normalised. */
  lemma {:induction false} AcceptedClustersAreNormalised(rows: seq<EksRow>, n: nat, known: set<string>, rules: Rules, i: nat)
    requires i < n <= |rows| && Validated(rows, n, known, rules).Clusters?
    ensures |Validated(rows, n, known, rules).rows| == n
    ensures Validated(rows, n, known, rules).rows[i]
         == rows[i].(region := Lower(rows[i].region), endpoint := rules.endpoint(rows[i].endpoint), serverCa := Lower(rows[i].serverCa))
  {
    if n > 1 {
      AcceptedClustersAreNormalised(rows, n - 1, known, rules, if i < n - 1 then i else 0);
    }
  }

  /** No dangling reference: every accepted row belongs to a listed account, by name or number, and has a cluster and an endpoint. */
  lemma {:induction false} AcceptedClustersResolve(rows: seq<EksRow>, accounts: Stored, rules: Rules, i: nat) returns (j: nat)
    requires Validated(rows, |rows|, Known(accounts), rules).Clusters? && i < |rows|
    ensures j < |accounts| && Refers(accounts[j], AccountKey(rows[i].account))
    ensures var out := Validated(rows, |rows|, Known(accounts), rules).rows;
            |out| == |rows| && out[i].account == rows[i].account && out[i].cluster != [] && out[i].endpoint != []
  {
    ClustersAcceptedIff(rows, |rows|, Known(accounts), rules);
    AcceptedClustersAreNormalised(rows, |rows|, Known(accounts), rules, i);
    assert OwnFault(rows[i], Known(accounts), rules).None?;
    KnownAreTheListed(accounts, AccountKey(rows[i].account));
    assert Listed(accounts, AccountKey(rows[i].account));
    j :| 0 <= j < |accounts| && Refers(accounts[j], AccountKey(rows[i].account));
  }

  /** Some listed card has this number, and the key is that number or the card's lower-case name. */
  predicate StandsFor(accounts: Stored, number: string, key: string) {
    exists k :: 0 <= k < |accounts| && HasNumber(accounts[k], number) && Refers(accounts[k], key)
  }

  predicate HasNumber(account: Option<Card>, number: string) {
    account.Some? && number != [] && AccountNumber(TextOf(account.value, AccountId)) == number
  }

  /** The key is the lower-case name of some listed card with this number. */
  predicate NamesNumber(accounts: Stored, number: string, key: string) {
    exists k :: 0 <= k < |accounts| && HasNumber(accounts[k], number) && key != [] && key == Lower(NameOf(accounts[k].value))
  }

  lemma {:induction false} StandsForByNumberOrName(accounts: Stored, number: string, key: string)
    ensures StandsFor(accounts, number, key) <==>
            (key == number && exists k :: 0 <= k < |accounts| && HasNumber(accounts[k], number)) || NamesNumber(accounts, number, key)
  {
    if k :| 0 <= k < |accounts| && HasNumber(accounts[k], number) && key == number {
      assert Refers(accounts[k], key);
    }
    if k :| 0 <= k < |accounts| && HasNumber(accounts[k], number) && key != [] && key == Lower(NameOf(accounts[k].value)) {
      assert Refers(accounts[k], key);
    }
  }

  /**
   When two accepted rows stand for one account's cluster in one region after all, an account being the listed cards with
   one number: exactly when one refers to it by number and the other by name, or both by different names of such cards.
   The duplicate check connects neither.
   */
  lemma {:induction false} ClusterListedTwiceIff(rows: seq<EksRow>, known: set<string>, rules: Rules, accounts: Stored, number: string, i: nat, j: nat)
    requires Validated(rows, |rows|, known, rules).Clusters? && i < j < |rows|
    requires Lower(rows[i].region) == Lower(rows[j].region) && rows[i].cluster == rows[j].cluster
    ensures var a, b := AccountKey(rows[i].account), AccountKey(rows[j].account);
            StandsFor(accounts, number, a) && StandsFor(accounts, number, b) <==>
            a != b
            && ((a == number && NamesNumber(accounts, number, b)) || (b == number && NamesNumber(accounts, number, a))
               || (NamesNumber(accounts, number, a) && NamesNumber(accounts, number, b)))
  {
    ClustersAcceptedIff(rows, |rows|, known, rules);
    assert !SameCluster(rows[i], rows[j]);
    StandsForByNumberOrName(accounts, number, AccountKey(rows[i].account));
    StandsForByNumberOrName(accounts, number, AccountKey(rows[j].account));
  }

  /** Nor does it refuse two names: two listed cards may have one number, and a row for each passes. */
  lemma {:induction false} SameClusterByTwoNamesIsAccepted(row: EksRow, accounts: Stored, k: nat, l: nat, number: string, rules: Rules)
    requires k < |accounts| && l < |accounts| && HasNumber(accounts[k], number) && HasNumber(accounts[l], number)
    requires var a, b := NameOf(accounts[k].value), NameOf(accounts[l].value);
             a != [] && b != [] && AccountNumber(a) == [] && AccountNumber(b) == [] && Lower(a) != Lower(b)
    requires row.account != [] && OwnFault(row, {AccountKey(row.account)}, rules).None?
    ensures var a, b := NameOf(accounts[k].value), NameOf(accounts[l].value);
            Validated([row.(account := a), row.(account := b)], 2, Known(accounts), rules).Clusters?
            && StandsFor(accounts, number, AccountKey(a)) && StandsFor(accounts, number, AccountKey(b))
  {
    var a, b := NameOf(accounts[k].value), NameOf(accounts[l].value);
    KnownAreTheListed(accounts, Lower(a));
    KnownAreTheListed(accounts, Lower(b));
    assert Refers(accounts[k], Lower(a)) && Refers(accounts[l], Lower(b));
    PassesUnderAnotherName(row, {AccountKey(row.account)}, a, Known(accounts), rules);
    PassesUnderAnotherName(row, {AccountKey(row.account)}, b, Known(accounts), rules);
    TwoApartPass(row.(account := a), row.(account := b), Known(accounts), rules);
  }

  /** And the check does let such a pair through, for any listed account whose name is not itself twelve digits. */
  lemma {:induction false} SameClusterByNameAndNumberIsAccepted(row: EksRow, accounts: Stored, k: nat, rules: Rules)
    requires k < |accounts| && accounts[k].Some?
    requires NameOf(accounts[k].value) != [] && AccountNumber(NameOf(accounts[k].value)) == []
    requires AccountNumber(TextOf(accounts[k].value, AccountId)) != []
    requires row.account != [] && OwnFault(row, {AccountKey(row.account)}, rules).None?
    ensures var name, number := NameOf(accounts[k].value), AccountNumber(TextOf(accounts[k].value, AccountId));
            Validated([row.(account := name), row.(account := number)], 2, Known(accounts), rules).Clusters?
  {
    var name, number := NameOf(accounts[k].value), AccountNumber(TextOf(accounts[k].value, AccountId));
    var rows := [row.(account := name), row.(account := number)];
    NumberIsItsOwn(TextOf(accounts[k].value, AccountId));
    StripIdempotent(TextOf(accounts[k].value, Name));
    KnownAreTheListed(accounts, Lower(name));
    KnownAreTheListed(accounts, number);
    assert Refers(accounts[k], Lower(name)) && Refers(accounts[k], number);
    LowerNameIsNoNumber(name, number);
    PassesUnderAnotherName(row, {AccountKey(row.account)}, name, Known(accounts), rules);
    PassesUnderAnotherName(row, {AccountKey(row.account)}, number, Known(accounts), rules);
    TwoApartPass(rows[0], rows[1], Known(accounts), rules);
  }

  lemma {:induction false} TwoApartPass(a: EksRow, b: EksRow, known: set<string>, rules: Rules)
    requires OwnFault(a, known, rules).None? && OwnFault(b, known, rules).None? && !SameCluster(a, b)
    ensures Validated([a, b], 2, known, rules).Clusters?
  {
    ClustersAcceptedIff([a, b], 2, known, rules);
  }

  lemma {:induction false} PassesUnderAnotherName(row: EksRow, known: set<string>, account: string, others: set<string>, rules: Rules)
    requires OwnFault(row, known, rules).None? && account != [] && AccountKey(account) in others
    ensures OwnFault(row.(account := account), others, rules).None?
  {
  }

  lemma {:induction false} NumberIsItsOwn(value: string)
    requires AccountNumber(value) != []
    ensures AccountNumber(AccountNumber(value)) == AccountNumber(value)
  {
    StripIdempotent(value);
  }

  lemma {:induction false} LowerNameIsNoNumber(name: string, number: string)
    requires AccountNumber(name) == [] && AccountNumber(number) == number && Strip(name) == name && number != []
    ensures Lower(name) != number
  {
    LowerByCharacter(name);
    if |name| == 12 && |number| == 12 {
      var i :| 0 <= i < 12 && !IsDigit(name[i]);
      assert Lower(name)[i] == LowerChar(name[i]) && IsDigit(number[i]);
    }
  }

  // ----- The default account

  /** The account has this name, ignoring case, or exactly this number; `wanted` is trimmed. */
  predicate IsWanted(account: Option<Card>, wanted: string) {
    account.Some? && (Lower(NameOf(account.value)) == Lower(wanted) || Strip(TextOf(account.value, AccountId)) == wanted)
  }

  /** `_settings_aws_default_account_error` is None exactly when the default is blank or some listed account has that name or number. */
  method SettingsAwsDefaultAccountOk(defaultAccount: string, accounts: Stored) returns (ok: bool)
    ensures var wanted := Strip(defaultAccount);
            ok <==> wanted == "" || exists row: Card :: Some(row) in accounts && (Lower(NameOf(row)) == Lower(wanted) || Strip(TextOf(row, AccountId)) == wanted)
  {
    var wanted := Strip(defaultAccount);
    if wanted == [] {
      return true;
    }
    for i := 0 to |accounts|
      invariant forall j :: 0 <= j < i ==> !IsWanted(accounts[j], wanted)
    {
      if IsWanted(accounts[i], wanted) {
        return true;
      }
    }
    return false;
  }
}
