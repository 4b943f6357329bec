/**
 The delegation rule table: the conditional updates that lease a due rule, the writes that end a run
 or archive a rule, and the batched listings (app/repositories/delegation_rule_repo.py).
 */
module DelegationRules {
  import opened Options
  import opened PyText

  type Time = int

  /** `deleted` is the truth of `state_json["deleted"]`; an SQL NULL is `None`. */
  datatype Rule = Rule(
    id: string,
    owner: Option<int>,
    visibility: string,
    enabled: bool,
    deleted: bool,
    createdAt: Time,
    updatedAt: Time,
    lastRunAt: Option<Time>,
    nextRunAt: Option<Time>,
    lockedUntil: Option<Time>
  )

  datatype Viewer = Viewer(id: int, admin: bool)

  datatype Reply = Done | Refused(httpStatus: int)

  /** What PATCH may change of the schedule; `computedNext` is the schedule service's answer. */
  datatype RulePatch = RulePatch(enabled: Option<bool>, scheduleChanged: bool, computedNext: Option<Time>)

  // ----- One row: who may lease it, and what each statement writes

  predicate Unlocked(r: Rule, now: Time) {
    r.lockedUntil.None? || r.lockedUntil.value < now
  }

  /** The WHERE clause shared by the due listing and the compare-and-set; NULL compares as false. */
  predicate Due(r: Rule, now: Time) {
    r.enabled && r.nextRunAt.Some? && r.nextRunAt.value <= now && Unlocked(r, now)
  }

  function Leased(r: Rule, now: Time, leaseSeconds: int): Rule {
    r.(lockedUntil := Some(now + leaseSeconds), updatedAt := now)
  }

  function Released(r: Rule, now: Time, next: Option<Time>): Rule {
    r.(lastRunAt := Some(now), nextRunAt := next, lockedUntil := None, updatedAt := now)
  }

  function Archived(r: Rule, now: Time): Rule {
    r.(enabled := false, nextRunAt := None, lockedUntil := None, deleted := true, updatedAt := now)
  }

  /** The archived guard of the PATCH route and, past it, the columns the rule service writes. */
  function Patched(r: Rule, p: RulePatch, now: Time): Rule {
    var enabled := if p.enabled.Some? then p.enabled.value else r.enabled;
    if r.deleted then r
    else if p.enabled == Some(false) then
      r.(enabled := false, nextRunAt := None, lockedUntil := None, updatedAt := now)
    else if (p.enabled.Some? || p.scheduleChanged) && enabled then
      r.(enabled := enabled, nextRunAt := p.computedNext, updatedAt := now)
    else r.(updatedAt := now)
  }

  /** What a run in progress has in memory: its rule, and `deleted` as it was when the run last read the row. */
  datatype RunState = RunState(rule: string, deletedAsRead: bool)

  /** The last write of a run: it stores the `state_json` it read earlier, with `deleted` as it was then. */
  function RunFinished(r: Rule, now: Time, next: Option<Time>, deletedAsRead: bool): Rule {
    r.(deleted := deletedAsRead, lastRunAt := Some(now), nextRunAt := if r.enabled then next else None,
       lockedUntil := None, updatedAt := now)
  }

  /** The last write of a run that failed, or that skipped because its tasks are still active: no state is stored. */
  function RunAbandoned(r: Rule, now: Time, next: Option<Time>): Rule {
    r.(lastRunAt := Some(now), nextRunAt := if r.enabled then next else None, lockedUntil := None, updatedAt := now)
  }

  /**
   However a run ends, the rule's lock is gone and its next run is the one scheduled: an enabled rule is due again
   exactly from that time on, and a rule without a next run, or switched off, is not due at any time.
   */
  lemma {:induction false} EndedRunsAreDueAgainIff(r: Rule, now: Time, next: Option<Time>, deletedAsRead: bool, t: Time)
    ensures forall ended :: ended in [Released(r, now, next), RunFinished(r, now, next, deletedAsRead), RunAbandoned(r, now, next)] ==>
              && (Due(ended, t) <==> r.enabled && next.Some? && next.value <= t)
              && ended.lockedUntil == None && ended.lastRunAt == Some(now) && ended.updatedAt == now
              && ended == r.(deleted := ended.deleted, lockedUntil := None, lastRunAt := Some(now), updatedAt := now, nextRunAt := ended.nextRunAt)
    ensures Released(r, now, next).nextRunAt == next
    ensures RunFinished(r, now, next, deletedAsRead).nextRunAt == RunAbandoned(r, now, next).nextRunAt == if r.enabled then next else None
    ensures RunFinished(r, now, next, deletedAsRead).deleted == deletedAsRead
    ensures Released(r, now, next).deleted == RunAbandoned(r, now, next).deleted == r.deleted
  {
  }

  /**
   What a patch does to the columns: nothing to an archived rule; switching off clears the next run and the lock;
   switching on, or a new schedule for an enabled rule, sets the next run computed and leaves the lock; any other
   patch leaves the schedule alone.
   */
  lemma {:induction false} PatchOnTheColumns(r: Rule, p: RulePatch, now: Time)
    ensures r.deleted ==> Patched(r, p, now) == r
    ensures !r.deleted && p.enabled == Some(false) ==> Patched(r, p, now) == r.(enabled := false, nextRunAt := None, lockedUntil := None, updatedAt := now)
    ensures !r.deleted && p.enabled == Some(true) ==> Patched(r, p, now) == r.(enabled := true, nextRunAt := p.computedNext, updatedAt := now)
    ensures !r.deleted && p.enabled == None && p.scheduleChanged && r.enabled ==> Patched(r, p, now) == r.(nextRunAt := p.computedNext, updatedAt := now)
    ensures !r.deleted && p.enabled == None && !(p.scheduleChanged && r.enabled) ==> Patched(r, p, now) == r.(updatedAt := now)
  {
  }

  /** A leased rule is not due again until the lease is over, and then it is, if nothing else was written. */
  lemma {:induction false} LeasedIsDueAgainIff(r: Rule, now: Time, leaseSeconds: nat, t: Time)
    requires Due(r, now) && now <= t
    ensures Due(Leased(r, now, leaseSeconds), t) <==> now + leaseSeconds < t
  {
  }

  // ----- Listings: filter deleted rows, then take

  function Live(rows: seq<Rule>): seq<Rule> {
    if rows == [] then []
    else if rows[0].deleted then Live(rows[1..])
    else [rows[0]] + Live(rows[1..])
  }

  function Take(rows: seq<Rule>, n: nat): seq<Rule> {
    if n <= |rows| then rows[..n] else rows
  }

  function Drop(rows: seq<Rule>, n: nat): seq<Rule> {
    if n <= |rows| then rows[n..] else []
  }

  /** `OFFSET offset LIMIT size`. */
  function Page(rows: seq<Rule>, offset: nat, size: nat): seq<Rule> {
    Take(Drop(rows, offset), size)
  }

  lemma {:induction false} LiveConcat(a: seq<Rule>, b: seq<Rule>)
    ensures Live(a + b) == Live(a) + Live(b)
  {
    if a == [] {
      assert a + b == b;
    } else {
      assert (a + b)[1..] == a[1..] + b;
      LiveConcat(a[1..], b);
    }
  }

  lemma {:induction false} LiveStep(rows: seq<Rule>, k: nat)
    requires k < |rows|
    ensures Live(rows[..k + 1]) == Live(rows[..k]) + (if rows[k].deleted then [] else [rows[k]])
  {
    assert rows[..k + 1] == rows[..k] + [rows[k]];
    LiveConcat(rows[..k], [rows[k]]);
  }

  /** Reading on from `k` to `m` only appends live rows, and nothing once `limit` of them are found. */
  lemma {:induction false} LiveFurther(rows: seq<Rule>, k: nat, m: nat, limit: nat)
    requires k <= m <= |rows|
    ensures Take(Live(rows[..m]), limit) == Take(Take(Live(rows[..k]), limit) + Live(rows[k..m]), limit)
    ensures limit <= |Live(rows[..k])| ==> Take(Live(rows[..m]), limit) == Take(Live(rows[..k]), limit)
  {
    assert rows[..m] == rows[..k] + rows[k..m];
    LiveConcat(rows[..k], rows[k..m]);
  }

  /** The inner loop of the listings: append the page's live rows, stopping at the limit. */
  method AppendLive(collected: seq<Rule>, page: seq<Rule>, limit: nat) returns (longer: seq<Rule>)
    requires |collected| < limit
    ensures longer == Take(collected + Live(page), limit)
  {
    longer := collected;
    assert page[..|page|] == page;
    for k := 0 to |page|
      invariant |longer| < limit && longer == collected + Live(page[..k])
    {
      LiveStep(page, k);
      if !page[k].deleted {
        longer := longer + [page[k]];
        assert longer == collected + Live(page[..k + 1]);
        if limit <= |longer| {
          LiveFurther(page, k + 1, |page|, |Live(page[..k + 1])|);
          return;
        }
      }
    }
  }

  /** The first `limit` live rows among the first `k` rows read. */
  ghost function Found(rows: seq<Rule>, k: nat, limit: nat): seq<Rule>
    requires k <= |rows|
  {
    Take(Live(rows[..k]), limit)
  }

  lemma {:induction false} NextPage(rows: seq<Rule>, offset: nat, k: nat, size: nat, limit: nat)
    requires k <= |Drop(rows, offset)|
    ensures k + |Page(rows, offset + k, size)| <= |Drop(rows, offset)|
    ensures Found(Drop(rows, offset), k + |Page(rows, offset + k, size)|, limit)
         == Take(Found(Drop(rows, offset), k, limit) + Live(Page(rows, offset + k, size)), limit)
    ensures 0 < size && Page(rows, offset + k, size) == [] ==> k == |Drop(rows, offset)|
  {
    var page := Page(rows, offset + k, size);
    PageIsASlice(rows, offset, k, size);
    FoundFurther(Drop(rows, offset), k, page, limit);
  }

  lemma {:induction false} FoundFurther(rest: seq<Rule>, k: nat, page: seq<Rule>, limit: nat)
    requires k + |page| <= |rest| && page == rest[k..k + |page|]
    ensures Found(rest, k + |page|, limit) == Take(Found(rest, k, limit) + Live(page), limit)
  {
    assert rest[..k + |page|] == rest[..k] + page;
    LiveConcat(rest[..k], page);
    TakeFurther(Live(rest[..k]), Live(page), limit);
  }

  lemma {:induction false} TakeFurther(a: seq<Rule>, b: seq<Rule>, limit: nat)
    ensures Take(a + b, limit) == Take(Take(a, limit) + b, limit)
  {
  }

  lemma {:induction false} PageIsASlice(rows: seq<Rule>, offset: nat, k: nat, size: nat)
    requires k <= |Drop(rows, offset)|
    ensures k + |Page(rows, offset + k, size)| <= |Drop(rows, offset)|
    ensures Page(rows, offset + k, size) == Drop(rows, offset)[k..k + |Page(rows, offset + k, size)|]
    ensures 0 < size && Page(rows, offset + k, size) == [] ==> k == |Drop(rows, offset)|
  {
    assert Drop(rows, offset + k) == Drop(rows, offset)[k..];
  }

  lemma {:induction false} EnoughFound(rows: seq<Rule>, k: nat, limit: nat)
    requires k <= |rows| && (k == |rows| || limit <= |Found(rows, k, limit)|)
    ensures Found(rows, k, limit) == Take(Live(rows), limit)
  {
    LiveFurther(rows, k, |rows|, limit);
    assert rows[..|rows|] == rows;
  }

  /** The batch loop of `list`, `list_summaries` and `list_due_rules`: read pages, skip deleted rows, stop at the limit. */
  method CollectLive(rows: seq<Rule>, offset: nat, limit: nat, batchSize: nat) returns (collected: seq<Rule>)
    requires 0 < batchSize
    ensures collected == Take(Live(Drop(rows, offset)), limit)
  {
    collected := [];
    var batchOffset := offset;
    ghost var rest := Drop(rows, offset);
    while |collected| < limit
      invariant offset <= batchOffset <= offset + |rest|
      invariant collected == Found(rest, batchOffset - offset, limit)
      decreases offset + |rest| - batchOffset
    {
      var page := Page(rows, batchOffset, batchSize);
      NextPage(rows, offset, batchOffset - offset, batchSize, limit);
      if page == [] {
        break;
      }
      collected := AppendLive(collected, page, limit);
      batchOffset := batchOffset + |page|;
    }
    EnoughFound(rest, batchOffset - offset, limit);
  }

  // ----- Queries: WHERE, then ORDER BY

  function Where(rows: seq<Rule>, keep: Rule -> bool): seq<Rule> {
    if rows == [] then []
    else (if keep(rows[0]) then [rows[0]] else []) + Where(rows[1..], keep)
  }

  /** Rows by ascending key; rows with equal keys stay in table order. */
  function OrderBy(rows: seq<Rule>, key: Rule -> int): seq<Rule> {
    if rows == [] then [] else InsertInOrder(rows[0], OrderBy(rows[1..], key), key)
  }

  function InsertInOrder(r: Rule, sorted: seq<Rule>, key: Rule -> int): seq<Rule> {
    if sorted == [] || key(r) <= key(sorted[0]) then [r] + sorted
    else [sorted[0]] + InsertInOrder(r, sorted[1..], key)
  }

  ghost predicate Ascending(rows: seq<Rule>, key: Rule -> int) {
    forall i, j :: 0 <= i < j < |rows| ==> key(rows[i]) <= key(rows[j])
  }

  lemma {:induction false} InsertAddsOne(r: Rule, sorted: seq<Rule>, key: Rule -> int)
    ensures multiset(InsertInOrder(r, sorted, key)) == multiset{r} + multiset(sorted)
  {
    if sorted != [] && key(sorted[0]) < key(r) {
      InsertAddsOne(r, sorted[1..], key);
      assert sorted == [sorted[0]] + sorted[1..];
    }
  }

  lemma {:induction false} InsertKeepsOrder(r: Rule, sorted: seq<Rule>, key: Rule -> int)
    requires Ascending(sorted, key)
    ensures Ascending(InsertInOrder(r, sorted, key), key)
    ensures multiset(InsertInOrder(r, sorted, key)) == multiset{r} + multiset(sorted)
  {
    InsertAddsOne(r, sorted, key);
    if sorted != [] && key(sorted[0]) < key(r) {
      InsertKeepsOrder(r, sorted[1..], key);
      InsertedStaysBehind(r, sorted, key);
    }
  }

  /** Everything behind the first of the sorted rows is at least that first row. */
  lemma {:induction false} InsertedStaysBehind(r: Rule, sorted: seq<Rule>, key: Rule -> int)
    requires Ascending(sorted, key) && sorted != [] && key(sorted[0]) < key(r)
    ensures forall x :: x in InsertInOrder(r, sorted[1..], key) ==> key(sorted[0]) <= key(x)
  {
    InsertAddsOne(r, sorted[1..], key);
    var tail := InsertInOrder(r, sorted[1..], key);
    forall x | x in tail
      ensures key(sorted[0]) <= key(x)
    {
      assert x in multiset(tail);
    }
  }

  lemma {:induction false} OrderByIsAPermutation(rows: seq<Rule>, key: Rule -> int)
    ensures Ascending(OrderBy(rows, key), key)
    ensures multiset(OrderBy(rows, key)) == multiset(rows)
  {
    if rows != [] {
      OrderByIsAPermutation(rows[1..], key);
      InsertKeepsOrder(rows[0], OrderBy(rows[1..], key), key);
      assert rows == [rows[0]] + rows[1..];
    }
  }

  lemma {:induction false} WhereMembers(rows: seq<Rule>, keep: Rule -> bool)
    ensures forall r :: r in Where(rows, keep) <==> r in rows && keep(r)
  {
    if rows != [] {
      WhereMembers(rows[1..], keep);
    }
  }

  lemma {:induction false} LiveMembers(rows: seq<Rule>)
    ensures forall r :: r in Live(rows) <==> r in rows && !r.deleted
    ensures |Live(rows)| <= |rows|
  {
    if rows != [] {
      LiveMembers(rows[1..]);
    }
  }

  /** `visibility_clause`: an administrator sees every row, no viewer means the caller did not ask. */
  predicate Visible(r: Rule, viewer: Option<Viewer>) {
    viewer.None? || viewer.value.admin || r.owner == Some(viewer.value.id) || r.visibility == "public"
  }

  function NewestFirst(rows: seq<Rule>, enabled: Option<bool>, viewer: Option<Viewer>): seq<Rule> {
    OrderBy(
      Where(rows, (r: Rule) => (enabled.None? || r.enabled == enabled.value) && Visible(r, viewer)),
      (r: Rule) => -r.createdAt)
  }

  function NextRun(r: Rule): int {
    if r.nextRunAt.Some? then r.nextRunAt.value else 0
  }

  function DueFirst(rows: seq<Rule>, now: Time): seq<Rule> {
    OrderBy(Where(rows, (r: Rule) => Due(r, now)), NextRun)
  }

  function BatchSize(limit: int): (size: nat)
    ensures 50 <= size <= 200 && (size < limit ==> size == 200) && (limit < size ==> size == 50)
  {
    if limit < 50 then 50 else if 200 < limit then 200 else limit
  }

  // ----- What a listing holds, on the columns

  lemma {:induction false} LiveKeepsOrder(rows: seq<Rule>, key: Rule -> int)
    requires Ascending(rows, key)
    ensures Ascending(Live(rows), key)
  {
    if rows != [] {
      LiveKeepsOrder(rows[1..], key);
      LiveMembers(rows[1..]);
      forall r | r in Live(rows[1..])
        ensures key(rows[0]) <= key(r)
      {
        assert r in rows[1..];
      }
    }
  }

  lemma {:induction false} OnThePage(rows: seq<Rule>, offset: nat, limit: nat, r: Rule)
    requires r in Take(Live(Drop(rows, offset)), limit)
    ensures r in rows && !r.deleted
  {
    var rest := Drop(rows, offset);
    LiveMembers(rest);
    assert r in Live(rest);
    assert r in rest;
  }

  lemma {:induction false} AmongTheFirst(rows: seq<Rule>, limit: nat, k: nat)
    requires k < limit && k < |rows|
    ensures rows[k] in Take(rows, limit)
  {
    assert Take(rows, limit)[k] == rows[k];
  }

  /** A live row that is not on the first page comes behind a full page. */
  lemma {:induction false} BehindThePage(live: seq<Rule>, key: Rule -> int, limit: nat, r: Rule)
    requires Ascending(live, key) && 0 < limit && r in live && r !in Take(live, limit)
    ensures limit < |live| && key(live[limit - 1]) <= key(r)
  {
    var k :| 0 <= k < |live| && live[k] == r;
    if k < limit {
      AmongTheFirst(live, limit, k);
    }
  }

  /** A page of an ordered table is in order, holds live rows only, and from offset 0 leaves out none that comes before its last. */
  lemma {:induction false} PageOfAnOrderedTable(sorted: seq<Rule>, key: Rule -> int, offset: nat, limit: nat) returns (found: seq<Rule>)
    requires Ascending(sorted, key) && 0 < limit
    ensures found == Take(Live(Drop(sorted, offset)), limit) && |found| <= limit
    ensures Ascending(found, key) && (forall r :: r in found ==> r in sorted && !r.deleted)
    ensures offset == 0 ==> forall r :: r in sorted && !r.deleted && r !in found ==> |found| == limit && key(found[limit - 1]) <= key(r)
  {
    var live := Live(Drop(sorted, offset));
    found := Take(live, limit);
    LiveKeepsOrder(Drop(sorted, offset), key);
    forall r | r in found
      ensures r in sorted && !r.deleted
    {
      OnThePage(sorted, offset, limit, r);
    }
    if offset == 0 {
      LiveMembers(sorted);
      forall r | r in live && r !in found
        ensures |found| == limit && key(found[limit - 1]) <= key(r)
      {
        BehindThePage(live, key, limit, r);
      }
    }
  }

  lemma {:induction false} NewestFirstMembers(rows: seq<Rule>, enabled: Option<bool>, viewer: Option<Viewer>)
    ensures forall r :: r in NewestFirst(rows, enabled, viewer) <==>
              r in rows && (enabled == None || enabled == Some(r.enabled)) && Readable(r, viewer)
    ensures Ascending(NewestFirst(rows, enabled, viewer), (r: Rule) => -r.createdAt)
  {
    var keep := (r: Rule) => (enabled.None? || r.enabled == enabled.value) && Visible(r, viewer);
    WhereMembers(rows, keep);
    OrderByIsAPermutation(Where(rows, keep), (r: Rule) => -r.createdAt);
    var newest := NewestFirst(rows, enabled, viewer);
    forall r ensures r in newest <==> r in Where(rows, keep) {
      assert r in newest <==> r in multiset(newest);
      assert r in Where(rows, keep) <==> r in multiset(Where(rows, keep));
    }
  }

  /** One's own rules and the public ones; an administrator, or a caller that names no viewer, reads all. */
  predicate Readable(r: Rule, viewer: Option<Viewer>) {
    viewer.Some? && !viewer.value.admin ==> r.owner == Some(viewer.value.id) || r.visibility == "public"
  }

  /** The rows are listed newest first. */
  ghost predicate Newest(rows: seq<Rule>) {
    forall i, j :: 0 <= i < j < |rows| ==> rows[j].createdAt <= rows[i].createdAt
  }

  /** What `list` may return of a rule: it is not archived, is enabled or not as asked, and the viewer may read it. */
  predicate Listable(r: Rule, enabled: Option<bool>, viewer: Option<Viewer>) {
    !r.deleted && (enabled == None || enabled == Some(r.enabled)) && Readable(r, viewer)
  }

  lemma {:induction false} ListedAreTheNewest(rows: seq<Rule>, enabled: Option<bool>, viewer: Option<Viewer>, offset: nat, limit: nat)
      returns (found: seq<Rule>)
    requires 0 < limit
    ensures found == Take(Live(Drop(NewestFirst(rows, enabled, viewer), offset)), limit)
    ensures Newest(found) && (forall r :: r in found ==> r in rows && Listable(r, enabled, viewer))
    ensures offset == 0 ==> forall r :: r in rows && Listable(r, enabled, viewer) && r !in found ==>
              |found| == limit && r.createdAt <= found[limit - 1].createdAt
  {
    NewestFirstMembers(rows, enabled, viewer);
    var key := (r: Rule) => -r.createdAt;
    found := PageOfAnOrderedTable(NewestFirst(rows, enabled, viewer), key, offset, limit);
    forall i, j | 0 <= i < j < |found|
      ensures found[j].createdAt <= found[i].createdAt
    {
      assert key(found[i]) <= key(found[j]);
    }
  }

  // ----- What a caller sees when it pages by offset

  ghost predicate Distinct(rows: seq<Rule>) {
    forall i, j :: 0 <= i < j < |rows| ==> rows[i] != rows[j]
  }

  lemma {:induction false} LiveOfLiveRows(rows: seq<Rule>)
    requires forall r :: r in rows ==> !r.deleted
    ensures Live(rows) == rows
  {
    if rows != [] {
      LiveOfLiveRows(rows[1..]);
    }
  }

  lemma {:induction false} LiveShorter(rows: seq<Rule>)
    requires exists r :: r in rows && r.deleted
    ensures |Live(rows)| < |rows|
  {
    if !rows[0].deleted {
      LiveShorter(rows[1..]);
    } else {
      LiveMembers(rows[1..]);
    }
  }

  lemma {:induction false} LiveDistinct(rows: seq<Rule>)
    requires Distinct(rows)
    ensures Distinct(Live(rows))
  {
    if rows != [] {
      LiveDistinct(rows[1..]);
      LiveMembers(rows[1..]);
      assert rows[0] !in rows[1..];
    }
  }

  /**
   The offset counts raw rows and the limit counts live ones, so two consecutive pages are the first
   2 * `limit` live rows exactly when nothing deleted lies in the first `limit` raw rows, or nothing
   live lies after them. Otherwise the first live row behind those is on both pages.
   */
  lemma {:induction false} ConsecutivePagesRepeat(rows: seq<Rule>, limit: nat)
    requires Distinct(rows) && 0 < limit
    ensures var first, second := Take(Live(rows), limit), Take(Live(Drop(rows, limit)), limit);
            var repeats := (exists r :: r in Take(rows, limit) && r.deleted) && Live(Drop(rows, limit)) != [];
            && (first + second == Take(Live(rows), 2 * limit) <==> !repeats)
            && (repeats ==> second != [] && second[0] == Live(Drop(rows, limit))[0] && second[0] in first)
  {
    var a, b := Take(rows, limit), Drop(rows, limit);
    assert rows == a + b;
    LiveConcat(a, b);
    if forall r :: r in a ==> !r.deleted {
      LiveOfLiveRows(a);
      PagesJoin(a, Live(b), limit);
    } else if Live(b) == [] {
      LiveShorter(a);
      PagesJoin(Live(a), [], limit);
    } else {
      LiveShorter(a);
      LiveDistinct(b);
      PagesOverlap(Live(a), Live(b), limit);
    }
  }

  /** Pages join without overlap when the first is full, or nothing comes after it. */
  lemma {:induction false} PagesJoin(la: seq<Rule>, lb: seq<Rule>, limit: nat)
    requires |la| <= limit && (|la| == limit || lb == [])
    ensures Take(la + lb, limit) + Take(lb, limit) == Take(la + lb, 2 * limit)
  {
  }

  lemma {:induction false} PagesOverlap(la: seq<Rule>, lb: seq<Rule>, limit: nat)
    requires |la| < limit && lb != [] && Distinct(lb)
    ensures Take(la + lb, limit) + Take(lb, limit) != Take(la + lb, 2 * limit)
    ensures Take(lb, limit)[0] == lb[0] && lb[0] in Take(la + lb, limit)
  {
    var pages, all := Take(la + lb, limit) + Take(lb, limit), Take(la + lb, 2 * limit);
    assert Take(la + lb, limit)[|la|] == lb[0];
    if limit < |lb| {
      assert pages[limit] == lb[0];
      assert limit < |all| ==> all[limit] == lb[limit - |la|];
    }
  }

  // ----- The due listing, on the columns

  /** Enabled, not archived, with a next run that has come, and no lock or one that is over. */
  predicate Takeable(r: Rule, now: Time) {
    && r.enabled && !r.deleted
    && r.nextRunAt != None && r.nextRunAt.value <= now
    && (r.lockedUntil != None ==> r.lockedUntil.value < now)
  }

  /** The first rule's next run comes no later than the second's. */
  predicate NoLater(a: Rule, b: Rule) {
    a.nextRunAt != None && b.nextRunAt != None && a.nextRunAt.value <= b.nextRunAt.value
  }

  lemma {:induction false} TakeableIff(rows: seq<Rule>, now: Time, r: Rule)
    ensures r in DueFirst(rows, now) && !r.deleted <==> r in rows && Takeable(r, now)
  {
    DueFirstMembers(rows, now);
  }

  lemma {:induction false} NoLaterByKey(a: Rule, b: Rule, now: Time)
    requires Takeable(a, now) && Takeable(b, now) && NextRun(a) <= NextRun(b)
    ensures NoLater(a, b)
  {
  }

  lemma {:induction false} PageOfDueRules(rows: seq<Rule>, now: Time, limit: nat) returns (found: seq<Rule>)
    requires 0 < limit
    ensures found == Take(Live(DueFirst(rows, now)), limit)
    ensures forall r :: r in found ==> r in rows && Takeable(r, now)
    ensures forall i, j :: 0 <= i < j < |found| ==> NoLater(found[i], found[j])
    ensures forall r :: r in rows && Takeable(r, now) && r !in found ==> |found| == limit && NoLater(found[limit - 1], r)
  {
    DueFirstMembers(rows, now);
    found := PageOfAnOrderedTable(DueFirst(rows, now), NextRun, 0, limit);
    forall r | r in found
      ensures r in rows && Takeable(r, now)
    {
      TakeableIff(rows, now, r);
    }
    forall i, j | 0 <= i < j < |found|
      ensures NoLater(found[i], found[j])
    {
      NoLaterByKey(found[i], found[j], now);
    }
    forall r | r in rows && Takeable(r, now) && r !in found
      ensures |found| == limit && NoLater(found[limit - 1], r)
    {
      TakeableIff(rows, now, r);
      NoLaterByKey(found[limit - 1], r, now);
    }
  }

  // ----- The table

  function IndexOf(rows: seq<Rule>, id: string): (i: nat)
    ensures i <= |rows|
    ensures i < |rows| ==> rows[i].id == id
    ensures forall k :: 0 <= k < i ==> rows[k].id != id
  {
    if rows == [] || rows[0].id == id then 0 else 1 + IndexOf(rows[1..], id)
  }

  /** The table after the row with this id, if there is one, became `r`. */
  function Stored(rows: seq<Rule>, id: string, r: Rule): seq<Rule> {
    var i := IndexOf(rows, id);
    if i < |rows| then rows[i := r] else rows
  }

  class DelegationRuleRepository {
    var rules: seq<Rule>
    var runs: map<nat, RunState>

    constructor (rows: seq<Rule>)
      ensures rules == rows && runs == map[]
    {
      rules, runs := rows, map[];
    }

    method List(limit: int, offset: int, enabled: Option<bool>, viewer: Option<Viewer>) returns (found: seq<Rule>)
      ensures found == if limit <= 0 then []
                       else Take(Live(Drop(NewestFirst(rules, enabled, viewer), if offset < 0 then 0 else offset)), limit)
      ensures Newest(found) && forall r :: r in found ==> r in rules && Listable(r, enabled, viewer)
      ensures offset <= 0 < limit ==> forall r :: r in rules && Listable(r, enabled, viewer) && r !in found ==>
                |found| == limit && r.createdAt <= found[limit - 1].createdAt
    {
      if limit <= 0 {
        return [];
      }
      ghost var page := ListedAreTheNewest(rules, enabled, viewer, if offset < 0 then 0 else offset, limit);
      found := CollectLive(NewestFirst(rules, enabled, viewer), if offset < 0 then 0 else offset, limit, BatchSize(limit));
    }

    /** The rules a worker may try to lease: due, not archived, earliest first. */
    method ListDueRules(now: Time, limit: int) returns (found: seq<Rule>)
      ensures found == if limit <= 0 then [] else Take(Live(DueFirst(rules, now)), limit)
      ensures forall r :: r in found ==> r in rules && Takeable(r, now)
      ensures forall i, j :: 0 <= i < j < |found| ==> NoLater(found[i], found[j])
      ensures 0 < limit ==> forall r :: r in rules && Takeable(r, now) && r !in found ==> |found| == limit && NoLater(found[limit - 1], r)
    {
      if limit <= 0 {
        return [];
      }
      ghost var page := PageOfDueRules(rules, now, limit);
      found := CollectLive(DueFirst(rules, now), 0, limit, BatchSize(limit));
    }

    /** Compare-and-set: the row is leased when the WHERE clause holds, even if it turns out archived. */
    method AcquireDueRuleLock(id: string, now: Time, leaseSeconds: int) returns (leased: Option<Rule>)
      modifies this`rules
      ensures var i := IndexOf(old(rules), id);
              if i < |old(rules)| && Takeable(old(rules)[i].(deleted := false), now) then
                && rules == old(rules)[i := old(rules)[i].(lockedUntil := Some(now + leaseSeconds), updatedAt := now)]
                && leased == (if old(rules)[i].deleted then None else Some(rules[i]))
              else rules == old(rules) && leased == None
    {
      var i := IndexOf(rules, id);
      if |rules| <= i || !Due(rules[i], now) {
        return None;
      }
      rules := rules[i := Leased(rules[i], now, leaseSeconds)];
      leased := if rules[i].deleted then None else Some(rules[i]);
    }

    method ReleaseLockAndScheduleNext(id: string, now: Time, next: Option<Time>)
      requires IndexOf(rules, id) < |rules|
      modifies this`rules
      ensures rules == Stored(old(rules), id, Released(old(rules)[IndexOf(old(rules), id)], now, next))
    {
      var i := IndexOf(rules, id);
      rules := rules[i := Released(rules[i], now, next)];
    }

    /** The beginning of a run: refused on an archived rule, otherwise the run has read the row. */
    method StartRun(run: nat, id: string) returns (reply: Reply)
      modifies this`runs
      ensures var i := IndexOf(rules, id);
              if |rules| <= i then reply == Refused(404) && runs == old(runs)
              else if rules[i].deleted then reply == Refused(409) && runs == old(runs)
              else reply == Done && runs == old(runs)[run := RunState(id, false)]
    {
      var i := IndexOf(rules, id);
      if |rules| <= i {
        return Refused(404);
      }
      if rules[i].deleted {
        return Refused(409);
      }
      runs := runs[run := RunState(id, rules[i].deleted)];
      reply := Done;
    }

    /** Every commit of the run's session expires the row, so the next access reads it again. */
    method RereadRule(run: nat)
      requires run in runs && IndexOf(rules, runs[run].rule) < |rules|
      modifies this`runs
      ensures runs == old(runs)[run := RunState(old(runs)[run].rule, rules[IndexOf(rules, old(runs)[run].rule)].deleted)]
    {
      var i := IndexOf(rules, runs[run].rule);
      runs := runs[run := runs[run].(deletedAsRead := rules[i].deleted)];
    }

    /** The write that ends a run, from the state the run last read. */
    method FinishRun(run: nat, now: Time, next: Option<Time>)
      requires run in runs && IndexOf(rules, runs[run].rule) < |rules|
      modifies this
      ensures var id := old(runs)[run].rule;
              rules == Stored(old(rules), id, RunFinished(old(rules)[IndexOf(old(rules), id)], now, next, old(runs)[run].deletedAsRead))
      ensures runs == old(runs) - {run}
    {
      var i := IndexOf(rules, runs[run].rule);
      rules := rules[i := RunFinished(rules[i], now, next, runs[run].deletedAsRead)];
      runs := runs - {run};
    }

    method AbandonRun(run: nat, now: Time, next: Option<Time>)
      requires run in runs && IndexOf(rules, runs[run].rule) < |rules|
      modifies this
      ensures var id := old(runs)[run].rule;
              rules == Stored(old(rules), id, RunAbandoned(old(rules)[IndexOf(old(rules), id)], now, next))
      ensures runs == old(runs) - {run}
    {
      var i := IndexOf(rules, runs[run].rule);
      rules := rules[i := RunAbandoned(rules[i], now, next)];
      runs := runs - {run};
    }

    /** PATCH: 404 unless visible, 409 when archived, 403 unless the owner; the archived check comes first. */
    method Update(id: string, patch: RulePatch, user: Viewer, now: Time) returns (reply: Reply)
      modifies this`rules
      ensures var i := IndexOf(old(rules), id);
              if |old(rules)| <= i || !(user.admin || old(rules)[i].owner == Some(user.id) || Lower(Strip(old(rules)[i].visibility)) == "public") then reply == Refused(404)
              else if old(rules)[i].deleted then reply == Refused(409)
              else if old(rules)[i].owner != Some(user.id) then reply == Refused(403)
              else reply == Done && rules == old(rules)[i := Patched(old(rules)[i], patch, now)]
      ensures reply != Done ==> rules == old(rules)
    {
      var i := IndexOf(rules, id);
      if |rules| <= i || !CanSee(rules[i], user) {
        return Refused(404);
      }
      if rules[i].deleted {
        return Refused(409);
      }
      if rules[i].owner != Some(user.id) {
        return Refused(403);
      }
      rules := rules[i := Patched(rules[i], patch, now)];
      reply := Done;
    }

    /** DELETE: archive the rule once; archiving an archived rule answers ok and writes nothing. */
    method Archive(id: string, user: Viewer, now: Time) returns (reply: Reply)
      modifies this`rules
      ensures var i := IndexOf(old(rules), id);
              if |old(rules)| <= i || !(user.admin || old(rules)[i].owner == Some(user.id) || Lower(Strip(old(rules)[i].visibility)) == "public") then reply == Refused(404)
              else if old(rules)[i].owner != Some(user.id) then reply == Refused(403)
              else (reply == Done
                && rules == old(rules)[i := if old(rules)[i].deleted then old(rules)[i] else
                     old(rules)[i].(enabled := false, deleted := true, nextRunAt := None, lockedUntil := None, updatedAt := now)])
      ensures reply != Done ==> rules == old(rules)
    {
      var i := IndexOf(rules, id);
      if |rules| <= i || !CanSee(rules[i], user) {
        return Refused(404);
      }
      if rules[i].owner != Some(user.id) {
        return Refused(403);
      }
      if !rules[i].deleted {
        rules := rules[i := Archived(rules[i], now)];
      }
      reply := Done;
    }
  }

  predicate CanSee(r: Rule, user: Viewer) {
    user.admin || r.owner == Some(user.id) || Normalize(r.visibility) == "public"
  }

  /** How often each row stands in a filtered listing. */
  lemma {:induction false} WhereKeepsCopies(rows: seq<Rule>, keep: Rule -> bool, r: Rule)
    ensures multiset(Where(rows, keep))[r] == if keep(r) then multiset(rows)[r] else 0
  {
    if rows != [] {
      WhereKeepsCopies(rows[1..], keep, r);
      assert rows == [rows[0]] + rows[1..];
    }
  }

  /** The due listing before paging: each due rule as often as it is stored, and nothing else. */
  lemma {:induction false} DueFirstKeepsCopies(rows: seq<Rule>, now: Time, r: Rule)
    ensures multiset(DueFirst(rows, now))[r] == if Due(r, now) then multiset(rows)[r] else 0
  {
    WhereKeepsCopies(rows, (x: Rule) => Due(x, now), r);
    OrderByIsAPermutation(Where(rows, (x: Rule) => Due(x, now)), NextRun);
  }

  lemma {:induction false} DueFirstMembers(rows: seq<Rule>, now: Time)
    ensures forall r :: r in DueFirst(rows, now) <==> r in rows && Due(r, now)
    ensures forall r :: multiset(DueFirst(rows, now))[r] == if Due(r, now) then multiset(rows)[r] else 0
    ensures Ascending(DueFirst(rows, now), NextRun)
  {
    forall r
      ensures multiset(DueFirst(rows, now))[r] == if Due(r, now) then multiset(rows)[r] else 0
    {
      DueFirstKeepsCopies(rows, now, r);
    }
    var due := Where(rows, (r: Rule) => Due(r, now));
    WhereMembers(rows, (r: Rule) => Due(r, now));
    OrderByIsAPermutation(due, NextRun);
    forall r ensures r in DueFirst(rows, now) <==> r in due {
      assert r in DueFirst(rows, now) <==> r in multiset(DueFirst(rows, now));
      assert r in due <==> r in multiset(due);
    }
  }
}
