/**
 The data part of the migration to one runtime profile per member
 (alembic/versions/20260925_0036_single_runtime_profile_per_user.py): per owner it keeps one profile,
 archives the others, rebinds every agent and only then deletes.
 */
module ProfileMigration {
  import opened Options

  /** The owner column is nullable; rows without an owner form a group of their own. */
  type Owner = Option<int>

  datatype Profile = Profile(
    id: string,
    owner: Owner,
    name: Option<string>,
    description: Option<string>,
    config: Option<string>,
    revision: Option<int>,
    isDefault: bool,
    createdAt: Option<nat>,
    updatedAt: Option<nat>
  )

  datatype Agent = Agent(id: string, owner: int, profileId: Option<string>, appliedRevision: Option<int>)

  datatype ArchivedProfile = ArchivedProfile(
    id: string,
    owner: Owner,
    name: string,
    description: Option<string>,
    config: string,
    revision: int,
    mergedInto: string,
    createdAt: Option<nat>,
    archivedAt: nat
  )

  datatype Db = Db(profiles: map<string, Profile>, agents: map<string, Agent>, archive: map<string, ArchivedProfile>)

  /** The rows the migration read before its first write, in the order the database returned them. */
  datatype Rows = Rows(profiles: seq<Profile>, agents: seq<Agent>)

  /** Every row of both tables was read exactly once. */
  ghost predicate Snapshot(rows: Rows, db: Db) {
    && (forall i :: 0 <= i < |rows.profiles| ==>
          rows.profiles[i].id in db.profiles && db.profiles[rows.profiles[i].id] == rows.profiles[i])
    && (forall id :: id in db.profiles ==> db.profiles[id].id == id && db.profiles[id] in rows.profiles)
    && (forall i, j :: 0 <= i < j < |rows.profiles| ==> rows.profiles[i].id != rows.profiles[j].id)
    && (forall i :: 0 <= i < |rows.agents| ==>
          rows.agents[i].id in db.agents && db.agents[rows.agents[i].id] == rows.agents[i])
    && (forall id :: id in db.agents ==> db.agents[id].id == id && db.agents[id] in rows.agents)
    && (forall i, j :: 0 <= i < j < |rows.agents| ==> rows.agents[i].id != rows.agents[j].id)
  }

  /** The foreign key from agents to profiles. */
  ghost predicate ReferentialIntegrity(db: Db) {
    forall a :: a in db.agents && db.agents[a].profileId.Some? ==> db.agents[a].profileId.value in db.profiles
  }

  // ----- Choosing the keeper

  /** How many agents are bound to this profile; an empty id does not count as a binding. */
  function BoundCount(agents: seq<Agent>, profileId: string): nat {
    if agents == [] then 0
    else
      var last := agents[|agents| - 1];
      BoundCount(agents[..|agents| - 1], profileId)
      + if last.profileId == Some(profileId) && profileId != "" then 1 else 0
  }

  /** The dictionary `bound_counts`: no key for a profile nobody is bound to. */
  function BoundCounts(agents: seq<Agent>): map<string, nat> {
    if agents == [] then map[]
    else
      var counts := BoundCounts(agents[..|agents| - 1]);
      var bound := agents[|agents| - 1].profileId;
      if bound.Some? && bound.value != "" then counts[bound.value := Count(counts, bound.value) + 1] else counts
  }

  /** `bound_counts.get(id, 0)`. */
  function Count(counts: map<string, nat>, id: string): nat {
    if id in counts then counts[id] else 0
  }

  lemma {:induction false} CountsAreBindings(agents: seq<Agent>, id: string)
    ensures Count(BoundCounts(agents), id) == BoundCount(agents, id)
  {
    if agents != [] {
      CountsAreBindings(agents[..|agents| - 1], id);
    }
  }

  /** `updated_at or created_at or datetime.min`; the earliest instant is 0. */
  function Stamp(p: Profile): nat {
    if p.updatedAt.Some? then p.updatedAt.value else if p.createdAt.Some? then p.createdAt.value else 0
  }

  /** Python's order on the tuples (agents bound, is default, updated). */
  predicate RanksBelow(a: Profile, b: Profile, counts: map<string, nat>) {
    var ca, cb := Count(counts, a.id), Count(counts, b.id);
    ca < cb || (ca == cb && (
      (!a.isDefault && b.isDefault) || (a.isDefault == b.isDefault && Stamp(a) < Stamp(b))))
  }

  /** `max(profiles, key=rank)`: the first of the highest-ranked profiles. */
  function Keeper(owned: seq<Profile>, counts: map<string, nat>): Profile
    requires owned != []
  {
    var last := owned[|owned| - 1];
    if |owned| == 1 then last
    else
      var best := Keeper(owned[..|owned| - 1], counts);
      if RanksBelow(best, last, counts) then last else best
  }

  lemma {:induction false} KeeperIsFirstByRank(owned: seq<Profile>, counts: map<string, nat>) returns (at: nat)
    requires owned != []
    ensures at < |owned| && Keeper(owned, counts) == owned[at]
    ensures forall i :: 0 <= i < |owned| ==> !RanksBelow(owned[at], owned[i], counts)
    ensures forall i :: 0 <= i < at ==> RanksBelow(owned[i], owned[at], counts)
  {
    var n := |owned| - 1;
    if n == 0 {
      at := 0;
    } else {
      at := KeeperIsFirstByRank(owned[..n], counts);
      if RanksBelow(owned[at], owned[n], counts) {
        at := n;
      }
    }
  }

  /** The instant a profile counts as changed: its update, else its creation, else the earliest of all. */
  predicate ChangedAt(p: Profile, t: nat) {
    p.updatedAt == Some(t) || (p.updatedAt == None && p.createdAt == Some(t)) || (p.updatedAt == None && p.createdAt == None && t == 0)
  }

  /** How many agents name this profile. */
  ghost function Bindings(agents: seq<Agent>, profileId: string): nat {
    if profileId == "" then 0 else multiset(seq(|agents|, i requires 0 <= i < |agents| => agents[i].profileId))[Some(profileId)]
  }

  /** The second profile does not outrank the first: by agents bound, then the default mark, then the last change. */
  ghost predicate NotOutranked(p: Profile, q: Profile, agents: seq<Agent>) {
    var c, d := Bindings(agents, p.id), Bindings(agents, q.id);
    || d < c
    || (d == c && p.isDefault && !q.isDefault)
    || (d == c && p.isDefault == q.isDefault && forall t, u :: ChangedAt(p, t) && ChangedAt(q, u) ==> u <= t)
  }

  lemma {:induction false} BindingsAreCounted(agents: seq<Agent>, profileId: string)
    ensures Bindings(agents, profileId) == Count(BoundCounts(agents), profileId)
  {
    CountsAreBindings(agents, profileId);
    BindingsOneByOne(agents, profileId);
  }

  lemma {:induction false} BindingsOneByOne(agents: seq<Agent>, profileId: string)
    ensures Bindings(agents, profileId) == BoundCount(agents, profileId)
  {
    if agents != [] {
      var init, last := agents[..|agents| - 1], agents[|agents| - 1];
      BindingsOneByOne(init, profileId);
      assert seq(|agents|, i requires 0 <= i < |agents| => agents[i].profileId)
          == seq(|init|, i requires 0 <= i < |init| => init[i].profileId) + [last.profileId];
    }
  }

  lemma {:induction false} OutrankedIsRankedBelow(p: Profile, q: Profile, agents: seq<Agent>)
    ensures NotOutranked(p, q, agents) <==> !RanksBelow(p, q, BoundCounts(agents))
  {
    BindingsAreCounted(agents, p.id);
    BindingsAreCounted(agents, q.id);
    assert ChangedAt(p, Stamp(p)) && ChangedAt(q, Stamp(q));
  }

  /** The keeper is one that no profile of the owner outranks, and among several such the one read first. */
  lemma {:induction false} KeeperIsTheFirstMaximum(owned: seq<Profile>, agents: seq<Agent>) returns (at: nat)
    requires owned != []
    ensures at < |owned| && Keeper(owned, BoundCounts(agents)) == owned[at]
    ensures forall i :: 0 <= i < |owned| ==> NotOutranked(owned[at], owned[i], agents)
    ensures forall i :: 0 <= i < at ==> !NotOutranked(owned[i], owned[at], agents)
  {
    at := KeeperIsFirstByRank(owned, BoundCounts(agents));
    forall i | 0 <= i < |owned|
      ensures NotOutranked(owned[at], owned[i], agents) && (i < at ==> !NotOutranked(owned[i], owned[at], agents))
    {
      OutrankedIsRankedBelow(owned[at], owned[i], agents);
      OutrankedIsRankedBelow(owned[i], owned[at], agents);
    }
  }

  function Owned(profiles: seq<Profile>, owner: Owner): seq<Profile> {
    if profiles == [] then []
    else
      var last := profiles[|profiles| - 1];
      Owned(profiles[..|profiles| - 1], owner) + if last.owner == owner then [last] else []
  }

  lemma {:induction false} OwnedMembers(profiles: seq<Profile>, owner: Owner)
    ensures forall p :: p in Owned(profiles, owner) <==> p in profiles && p.owner == owner
  {
    if profiles != [] {
      OwnedMembers(profiles[..|profiles| - 1], owner);
      assert profiles == profiles[..|profiles| - 1] + [profiles[|profiles| - 1]];
    }
  }

  /** The profile its owner keeps; an owner is only asked about when it owns a profile. */
  function KeeperOf(rows: Rows, owner: Owner): Profile
    requires Owned(rows.profiles, owner) != []
  {
    Keeper(Owned(rows.profiles, owner), BoundCounts(rows.agents))
  }

  predicate HasProfile(rows: Rows, owner: Owner) {
    Owned(rows.profiles, owner) != []
  }

  predicate Survives(rows: Rows, p: Profile) {
    HasProfile(rows, p.owner) && p.id == KeeperOf(rows, p.owner).id
  }

  lemma {:induction false} KeeperMembers(rows: Rows, owner: Owner)
    requires HasProfile(rows, owner)
    ensures KeeperOf(rows, owner) in rows.profiles && KeeperOf(rows, owner).owner == owner
    ensures Survives(rows, KeeperOf(rows, owner))
  {
    var at := KeeperIsTheFirstMaximum(Owned(rows.profiles, owner), rows.agents);
    OwnedMembers(rows.profiles, owner);
  }

  // ----- What the migration leaves behind

  function RevisionOr1(p: Profile): int {
    if p.revision.None? || p.revision.value == 0 then 1 else p.revision.value
  }

  function ArchivedAs(p: Profile, keeper: string, now: nat): ArchivedProfile {
    ArchivedProfile(
      p.id, p.owner, if p.name.Some? then p.name.value else "", p.description,
      if p.config.Some? && p.config.value != "" then p.config.value else "{}",
      RevisionOr1(p), keeper, p.createdAt, now)
  }

  function Kept(p: Profile): Profile {
    p.(isDefault := true)
  }

  /** The ids of the rows that are archived and deleted. */
  function MergedIds(rows: Rows): set<string> {
    set p | p in rows.profiles && !Survives(rows, p) :: p.id
  }

  function Rebound(rows: Rows, a: Agent): Agent {
    if HasProfile(rows, Some(a.owner)) then
      var keeper := KeeperOf(rows, Some(a.owner));
      a.(profileId := Some(keeper.id),
         appliedRevision := Some(if a.profileId == Some(keeper.id) then RevisionOr1(keeper) else 0))
    else if a.profileId.Some? && a.profileId.value in MergedIds(rows) then
      a.(profileId := None, appliedRevision := Some(0))
    else a
  }

  function ReboundAgents(agents: map<string, Agent>, rows: Rows, ids: set<string>): map<string, Agent> {
    map id | id in agents :: if id in ids then Rebound(rows, agents[id]) else agents[id]
  }

  /** One archive row for each profile that does not survive, naming its owner's keeper. */
  function MergedArchive(db: Db, rows: Rows, now: nat): map<string, ArchivedProfile> {
    map id | id in db.profiles && HasProfile(rows, db.profiles[id].owner) && !Survives(rows, db.profiles[id]) ::
      ArchivedAs(db.profiles[id], KeeperOf(rows, db.profiles[id].owner).id, now)
  }

  /** The keepers are marked as default before anything is deleted. */
  function KeepersMarked(profiles: map<string, Profile>, rows: Rows): map<string, Profile> {
    map id | id in profiles :: if Survives(rows, profiles[id]) then Kept(profiles[id]) else profiles[id]
  }

  /** The database after the whole migration. */
  function Migrated(db: Db, rows: Rows, now: nat): Db {
    Db(map id | id in db.profiles && Survives(rows, db.profiles[id]) :: Kept(db.profiles[id]),
       ReboundAgents(db.agents, rows, db.agents.Keys),
       db.archive + MergedArchive(db, rows, now))
  }

  // ----- The loops that read

  method CountBindings(agents: seq<Agent>) returns (counts: map<string, nat>)
    ensures counts == BoundCounts(agents)
  {
    counts := map[];
    for i := 0 to |agents|
      invariant counts == BoundCounts(agents[..i])
    {
      assert agents[..i + 1][..i] == agents[..i];
      var bound := agents[i].profileId;
      if bound.Some? && bound.value != "" {
        counts := counts[bound.value := Count(counts, bound.value) + 1];
      }
    }
    assert agents[..|agents|] == agents;
  }

  /** The owners of the first `n` profiles, each once, with its profiles among them. */
  ghost predicate GroupedUpTo(profiles: seq<Profile>, n: nat, owners: seq<Owner>, byOwner: map<Owner, seq<Profile>>)
    requires n <= |profiles|
  {
    && (forall o :: o in owners <==> Owned(profiles[..n], o) != [])
    && (forall o :: o in owners <==> o in byOwner)
    && (forall o :: o in byOwner ==> byOwner[o] == Owned(profiles[..n], o))
    && (forall i, j :: 0 <= i < j < |owners| ==> owners[i] != owners[j])
  }

  /** The next profile joins its owner's, who is listed if new. */
  lemma {:induction false} GroupingOneMore(profiles: seq<Profile>, i: nat, owners: seq<Owner>, byOwner: map<Owner, seq<Profile>>)
    requires i < |profiles| && GroupedUpTo(profiles, i, owners, byOwner)
    ensures var o := profiles[i].owner;
            var before := if o in byOwner then byOwner[o] else [];
            GroupedUpTo(profiles, i + 1, if o in byOwner then owners else owners + [o], byOwner[o := before + [profiles[i]]])
  {
    OwnedAndOneMore(profiles, i);
  }

  lemma {:induction false} OwnedAndOneMore(profiles: seq<Profile>, i: nat)
    requires i < |profiles|
    ensures forall o :: Owned(profiles[..i + 1], o) == Owned(profiles[..i], o) + if profiles[i].owner == o then [profiles[i]] else []
  {
    assert profiles[..i + 1][..i] == profiles[..i] && profiles[..i + 1][i] == profiles[i];
  }

  /** `by_owner`, with the owners in the order their first profile was read. */
  method GroupByOwner(profiles: seq<Profile>) returns (owners: seq<Owner>, byOwner: map<Owner, seq<Profile>>)
    ensures forall o :: o in owners <==> Owned(profiles, o) != []
    ensures byOwner.Keys == set o | o in owners
    ensures forall o :: o in byOwner ==> byOwner[o] == Owned(profiles, o)
    ensures forall i, j :: 0 <= i < j < |owners| ==> owners[i] != owners[j]
  {
    owners, byOwner := [], map[];
    for i := 0 to |profiles|
      invariant GroupedUpTo(profiles, i, owners, byOwner)
    {
      GroupingOneMore(profiles, i, owners, byOwner);
      var o := profiles[i].owner;
      if o !in byOwner {
        owners := owners + [o];
        byOwner := byOwner[o := []];
      }
      byOwner := byOwner[o := byOwner[o] + [profiles[i]]];
    }
    assert profiles[..|profiles|] == profiles;
  }

  // ----- The statements

  function Without(db: Db, id: string): Db {
    Db(db.profiles - {id}, db.agents - {id}, db.archive - {id})
  }

  /** The two states differ at most in the rows with one id: one statement lies between them. */
  ghost predicate OneStatement(a: Db, b: Db) {
    exists id :: Without(a, id) == Without(b, id)
  }

  /** Each state follows the one before it by one statement. */
  ghost predicate Stepwise(trace: seq<Db>) {
    |trace| <= 1 || (OneStatement(trace[|trace| - 2], trace[|trace| - 1]) && Stepwise(trace[..|trace| - 1]))
  }

  /** No state has an agent pointing at a missing profile. */
  ghost predicate Intact(trace: seq<Db>) {
    trace == [] || (ReferentialIntegrity(trace[|trace| - 1]) && Intact(trace[..|trace| - 1]))
  }

  lemma {:induction false} IntactEverywhere(trace: seq<Db>, i: nat)
    requires Intact(trace) && i < |trace|
    ensures ReferentialIntegrity(trace[i])
  {
    if i < |trace| - 1 {
      IntactEverywhere(trace[..|trace| - 1], i);
    }
  }

  lemma {:induction false} StepwiseEverywhere(trace: seq<Db>, i: nat)
    requires Stepwise(trace) && i + 1 < |trace|
    ensures OneStatement(trace[i], trace[i + 1])
  {
    if i + 2 < |trace| {
      StepwiseEverywhere(trace[..|trace| - 1], i);
    }
  }

  class PortalDatabase {
    var profiles: map<string, Profile>
    var agents: map<string, Agent>
    var archive: map<string, ArchivedProfile>
    /** The database before the first statement and after every statement executed so far. */
    ghost var trace: seq<Db>

    ghost function Now(): Db
      reads this
    {
      Db(profiles, agents, archive)
    }

    ghost predicate Recorded()
      reads this
    {
      trace != [] && trace[|trace| - 1] == Now() && Stepwise(trace)
    }

    constructor (db: Db)
      ensures Now() == db && trace == [db] && Recorded()
    {
      profiles, agents, archive := db.profiles, db.agents, db.archive;
      trace := [db];
    }

    ghost method Record(id: string)
      requires trace != [] && Without(trace[|trace| - 1], id) == Without(Now(), id)
      requires Stepwise(trace)
      modifies this`trace
      ensures Recorded() && trace == old(trace) + [Now()]
      ensures Intact(old(trace)) && ReferentialIntegrity(Now()) ==> Intact(trace)
    {
      assert OneStatement(trace[|trace| - 1], Now());
      trace := trace + [Now()];
      assert trace[..|trace| - 1] == old(trace);
    }

    method SetDefault(id: string)
      requires Recorded()
      modifies this
      ensures Recorded() && trace == old(trace) + [Now()]
      ensures Now() == old(Now()).(profiles := MarkOne(old(profiles), id))
      ensures Intact(old(trace)) ==> Intact(trace)
    {
      if id in profiles {
        profiles := profiles[id := Kept(profiles[id])];
      }
      Record(id);
      assert Intact(old(trace)) ==> ReferentialIntegrity(old(Now()));
    }

    /** An archive row whose id is taken is an IntegrityError. */
    method InsertArchived(row: ArchivedProfile) returns (ok: bool)
      requires Recorded()
      modifies this
      ensures Recorded() && trace == old(trace) + [Now()]
      ensures ok <==> row.id !in old(archive)
      ensures Now() == old(Now()).(archive := if ok then old(archive)[row.id := row] else old(archive))
      ensures Intact(old(trace)) ==> Intact(trace)
    {
      ok := row.id !in archive;
      if ok {
        archive := archive[row.id := row];
      }
      Record(row.id);
      assert Intact(old(trace)) ==> ReferentialIntegrity(old(Now()));
    }

    method BindAgent(id: string, profileId: Option<string>, applied: int)
      requires Recorded()
      modifies this
      ensures Recorded() && trace == old(trace) + [Now()]
      ensures Now() == old(Now()).(agents := if id in old(agents)
                then old(agents)[id := old(agents)[id].(profileId := profileId, appliedRevision := Some(applied))] else old(agents))
      ensures Intact(old(trace)) && (profileId.Some? ==> profileId.value in profiles) ==> Intact(trace)
    {
      if id in agents {
        agents := agents[id := agents[id].(profileId := profileId, appliedRevision := Some(applied))];
      }
      Record(id);
      assert Intact(old(trace)) ==> ReferentialIntegrity(old(Now()));
    }

    method DeleteProfile(id: string)
      requires Recorded()
      modifies this
      ensures Recorded() && trace == old(trace) + [Now()]
      ensures Now() == old(Now()).(profiles := old(profiles) - {id})
      ensures Intact(old(trace)) && (forall a :: a in agents ==> agents[a].profileId != Some(id)) ==> Intact(trace)
    {
      profiles := profiles - {id};
      Record(id);
      assert Intact(old(trace)) ==> ReferentialIntegrity(old(Now()));
    }

    // ----- The phases of the upgrade

    /** Copy an owner's other profiles into the archive, stopping at the first id that is taken. */
    method ArchiveOthers(owned: seq<Profile>, keeper: Profile, now: nat) returns (ok: bool)
      requires Recorded()
      requires DistinctIds(owned)
      modifies this
      ensures Recorded() && old(trace) <= trace && (Intact(old(trace)) ==> Intact(trace))
      ensures profiles == old(profiles) && agents == old(agents)
      ensures ok ==> archive == old(archive) + Others(owned, keeper, now)
      ensures ok <==> Others(owned, keeper, now).Keys !! old(archive).Keys
    {
      ok := true;
      for j := 0 to |owned|
        invariant Recorded() && old(trace) <= trace && (Intact(old(trace)) ==> Intact(trace))
        invariant profiles == old(profiles) && agents == old(agents)
        invariant archive == old(archive) + Others(owned[..j], keeper, now)
        invariant Others(owned[..j], keeper, now).Keys !! old(archive).Keys
      {
        OthersStep(owned, keeper, now, j);
        UpdateOfUnion(old(archive), Others(owned[..j], keeper, now), owned[j].id, ArchivedAs(owned[j], keeper.id, now));
        if owned[j].id != keeper.id {
          ok := InsertArchived(ArchivedAs(owned[j], keeper.id, now));
          if !ok {
            return;
          }
        }
      }
      assert owned[..|owned|] == owned;
    }

    /** One owner: mark the keeper as the default and archive the others. */
    method MarkAndArchiveOwner(owned: seq<Profile>, keeper: Profile, now: nat) returns (ok: bool)
      requires Recorded() && DistinctIds(owned)
      modifies this
      ensures Recorded() && old(trace) <= trace && (Intact(old(trace)) ==> Intact(trace))
      ensures agents == old(agents) && profiles == MarkOne(old(profiles), keeper.id)
      ensures ok ==> archive == old(archive) + Others(owned, keeper, now)
      ensures ok <==> Others(owned, keeper, now).Keys !! old(archive).Keys
    {
      SetDefault(keeper.id);
      ok := ArchiveOthers(owned, keeper, now);
    }

    method MarkAndArchive(rows: Rows, counts: map<string, nat>, owners: seq<Owner>, byOwner: map<Owner, seq<Profile>>, now: nat)
      returns (ok: bool)
      requires Recorded() && counts == BoundCounts(rows.agents) && OwnersOf(rows, owners) && Grouped(rows, owners, byOwner)
      modifies this
      ensures Recorded() && old(trace) <= trace && (Intact(old(trace)) ==> Intact(trace))
      ensures agents == old(agents)
      ensures ok ==> profiles == Marked(old(profiles), rows, owners)
      ensures ok ==> archive == old(archive) + AllOthers(rows, owners, now)
      ensures ok <==> AllOthers(rows, owners, now).Keys !! old(archive).Keys
    {
      ok := true;
      for i := 0 to |owners|
        invariant Recorded() && old(trace) <= trace && (Intact(old(trace)) ==> Intact(trace))
        invariant agents == old(agents)
        invariant profiles == Marked(old(profiles), rows, owners[..i])
        invariant archive == old(archive) + AllOthers(rows, owners[..i], now)
        invariant AllOthers(rows, owners[..i], now).Keys !! old(archive).Keys
      {
        OwnerStep(rows, owners, now, i);
        var owned := byOwner[owners[i]];
        var keeper := Keeper(owned, counts);
        ok := MarkAndArchiveOwner(owned, keeper, now);
        if !ok {
          return;
        }
        UnionOfThree(old(archive), AllOthers(rows, owners[..i], now), Others(owned, keeper, now));
      }
      assert owners[..|owners|] == owners;
    }

    /** Every agent moves to its owner's keeper; one whose owner has none is unbound from a row about to go. */
    method RebindAgents(rows: Rows, archivedIds: set<string>, ghost before: map<string, Agent>)
      requires Recorded() && agents == before && AgentsRead(rows.agents, before)
      requires archivedIds == MergedIds(rows)
      requires forall o :: HasProfile(rows, o) ==> KeeperOf(rows, o).id in profiles
      modifies this
      ensures Recorded() && old(trace) <= trace && (Intact(old(trace)) ==> Intact(trace))
      ensures profiles == old(profiles) && archive == old(archive)
      ensures agents == ReboundAgents(before, rows, AgentIds(rows.agents))
    {
      for i := 0 to |rows.agents|
        invariant Recorded() && old(trace) <= trace && (Intact(old(trace)) ==> Intact(trace))
        invariant profiles == old(profiles) && archive == old(archive)
        invariant agents == ReboundAgents(before, rows, AgentIds(rows.agents[..i]))
      {
        var a := rows.agents[i];
        ReboundStep(before, rows, i);
        if !HasProfile(rows, Some(a.owner)) {
          if a.profileId.Some? && a.profileId.value in archivedIds {
            BindAgent(a.id, None, 0);
          }
        } else {
          var keeper := KeeperOf(rows, Some(a.owner));
          BindAgent(a.id, Some(keeper.id), if a.profileId == Some(keeper.id) then RevisionOr1(keeper) else 0);
        }
      }
      assert rows.agents[..|rows.agents|] == rows.agents;
    }

    /** The inner loop of the deletion: one owner's profiles but the keeper. */
    method DeleteOthers(owned: seq<Profile>, keeper: Profile)
      requires Recorded() && DistinctIds(owned)
      requires forall a :: a in agents && agents[a].profileId.Some? ==> agents[a].profileId.value !in Others(owned, keeper, 0)
      modifies this
      ensures Recorded() && old(trace) <= trace && (Intact(old(trace)) ==> Intact(trace))
      ensures agents == old(agents) && archive == old(archive)
      ensures profiles == old(profiles) - Others(owned, keeper, 0).Keys
    {
      for j := 0 to |owned|
        invariant Recorded() && old(trace) <= trace && (Intact(old(trace)) ==> Intact(trace))
        invariant agents == old(agents) && archive == old(archive)
        invariant profiles == old(profiles) - Others(owned[..j], keeper, 0).Keys
      {
        OthersStep(owned, keeper, 0, j);
        OthersKeysStep(profiles, old(profiles), owned, keeper, j);
        if owned[j].id != keeper.id {
          DeleteProfile(owned[j].id);
        }
      }
      assert owned[..|owned|] == owned;
    }

    method DeleteMerged(rows: Rows, counts: map<string, nat>, owners: seq<Owner>, byOwner: map<Owner, seq<Profile>>)
      requires Recorded() && counts == BoundCounts(rows.agents) && OwnersOf(rows, owners) && Grouped(rows, owners, byOwner)
      requires forall a :: a in agents && agents[a].profileId.Some? ==> agents[a].profileId.value !in AllOthers(rows, owners, 0)
      modifies this
      ensures Recorded() && old(trace) <= trace && (Intact(old(trace)) ==> Intact(trace))
      ensures agents == old(agents) && archive == old(archive)
      ensures profiles == old(profiles) - AllOthers(rows, owners, 0).Keys
    {
      for i := 0 to |owners|
        invariant Recorded() && old(trace) <= trace && (Intact(old(trace)) ==> Intact(trace))
        invariant agents == old(agents) && archive == old(archive)
        invariant profiles == old(profiles) - AllOthers(rows, owners[..i], 0).Keys
      {
        OwnerStep(rows, owners, 0, i);
        var owned := byOwner[owners[i]];
        var keeper := Keeper(owned, counts);
        DeleteOthers(owned, keeper);
        MinusBoth(old(profiles), AllOthers(rows, owners[..i], 0).Keys, Others(owned, keeper, 0).Keys);
      }
      assert owners[..|owners|] == owners;
    }

    /** Read, count and group; mark and archive; rebind; delete. */
    method Phases(ghost db: Db, rows: Rows, now: nat) returns (ok: bool)
      requires Recorded() && Now() == db && Snapshot(rows, db)
      modifies this
      ensures Recorded() && old(trace) <= trace && (Intact(old(trace)) ==> Intact(trace))
      ensures ok <==> MergedIds(rows) !! db.archive.Keys
      ensures ok ==> Now() == Migrated(db, rows, now)
    {
      var counts := CountBindings(rows.agents);
      var owners, byOwner := GroupByOwner(rows.profiles);
      assert OwnersOf(rows, owners) && Grouped(rows, owners, byOwner);
      OthersAreMerged(db, rows, owners, now);
      ok := MarkAndArchive(rows, counts, owners, byOwner, now);
      if ok {
        MarkedAre(db, rows, owners);
        AllOthersAreTheMergedArchive(db, rows, owners, now);
        KeepersAreStored(db, rows);
        RebindAgents(rows, MergedIds(rows), db.agents);
        AllAgentsRead(db, rows);
        NobodyIsBoundToAMergedRow(db, rows);
        OthersAreMerged(db, rows, owners, 0);
        DeleteMerged(rows, counts, owners, byOwner);
        SurvivorsAreLeft(db, rows);
      }
    }

    /**
     The data part of `upgrade`. An archive id that is already taken stops it; otherwise it ends in
     `Migrated`. Either way no state between two statements has a dangling agent, if none had at the start.
     */
    method Upgrade(rows: Rows, now: nat) returns (ok: bool)
      requires Recorded() && trace == [Now()] && Snapshot(rows, Now())
      modifies this
      ensures Recorded() && trace[0] == old(Now())
      ensures forall i :: 0 <= i < |trace| - 1 ==> OneStatement(trace[i], trace[i + 1])
      ensures ReferentialIntegrity(old(Now())) ==> forall i :: 0 <= i < |trace| ==> ReferentialIntegrity(trace[i])
      ensures ok <==> MergedIds(rows) !! old(archive).Keys
      ensures ok ==> Now() == Migrated(old(Now()), rows, now)
    {
      ghost var db := Now();
      assert trace[..0] == [];
      assert ReferentialIntegrity(db) ==> Intact(trace);
      ok := Phases(db, rows, now);
      forall i | 0 <= i < |trace| - 1 ensures OneStatement(trace[i], trace[i + 1]) {
        StepwiseEverywhere(trace, i);
      }
      if ReferentialIntegrity(db) {
        forall i | 0 <= i < |trace| ensures ReferentialIntegrity(trace[i]) {
          IntactEverywhere(trace, i);
        }
      }
    }
  }

  lemma {:induction false} MinusBoth<K, V>(m: map<K, V>, a: set<K>, b: set<K>)
    ensures (m - a) - b == m - (a + b)
  {
  }

  lemma {:induction false} UnionOfThree<K, V>(a: map<K, V>, b: map<K, V>, c: map<K, V>)
    ensures (a + b) + c == a + (b + c)
  {
  }

  lemma {:induction false} UpdateOfUnion<K, V>(a: map<K, V>, b: map<K, V>, k: K, v: V)
    ensures (a + b)[k := v] == a + b[k := v]
  {
  }

  ghost predicate DistinctIds(profiles: seq<Profile>) {
    forall i, j :: 0 <= i < j < |profiles| ==> profiles[i].id != profiles[j].id
  }

  /** The archive rows of everything but the keeper. */
  function Others(owned: seq<Profile>, keeper: Profile, now: nat): map<string, ArchivedProfile> {
    if owned == [] then map[]
    else
      var last := owned[|owned| - 1];
      var others := Others(owned[..|owned| - 1], keeper, now);
      if last.id == keeper.id then others else others[last.id := ArchivedAs(last, keeper.id, now)]
  }

  lemma {:induction false} OthersIds(owned: seq<Profile>, keeper: Profile, now: nat, id: string)
    ensures id in Others(owned, keeper, now) <==> id != keeper.id && exists p :: p in owned && p.id == id
  {
    if owned != [] {
      OthersIds(owned[..|owned| - 1], keeper, now, id);
      assert owned == owned[..|owned| - 1] + [owned[|owned| - 1]];
    }
  }

  lemma {:induction false} OthersRow(owned: seq<Profile>, keeper: Profile, now: nat, i: nat)
    requires DistinctIds(owned) && i < |owned| && owned[i].id != keeper.id
    ensures owned[i].id in Others(owned, keeper, now) && Others(owned, keeper, now)[owned[i].id] == ArchivedAs(owned[i], keeper.id, now)
  {
    if i < |owned| - 1 {
      OthersRow(owned[..|owned| - 1], keeper, now, i);
    }
  }

  lemma {:induction false} OthersMembers(owned: seq<Profile>, keeper: Profile, now: nat)
    requires DistinctIds(owned)
    ensures forall id :: id in Others(owned, keeper, now) <==> exists p :: p in owned && p.id == id && id != keeper.id
    ensures forall p :: p in owned && p.id != keeper.id ==>
              p.id in Others(owned, keeper, now) && Others(owned, keeper, now)[p.id] == ArchivedAs(p, keeper.id, now)
  {
    forall id
      ensures id in Others(owned, keeper, now) <==> exists p :: p in owned && p.id == id && id != keeper.id
    {
      OthersIds(owned, keeper, now, id);
    }
    forall p | p in owned && p.id != keeper.id
      ensures p.id in Others(owned, keeper, now) && Others(owned, keeper, now)[p.id] == ArchivedAs(p, keeper.id, now)
    {
      var i :| 0 <= i < |owned| && owned[i] == p;
      OthersRow(owned, keeper, now, i);
    }
  }

  lemma {:induction false} OthersStep(owned: seq<Profile>, keeper: Profile, now: nat, j: nat)
    requires j < |owned| && DistinctIds(owned)
    ensures Others(owned[..j + 1], keeper, now) ==
            if owned[j].id == keeper.id then Others(owned[..j], keeper, now)
            else Others(owned[..j], keeper, now)[owned[j].id := ArchivedAs(owned[j], keeper.id, now)]
    ensures owned[j].id !in Others(owned[..j], keeper, now)
    ensures owned[j].id != keeper.id ==> owned[j].id in Others(owned, keeper, now)
  {
    assert owned[..j + 1][..j] == owned[..j];
    OthersMembers(owned[..j], keeper, now);
    OthersMembers(owned, keeper, now);
  }

  /** One more profile gone is one more key gone. */
  lemma {:induction false} OthersKeysStep(now: map<string, Profile>, before: map<string, Profile>, owned: seq<Profile>, keeper: Profile, j: nat)
    requires j < |owned| && DistinctIds(owned) && now == before - Others(owned[..j], keeper, 0).Keys
    ensures before - Others(owned[..j + 1], keeper, 0).Keys == if owned[j].id == keeper.id then now else now - {owned[j].id}
  {
    OthersStep(owned, keeper, 0, j);
  }

  lemma {:induction false} OwnedDistinct(profiles: seq<Profile>, owner: Owner)
    requires DistinctIds(profiles)
    ensures DistinctIds(Owned(profiles, owner))
  {
    if profiles != [] {
      var init := profiles[..|profiles| - 1];
      OwnedDistinct(init, owner);
      OwnedMembers(init, owner);
      forall p | p in Owned(init, owner) ensures p.id != profiles[|profiles| - 1].id {
        assert p in init;
      }
    }
  }

  // ----- What the loops over the owners amount to

  /** The distinct owners of the profiles read. */
  ghost predicate OwnersOf(rows: Rows, owners: seq<Owner>) {
    && DistinctIds(rows.profiles)
    && (forall o :: o in owners <==> HasProfile(rows, o))
    && (forall i, j :: 0 <= i < j < |owners| ==> owners[i] != owners[j])
  }

  ghost predicate Grouped(rows: Rows, owners: seq<Owner>, byOwner: map<Owner, seq<Profile>>) {
    forall o :: o in owners ==> o in byOwner && byOwner[o] == Owned(rows.profiles, o)
  }

  ghost function AllOthers(rows: Rows, owners: seq<Owner>, now: nat): map<string, ArchivedProfile> {
    if owners == [] then map[]
    else
      var last := owners[|owners| - 1];
      AllOthers(rows, owners[..|owners| - 1], now)
      + if HasProfile(rows, last) then Others(Owned(rows.profiles, last), KeeperOf(rows, last), now) else map[]
  }

  function MarkOne(profiles: map<string, Profile>, id: string): map<string, Profile> {
    if id in profiles then profiles[id := Kept(profiles[id])] else profiles
  }

  ghost function Marked(profiles: map<string, Profile>, rows: Rows, owners: seq<Owner>): map<string, Profile> {
    if owners == [] then profiles
    else
      var last := owners[|owners| - 1];
      var marked := Marked(profiles, rows, owners[..|owners| - 1]);
      if HasProfile(rows, last) then MarkOne(marked, KeeperOf(rows, last).id) else marked
  }

  /** A profile of this owner has the id and does not survive. */
  ghost predicate MergedOf(rows: Rows, id: string, owner: Owner) {
    exists p :: p in rows.profiles && p.id == id && p.owner == owner && !Survives(rows, p)
  }

  /** The archive rows of one owner. */
  lemma {:induction false} OwnersOthers(rows: Rows, owner: Owner, now: nat)
    requires DistinctIds(rows.profiles)
    ensures HasProfile(rows, owner) ==>
              var others := Others(Owned(rows.profiles, owner), KeeperOf(rows, owner), now);
              && (forall id :: id in others <==> MergedOf(rows, id, owner))
              && (forall p :: p in rows.profiles && p.owner == owner && !Survives(rows, p) ==>
                    p.id in others && others[p.id] == ArchivedAs(p, KeeperOf(rows, owner).id, now))
    ensures !HasProfile(rows, owner) ==> forall p :: p in rows.profiles ==> p.owner != owner
  {
    OwnedMembers(rows.profiles, owner);
    if HasProfile(rows, owner) {
      OwnedDistinct(rows.profiles, owner);
      OthersMembers(Owned(rows.profiles, owner), KeeperOf(rows, owner), now);
    }
  }

  lemma {:induction false} OneOwnerMore(rows: Rows, owners: seq<Owner>, now: nat, id: string)
    requires DistinctIds(rows.profiles) && owners != []
    ensures id in AllOthers(rows, owners, now) <==>
            id in AllOthers(rows, owners[..|owners| - 1], now) || MergedOf(rows, id, owners[|owners| - 1])
  {
    OwnersOthers(rows, owners[|owners| - 1], now);
  }

  /** An archive row exists exactly for the profiles of these owners that do not survive. */
  lemma {:induction false} AllOthersIds(rows: Rows, owners: seq<Owner>, now: nat, id: string)
    requires DistinctIds(rows.profiles)
    ensures id in AllOthers(rows, owners, now) <==> exists o :: o in owners && MergedOf(rows, id, o)
  {
    if owners != [] {
      var init, last := owners[..|owners| - 1], owners[|owners| - 1];
      AllOthersIds(rows, init, now, id);
      OneOwnerMore(rows, owners, now, id);
      assert forall o :: o in owners <==> o in init || o == last by {
        assert owners == init + [last];
      }
    }
  }

  lemma {:induction false} AllOthersRow(rows: Rows, owners: seq<Owner>, now: nat, p: Profile)
    requires DistinctIds(rows.profiles) && p in rows.profiles && p.owner in owners && HasProfile(rows, p.owner) && !Survives(rows, p)
    ensures p.id in AllOthers(rows, owners, now) && AllOthers(rows, owners, now)[p.id] == ArchivedAs(p, KeeperOf(rows, p.owner).id, now)
  {
    var init, last := owners[..|owners| - 1], owners[|owners| - 1];
    assert owners == init + [last];
    OwnersOthers(rows, last, now);
    if p.owner in init {
      AllOthersRow(rows, init, now, p);
    }
    if p.id in AllOthers(rows, init, now) && p.owner != last && HasProfile(rows, last) {
      OnlyOneRowHasTheId(rows, p, last, now);
    }
  }

  /** No other owner's archive rows have this profile's id. */
  lemma {:induction false} OnlyOneRowHasTheId(rows: Rows, p: Profile, owner: Owner, now: nat)
    requires DistinctIds(rows.profiles) && p in rows.profiles && p.owner != owner && HasProfile(rows, owner)
    ensures p.id !in Others(Owned(rows.profiles, owner), KeeperOf(rows, owner), now)
  {
    OwnersOthers(rows, owner, now);
  }

  lemma {:induction false} AllOthersMembers(rows: Rows, owners: seq<Owner>, now: nat)
    requires DistinctIds(rows.profiles)
    ensures forall id :: id in AllOthers(rows, owners, now) <==>
              exists p :: p in rows.profiles && p.id == id && p.owner in owners && !Survives(rows, p)
    ensures forall p :: p in rows.profiles && p.owner in owners && HasProfile(rows, p.owner) && !Survives(rows, p) ==>
              p.id in AllOthers(rows, owners, now) && AllOthers(rows, owners, now)[p.id] == ArchivedAs(p, KeeperOf(rows, p.owner).id, now)
  {
    forall id
      ensures id in AllOthers(rows, owners, now) <==> exists p :: p in rows.profiles && p.id == id && p.owner in owners && !Survives(rows, p)
    {
      AllOthersIds(rows, owners, now, id);
      if p :| p in rows.profiles && p.id == id && p.owner in owners && !Survives(rows, p) {
        assert MergedOf(rows, id, p.owner);
      }
    }
    forall p | p in rows.profiles && p.owner in owners && HasProfile(rows, p.owner) && !Survives(rows, p)
      ensures p.id in AllOthers(rows, owners, now) && AllOthers(rows, owners, now)[p.id] == ArchivedAs(p, KeeperOf(rows, p.owner).id, now)
    {
      AllOthersRow(rows, owners, now, p);
    }
  }

  lemma {:induction false} OwnerStep(rows: Rows, owners: seq<Owner>, now: nat, i: nat)
    requires OwnersOf(rows, owners) && i < |owners|
    ensures owners[..i + 1][..i] == owners[..i] && owners[i] in owners
    ensures DistinctIds(Owned(rows.profiles, owners[i]))
    ensures AllOthers(rows, owners[..i + 1], now) ==
            AllOthers(rows, owners[..i], now) + Others(Owned(rows.profiles, owners[i]), KeeperOf(rows, owners[i]), now)
    ensures AllOthers(rows, owners[..i], now).Keys !! Others(Owned(rows.profiles, owners[i]), KeeperOf(rows, owners[i]), now).Keys
    ensures AllOthers(rows, owners[..i + 1], now).Keys <= AllOthers(rows, owners, now).Keys
    ensures Others(Owned(rows.profiles, owners[i]), KeeperOf(rows, owners[i]), now).Keys <= AllOthers(rows, owners, now).Keys
  {
    assert owners[..i + 1][..i] == owners[..i];
    assert owners[i] in owners;
    OwnedDistinct(rows.profiles, owners[i]);
    OwnedMembers(rows.profiles, owners[i]);
    OthersMembers(Owned(rows.profiles, owners[i]), KeeperOf(rows, owners[i]), now);
    AllOthersMembers(rows, owners[..i], now);
    AllOthersMembers(rows, owners[..i + 1], now);
    AllOthersMembers(rows, owners, now);
  }

  // ----- What the loop over the agents amounts to

  ghost predicate AgentsRead(agents: seq<Agent>, before: map<string, Agent>) {
    && (forall i :: 0 <= i < |agents| ==> agents[i].id in before && before[agents[i].id] == agents[i])
    && (forall i, j :: 0 <= i < j < |agents| ==> agents[i].id != agents[j].id)
  }

  function AgentIds(agents: seq<Agent>): set<string> {
    set a | a in agents :: a.id
  }

  lemma {:induction false} ReboundStep(before: map<string, Agent>, rows: Rows, i: nat)
    requires AgentsRead(rows.agents, before) && i < |rows.agents|
    ensures var a := rows.agents[i];
            var m := ReboundAgents(before, rows, AgentIds(rows.agents[..i]));
            && a.id in m && m[a.id] == a
            && ReboundAgents(before, rows, AgentIds(rows.agents[..i + 1])) == m[a.id := Rebound(rows, a)]
  {
    var a := rows.agents[i];
    assert rows.agents[..i + 1] == rows.agents[..i] + [a];
    assert AgentIds(rows.agents[..i + 1]) == AgentIds(rows.agents[..i]) + {a.id};
    assert a.id !in AgentIds(rows.agents[..i]);
  }

  lemma {:induction false} AllAgentsRead(db: Db, rows: Rows)
    requires Snapshot(rows, db)
    ensures AgentIds(rows.agents) == db.agents.Keys
  {
    forall id | id in db.agents ensures id in AgentIds(rows.agents) {
      assert db.agents[id] in rows.agents;
    }
  }

  lemma {:induction false} KeepersAreStored(db: Db, rows: Rows)
    requires Snapshot(rows, db)
    ensures forall o :: HasProfile(rows, o) ==> KeeperOf(rows, o).id in db.profiles && db.profiles[KeeperOf(rows, o).id] == KeeperOf(rows, o)
  {
    forall o | HasProfile(rows, o) ensures KeeperOf(rows, o).id in db.profiles && db.profiles[KeeperOf(rows, o).id] == KeeperOf(rows, o) {
      KeeperMembers(rows, o);
    }
  }

  lemma {:induction false} EveryRowHasAKeeper(db: Db, rows: Rows, id: string)
    requires Snapshot(rows, db) && id in db.profiles
    ensures HasProfile(rows, db.profiles[id].owner)
    ensures id in MergedIds(rows) <==> !Survives(rows, db.profiles[id])
  {
    OwnedMembers(rows.profiles, db.profiles[id].owner);
    assert db.profiles[id] in Owned(rows.profiles, db.profiles[id].owner);
    if id in MergedIds(rows) {
      var p :| p in rows.profiles && !Survives(rows, p) && p.id == id;
      assert db.profiles[p.id] == p;
    }
  }

  lemma {:induction false} OthersAreMerged(db: Db, rows: Rows, owners: seq<Owner>, now: nat)
    requires Snapshot(rows, db) && OwnersOf(rows, owners)
    ensures AllOthers(rows, owners, now).Keys == MergedIds(rows)
  {
    AllOthersMembers(rows, owners, now);
    forall p | p in rows.profiles ensures p.owner in owners {
      EveryRowHasAKeeper(db, rows, p.id);
    }
  }

  lemma {:induction false} AllOthersAt(db: Db, rows: Rows, owners: seq<Owner>, now: nat, id: string)
    requires Snapshot(rows, db) && OwnersOf(rows, owners) && id in db.profiles && id in MergedIds(rows)
    ensures id in MergedArchive(db, rows, now) && id in AllOthers(rows, owners, now)
    ensures AllOthers(rows, owners, now)[id] == MergedArchive(db, rows, now)[id]
  {
    EveryRowHasAKeeper(db, rows, id);
    AllOthersMembers(rows, owners, now);
    assert db.profiles[id] in rows.profiles && db.profiles[id].id == id;
  }

  /** The loops over the owners archive and delete exactly the merged rows. */
  lemma {:induction false} AllOthersAreTheMergedArchive(db: Db, rows: Rows, owners: seq<Owner>, now: nat)
    requires Snapshot(rows, db) && OwnersOf(rows, owners)
    ensures AllOthers(rows, owners, now) == MergedArchive(db, rows, now)
  {
    var all, merged := AllOthers(rows, owners, now), MergedArchive(db, rows, now);
    OthersAreMerged(db, rows, owners, now);
    MergedArchiveIds(db, rows, now);
    forall id | id in all ensures all[id] == merged[id] {
      AllOthersAt(db, rows, owners, now, id);
    }
  }

  lemma {:induction false} MergedArchiveIds(db: Db, rows: Rows, now: nat)
    requires Snapshot(rows, db)
    ensures MergedArchive(db, rows, now).Keys == MergedIds(rows) && MergedIds(rows) <= db.profiles.Keys
  {
    forall id | id in db.profiles
      ensures id in MergedArchive(db, rows, now) <==> id in MergedIds(rows)
    {
      EveryRowHasAKeeper(db, rows, id);
    }
  }

  lemma {:induction false} MarkedPointwise(profiles: map<string, Profile>, rows: Rows, owners: seq<Owner>)
    ensures Marked(profiles, rows, owners).Keys == profiles.Keys
    ensures forall id :: id in profiles ==>
              Marked(profiles, rows, owners)[id] ==
              if exists o :: o in owners && HasProfile(rows, o) && KeeperOf(rows, o).id == id then Kept(profiles[id]) else profiles[id]
  {
    if owners != [] {
      MarkedPointwise(profiles, rows, owners[..|owners| - 1]);
      assert owners == owners[..|owners| - 1] + [owners[|owners| - 1]];
    }
  }

  lemma {:induction false} MarkedAre(db: Db, rows: Rows, owners: seq<Owner>)
    requires Snapshot(rows, db) && OwnersOf(rows, owners)
    ensures Marked(db.profiles, rows, owners) == KeepersMarked(db.profiles, rows)
  {
    MarkedPointwise(db.profiles, rows, owners);
    KeepersAreStored(db, rows);
    forall id | id in db.profiles
      ensures Survives(rows, db.profiles[id]) <==> exists o :: o in owners && HasProfile(rows, o) && KeeperOf(rows, o).id == id
    {
      EveryRowHasAKeeper(db, rows, id);
      if o :| o in owners && HasProfile(rows, o) && KeeperOf(rows, o).id == id {
        KeeperMembers(rows, o);
      }
    }
  }

  lemma {:induction false} NobodyIsBoundToAMergedRow(db: Db, rows: Rows)
    requires Snapshot(rows, db)
    ensures var agents := ReboundAgents(db.agents, rows, db.agents.Keys);
            forall a :: a in agents && agents[a].profileId.Some? ==> agents[a].profileId.value !in MergedIds(rows)
  {
    KeepersAreStored(db, rows);
    forall a | a in db.agents && HasProfile(rows, Some(db.agents[a].owner))
      ensures KeeperOf(rows, Some(db.agents[a].owner)).id !in MergedIds(rows)
    {
      var keeper := KeeperOf(rows, Some(db.agents[a].owner));
      KeeperMembers(rows, Some(db.agents[a].owner));
      EveryRowHasAKeeper(db, rows, keeper.id);
    }
  }

  lemma {:induction false} SurvivorsAreLeft(db: Db, rows: Rows)
    requires Snapshot(rows, db)
    ensures KeepersMarked(db.profiles, rows) - MergedIds(rows)
         == map id | id in db.profiles && Survives(rows, db.profiles[id]) :: Kept(db.profiles[id])
  {
    forall id | id in db.profiles ensures id in MergedIds(rows) <==> !Survives(rows, db.profiles[id]) {
      EveryRowHasAKeeper(db, rows, id);
    }
  }

  // ----- What the migration achieves

  lemma {:induction false} MergedIdsAre(db: Db, rows: Rows, now: nat)
    requires Snapshot(rows, db)
    ensures MergedIds(rows) == MergedArchive(db, rows, now).Keys <= db.profiles.Keys
    ensures Migrated(db, rows, now).profiles.Keys == db.profiles.Keys - MergedIds(rows)
  {
    forall id | id in db.profiles ensures id in MergedIds(rows) <==> id in MergedArchive(db, rows, now) {
      EveryRowHasAKeeper(db, rows, id);
    }
    forall id | id in MergedIds(rows) ensures id in db.profiles {
      var p :| p in rows.profiles && !Survives(rows, p) && p.id == id;
    }
    SurvivorsAreLeft(db, rows);
  }

  /**
   An archive row is the profile it stands for, with the blanks the archive does not allow filled in, and names the
   surviving profile of the same owner.
   */
  ghost predicate ArchivedFaithfully(before: Profile, row: ArchivedProfile, after: Db, now: nat) {
    && row.id == before.id && row.owner == before.owner && row.description == before.description
    && row.createdAt == before.createdAt && row.archivedAt == now
    && row.mergedInto in after.profiles && after.profiles[row.mergedInto].owner == before.owner
    && (before.name == Some(row.name) || (before.name == None && row.name == ""))
    && (if before.config == None || before.config == Some("") then row.config == "{}" else before.config == Some(row.config))
    && (if before.revision == None || before.revision == Some(0) then row.revision == 1 else before.revision == Some(row.revision))
  }

  lemma {:induction false} ArchivedAsIsFaithful(p: Profile, keeper: string, now: nat, after: Db)
    requires keeper in after.profiles && after.profiles[keeper].owner == p.owner
    ensures ArchivedFaithfully(p, ArchivedAs(p, keeper, now), after, now)
  {
  }

  lemma {:induction false} KeeperIsLeft(db: Db, rows: Rows, owner: Owner, now: nat)
    requires Snapshot(rows, db) && HasProfile(rows, owner)
    ensures var after, keeper := Migrated(db, rows, now).profiles, KeeperOf(rows, owner).id;
            keeper in after && after[keeper].owner == owner
  {
    KeeperMembers(rows, owner);
    KeepersAreStored(db, rows);
  }

  lemma {:induction false} MergedRowIsFaithful(db: Db, rows: Rows, now: nat, id: string)
    requires Snapshot(rows, db) && id in MergedArchive(db, rows, now)
    ensures ArchivedFaithfully(db.profiles[id], MergedArchive(db, rows, now)[id], Migrated(db, rows, now), now)
  {
    var p := db.profiles[id];
    KeeperIsLeft(db, rows, p.owner, now);
    ArchivedAsIsFaithful(p, KeeperOf(rows, p.owner).id, now, Migrated(db, rows, now));
  }

  /** The ids are partitioned, survivors keep all but the mark, and rows archived earlier stay. */
  lemma {:induction false} RowsArePartitioned(db: Db, rows: Rows, now: nat) returns (archived: set<string>)
    requires Snapshot(rows, db) && MergedIds(rows) !! db.archive.Keys
    ensures var after := Migrated(db, rows, now);
            && archived == after.archive.Keys - db.archive.Keys == MergedArchive(db, rows, now).Keys
            && after.profiles.Keys + archived == db.profiles.Keys && after.profiles.Keys !! archived
            && (forall id :: id in after.profiles ==> after.profiles[id] == db.profiles[id].(isDefault := true))
            && (forall id :: id in db.archive ==> id in after.archive && after.archive[id] == db.archive[id])
            && (forall id :: id in archived ==> after.archive[id] == MergedArchive(db, rows, now)[id])
  {
    MergedIdsAre(db, rows, now);
    archived := MergedArchive(db, rows, now).Keys;
  }

  /**
   Conservation: the surviving and the newly archived profiles partition the original ones. A survivor
   changes nothing but its default mark, rows archived earlier stay, and every new archive row is faithful.
   */
  lemma {:induction false} SurvivorsAndArchivePartition(db: Db, rows: Rows, now: nat)
    requires Snapshot(rows, db) && MergedIds(rows) !! db.archive.Keys
    ensures var after := Migrated(db, rows, now);
            var archived := after.archive.Keys - db.archive.Keys;
            && after.profiles.Keys + archived == db.profiles.Keys && after.profiles.Keys !! archived
            && (forall id :: id in after.profiles ==> after.profiles[id] == db.profiles[id].(isDefault := true))
            && (forall id :: id in db.archive ==> id in after.archive && after.archive[id] == db.archive[id])
            && (forall id :: id in archived ==> ArchivedFaithfully(db.profiles[id], after.archive[id], after, now))
  {
    var archived := RowsArePartitioned(db, rows, now);
    forall id | id in archived
      ensures ArchivedFaithfully(db.profiles[id], Migrated(db, rows, now).archive[id], Migrated(db, rows, now), now)
    {
      MergedRowIsFaithful(db, rows, now, id);
    }
  }

  /**
   Exactly one profile survives per owner that had any, so the unique index on the owner can be built,
   and it is one no other profile of the owner outranks: by agents bound, then default mark, then last change.
   */
  lemma {:induction false} OneSurvivorPerOwnerAndTheBest(db: Db, rows: Rows, now: nat)
    requires Snapshot(rows, db)
    ensures var after := Migrated(db, rows, now).profiles;
            OnePerOwner(after) && EveryOwnerIsLeft(db.profiles, after) && SurvivorsAreTheBest(db.profiles, after, rows.agents)
  {
    OneProfilePerOwner(db, rows, now);
    EveryOwnerKeepsAProfile(db, rows, now);
    NoProfileIsBetter(db, rows, now);
  }

  ghost predicate OnePerOwner(profiles: map<string, Profile>) {
    forall a, b :: a in profiles && b in profiles && profiles[a].owner == profiles[b].owner ==> a == b
  }

  ghost predicate EveryOwnerIsLeft(before: map<string, Profile>, after: map<string, Profile>) {
    forall id :: id in before ==> exists k :: k in after && after[k].owner == before[id].owner
  }

  ghost predicate SurvivorsAreTheBest(before: map<string, Profile>, after: map<string, Profile>, agents: seq<Agent>) {
    forall k, id :: k in after && id in before && before[id].owner == after[k].owner ==> k in before && NotOutranked(before[k], before[id], agents)
  }

  lemma {:induction false} OneProfilePerOwner(db: Db, rows: Rows, now: nat)
    requires Snapshot(rows, db)
    ensures OnePerOwner(Migrated(db, rows, now).profiles)
  {
    var after := Migrated(db, rows, now).profiles;
    forall a, b | a in after && b in after && after[a].owner == after[b].owner
      ensures a == b
    {
      SurvivorIsTheKeeper(db, rows, now, a);
      SurvivorIsTheKeeper(db, rows, now, b);
    }
  }

  lemma {:induction false} EveryOwnerKeepsAProfile(db: Db, rows: Rows, now: nat)
    requires Snapshot(rows, db)
    ensures EveryOwnerIsLeft(db.profiles, Migrated(db, rows, now).profiles)
  {
    forall id | id in db.profiles
      ensures exists k :: k in Migrated(db, rows, now).profiles && Migrated(db, rows, now).profiles[k].owner == db.profiles[id].owner
    {
      var k := OwnerHasASurvivor(db, rows, now, id);
    }
  }

  lemma {:induction false} NoProfileIsBetter(db: Db, rows: Rows, now: nat)
    requires Snapshot(rows, db)
    ensures SurvivorsAreTheBest(db.profiles, Migrated(db, rows, now).profiles, rows.agents)
  {
    var after := Migrated(db, rows, now).profiles;
    forall k, id | k in after && id in db.profiles && db.profiles[id].owner == after[k].owner
      ensures k in db.profiles && NotOutranked(db.profiles[k], db.profiles[id], rows.agents)
    {
      SurvivorIsNotOutranked(db, rows, now, k, id);
    }
  }

  lemma {:induction false} SurvivorIsTheKeeper(db: Db, rows: Rows, now: nat, k: string)
    requires Snapshot(rows, db) && k in Migrated(db, rows, now).profiles
    ensures var owner := Migrated(db, rows, now).profiles[k].owner; HasProfile(rows, owner) && k == KeeperOf(rows, owner).id
  {
    EveryRowHasAKeeper(db, rows, k);
  }

  lemma {:induction false} OwnerHasASurvivor(db: Db, rows: Rows, now: nat, id: string) returns (k: string)
    requires Snapshot(rows, db) && id in db.profiles
    ensures k in Migrated(db, rows, now).profiles && Migrated(db, rows, now).profiles[k].owner == db.profiles[id].owner
  {
    EveryRowHasAKeeper(db, rows, id);
    KeeperMembers(rows, db.profiles[id].owner);
    KeepersAreStored(db, rows);
    k := KeeperOf(rows, db.profiles[id].owner).id;
  }

  lemma {:induction false} SurvivorIsNotOutranked(db: Db, rows: Rows, now: nat, k: string, id: string)
    requires Snapshot(rows, db) && k in Migrated(db, rows, now).profiles && id in db.profiles
    requires db.profiles[id].owner == Migrated(db, rows, now).profiles[k].owner
    ensures k in db.profiles && NotOutranked(db.profiles[k], db.profiles[id], rows.agents)
  {
    EveryRowHasAKeeper(db, rows, id);
    var owned := Owned(rows.profiles, db.profiles[id].owner);
    var at := KeeperIsTheFirstMaximum(owned, rows.agents);
    OwnedMembers(rows.profiles, db.profiles[id].owner);
    assert db.profiles[id] in owned;
  }

  /**
   An agent ends on its owner's one profile, with that profile's revision applied when it was on it before and
   zero, which no stored revision counts as, otherwise; an agent whose owner has none is left alone, or unbound
   exactly when its row was merged away.
   */
  ghost predicate FollowsItsOwner(before: Agent, after: Agent, profiles: map<string, Profile>, merged: set<string>) {
    && after.id == before.id && after.owner == before.owner
    && (forall k :: k in profiles && profiles[k].owner == Some(before.owner) ==>
          after.profileId == Some(k)
          && (before.profileId == Some(k) ==>
                after.appliedRevision == (if profiles[k].revision in [None, Some(0)] then Some(1) else profiles[k].revision))
          && (before.profileId != Some(k) ==> after.appliedRevision == Some(0)))
    && ((forall k :: k in profiles ==> profiles[k].owner != Some(before.owner)) ==>
          if before.profileId.Some? && before.profileId.value in merged
          then after.profileId == None && after.appliedRevision == Some(0)
          else after == before)
  }

  lemma {:induction false} AgentFollowsItsOwner(db: Db, rows: Rows, now: nat, a: string)
    requires Snapshot(rows, db) && a in db.agents
    ensures FollowsItsOwner(db.agents[a], Rebound(rows, db.agents[a]), Migrated(db, rows, now).profiles, MergedIds(rows))
  {
    var owner := Some(db.agents[a].owner);
    var after := Migrated(db, rows, now).profiles;
    KeepersAreStored(db, rows);
    if HasProfile(rows, owner) {
      KeeperMembers(rows, owner);
      assert KeeperOf(rows, owner).id in after;
      assert forall k :: k in after && after[k].owner == owner ==> k == KeeperOf(rows, owner).id;
    } else {
      forall k | k in after ensures after[k].owner != owner {
        EveryRowHasAKeeper(db, rows, k);
      }
    }
  }

  /** Every agent follows its owner, and the foreign key holds at the end if it held at the start. */
  lemma {:induction false} AgentsFollowTheirOwner(db: Db, rows: Rows, now: nat)
    requires Snapshot(rows, db) && ReferentialIntegrity(db)
    ensures var after := Migrated(db, rows, now);
            && ReferentialIntegrity(after) && after.agents.Keys == db.agents.Keys
            && forall a :: a in db.agents ==> FollowsItsOwner(db.agents[a], after.agents[a], after.profiles, MergedIds(rows))
  {
    KeepersAreStored(db, rows);
    MergedIdsAre(db, rows, now);
    NobodyIsBoundToAMergedRow(db, rows);
    forall a | a in db.agents
      ensures FollowsItsOwner(db.agents[a], Rebound(rows, db.agents[a]), Migrated(db, rows, now).profiles, MergedIds(rows))
    {
      AgentFollowsItsOwner(db, rows, now, a);
    }
  }
}
