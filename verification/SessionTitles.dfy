/**
 The session title, written both inside full metadata publishes and on its own, and carried over by
 publishes that do not send it (app/api/internal_session_metadata.py).
 */
module SessionTitles {
  import opened Options
  import opened PyText
  import opened SessionMetadata

  /** A title counts when it is a string with something besides whitespace in it. */
  function TitleOf(entries: map<MetaKey, Json>): Option<string> {
    if SessionTitle in entries && entries[SessionTitle].Text? && !Blank(entries[SessionTitle].text) then
      Some(entries[SessionTitle].text)
    else None
  }

  /** A title that is not a string, or has nothing but whitespace in it, does not count. */
  lemma {:induction false} WhatCountsAsATitle(entries: map<MetaKey, Json>, title: string)
    ensures TitleOf(entries) == Some(title) <==>
            SessionTitle in entries && entries[SessionTitle] == Text(title) && exists i :: 0 <= i < |title| && !IsSpace(title[i])
  {
    BlankIffAllSpaces(title);
  }

  function StoredMetadata(rows: seq<Record>, key: Key): Metadata {
    var i := IndexOf(rows, key);
    if i < |rows| then rows[i].metadata else Null
  }

  /** What the row of a session, deleted or not, shows as its title. */
  function StoredTitle(rows: seq<Record>, key: Key): Option<string> {
    TitleOf(Parse(StoredMetadata(rows, key)))
  }

  /** `_metadata_json_keeping_the_title`. */
  function KeepingTheTitle(rows: seq<Record>, key: Key, incoming: Metadata): Metadata {
    if TitleOf(Parse(incoming)).Some? || StoredTitle(rows, key).None? then incoming
    else Object(Parse(incoming)[SessionTitle := Text(StoredTitle(rows, key).value)])
  }

  /** A publish carries every column the runtime owns. */
  datatype Publish = Publish(
    currentTask: Option<string>,
    sourceType: Option<string>,
    sourceRef: Option<string>,
    lastExecution: Option<string>,
    eventType: Option<string>,
    eventState: Option<string>,
    snapshotVersion: Option<string>,
    runtimeEvents: Option<string>,
    metadata: Metadata
  )

  function PublishFields(p: Publish, metadata: Metadata): seq<Write> {
    [SetColumn(CurrentTask, p.currentTask), SetColumn(SourceType, p.sourceType), SetColumn(SourceRef, p.sourceRef),
     SetColumn(LastExecution, p.lastExecution), SetColumn(EventType, p.eventType), SetColumn(EventState, p.eventState),
     SetColumn(SnapshotVersion, p.snapshotVersion), SetColumn(RuntimeEvents, p.runtimeEvents), SetMetadata(metadata)]
  }

  /** The metadata the title route starts from: a deleted row counts as no row. */
  function LiveMetadata(rows: seq<Record>, key: Key): map<MetaKey, Json> {
    if Find(rows, key, false).Some? then Parse(Find(rows, key, false).value.metadata) else map[]
  }

  /** A publish whose handler looked at the table when it was `read` and whose upsert meets it as `rows`. */
  function PublishedLate(read: seq<Record>, rows: seq<Record>, key: Key, p: Publish, now: Time): seq<Record> {
    Upserted(rows, key, PublishFields(p, KeepingTheTitle(read, key, p.metadata)), false, now)
  }

  function Published(rows: seq<Record>, key: Key, p: Publish, now: Time): seq<Record> {
    PublishedLate(rows, rows, key, p, now)
  }

  /** The same for a title patch. */
  function TitledLate(read: seq<Record>, rows: seq<Record>, key: Key, title: string, now: Time): seq<Record> {
    Upserted(rows, key, [SetMetadata(Object(LiveMetadata(read, key)[SessionTitle := Text(Strip(title))]))], false, now)
  }

  function Titled(rows: seq<Record>, key: Key, title: string, now: Time): seq<Record> {
    TitledLate(rows, rows, key, title, now)
  }

  /** The table once another session has inserted this row. */
  function WithWinner(rows: seq<Record>, winner: Option<Record>): seq<Record> {
    if winner.Some? then rows + [winner.value] else rows
  }

  // ----- The handlers

  datatype Reply = Done | Refused(httpStatus: int)

  class SessionApi {
    const registry: SessionRegistry
    const agents: set<string>

    constructor (registry: SessionRegistry, agents: set<string>)
      ensures this.registry == registry && this.agents == agents
    {
      this.registry, this.agents := registry, agents;
    }

    /** `winner` is the row another session inserts for the key between this handler's reads and its commit, if any. */
    method UpsertSessionMetadata(key: Key, payload: Publish, now: Time, winner: Option<Record>) returns (reply: Reply)
      requires UniqueKeys(registry.rows)
      requires winner.Some? ==> key.agent in agents && winner.value.key == key && IndexOf(registry.rows, key) == |registry.rows|
      modifies registry
      ensures UniqueKeys(registry.rows)
      ensures if key.agent in agents then
                reply == Done && registry.rows == PublishedLate(old(registry.rows), WithWinner(old(registry.rows), winner), key, payload, now)
              else reply == Refused(404) && registry.rows == old(registry.rows)
    {
      if key.agent !in agents {
        return Refused(404);
      }
      var record := Find(registry.rows, key, true);
      var stored := if record.Some? then TitleOf(Parse(record.value.metadata)) else None;
      var metadata := payload.metadata;
      if TitleOf(Parse(metadata)).None? && stored.Some? {
        var incoming := Parse(metadata);
        metadata := Object(incoming[SessionTitle := Text(stored.value)]);
      }
      var saved := registry.Upsert(key, PublishFields(payload, metadata), false, now, winner);
      reply := Done;
    }

    method UpdateSessionTitle(key: Key, title: string, now: Time, winner: Option<Record>) returns (reply: Reply)
      requires UniqueKeys(registry.rows)
      requires winner.Some? ==>
                 key.agent in agents && !Blank(title) && winner.value.key == key && IndexOf(registry.rows, key) == |registry.rows|
      modifies registry
      ensures UniqueKeys(registry.rows)
      ensures if key.agent !in agents then reply == Refused(404) && registry.rows == old(registry.rows)
              else if Blank(title) then reply == Refused(400) && registry.rows == old(registry.rows)
              else reply == Done && registry.rows == TitledLate(old(registry.rows), WithWinner(old(registry.rows), winner), key, title, now)
    {
      if key.agent !in agents {
        return Refused(404);
      }
      var text := Strip(title);
      if text == [] {
        return Refused(400);
      }
      var metadata := LiveMetadata(registry.rows, key);
      metadata := metadata[SessionTitle := Text(text)];
      var saved := registry.Upsert(key, [SetMetadata(Object(metadata))], false, now, winner);
      reply := Done;
    }
  }

  // ----- Runs

  datatype Step =
    | PublishAll(key: Key, payload: Publish, now: Time)
    | PatchTitle(key: Key, title: string, now: Time)
    /** The chat composer stores the run settings of a session. */
    | SaveRunSettings(key: Key, settings: Option<string>, now: Time)
    | Delete(key: Key, now: Time)

  function Next(rows: seq<Record>, s: Step): seq<Record> {
    match s
    case PublishAll(key, p, now) => Published(rows, key, p, now)
    case PatchTitle(key, title, now) => if Blank(title) then rows else Titled(rows, key, title, now)
    case SaveRunSettings(key, settings, now) => Upserted(rows, key, [SetColumn(RunSettings, settings)], false, now)
    case Delete(key, now) => Deleted(rows, key, now)
  }

  function Run(rows: seq<Record>, steps: seq<Step>): seq<Record>
    decreases |steps|
  {
    if steps == [] then rows else Run(Next(rows, steps[0]), steps[1..])
  }

  /** A register: the title this step sends for the session, else the one before. */
  function TitleAfter(s: Step, key: Key, title: Option<string>): Option<string> {
    if s.key != key then title
    else
      match s
      case PublishAll(_, p, _) => if TitleOf(Parse(p.metadata)).Some? then TitleOf(Parse(p.metadata)) else title
      case PatchTitle(_, t, _) => if Blank(t) then title else Some(Strip(t))
      case _ => title
  }

  function LastTitle(steps: seq<Step>, key: Key, title: Option<string>): Option<string> {
    if steps == [] then title else LastTitle(steps[1..], key, TitleAfter(steps[0], key, title))
  }

  lemma {:induction false} UpsertWrites(rows: seq<Record>, key: Key, fields: seq<Write>, now: Time, other: Key)
    ensures var after := Upserted(rows, key, fields, false, now);
            && (other != key ==> StoredMetadata(after, other) == StoredMetadata(rows, other))
            && StoredMetadata(after, key) == MetadataAfter(fields, StoredMetadata(rows, key))
  {
    var i := IndexOf(rows, key);
    if i < |rows| {
      var r := Upserted(rows, key, fields, false, now)[i];
      MetadataOfApplied(rows[i], fields, rows[i].deletedAt, false);
      ReplacedIndex(rows, i, r, other);
      ReplacedIndex(rows, i, r, key);
    } else {
      var r := Upserted(rows, key, fields, false, now)[|rows|];
      MetadataOfApplied(NewRecord(key), fields, None, false);
      AppendedIndex(rows, r);
    }
  }

  lemma {:induction false} DeletionKeepsMetadata(rows: seq<Record>, key: Key, now: Time, other: Key)
    ensures StoredMetadata(Deleted(rows, key, now), other) == StoredMetadata(rows, other)
  {
    var i := IndexOf(rows, key);
    if i < |rows| {
      ReplacedIndex(rows, i, Deleted(rows, key, now)[i], other);
    } else {
      AppendedIndex(rows, Tombstone(key, now));
    }
  }

  lemma {:induction false} StepOnTitle(rows: seq<Record>, s: Step, key: Key)
    ensures StoredTitle(Next(rows, s), key) == TitleAfter(s, key, StoredTitle(rows, key))
  {
    match s
    case PublishAll(k, p, now) =>
      UpsertWrites(rows, k, PublishFields(p, KeepingTheTitle(rows, k, p.metadata)), now, key);
    case PatchTitle(k, title, now) =>
      if !Blank(title) {
        StripIdempotent(title);
        UpsertWrites(rows, k, [SetMetadata(Object(LiveMetadata(rows, k)[SessionTitle := Text(Strip(title))]))], now, key);
      }
    case SaveRunSettings(k, settings, now) =>
      UpsertWrites(rows, k, [SetColumn(RunSettings, settings)], now, key);
    case Delete(k, now) => DeletionKeepsMetadata(rows, k, now, key);
  }

  /**
   The title is a last-writer register: after any run of publishes, title patches, run settings and
   deletions, from any table, the stored title is the last nonblank one sent by either route.
   */
  lemma {:induction false} TitleIsTheLastOneSent(rows: seq<Record>, steps: seq<Step>, key: Key)
    ensures StoredTitle(Run(rows, steps), key) == LastTitle(steps, key, StoredTitle(rows, key))
    decreases |steps|
  {
    if steps != [] {
      StepOnTitle(rows, steps[0], key);
      TitleIsTheLastOneSent(Next(rows, steps[0]), steps[1..], key);
    }
  }

  /**
   The register survives a race exactly when the publish sends a title of its own, or the title stored when it commits
   is the one it had read: otherwise it writes the earlier title, or none, over the one sent meanwhile.
   */
  lemma {:induction false} LatePublishKeepsTheTitleIff(read: seq<Record>, rows: seq<Record>, key: Key, p: Publish, now: Time)
    ensures StoredTitle(PublishedLate(read, rows, key, p, now), key) == TitleAfter(PublishAll(key, p, now), key, StoredTitle(rows, key))
       <==> TitleOf(Parse(p.metadata)).Some? || StoredTitle(read, key) == StoredTitle(rows, key)
  {
    UpsertWrites(rows, key, PublishFields(p, KeepingTheTitle(read, key, p.metadata)), now, key);
  }

  /** In particular a publish that loses the insert race never keeps the winner's title: it leaves its own, or none. */
  lemma {:induction false} LosingPublishForgetsTheWinnersTitle(rows: seq<Record>, winner: Record, p: Publish, now: Time)
    requires IndexOf(rows, winner.key) == |rows|
    ensures StoredTitle(WithWinner(rows, Some(winner)), winner.key) == TitleOf(Parse(winner.metadata))
    ensures StoredTitle(PublishedLate(rows, WithWinner(rows, Some(winner)), winner.key, p, now), winner.key) == TitleOf(Parse(p.metadata))
  {
    var after := rows + [winner];
    IndexOfTheWinner(rows, winner);
    assert StoredTitle(rows, winner.key).None?;
    UpsertWrites(after, winner.key, PublishFields(p, KeepingTheTitle(rows, winner.key, p.metadata)), now, winner.key);
  }

  lemma {:induction false} IndexOfTheWinner(rows: seq<Record>, winner: Record)
    requires IndexOf(rows, winner.key) == |rows|
    ensures IndexOf(rows + [winner], winner.key) == |rows| && (rows + [winner])[|rows|] == winner
  {
    AppendedIndex(rows, winner);
  }

  /** A title patch always ends with its own title, whenever its handler read. */
  lemma {:induction false} LatePatchKeepsItsTitle(read: seq<Record>, rows: seq<Record>, key: Key, title: string, now: Time)
    requires !Blank(title)
    ensures StoredTitle(TitledLate(read, rows, key, title, now), key) == Some(Strip(title))
  {
    StripIdempotent(title);
    UpsertWrites(rows, key, [SetMetadata(Object(LiveMetadata(read, key)[SessionTitle := Text(Strip(title))]))], now, key);
  }

  /** A publish stores its own entries; without a title of its own it gains the stored title and nothing else. */
  lemma {:induction false} PublishKeepsItsEntries(rows: seq<Record>, key: Key, p: Publish, now: Time)
    ensures var after := Parse(StoredMetadata(Published(rows, key, p, now), key));
            && (forall k :: k != SessionTitle ==> (k in after <==> k in Parse(p.metadata)))
            && (forall k :: k != SessionTitle && k in after ==> after[k] == Parse(p.metadata)[k])
            && (TitleOf(Parse(p.metadata)).Some? || StoredTitle(rows, key).None? ==> after == Parse(p.metadata))
            && (TitleOf(Parse(p.metadata)).None? ==> TitleOf(after) == StoredTitle(rows, key))
  {
    UpsertWrites(rows, key, PublishFields(p, KeepingTheTitle(rows, key, p.metadata)), now, key);
  }

  /**
   A title patch is meant to change the title alone. It keeps every other stored entry exactly when the
   row is not deleted or has no other entry: on a tombstone it starts again from an empty object.
   */
  lemma {:induction false} PatchKeepsOtherEntriesIff(rows: seq<Record>, key: Key, title: string, now: Time)
    ensures var before, after := Parse(StoredMetadata(rows, key)), Parse(StoredMetadata(Titled(rows, key, title, now), key));
            after - {SessionTitle} == before - {SessionTitle} <==>
            DeletedAt(rows, key).None? || before.Keys <= {SessionTitle}
  {
    var before := Parse(StoredMetadata(rows, key));
    UpsertWrites(rows, key, [SetMetadata(Object(LiveMetadata(rows, key)[SessionTitle := Text(Strip(title))]))], now, key);
    var after := Parse(StoredMetadata(Titled(rows, key, title, now), key));
    assert after == LiveMetadata(rows, key)[SessionTitle := Text(Strip(title))];
    if DeletedAt(rows, key).None? {
      assert LiveMetadata(rows, key) == before;
    } else {
      assert after - {SessionTitle} == map[];
      if k :| k in before && k != SessionTitle {
        assert k in before - {SessionTitle};
      }
    }
  }

  /** A publish replaces every column the runtime owns, and leaves the run settings the member chose. */
  lemma {:induction false} PublishReplacesTheRuntimesColumns(rows: seq<Record>, key: Key, p: Publish, now: Time, c: Column)
    requires IndexOf(rows, key) < |rows|
    ensures var i := IndexOf(rows, key);
            var before, after := rows[i].columns, Published(rows, key, p, now)[i].columns;
            if c.RunSettings? then (c in after <==> c in before) && (c in after ==> after[c] == before[c])
            else c in after && after[c] == Sent(p, c)
  {
    var r := rows[IndexOf(rows, key)];
    var fields := PublishFields(p, KeepingTheTitle(rows, key, p.metadata));
    match c
    case CurrentTask => LastWriteWins(r, fields, r.deletedAt, false, 0, c);
    case SourceType => LastWriteWins(r, fields, r.deletedAt, false, 1, c);
    case SourceRef => LastWriteWins(r, fields, r.deletedAt, false, 2, c);
    case LastExecution => LastWriteWins(r, fields, r.deletedAt, false, 3, c);
    case EventType => LastWriteWins(r, fields, r.deletedAt, false, 4, c);
    case EventState => LastWriteWins(r, fields, r.deletedAt, false, 5, c);
    case SnapshotVersion => LastWriteWins(r, fields, r.deletedAt, false, 6, c);
    case RuntimeEvents => LastWriteWins(r, fields, r.deletedAt, false, 7, c);
    case RunSettings => UnwrittenColumnStays(r, fields, r.deletedAt, false, c);
  }

  function Sent(p: Publish, c: Column): Option<string> {
    match c
    case CurrentTask => p.currentTask
    case SourceType => p.sourceType
    case SourceRef => p.sourceRef
    case LastExecution => p.lastExecution
    case EventType => p.eventType
    case EventState => p.eventState
    case SnapshotVersion => p.snapshotVersion
    case RuntimeEvents => p.runtimeEvents
    case RunSettings => None
  }
}
