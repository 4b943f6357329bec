/**
 The registry of chat sessions: one row per (agent, session), soft deletion that upserts do not undo, an
 insert that may lose a race (app/repositories/agent_session_metadata_repo.py), and a session title
 written both with full publishes and on its own (app/api/internal_session_metadata.py).
 */
module SessionMetadata {
  import opened Options

  type Time = int

  datatype Key = Key(agent: string, session: string)

  /** The text columns a caller may set; `updated_at`, `deleted_at` and `metadata_json` are apart. */
  datatype Column =
    | CurrentTask | SourceType | SourceRef | LastExecution | EventType | EventState | SnapshotVersion | RuntimeEvents
    | RunSettings

  /** A JSON value: the text of a string, or anything else. */
  datatype Json = Text(text: string) | NotText(id: nat)

  datatype MetaKey = SessionTitle | OtherKey(name: string)

  /** The `metadata_json` column. Text that is not a JSON object reads as an empty object. */
  datatype Metadata = Null | NotAnObject(raw: string) | Object(entries: map<MetaKey, Json>)

  function Parse(m: Metadata): map<MetaKey, Json> {
    if m.Object? then m.entries else map[]
  }

  datatype Record = Record(
    key: Key,
    columns: map<Column, Option<string>>,
    metadata: Metadata,
    deletedAt: Option<Time>,
    updatedAt: Time
  )

  /** One keyword argument of an upsert; `Unknown` names no column of the table. */
  datatype Write =
    | SetColumn(column: Column, value: Option<string>)
    | SetMetadata(metadata: Metadata)
    | SetDeletedAt(at: Option<Time>)
    | Unknown(name: string)

  // ----- Applying fields to a record

  /** One turn of the loop, for a record whose `deleted_at` was `was` when the loop began. */
  function ApplyOne(r: Record, w: Write, was: Option<Time>, allowReactivate: bool): Record {
    match w
    case SetColumn(c, v) => r.(columns := r.columns[c := v])
    case SetMetadata(m) => r.(metadata := m)
    case SetDeletedAt(at) => if was.Some? && !allowReactivate then r else r.(deletedAt := at)
    case Unknown(_) => r
  }

  function ApplyAll(r: Record, fields: seq<Write>, was: Option<Time>, allowReactivate: bool): Record {
    if fields == [] then r
    else ApplyOne(ApplyAll(r, fields[..|fields| - 1], was, allowReactivate), fields[|fields| - 1], was, allowReactivate)
  }

  function Applied(r: Record, fields: seq<Write>, allowReactivate: bool): Record {
    var applied := ApplyAll(r, fields, r.deletedAt, allowReactivate);
    if r.deletedAt.Some? && !allowReactivate then applied.(deletedAt := r.deletedAt) else applied
  }

  /** The value the fields ask for `deleted_at`, or what it was when they do not mention it. */
  function AskedDeletedAt(fields: seq<Write>, was: Option<Time>): Option<Time> {
    if fields == [] then was
    else if fields[|fields| - 1].SetDeletedAt? then fields[|fields| - 1].at
    else AskedDeletedAt(fields[..|fields| - 1], was)
  }

  /** A tombstone changes only when the caller may reactivate; then the last value asked for wins. */
  lemma {:induction false} TombstoneAfterApply(r: Record, fields: seq<Write>, allowReactivate: bool)
    ensures Applied(r, fields, allowReactivate).deletedAt
         == if r.deletedAt.Some? && !allowReactivate then r.deletedAt else AskedDeletedAt(fields, r.deletedAt)
    ensures Applied(r, fields, allowReactivate).key == r.key
  {
    ApplyAllDeletedAt(r, fields, r.deletedAt, allowReactivate);
  }

  lemma {:induction false} ApplyAllDeletedAt(r: Record, fields: seq<Write>, was: Option<Time>, allowReactivate: bool)
    requires r.deletedAt == was
    ensures ApplyAll(r, fields, was, allowReactivate).deletedAt
         == if was.Some? && !allowReactivate then was else AskedDeletedAt(fields, was)
    ensures ApplyAll(r, fields, was, allowReactivate).key == r.key
  {
    if fields != [] {
      ApplyAllDeletedAt(r, fields[..|fields| - 1], was, allowReactivate);
    }
  }

  /** The last metadata among the fields, or what was stored. */
  function MetadataAfter(fields: seq<Write>, stored: Metadata): Metadata {
    if fields == [] then stored
    else if fields[|fields| - 1].SetMetadata? then fields[|fields| - 1].metadata
    else MetadataAfter(fields[..|fields| - 1], stored)
  }

  lemma {:induction false} MetadataOfApplied(r: Record, fields: seq<Write>, was: Option<Time>, allowReactivate: bool)
    ensures ApplyAll(r, fields, was, allowReactivate).metadata == MetadataAfter(fields, r.metadata)
  {
    if fields != [] {
      MetadataOfApplied(r, fields[..|fields| - 1], was, allowReactivate);
    }
  }

  predicate Writes(w: Write, c: Column) {
    w.SetColumn? && w.column == c
  }

  lemma {:induction false} LastWriteWins(r: Record, fields: seq<Write>, was: Option<Time>, allowReactivate: bool, i: nat, c: Column)
    requires i < |fields| && Writes(fields[i], c)
    requires forall j :: i < j < |fields| ==> !Writes(fields[j], c)
    ensures var columns := ApplyAll(r, fields, was, allowReactivate).columns; c in columns && columns[c] == fields[i].value
  {
    if i < |fields| - 1 {
      LastWriteWins(r, fields[..|fields| - 1], was, allowReactivate, i, c);
    }
  }

  lemma {:induction false} UnwrittenColumnStays(r: Record, fields: seq<Write>, was: Option<Time>, allowReactivate: bool, c: Column)
    requires forall j :: 0 <= j < |fields| ==> !Writes(fields[j], c)
    ensures var columns := ApplyAll(r, fields, was, allowReactivate).columns;
            (c in columns <==> c in r.columns) && (c in columns ==> columns[c] == r.columns[c])
  {
    if fields != [] {
      UnwrittenColumnStays(r, fields[..|fields| - 1], was, allowReactivate, c);
    }
  }

  // ----- The table

  function IndexOf(rows: seq<Record>, key: Key): (i: nat)
    ensures i <= |rows|
    ensures i < |rows| ==> rows[i].key == key
    ensures forall k :: 0 <= k < i ==> rows[k].key != key
  {
    if rows == [] || rows[0].key == key then 0 else 1 + IndexOf(rows[1..], key)
  }

  /** `uq_agent_session_metadata_agent_session`. */
  ghost predicate UniqueKeys(rows: seq<Record>) {
    forall i, j :: 0 <= i < j < |rows| ==> rows[i].key != rows[j].key
  }

  function Find(rows: seq<Record>, key: Key, includeDeleted: bool): Option<Record> {
    var i := IndexOf(rows, key);
    if i < |rows| && (includeDeleted || rows[i].deletedAt.None?) then Some(rows[i]) else None
  }

  function NewRecord(key: Key): Record {
    Record(key, map[], Null, None, 0)
  }

  /** The row an upsert writes. */
  function RowUpserted(before: Record, key: Key, fields: seq<Write>, allowReactivate: bool, now: Time): Record {
    Applied(before, fields, allowReactivate).(key := key, updatedAt := now)
  }

  /** An upsert with nobody in between. */
  function Upserted(rows: seq<Record>, key: Key, fields: seq<Write>, allowReactivate: bool, now: Time): seq<Record> {
    var i := IndexOf(rows, key);
    if i < |rows| then rows[i := RowUpserted(rows[i], key, fields, allowReactivate, now)]
    else rows + [RowUpserted(NewRecord(key), key, fields, allowReactivate, now)]
  }

  function EventTypeOr(r: Record, text: string): Option<string> {
    if EventType in r.columns && r.columns[EventType].Some? && r.columns[EventType].value != "" then r.columns[EventType]
    else Some(text)
  }

  function Tombstone(key: Key, now: Time): Record {
    Record(key, map[EventType := Some("session.deleted"), EventState := Some("deleted")], Null, Some(now), now)
  }

  /** `mark_deleted`: a missing row becomes a tombstone, a deleted one stays as it is. */
  function Deleted(rows: seq<Record>, key: Key, now: Time): seq<Record> {
    var i := IndexOf(rows, key);
    if i == |rows| then rows + [Tombstone(key, now)]
    else if rows[i].deletedAt.Some? then rows
    else rows[i := rows[i].(
           deletedAt := Some(now), updatedAt := now,
           columns := rows[i].columns[EventType := EventTypeOr(rows[i], "session.deleted")][EventState := Some("deleted")])]
  }

  class SessionRegistry {
    var rows: seq<Record>

    constructor ()
      ensures rows == [] && UniqueKeys(rows)
    {
      rows := [];
    }

    method ApplyFields(record: Record, fields: seq<Write>, allowReactivate: bool) returns (r: Record)
      ensures r == Applied(record, fields, allowReactivate)
    {
      var was := record.deletedAt;
      r := record;
      for i := 0 to |fields|
        invariant r == ApplyAll(record, fields[..i], was, allowReactivate)
      {
        assert fields[..i + 1][..i] == fields[..i];
        match fields[i] {
          case SetDeletedAt(at) =>
            if was.None? || allowReactivate {
              r := r.(deletedAt := at);
            }
          case SetColumn(c, v) => r := r.(columns := r.columns[c := v]);
          case SetMetadata(m) => r := r.(metadata := m);
          case Unknown(_) =>
        }
      }
      assert fields[..|fields|] == fields;
      if was.Some? && !allowReactivate {
        r := r.(deletedAt := was);
      }
    }

    /**
     Read, apply, commit. `winner` is the row another session committed for the same key between the
     read and the commit, if any: the insert then hits the unique key, and the upsert reads again,
     applies the fields to the winner's row and saves that.
     */
    method Upsert(key: Key, fields: seq<Write>, allowReactivate: bool, now: Time, winner: Option<Record>) returns (saved: Record)
      requires winner.Some? ==> winner.value.key == key && IndexOf(rows, key) == |rows|
      requires UniqueKeys(rows)
      modifies this
      ensures UniqueKeys(rows) && saved in rows && saved.key == key
      ensures rows == Upserted(if winner.Some? then old(rows) + [winner.value] else old(rows), key, fields, allowReactivate, now)
    {
      var i := IndexOf(rows, key);
      var isNew := i == |rows|;
      saved := if isNew then NewRecord(key) else rows[i];
      saved := ApplyFields(saved, fields, allowReactivate);
      saved := saved.(key := key, updatedAt := now);
      if winner.Some? {
        rows := rows + [winner.value];
        AppendedIndex(old(rows), winner.value);
      }
      if !isNew {
        TombstoneAfterApply(rows[i], fields, allowReactivate);
        rows := rows[i := saved];
        assert rows[i] == saved && forall k :: 0 <= k < |rows| ==> rows[k].key == old(rows)[k].key;
        return;
      }
      i := IndexOf(rows, key);
      if i < |rows| {
        saved := ApplyFields(rows[i], fields, allowReactivate);
        saved := saved.(key := key, updatedAt := now);
        ghost var before := rows;
        rows := rows[i := saved];
        assert rows[i] == saved && forall k :: 0 <= k < |rows| ==> rows[k].key == before[k].key;
      } else {
        rows := rows + [saved];
        assert rows[|rows| - 1] == saved;
      }
    }

    /**
     A tombstone that loses the insert race is not written: the commit raises (None), and the winner's row stays as it is.
     `winner` is the row another session committed for the same key between the read and the commit, if any.
     */
    method MarkDeleted(key: Key, now: Time, winner: Option<Record>) returns (record: Option<Record>, alreadyDeleted: bool)
      requires winner.Some? ==> winner.value.key == key && IndexOf(rows, key) == |rows|
      requires UniqueKeys(rows)
      modifies this
      ensures UniqueKeys(rows)
      ensures winner.Some? ==> record == None && !alreadyDeleted && rows == old(rows) + [winner.value]
      ensures winner.None? ==> rows == Deleted(old(rows), key, now)
      ensures winner.None? ==> record.Some? && record.value in rows && record.value.key == key && record.value.deletedAt.Some?
      ensures alreadyDeleted <==> exists r :: r in old(rows) && r.key == key && r.deletedAt.Some?
      ensures alreadyDeleted ==> rows == old(rows)
    {
      var i := IndexOf(rows, key);
      if winner.Some? {
        rows := rows + [winner.value];
        return None, false;
      }
      if i == |rows| {
        rows := rows + [Tombstone(key, now)];
        return Some(rows[i]), false;
      }
      if rows[i].deletedAt.Some? {
        return Some(rows[i]), true;
      }
      rows := rows[i := rows[i].(
        deletedAt := Some(now), updatedAt := now,
        columns := rows[i].columns[EventType := EventTypeOr(rows[i], "session.deleted")][EventState := Some("deleted")])];
      record, alreadyDeleted := Some(rows[i]), false;
    }
  }

  lemma {:induction false} AppendedIndex(rows: seq<Record>, r: Record)
    requires IndexOf(rows, r.key) == |rows|
    ensures IndexOf(rows + [r], r.key) == |rows|
    ensures forall key :: key != r.key ==>
              (IndexOf(rows, key) < |rows| ==> IndexOf(rows + [r], key) == IndexOf(rows, key))
              && (IndexOf(rows, key) == |rows| ==> IndexOf(rows + [r], key) == |rows| + 1)
  {
    var after := rows + [r];
    assert after[|rows|] == r;
    assert forall k :: 0 <= k < |rows| ==> after[k] == rows[k];
  }

  lemma {:induction false} ReplacedIndex(rows: seq<Record>, i: nat, r: Record, key: Key)
    requires i < |rows| && r.key == rows[i].key
    ensures IndexOf(rows[i := r], key) == IndexOf(rows, key)
  {
    var after := rows[i := r];
    assert forall k :: 0 <= k < |rows| ==> after[k].key == rows[k].key;
  }

  // ----- What an upsert and a deletion write, on the columns

  /** The row of the key as an upsert finds it: stored, or new and blank. */
  function RowBefore(rows: seq<Record>, key: Key): Record {
    if IndexOf(rows, key) < |rows| then rows[IndexOf(rows, key)] else Record(key, map[], Null, None, 0)
  }

  /** An upsert writes one row, in its place or at the end; every other row stays. */
  lemma {:induction false} UpsertWritesOneRow(rows: seq<Record>, key: Key, fields: seq<Write>, allowReactivate: bool, now: Time)
    ensures var i, row := IndexOf(rows, key), RowUpserted(RowBefore(rows, key), key, fields, allowReactivate, now);
            Upserted(rows, key, fields, allowReactivate, now) == if i < |rows| then rows[i := row] else rows + [row]
  {
  }

  /**
   The row it writes has its key and time, the last metadata of the fields or the metadata it had, and the tombstone that
   was there, or the last one asked for when there was none or the caller may reactivate.
   */
  lemma {:induction false} UpsertOnTheColumns(before: Record, key: Key, fields: seq<Write>, allowReactivate: bool, now: Time)
    ensures var after := RowUpserted(before, key, fields, allowReactivate, now);
            && after.key == key && after.updatedAt == now
            && after.metadata == MetadataAfter(fields, before.metadata)
            && after.deletedAt == if before.deletedAt.Some? && !allowReactivate then before.deletedAt else AskedDeletedAt(fields, before.deletedAt)
  {
    TombstoneAfterApply(before, fields, allowReactivate);
    MetadataOfApplied(before, fields, before.deletedAt, allowReactivate);
  }

  /** Each text column has the last value the fields give it, or the value it had. */
  lemma {:induction false} LastValueOfAColumn(before: Record, key: Key, fields: seq<Write>, allowReactivate: bool, now: Time, c: Column, j: nat)
    requires j < |fields| && Writes(fields[j], c) && forall l :: j < l < |fields| ==> !Writes(fields[l], c)
    ensures var columns := RowUpserted(before, key, fields, allowReactivate, now).columns; c in columns && columns[c] == fields[j].value
  {
    LastWriteWins(before, fields, before.deletedAt, allowReactivate, j, c);
  }

  lemma {:induction false} OtherColumnsStay(before: Record, key: Key, fields: seq<Write>, allowReactivate: bool, now: Time, c: Column)
    requires forall j :: 0 <= j < |fields| ==> !Writes(fields[j], c)
    ensures var columns := RowUpserted(before, key, fields, allowReactivate, now).columns;
            (c in columns <==> c in before.columns) && (c in columns ==> columns[c] == before.columns[c])
  {
    UnwrittenColumnStays(before, fields, before.deletedAt, allowReactivate, c);
  }

  /** The row says what kind of event its session last had. */
  predicate HasEventType(r: Record) {
    EventType in r.columns && r.columns[EventType] != None && r.columns[EventType] != Some("")
  }

  /**
   A deletion leaves a deleted row alone, makes any other a tombstone of now that keeps its metadata, its other columns
   and an event type it has, and adds a blank tombstone for a key that has no row.
   */
  lemma {:induction false} DeletionOnTheColumns(rows: seq<Record>, key: Key, now: Time)
    ensures var i, after := IndexOf(rows, key), Deleted(rows, key, now);
            && (i == |rows| ==>
                  after == rows + [Record(key, map[EventType := Some("session.deleted"), EventState := Some("deleted")], Null, Some(now), now)])
            && (i < |rows| && rows[i].deletedAt.Some? ==> after == rows)
            && (i < |rows| && rows[i].deletedAt.None? ==>
                  && |after| == |rows| && (forall k :: 0 <= k < |rows| && k != i ==> after[k] == rows[k])
                  && after[i] == rows[i].(deletedAt := Some(now), updatedAt := now, columns := after[i].columns)
                  && after[i].columns - {EventType, EventState} == rows[i].columns - {EventType, EventState}
                  && EventState in after[i].columns && after[i].columns[EventState] == Some("deleted")
                  && EventType in after[i].columns
                  && after[i].columns[EventType] == if HasEventType(rows[i]) then rows[i].columns[EventType] else Some("session.deleted"))
  {
    var i := IndexOf(rows, key);
    if i < |rows| && rows[i].deletedAt.None? {
      var columns := rows[i].columns;
      var eventType := EventTypeOr(rows[i], "session.deleted");
      assert columns[EventType := eventType][EventState := Some("deleted")] - {EventType, EventState} == columns - {EventType, EventState};
    }
  }

  // ----- Runs of upserts and deletions

  datatype Step =
    | Upsert(key: Key, fields: seq<Write>, allowReactivate: bool, now: Time)
    | Delete(key: Key, now: Time)

  function Next(rows: seq<Record>, s: Step): seq<Record> {
    match s
    case Upsert(key, fields, allow, now) => Upserted(rows, key, fields, allow, now)
    case Delete(key, now) => Deleted(rows, key, now)
  }

  function Run(rows: seq<Record>, steps: seq<Step>): seq<Record>
    decreases |steps|
  {
    if steps == [] then rows else Run(Next(rows, steps[0]), steps[1..])
  }

  function DeletedAt(rows: seq<Record>, key: Key): Option<Time> {
    var i := IndexOf(rows, key);
    if i < |rows| then rows[i].deletedAt else None
  }

  lemma {:induction false} StepOnTombstone(rows: seq<Record>, s: Step, key: Key)
    requires UniqueKeys(rows)
    ensures UniqueKeys(Next(rows, s))
    ensures DeletedAt(rows, key).Some? && (s.Upsert? ==> !s.allowReactivate) ==> DeletedAt(Next(rows, s), key) == DeletedAt(rows, key)
  {
    if IndexOf(rows, s.key) < |rows| {
      StepOnARow(rows, s, key);
    } else {
      StepAddsARow(rows, s, key);
    }
  }

  lemma {:induction false} StepOnARow(rows: seq<Record>, s: Step, key: Key)
    requires UniqueKeys(rows) && IndexOf(rows, s.key) < |rows|
    ensures UniqueKeys(Next(rows, s))
    ensures DeletedAt(rows, key).Some? && (s.Upsert? ==> !s.allowReactivate) ==> DeletedAt(Next(rows, s), key) == DeletedAt(rows, key)
  {
    var i := IndexOf(rows, s.key);
    var r := RowAfterAStep(rows, s);
    assert forall k :: 0 <= k < |rows| ==> rows[i := r][k].key == rows[k].key;
    ReplacedIndex(rows, i, r, key);
  }

  lemma {:induction false} RowAfterAStep(rows: seq<Record>, s: Step) returns (r: Record)
    requires IndexOf(rows, s.key) < |rows|
    ensures var i := IndexOf(rows, s.key);
            && Next(rows, s) == rows[i := r] && r.key == rows[i].key
            && (rows[i].deletedAt.Some? && (s.Upsert? ==> !s.allowReactivate) ==> r.deletedAt == rows[i].deletedAt)
  {
    var i := IndexOf(rows, s.key);
    r := Next(rows, s)[i];
    if s.Upsert? {
      TombstoneAfterApply(rows[i], s.fields, s.allowReactivate);
    }
  }

  lemma {:induction false} StepAddsARow(rows: seq<Record>, s: Step, key: Key)
    requires UniqueKeys(rows) && IndexOf(rows, s.key) == |rows|
    ensures UniqueKeys(Next(rows, s))
    ensures DeletedAt(rows, key).Some? ==> DeletedAt(Next(rows, s), key) == DeletedAt(rows, key)
  {
    var r := Next(rows, s)[|rows|];
    assert Next(rows, s) == rows + [r];
    AppendedIndex(rows, r);
  }

  /**
   Tombstones are absorbing and keys unique: through every run of deletions and of upserts that may not
   reactivate, there is one row per (agent, session) and a `deleted_at` once set never changes.
   */
  lemma {:induction false} TombstonesAreAbsorbing(rows: seq<Record>, steps: seq<Step>, key: Key)
    requires UniqueKeys(rows)
    requires forall k :: 0 <= k < |steps| && steps[k].Upsert? ==> !steps[k].allowReactivate
    ensures UniqueKeys(Run(rows, steps))
    ensures DeletedAt(rows, key).Some? ==> DeletedAt(Run(rows, steps), key) == DeletedAt(rows, key)
    decreases |steps|
  {
    if steps != [] {
      StepOnTombstone(rows, steps[0], key);
      TombstonesAreAbsorbing(Next(rows, steps[0]), steps[1..], key);
    }
  }

  /** Deleting twice is deleting once, whenever the second deletion comes. */
  lemma {:induction false} DeletingTwice(rows: seq<Record>, key: Key, first: Time, second: Time)
    ensures Deleted(Deleted(rows, key, first), key, second) == Deleted(rows, key, first)
  {
    var i := IndexOf(rows, key);
    if i < |rows| {
      ReplacedIndex(rows, i, Deleted(rows, key, first)[i], key);
    } else {
      AppendedIndex(rows, Tombstone(key, first));
    }
  }

  /** The row the winner of an insert race commits for a key that was free. */
  function WinnersRow(winner: Step): Record {
    match winner
    case Upsert(key, fields, allow, now) => Applied(NewRecord(key), fields, allow).(key := key, updatedAt := now)
    case Delete(key, now) => Tombstone(key, now)
  }

  /**
   An upsert that loses the insert race ends exactly where running it after the winner would, whether
   the winner was an upsert or a deletion; and it leaves the winner's tombstone in place.
   */
  lemma {:induction false} TheLoserRunsAfterTheWinner(rows: seq<Record>, winner: Step, fields: seq<Write>, now: Time)
    requires UniqueKeys(rows) && IndexOf(rows, winner.key) == |rows|
    ensures Upserted(rows + [WinnersRow(winner)], winner.key, fields, false, now)
         == Run(rows, [winner, Upsert(winner.key, fields, false, now)])
    ensures winner.Delete? ==> DeletedAt(Upserted(rows + [WinnersRow(winner)], winner.key, fields, false, now), winner.key) == Some(winner.now)
  {
    var loser := Upsert(winner.key, fields, false, now);
    assert Next(rows, winner) == rows + [WinnersRow(winner)];
    assert [winner, loser][1..] == [loser] && [loser][1..] == [];
    assert Run(rows, [winner, loser]) == Run(Next(rows, winner), [loser]) == Next(Next(rows, winner), loser);
    AppendedIndex(rows, WinnersRow(winner));
    StepOnTombstone(rows, winner, winner.key);
    StepOnTombstone(Next(rows, winner), loser, winner.key);
  }
}
