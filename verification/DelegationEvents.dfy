/**
 External items become events by a unique key, and workers claim an event before creating a task for
 it (app/repositories/delegation_rule_repo.py). A claim nobody finished goes stale and may be retaken.
 */
module DelegationEvents {
  import opened Options

  type Time = int
  type Worker = nat

  /** The `status` column; an API caller may store any other text. */
  datatype Status = Discovered | CreatingTask | TaskCreated | Failed | OtherStatus(text: string)

  datatype Event = Event(
    id: nat,
    ruleId: string,
    dedupeKey: string,
    status: Status,
    taskId: Option<string>,
    error: Option<string>,
    updatedAt: Option<Time>
  )

  // ----- The event table

  predicate SameKey(e: Event, ruleId: string, dedupeKey: string) {
    e.ruleId == ruleId && e.dedupeKey == dedupeKey
  }

  /** The first row with this key, or the length of the table. */
  function Lookup(events: seq<Event>, ruleId: string, dedupeKey: string): (i: nat)
    ensures i <= |events|
    ensures i < |events| ==> SameKey(events[i], ruleId, dedupeKey)
    ensures forall k :: 0 <= k < i ==> !SameKey(events[k], ruleId, dedupeKey)
  {
    if events == [] || SameKey(events[0], ruleId, dedupeKey) then 0
    else 1 + Lookup(events[1..], ruleId, dedupeKey)
  }

  /** `uq_delegation_rule_events_rule_dedupe`; an event's id is its place in the table. */
  ghost predicate UniqueKeys(events: seq<Event>) {
    && (forall i :: 0 <= i < |events| ==> events[i].id == i)
    && (forall i, j :: 0 <= i < j < |events| ==> events[i].ruleId != events[j].ruleId || events[i].dedupeKey != events[j].dedupeKey)
  }

  /** The INSERT: an IntegrityError (`None`) when the key is taken. */
  function Insert(events: seq<Event>, ruleId: string, dedupeKey: string, now: Time): Option<seq<Event>> {
    if Lookup(events, ruleId, dedupeKey) < |events| then None
    else Some(events + [Event(|events|, ruleId, dedupeKey, Discovered, None, None, Some(now))])
  }

  /** `stale_before`: never less than a second after the claim. */
  function Window(staleAfterSeconds: int): int {
    if staleAfterSeconds < 1 then 1 else staleAfterSeconds
  }

  predicate Claimable(e: Event, now: Time, staleAfterSeconds: int) {
    && e.taskId.None?
    && (e.status.Discovered? || e.status.Failed?
        || (e.status == CreatingTask
            && (e.updatedAt.None? || e.updatedAt.value < now - Window(staleAfterSeconds))))
  }

  function Claimed(e: Event, now: Time): Event {
    e.(status := CreatingTask, error := None, updatedAt := Some(now))
  }

  /** `update_event_status` overwrites the task id even when the caller passes none. */
  function WithStatus(e: Event, status: Status, taskId: Option<string>, error: Option<string>, now: Time): Event {
    e.(status := status, taskId := taskId, error := error, updatedAt := Some(now))
  }

  /** Without a task, and discovered, failed, or claimed more than `staleAfterSeconds`, and at least one second, ago. */
  predicate MayBeClaimed(e: Event, now: Time, staleAfterSeconds: int) {
    && e.taskId == None
    && (e.status == Discovered || e.status == Failed || e.status == CreatingTask)
    && (e.status == CreatingTask && e.updatedAt.Some? ==> e.updatedAt.value + staleAfterSeconds < now && e.updatedAt.value + 1 < now)
  }

  class EventTable {
    var events: seq<Event>

    constructor ()
      ensures events == [] && UniqueKeys(events)
    {
      events := [];
    }

    /** Insert, and on an IntegrityError read the row that holds the key. */
    method CreateEventOrGetExisting(ruleId: string, dedupeKey: string, now: Time) returns (event: Event, created: bool)
      requires UniqueKeys(events)
      modifies this
      ensures UniqueKeys(events) && event in events && event.ruleId == ruleId && event.dedupeKey == dedupeKey
      ensures created <==> forall e :: e in old(events) ==> e.ruleId != ruleId || e.dedupeKey != dedupeKey
      ensures created ==> events == old(events) + [Event(|old(events)|, ruleId, dedupeKey, Discovered, None, None, Some(now))]
      ensures created ==> event == events[|events| - 1]
      ensures !created ==> events == old(events)
    {
      var inserted := Insert(events, ruleId, dedupeKey, now);
      if inserted.Some? {
        events := inserted.value;
        return events[|events| - 1], true;
      }
      event, created := events[Lookup(events, ruleId, dedupeKey)], false;
    }

    method ClaimEventForTaskCreation(id: nat, now: Time, staleAfterSeconds: int) returns (claimed: bool)
      modifies this
      ensures claimed <==> id < |old(events)| && MayBeClaimed(old(events)[id], now, staleAfterSeconds)
      ensures events == if claimed then old(events)[id := old(events)[id].(status := CreatingTask, error := None, updatedAt := Some(now))]
                        else old(events)
    {
      claimed := id < |events| && Claimable(events[id], now, staleAfterSeconds);
      if claimed {
        events := events[id := Claimed(events[id], now)];
      }
    }

    method UpdateEventStatus(id: nat, status: Status, taskId: Option<string>, error: Option<string>, now: Time)
      requires id < |events|
      modifies this
      ensures events == old(events)[id := old(events)[id].(status := status, taskId := taskId, error := error, updatedAt := Some(now))]
    {
      events := events[id := WithStatus(events[id], status, taskId, error, now)];
    }
  }

  // ----- Workers racing for events

  /**
   What a worker is doing with the one event it works on: it has claimed it, has looked for an earlier task and
   found none, or has created a task it has not recorded on the event yet.
   */
  datatype Work =
    | Idle
    | Claiming(event: nat, since: Time)
    | Cleared(event: nat, since: Time)
    | Creating(event: nat, since: Time, task: string)

  /** A task created for an event; `listed` says whether its status is one that `find_by_dedupe_key` looks for. */
  datatype TaskRow = TaskRow(event: nat, task: string, agent: nat, listed: bool)

  /** `tasks` is every agent task ever created for an event, in order; `targets` the agent of each rule. */
  datatype System = System(now: Time, events: seq<Event>, tasks: seq<TaskRow>, work: map<Worker, Work>, targets: map<string, nat>)

  datatype Step =
    | Tick(elapsed: nat)
    | Discover(ruleId: string, dedupeKey: string)
    | Claim(w: Worker, event: nat)
    /** The claimant looks for a task with the item's dedupe key, and links the event to it if there is one. */
    | LookUp(w: Worker)
    | CreateTask(w: Worker, task: string)
    /** The claimant writes its task's id onto the event. */
    | RecordTask(w: Worker)
    /** The claimant gives up before creating a task. */
    | Fail(w: Worker)
    /** The task is there but recording its id raised: the event is marked failed with the id it had, none. */
    | LoseRecord(w: Worker)
    /** Any other status update, for instance after the reply was sent. */
    | UpdateStatus(event: nat, status: Status, taskId: Option<string>)
    /** `update_event_normalized_payload`, which touches `updated_at`. */
    | UpdatePayload(event: nat)
    /** The rule gets another target agent. */
    | Retarget(ruleId: string, agent: nat)
    /** A task's status moves into or out of those the lookup considers. */
    | SetTaskStatus(row: nat, listed: bool)

  function WorkOf(s: System, w: Worker): Work {
    if w in s.work then s.work[w] else Idle
  }

  predicate Busy(s: System, e: nat) {
    exists w :: w in s.work && !s.work[w].Idle? && s.work[w].event == e
  }

  predicate ClaimSucceeds(s: System, e: nat, stale: int) {
    e < |s.events| && Claimable(s.events[e], s.now, stale)
  }

  function TargetOf(s: System, e: nat): nat {
    if e < |s.events| && s.events[e].ruleId in s.targets then s.targets[s.events[e].ruleId] else 0
  }

  /** The lookup after a claim of the task's event would find this row. */
  predicate Findable(s: System, row: TaskRow) {
    row.listed && row.agent == TargetOf(s, row.event)
  }

  /** The position of the newest row of the event that the lookup finds among the first `n`, or None. */
  function Newest(s: System, e: nat, n: nat): (r: Option<nat>)
    requires n <= |s.tasks|
    ensures r.Some? ==> r.value < n && s.tasks[r.value].event == e && Findable(s, s.tasks[r.value])
    ensures r.None? ==> forall i :: 0 <= i < n && s.tasks[i].event == e ==> !Findable(s, s.tasks[i])
    ensures r.Some? ==> forall i :: r.value < i < n && s.tasks[i].event == e ==> !Findable(s, s.tasks[i])
  {
    if n == 0 then None
    else if s.tasks[n - 1].event == e && Findable(s, s.tasks[n - 1]) then Some(n - 1)
    else Newest(s, e, n - 1)
  }

  function SetEvent(s: System, i: nat, e: Event): System
    requires i < |s.events|
  {
    s.(events := s.events[i := e])
  }

  /** The worker writes a status and a task id onto its event and is done with it. */
  function Conclude(s: System, w: Worker, status: Status, taskId: Option<string>, error: Option<string>): System {
    var k := WorkOf(s, w);
    if k.Idle? || |s.events| <= k.event then s
    else SetEvent(s, k.event, WithStatus(s.events[k.event], status, taskId, error, s.now)).(work := s.work[w := Idle])
  }

  /** A step whose worker is not in the right place, or whose event does not exist, changes nothing. */
  function Next(s: System, step: Step, stale: int): System {
    match step
    case Tick(d) => s.(now := s.now + d)
    case Discover(r, k) =>
      var inserted := Insert(s.events, r, k, s.now);
      if inserted.Some? then s.(events := inserted.value) else s
    case Claim(w, e) =>
      if ClaimSucceeds(s, e, stale) && WorkOf(s, w).Idle? then
        SetEvent(s, e, Claimed(s.events[e], s.now)).(work := s.work[w := Claiming(e, s.now)])
      else s
    case LookUp(w) => LookedUp(s, w)
    case CreateTask(w, t) =>
      var k := WorkOf(s, w);
      if k.Cleared? then
        s.(tasks := s.tasks + [TaskRow(k.event, t, TargetOf(s, k.event), true)], work := s.work[w := Creating(k.event, k.since, t)])
      else s
    case RecordTask(w) =>
      if WorkOf(s, w).Creating? then Conclude(s, w, TaskCreated, Some(WorkOf(s, w).task), None) else s
    case Fail(w) =>
      if WorkOf(s, w).Claiming? || WorkOf(s, w).Cleared? then Conclude(s, w, Failed, None, Some("error")) else s
    case LoseRecord(w) =>
      if WorkOf(s, w).Creating? then Conclude(s, w, Failed, None, Some("error")) else s
    case UpdateStatus(e, status, t) =>
      if e < |s.events| then SetEvent(s, e, WithStatus(s.events[e], status, t, None, s.now)) else s
    case UpdatePayload(e) =>
      if e < |s.events| then SetEvent(s, e, s.events[e].(updatedAt := Some(s.now))) else s
    case Retarget(r, a) => s.(targets := s.targets[r := a])
    case SetTaskStatus(i, l) =>
      if i < |s.tasks| then s.(tasks := s.tasks[i := s.tasks[i].(listed := l)]) else s
  }

  function LookedUp(s: System, w: Worker): System {
    var k := WorkOf(s, w);
    if !k.Claiming? then s
    else
      var found := Newest(s, k.event, |s.tasks|);
      if found.Some? then Conclude(s, w, TaskCreated, Some(s.tasks[found.value].task), None)
      else s.(work := s.work[w := Cleared(k.event, k.since)])
  }

  // ----- The steps, on the columns

  /** Discovering an item adds an event when no event has its key, and changes nothing otherwise. */
  lemma {:induction false} DiscoveryOnTheTable(s: System, r: string, k: string, stale: int)
    ensures var unseen := forall e :: e in s.events ==> e.ruleId != r || e.dedupeKey != k;
            Next(s, Discover(r, k), stale) == if unseen
              then s.(events := s.events + [Event(|s.events|, r, k, Discovered, None, None, Some(s.now))]) else s
  {
    var i := Lookup(s.events, r, k);
    assert i < |s.events| ==> s.events[i] in s.events;
  }

  /** An idle worker claims an event that may be claimed. */
  lemma {:induction false} ClaimOnTheRow(s: System, w: Worker, e: nat, stale: int)
    ensures e < |s.events| && MayBeClaimed(s.events[e], s.now, stale) && WorkOf(s, w) == Idle ==>
              Next(s, Claim(w, e), stale) == s.(events := s.events[e := s.events[e].(status := CreatingTask, error := None, updatedAt := Some(s.now))],
                                                work := s.work[w := Claiming(e, s.now)])
    ensures !(e < |s.events| && MayBeClaimed(s.events[e], s.now, stale) && WorkOf(s, w) == Idle) ==> Next(s, Claim(w, e), stale) == s
  {
  }

  /** Row `i` is the newest task of the event that is listed and has the agent the rule has now. */
  ghost predicate NewestListed(s: System, e: nat, agent: nat, i: nat) {
    && i < |s.tasks| && s.tasks[i].event == e && s.tasks[i].listed && s.tasks[i].agent == agent
    && forall j :: i < j < |s.tasks| && s.tasks[j].event == e && s.tasks[j].agent == agent ==> !s.tasks[j].listed
  }

  /** A claimant that finds a task for its event links the event to the newest; otherwise it goes on to create one. */
  lemma {:induction false} LookUpOnTheRow(s: System, w: Worker, i: nat, stale: int)
    requires WorkOf(s, w).Claiming? && WorkOf(s, w).event < |s.events|
    ensures var k, agent := WorkOf(s, w), TargetOf(s, WorkOf(s, w).event);
            && (NewestListed(s, k.event, agent, i) ==>
                  Next(s, LookUp(w), stale) == s.(
                    events := s.events[k.event := s.events[k.event].(status := TaskCreated, taskId := Some(s.tasks[i].task), error := None, updatedAt := Some(s.now))],
                    work := s.work[w := Idle]))
            && ((forall j :: 0 <= j < |s.tasks| && s.tasks[j].event == k.event && s.tasks[j].agent == agent ==> !s.tasks[j].listed) ==>
                  Next(s, LookUp(w), stale) == s.(work := s.work[w := Cleared(k.event, k.since)]))
  {
    var e := WorkOf(s, w).event;
    var found := Newest(s, e, |s.tasks|);
    if NewestListed(s, e, TargetOf(s, e), i) {
      assert Findable(s, s.tasks[i]);
      assert found == Some(i);
    }
  }

  /** A claimant creates its task only after its lookup found none: for the rule's agent, and listed. */
  lemma {:induction false} CreationOnTheTable(s: System, w: Worker, t: string, stale: int)
    ensures var k := WorkOf(s, w);
            Next(s, CreateTask(w, t), stale) == if k.Cleared?
              then s.(tasks := s.tasks + [TaskRow(k.event, t, TargetOf(s, k.event), true)], work := s.work[w := Creating(k.event, k.since, t)]) else s
    ensures forall e: nat :: e < |s.events| && s.events[e].ruleId in s.targets ==> TargetOf(s, e) == s.targets[s.events[e].ruleId]
  {
  }

  /** How a claimant ends: its task's id on the event, a failure before the task, or a failure that loses the task's id. */
  lemma {:induction false} EndOnTheRow(s: System, w: Worker, stale: int)
    requires !WorkOf(s, w).Idle? ==> WorkOf(s, w).event < |s.events|
    ensures var k := WorkOf(s, w);
            && (k.Creating? ==> Next(s, RecordTask(w), stale) == s.(
                  events := s.events[k.event := s.events[k.event].(status := TaskCreated, taskId := Some(k.task), error := None, updatedAt := Some(s.now))],
                  work := s.work[w := Idle]))
            && (k.Creating? ==> Next(s, LoseRecord(w), stale) == Failing(s, w, k.event) && Next(s, Fail(w), stale) == s)
            && (k.Claiming? || k.Cleared? ==> Next(s, Fail(w), stale) == Failing(s, w, k.event))
            && (!k.Creating? ==> Next(s, RecordTask(w), stale) == s == Next(s, LoseRecord(w), stale))
            && (k.Idle? ==> Next(s, Fail(w), stale) == s)
  {
  }

  /** The worker's event failed, without a task id, and the worker is done with it. */
  function Failing(s: System, w: Worker, e: nat): System
    requires e < |s.events|
  {
    s.(events := s.events[e := s.events[e].(status := Failed, taskId := None, error := Some("error"), updatedAt := Some(s.now))], work := s.work[w := Idle])
  }

  /** The steps of others: a status update overwrites the task id too, a payload update only the time. */
  lemma {:induction false} OthersOnTheRow(s: System, e: nat, status: Status, t: Option<string>, stale: int)
    ensures e < |s.events| ==>
              && Next(s, UpdateStatus(e, status, t), stale)
                 == s.(events := s.events[e := s.events[e].(status := status, taskId := t, error := None, updatedAt := Some(s.now))])
              && Next(s, UpdatePayload(e), stale) == s.(events := s.events[e := s.events[e].(updatedAt := Some(s.now))])
    ensures |s.events| <= e ==> Next(s, UpdateStatus(e, status, t), stale) == s == Next(s, UpdatePayload(e), stale)
  {
  }

  function Run(s: System, steps: seq<Step>, stale: int): System
    decreases |steps|
  {
    if steps == [] then s else Run(Next(s, steps[0], stale), steps[1..], stale)
  }

  lemma {:induction false} RunStep(s: System, step: Step, rest: seq<Step>, stale: int)
    ensures Run(s, [step] + rest, stale) == Run(Next(s, step, stale), rest, stale)
  {
    assert ([step] + rest)[1..] == rest;
  }

  lemma {:induction false} ConcludeTouchesOneRow(s: System, w: Worker, status: Status, taskId: Option<string>, error: Option<string>)
    requires UniqueKeys(s.events)
    ensures var t := Conclude(s, w, status, taskId, error);
            |t.events| == |s.events| && UniqueKeys(t.events)
  {
  }

  lemma {:induction false} DiscoveryKeepsKeysUnique(events: seq<Event>, r: string, k: string, now: Time)
    requires UniqueKeys(events)
    ensures Insert(events, r, k, now).Some? ==> UniqueKeys(Insert(events, r, k, now).value)
  {
  }

  lemma {:induction false} StepKeepsKeysUnique(s: System, step: Step, stale: int)
    requires UniqueKeys(s.events)
    ensures UniqueKeys(Next(s, step, stale).events)
  {
    match step
    case Discover(r, k) => DiscoveryKeepsKeysUnique(s.events, r, k, s.now);
    case LookUp(w) =>
      var k := WorkOf(s, w);
      if k.Claiming? && Newest(s, k.event, |s.tasks|).Some? {
        ConcludeTouchesOneRow(s, w, TaskCreated, Some(s.tasks[Newest(s, k.event, |s.tasks|).value].task), None);
      }
    case RecordTask(w) =>
      if WorkOf(s, w).Creating? {
        ConcludeTouchesOneRow(s, w, TaskCreated, Some(WorkOf(s, w).task), None);
      }
    case Fail(w) => ConcludeTouchesOneRow(s, w, Failed, None, Some("error"));
    case LoseRecord(w) => ConcludeTouchesOneRow(s, w, Failed, None, Some("error"));
    case _ =>
  }

  /** Whatever the workers do, there is one event row for each external item of a rule. */
  lemma {:induction false} OneEventPerItem(s: System, steps: seq<Step>, stale: int)
    requires UniqueKeys(s.events)
    ensures UniqueKeys(Run(s, steps, stale).events)
    decreases |steps|
  {
    if steps != [] {
      StepKeepsKeysUnique(s, steps[0], stale);
      OneEventPerItem(Next(s, steps[0], stale), steps[1..], stale);
    }
  }

  // ----- Two claims with no status update between them

  /** Whether the step writes a status onto this event, other than by claiming it. */
  predicate UpdatesStatus(s: System, step: Step, e: nat) {
    match step
    case LookUp(w) =>
      WorkOf(s, w).Claiming? && WorkOf(s, w).event == e && Newest(s, e, |s.tasks|).Some?
    case RecordTask(w) => WorkOf(s, w).Creating? && WorkOf(s, w).event == e
    case LoseRecord(w) => WorkOf(s, w).Creating? && WorkOf(s, w).event == e
    case Fail(w) => (WorkOf(s, w).Claiming? || WorkOf(s, w).Cleared?) && WorkOf(s, w).event == e
    case UpdateStatus(i, _, _) => i == e
    case _ => false
  }

  predicate NoStatusUpdate(s: System, steps: seq<Step>, e: nat, stale: int)
    decreases |steps|
  {
    steps == [] || (!UpdatesStatus(s, steps[0], e) && NoStatusUpdate(Next(s, steps[0], stale), steps[1..], e, stale))
  }

  /** Claimed no earlier than `since`. */
  predicate FreshClaim(s: System, e: nat, since: Time) {
    && since <= s.now && e < |s.events| && s.events[e].status == CreatingTask
    && s.events[e].updatedAt.Some? && since <= s.events[e].updatedAt.value
  }

  lemma {:induction false} ClaimStaysFresh(s: System, steps: seq<Step>, stale: int, e: nat, since: Time)
    requires NoStatusUpdate(s, steps, e, stale) && FreshClaim(s, e, since)
    ensures FreshClaim(Run(s, steps, stale), e, since)
    decreases |steps|
  {
    if steps != [] {
      StepKeepsClaimFresh(s, steps[0], stale, e, since);
      ClaimStaysFresh(Next(s, steps[0], stale), steps[1..], stale, e, since);
    }
  }

  lemma {:induction false} StepKeepsClaimFresh(s: System, step: Step, stale: int, e: nat, since: Time)
    requires !UpdatesStatus(s, step, e) && FreshClaim(s, e, since)
    ensures FreshClaim(Next(s, step, stale), e, since)
  {
  }

  /**
   Two successful claims of an event with no status update of it between them are more than
   max(1, stale_after_seconds) apart, whoever makes them and whatever else happens.
   */
  lemma {:induction false} ClaimsAreAWindowApart(s: System, w: Worker, e: nat, between: seq<Step>, stale: int)
    requires ClaimSucceeds(s, e, stale) && WorkOf(s, w).Idle?
    requires NoStatusUpdate(Next(s, Claim(w, e), stale), between, e, stale)
    ensures var t := Run(Next(s, Claim(w, e), stale), between, stale);
            ClaimSucceeds(t, e, stale) ==> s.now + Window(stale) < t.now
  {
    ClaimStaysFresh(Next(s, Claim(w, e), stale), between, stale, e, s.now);
  }

  // ----- At most one task per item

  ghost predicate Pending(s: System, row: TaskRow) {
    exists w :: w in s.work && s.work[w].Creating? && s.work[w].event == row.event && s.work[w].task == row.task
  }

  /** A further claim of the row's event is impossible, still held off by the row's creator, or would find the row. */
  ghost predicate Guarded(s: System, row: TaskRow) {
    row.event < |s.events| && (s.events[row.event].taskId.Some? || Pending(s, row) || Findable(s, row))
  }

  /**
   What a run must respect. Claimants finish within the stale window. An event is updated by others only while no
   worker is on it, and its task id is dropped, or lost while recording it, only when the lookup finds its tasks; and while
   an event has a task but no id and no creator at work, its rule keeps the agent and the task a status the lookup considers.
   */
  ghost predicate Timely(s: System, step: Step, stale: int) {
    match step
    case Tick(d) => forall w :: w in s.work && !s.work[w].Idle? ==> s.now + d <= s.work[w].since + Window(stale)
    case UpdateStatus(e, _, t) =>
      !Busy(s, e) && (t.Some? || forall i :: 0 <= i < |s.tasks| && s.tasks[i].event == e ==> Findable(s, s.tasks[i]))
    case LoseRecord(w) =>
      WorkOf(s, w).Creating? ==>
        forall i :: 0 <= i < |s.tasks| && s.tasks[i].event == WorkOf(s, w).event ==> Findable(s, s.tasks[i])
    case Retarget(r, a) =>
      forall i :: 0 <= i < |s.tasks| && s.tasks[i].event < |s.events| && s.events[s.tasks[i].event].ruleId == r ==>
        s.events[s.tasks[i].event].taskId.Some? || Pending(s, s.tasks[i]) || s.tasks[i].agent == a
    case SetTaskStatus(i, l) =>
      i < |s.tasks| && s.tasks[i].event < |s.events| ==>
        l || s.events[s.tasks[i].event].taskId.Some? || Pending(s, s.tasks[i])
    case _ => true
  }

  ghost predicate AllTimely(s: System, steps: seq<Step>, stale: int)
    decreases |steps|
  {
    steps == [] || (Timely(s, steps[0], stale) && AllTimely(Next(s, steps[0], stale), steps[1..], stale))
  }

  /** A working claimant owns its event: nobody else can claim it before the claimant's window ends. */
  predicate Owns(s: System, w: Worker, stale: int) {
    var k := WorkOf(s, w);
    k.Idle? || (
      && k.event < |s.events| && k.since <= s.now <= k.since + Window(stale)
      && s.events[k.event].status == CreatingTask && s.events[k.event].taskId.None?
      && s.events[k.event].updatedAt.Some? && k.since <= s.events[k.event].updatedAt.value)
  }

  /** No two workers are on one event, and each owns the event it is on. */
  ghost predicate WorkersApart(s: System, stale: int) {
    && (forall w :: w in s.work ==> Owns(s, w, stale))
    && (forall v, w :: v in s.work && w in s.work && v != w && !s.work[v].Idle? && !s.work[w].Idle?
          ==> s.work[v].event != s.work[w].event)
  }

  ghost predicate TasksGuarded(s: System) {
    && (forall i :: 0 <= i < |s.tasks| ==> Guarded(s, s.tasks[i]))
    && (forall i, j :: 0 <= i < j < |s.tasks| ==> s.tasks[i].event != s.tasks[j].event)
    && (forall w, i :: w in s.work && s.work[w].Cleared? && 0 <= i < |s.tasks| ==> s.tasks[i].event != s.work[w].event)
  }

  ghost predicate TaskInvariant(s: System, stale: int) {
    UniqueKeys(s.events) && WorkersApart(s, stale) && TasksGuarded(s)
  }

  lemma {:induction false} PendingStays(s: System, t: System, row: TaskRow)
    requires Pending(s, row)
    requires forall v :: v in s.work && s.work[v].Creating? ==> v in t.work && t.work[v] == s.work[v]
    ensures Pending(t, row)
  {
    var v :| v in s.work && s.work[v].Creating? && s.work[v].event == row.event && s.work[v].task == row.task;
    assert v in t.work && t.work[v] == s.work[v];
  }

  lemma {:induction false} TickKeepsInvariant(s: System, d: nat, stale: int)
    requires TaskInvariant(s, stale) && Timely(s, Tick(d), stale)
    ensures TaskInvariant(Next(s, Tick(d), stale), stale)
  {
    var t := Next(s, Tick(d), stale);
    forall w | w in s.work
      ensures Owns(t, w, stale)
    {
      assert Owns(s, w, stale);
    }
    GuardsAreKept(s, t);
  }

  /** With the same tasks, workers and targets, and events that keep rule and id, every guard stays. */
  lemma {:induction false} GuardsAreKept(s: System, t: System)
    requires TasksGuarded(s) && t.tasks == s.tasks && t.work == s.work && t.targets == s.targets && |s.events| <= |t.events|
    requires forall e :: 0 <= e < |s.events| ==> t.events[e].taskId == s.events[e].taskId && t.events[e].ruleId == s.events[e].ruleId
    ensures TasksGuarded(t)
  {
    forall i | 0 <= i < |s.tasks|
      ensures Guarded(t, s.tasks[i])
    {
      var row := s.tasks[i];
      assert Guarded(s, row);
      if Pending(s, row) {
        PendingStays(s, t, row);
      }
    }
  }

  /** Discovery and payload updates leave ids, rules, statuses, tasks and workers alone. */
  lemma {:induction false} QuietStepKeepsInvariant(s: System, step: Step, stale: int)
    requires TaskInvariant(s, stale) && (step.Discover? || step.UpdatePayload?)
    ensures TaskInvariant(Next(s, step, stale), stale)
  {
    var t := Next(s, step, stale);
    StepKeepsKeysUnique(s, step, stale);
    assert t.work == s.work && t.tasks == s.tasks && t.targets == s.targets && t.now == s.now;
    assert |s.events| <= |t.events| && forall e :: 0 <= e < |s.events| ==>
      t.events[e].taskId == s.events[e].taskId && t.events[e].ruleId == s.events[e].ruleId && t.events[e].status == s.events[e].status;
    forall w | w in s.work
      ensures Owns(t, w, stale)
    {
      assert Owns(s, w, stale);
    }
    GuardsAreKept(s, t);
  }

  lemma {:induction false} UpdateKeepsInvariant(s: System, e: nat, status: Status, id: Option<string>, stale: int)
    requires TaskInvariant(s, stale) && Timely(s, UpdateStatus(e, status, id), stale)
    ensures TaskInvariant(Next(s, UpdateStatus(e, status, id), stale), stale)
  {
    var t := Next(s, UpdateStatus(e, status, id), stale);
    StepKeepsKeysUnique(s, UpdateStatus(e, status, id), stale);
    forall w | w in s.work
      ensures Owns(t, w, stale)
    {
      assert Owns(s, w, stale);
      assert s.work[w].Idle? || s.work[w].event != e;
    }
    forall i | 0 <= i < |s.tasks|
      ensures Guarded(t, s.tasks[i])
    {
      var row := s.tasks[i];
      assert Guarded(s, row);
      if Pending(s, row) {
        PendingStays(s, t, row);
      }
    }
  }

  lemma {:induction false} RetargetKeepsInvariant(s: System, r: string, a: nat, stale: int)
    requires TaskInvariant(s, stale) && Timely(s, Retarget(r, a), stale)
    ensures TaskInvariant(Next(s, Retarget(r, a), stale), stale)
  {
    var t := Next(s, Retarget(r, a), stale);
    assert forall w :: w in s.work ==> (Owns(t, w, stale) <==> Owns(s, w, stale));
    forall i | 0 <= i < |s.tasks|
      ensures Guarded(t, s.tasks[i])
    {
      var row := s.tasks[i];
      assert Guarded(s, row);
      if Pending(s, row) {
        PendingStays(s, t, row);
      }
    }
  }

  lemma {:induction false} TaskStatusKeepsInvariant(s: System, k: nat, l: bool, stale: int)
    requires TaskInvariant(s, stale) && Timely(s, SetTaskStatus(k, l), stale)
    ensures TaskInvariant(Next(s, SetTaskStatus(k, l), stale), stale)
  {
    var t := Next(s, SetTaskStatus(k, l), stale);
    assert forall w :: w in s.work ==> (Owns(t, w, stale) <==> Owns(s, w, stale));
    assert |t.tasks| == |s.tasks| && forall i :: 0 <= i < |s.tasks| ==> t.tasks[i].event == s.tasks[i].event;
    forall i | 0 <= i < |t.tasks|
      ensures Guarded(t, t.tasks[i])
    {
      var row := s.tasks[i];
      assert Guarded(s, row);
      if Pending(s, row) {
        PendingStays(s, t, row);
        assert Pending(t, t.tasks[i]);
      }
    }
  }

  /** A worker that starts, goes on or stops without having created a task leaves every guard in place. */
  lemma {:induction false} GuardsWithoutCreator(s: System, t: System, w: Worker)
    requires TasksGuarded(s) && t.tasks == s.tasks && t.targets == s.targets && |t.events| == |s.events| && !WorkOf(s, w).Creating?
    requires forall v :: v in s.work && v != w ==> v in t.work && t.work[v] == s.work[v]
    requires forall v :: v in t.work && v != w ==> v in s.work
    requires forall e :: 0 <= e < |s.events| ==>
               t.events[e].ruleId == s.events[e].ruleId && (s.events[e].taskId.Some? ==> t.events[e].taskId.Some?)
    requires WorkOf(t, w).Cleared? ==> forall i :: 0 <= i < |s.tasks| ==> s.tasks[i].event != WorkOf(t, w).event
    ensures TasksGuarded(t)
  {
    forall i | 0 <= i < |s.tasks|
      ensures Guarded(t, s.tasks[i])
    {
      var row := s.tasks[i];
      assert Guarded(s, row);
      if Pending(s, row) {
        var v :| v in s.work && s.work[v].Creating? && s.work[v].event == row.event && s.work[v].task == row.task;
        assert v != w && t.work[v] == s.work[v];
      }
    }
  }

  lemma {:induction false} ClaimKeepsInvariant(s: System, w: Worker, e: nat, stale: int)
    requires TaskInvariant(s, stale)
    ensures TaskInvariant(Next(s, Claim(w, e), stale), stale)
  {
    var t := Next(s, Claim(w, e), stale);
    if ClaimSucceeds(s, e, stale) && WorkOf(s, w).Idle? {
      StepKeepsKeysUnique(s, Claim(w, e), stale);
      forall v | v in s.work && !s.work[v].Idle?
        ensures s.work[v].event != e
      {
        assert Owns(s, v, stale);
      }
      forall v | v in t.work
        ensures Owns(t, v, stale)
      {
        assert v != w ==> Owns(s, v, stale);
      }
      GuardsWithoutCreator(s, t, w);
    }
  }

  /** While a worker has only claimed an event, each task of the event can be found. */
  lemma {:induction false} ClaimedTasksAreFindable(s: System, w: Worker, stale: int, i: nat)
    requires TaskInvariant(s, stale) && w in s.work && (s.work[w].Claiming? || s.work[w].Cleared?)
    requires i < |s.tasks| && s.tasks[i].event == s.work[w].event
    ensures Findable(s, s.tasks[i])
  {
    assert Owns(s, w, stale) && Guarded(s, s.tasks[i]);
  }

  lemma {:induction false} LookUpKeepsInvariant(s: System, w: Worker, stale: int)
    requires TaskInvariant(s, stale)
    ensures TaskInvariant(Next(s, LookUp(w), stale), stale)
  {
    var k := WorkOf(s, w);
    if k.Claiming? {
      var found := Newest(s, k.event, |s.tasks|);
      if found.Some? {
        LinkingKeepsInvariant(s, w, s.tasks[found.value].task, stale);
      } else {
        ClearingKeepsInvariant(s, w, stale);
      }
    }
  }

  /** A claimant that found a task links its event to it and is done. */
  lemma {:induction false} LinkingKeepsInvariant(s: System, w: Worker, task: string, stale: int)
    requires TaskInvariant(s, stale) && WorkOf(s, w).Claiming?
    ensures TaskInvariant(Conclude(s, w, TaskCreated, Some(task), None), stale)
  {
    var t := Conclude(s, w, TaskCreated, Some(task), None);
    assert Owns(s, w, stale);
    ConcludeTouchesOneRow(s, w, TaskCreated, Some(task), None);
    OthersStillOwn(s, t, w, stale);
    GuardsWithoutCreator(s, t, w);
  }

  /** A claimant that found none knows that its event has no task. */
  lemma {:induction false} ClearingKeepsInvariant(s: System, w: Worker, stale: int)
    requires TaskInvariant(s, stale) && WorkOf(s, w).Claiming? && Newest(s, WorkOf(s, w).event, |s.tasks|).None?
    ensures TaskInvariant(s.(work := s.work[w := Cleared(WorkOf(s, w).event, WorkOf(s, w).since)]), stale)
  {
    var k := WorkOf(s, w);
    var t := s.(work := s.work[w := Cleared(k.event, k.since)]);
    assert Owns(s, w, stale);
    OthersStillOwn(s, t, w, stale);
    forall i | 0 <= i < |s.tasks|
      ensures s.tasks[i].event != k.event
    {
      if s.tasks[i].event == k.event {
        ClaimedTasksAreFindable(s, w, stale, i);
      }
    }
    GuardsWithoutCreator(s, t, w);
  }

  /** A worker's own step on its own event does not touch the others. */
  lemma {:induction false} OthersStillOwn(s: System, t: System, w: Worker, stale: int)
    requires WorkersApart(s, stale) && w in s.work && !s.work[w].Idle? && t.now == s.now && |t.events| == |s.events|
    requires t.work.Keys == s.work.Keys && forall v :: v in s.work && v != w ==> t.work[v] == s.work[v]
    requires forall e :: 0 <= e < |s.events| && e != s.work[w].event ==> t.events[e] == s.events[e]
    requires Owns(t, w, stale) && (t.work[w].Idle? || t.work[w].event == s.work[w].event)
    ensures WorkersApart(t, stale)
  {
    forall v | v in t.work
      ensures Owns(t, v, stale)
    {
      assert v != w ==> Owns(s, v, stale);
    }
  }

  lemma {:induction false} CreateKeepsInvariant(s: System, w: Worker, task: string, stale: int)
    requires TaskInvariant(s, stale)
    ensures TaskInvariant(Next(s, CreateTask(w, task), stale), stale)
  {
    var t := Next(s, CreateTask(w, task), stale);
    var k := WorkOf(s, w);
    if k.Cleared? {
      assert Owns(s, w, stale);
      OthersStillOwn(s, t, w, stale);
      assert t.work[w] == Creating(k.event, k.since, task);
      forall i | 0 <= i < |t.tasks|
        ensures Guarded(t, t.tasks[i])
      {
        if i < |s.tasks| {
          assert Guarded(s, s.tasks[i]);
          if Pending(s, s.tasks[i]) {
            PendingStays(s, t, s.tasks[i]);
          }
        } else {
          assert Pending(t, t.tasks[i]);
        }
      }
      forall v, i | v in t.work && t.work[v].Cleared? && 0 <= i < |t.tasks|
        ensures t.tasks[i].event != t.work[v].event
      {
        assert v != w && s.work[v] == t.work[v];
      }
    }
  }

  /** The creator of a task leaves: it recorded an id, or the lookup finds the tasks of its event. */
  lemma {:induction false} LeavingKeepsInvariant(s: System, w: Worker, status: Status, id: Option<string>, error: Option<string>, stale: int)
    requires TaskInvariant(s, stale) && WorkOf(s, w).Creating?
    requires id.Some? || forall i :: 0 <= i < |s.tasks| && s.tasks[i].event == WorkOf(s, w).event ==> Findable(s, s.tasks[i])
    ensures TaskInvariant(Conclude(s, w, status, id, error), stale)
  {
    var t := Conclude(s, w, status, id, error);
    var k := WorkOf(s, w);
    assert Owns(s, w, stale);
    ConcludeTouchesOneRow(s, w, status, id, error);
    OthersStillOwn(s, t, w, stale);
    forall i | 0 <= i < |s.tasks|
      ensures Guarded(t, s.tasks[i])
    {
      var row := s.tasks[i];
      assert Guarded(s, row);
      if row.event != k.event && Pending(s, row) {
        var v :| v in s.work && s.work[v].Creating? && s.work[v].event == row.event && s.work[v].task == row.task;
        assert v != w && t.work[v] == s.work[v];
      }
    }
  }

  lemma {:induction false} FailKeepsInvariant(s: System, w: Worker, stale: int)
    requires TaskInvariant(s, stale)
    ensures TaskInvariant(Next(s, Fail(w), stale), stale)
  {
    var t := Next(s, Fail(w), stale);
    if WorkOf(s, w).Claiming? || WorkOf(s, w).Cleared? {
      assert Owns(s, w, stale);
      StepKeepsKeysUnique(s, Fail(w), stale);
      OthersStillOwn(s, t, w, stale);
      GuardsWithoutCreator(s, t, w);
    }
  }

  lemma {:induction false} StepKeepsInvariant(s: System, step: Step, stale: int)
    requires TaskInvariant(s, stale) && Timely(s, step, stale)
    ensures TaskInvariant(Next(s, step, stale), stale)
  {
    match step
    case Tick(d) => TickKeepsInvariant(s, d, stale);
    case Claim(w, e) => ClaimKeepsInvariant(s, w, e, stale);
    case LookUp(w) => LookUpKeepsInvariant(s, w, stale);
    case CreateTask(w, t) => CreateKeepsInvariant(s, w, t, stale);
    case RecordTask(w) =>
      if WorkOf(s, w).Creating? {
        LeavingKeepsInvariant(s, w, TaskCreated, Some(WorkOf(s, w).task), None, stale);
      }
    case LoseRecord(w) =>
      if WorkOf(s, w).Creating? {
        LeavingKeepsInvariant(s, w, Failed, None, Some("error"), stale);
      }
    case Fail(w) => FailKeepsInvariant(s, w, stale);
    case UpdateStatus(e, status, id) => UpdateKeepsInvariant(s, e, status, id, stale);
    case Retarget(r, a) => RetargetKeepsInvariant(s, r, a, stale);
    case SetTaskStatus(i, l) => TaskStatusKeepsInvariant(s, i, l, stale);
    case _ => QuietStepKeepsInvariant(s, step, stale);
  }

  ghost predicate OneTaskPerItem(s: System) {
    && (forall i :: 0 <= i < |s.tasks| ==> s.tasks[i].event < |s.events|)
    && (forall i, j :: 0 <= i < j < |s.tasks| ==>
          var a, b := s.events[s.tasks[i].event], s.events[s.tasks[j].event];
          !SameKey(b, a.ruleId, a.dedupeKey))
  }

  lemma {:induction false} InvariantMeansOneTaskPerItem(s: System, stale: int)
    requires TaskInvariant(s, stale)
    ensures OneTaskPerItem(s)
  {
    assert forall i :: 0 <= i < |s.tasks| ==> Guarded(s, s.tasks[i]);
    forall i, j | 0 <= i < j < |s.tasks|
      ensures !SameKey(s.events[s.tasks[j].event], s.events[s.tasks[i].event].ruleId, s.events[s.tasks[i].event].dedupeKey)
    {
      var a, b := s.tasks[i].event, s.tasks[j].event;
      assert a != b;
      assert a < b ==> !SameKey(s.events[b], s.events[a].ruleId, s.events[a].dedupeKey);
      assert b < a ==> !SameKey(s.events[a], s.events[b].ruleId, s.events[b].dedupeKey);
    }
  }

  lemma {:induction false} TimelyRunKeepsInvariant(s: System, steps: seq<Step>, stale: int)
    requires TaskInvariant(s, stale) && AllTimely(s, steps, stale)
    ensures TaskInvariant(Run(s, steps, stale), stale)
    decreases |steps|
  {
    if steps != [] {
      StepKeepsInvariant(s, steps[0], stale);
      TimelyRunKeepsInvariant(Next(s, steps[0], stale), steps[1..], stale);
    }
  }

  const START := System(0, [], [], map[], map[])

  /**
   In every timely run, of any number of workers, no external item (rule and key) ever gets two
   tasks, and every task belongs to an existing event.
   */
  lemma {:induction false} AtMostOneTaskPerItem(steps: seq<Step>, stale: int)
    requires AllTimely(START, steps, stale)
    ensures OneTaskPerItem(Run(START, steps, stale))
  {
    TimelyRunKeepsInvariant(START, steps, stale);
    InvariantMeansOneTaskPerItem(Run(START, steps, stale), stale);
  }

  // ----- When an item gets a second task

  /**
   A worker that claimed an event goes on to create a task exactly when the lookup finds none of the event's
   tasks: every one of them went to another agent or has a status the lookup leaves out. Otherwise it creates
   nothing and links the event to the newest task found.
   */
  lemma {:induction false} ClaimantCreatesIff(s: System, w: Worker, task: string, stale: int)
    requires WorkOf(s, w).Claiming? && WorkOf(s, w).event < |s.events|
    ensures var e := WorkOf(s, w).event;
            var t := Run(s, [LookUp(w), CreateTask(w, task)], stale);
            var none := forall i :: 0 <= i < |s.tasks| && s.tasks[i].event == e ==> !Findable(s, s.tasks[i]);
            && (none ==> t.tasks == s.tasks + [TaskRow(e, task, TargetOf(s, e), true)])
            && (!none ==>
                  t.tasks == s.tasks && e < |t.events| && t.events[e].status == TaskCreated
                  && exists i :: 0 <= i < |s.tasks| && s.tasks[i].event == e && Findable(s, s.tasks[i]) && t.events[e].taskId == Some(s.tasks[i].task))
  {
    var s1 := Next(s, LookUp(w), stale);
    RunTwo(s, LookUp(w), CreateTask(w, task), stale);
    var found := Newest(s, WorkOf(s, w).event, |s.tasks|);
    if found.Some? {
      assert WorkOf(s1, w).Idle?;
    } else {
      assert WorkOf(s1, w).Cleared?;
    }
  }

  lemma {:induction false} RunTwo(s: System, a: Step, b: Step, stale: int)
    ensures Run(s, [a, b], stale) == Next(Next(s, a, stale), b, stale)
  {
    assert [a, b] == [a] + [b] && [b] == [b] + [];
    RunStep(s, a, [b], stale);
    RunStep(Next(s, a, stale), b, [], stale);
  }

  /** Two workers are past the lookup of one event: both create a task for it. */
  lemma {:induction false} BothCreate(s: System, v: Worker, w: Worker, a: string, b: string, stale: int)
    requires v != w && WorkOf(s, v).Cleared? && WorkOf(s, w).Cleared? && WorkOf(s, v).event == WorkOf(s, w).event
    ensures var e := WorkOf(s, v).event;
            Run(s, [CreateTask(v, a), CreateTask(w, b)], stale).tasks
            == s.tasks + [TaskRow(e, a, TargetOf(s, e), true), TaskRow(e, b, TargetOf(s, e), true)]
  {
    RunTwo(s, CreateTask(v, a), CreateTask(w, b), stale);
    var s1 := Next(s, CreateTask(v, a), stale);
    assert WorkOf(s1, w) == WorkOf(s, w);
  }

  /** An event that is reopened while its first claimant is past the lookup: the next claimant finds no task either. */
  lemma {:induction false} ReopenedEventIsCleared(s: System, v: Worker, w: Worker, e: nat, stale: int)
    requires v != w && WorkOf(s, v).Cleared? && WorkOf(s, v).event == e && WorkOf(s, w).Idle? && ClaimSucceeds(s, e, stale)
    requires forall i :: 0 <= i < |s.tasks| ==> s.tasks[i].event != e
    ensures var t := Run(s, [Claim(w, e), LookUp(w)], stale);
            t.tasks == s.tasks && WorkOf(t, v) == WorkOf(s, v) && WorkOf(t, w).Cleared? && WorkOf(t, w).event == e
  {
    RunTwo(s, Claim(w, e), LookUp(w), stale);
    var s1 := Next(s, Claim(w, e), stale);
    assert WorkOf(s1, w) == Claiming(e, s.now) && s1.tasks == s.tasks;
  }

  /**
   Timeliness is needed (1): whenever a claimant past its lookup outlives the window of its claim, the next claimant
   gets that far too, and both create a task.
   */
  lemma {:induction false} LateClaimantCreatesASecondTask(s: System, v: Worker, w: Worker, late: nat, a: string, b: string, stale: int)
    requires v != w && v in s.work && s.work[v].Cleared? && WorkOf(s, w).Idle? && Owns(s, v, stale)
    requires forall i :: 0 <= i < |s.tasks| ==> s.tasks[i].event != s.work[v].event
    requires Window(stale) < s.now + late - s.events[s.work[v].event].updatedAt.value
    ensures var t := Next(s, Tick(late), stale);
            var u := Run(t, [Claim(w, s.work[v].event), LookUp(w)], stale);
            |Run(u, [CreateTask(v, a), CreateTask(w, b)], stale).tasks| == |s.tasks| + 2
  {
    var t := Next(s, Tick(late), stale);
    ReopenedEventIsCleared(t, v, w, s.work[v].event, stale);
    BothCreate(Run(t, [Claim(w, s.work[v].event), LookUp(w)], stale), v, w, a, b, stale);
  }

  /** Timeliness is needed (2): so does marking the event failed while its claimant is past the lookup. */
  lemma {:induction false} ForeignFailureCreatesASecondTask(s: System, v: Worker, w: Worker, a: string, b: string, stale: int)
    requires v != w && v in s.work && s.work[v].Cleared? && WorkOf(s, w).Idle? && Owns(s, v, stale)
    requires forall i :: 0 <= i < |s.tasks| ==> s.tasks[i].event != s.work[v].event
    ensures var t := Next(s, UpdateStatus(s.work[v].event, Failed, None), stale);
            var u := Run(t, [Claim(w, s.work[v].event), LookUp(w)], stale);
            |Run(u, [CreateTask(v, a), CreateTask(w, b)], stale).tasks| == |s.tasks| + 2
  {
    var t := Next(s, UpdateStatus(s.work[v].event, Failed, None), stale);
    ReopenedEventIsCleared(t, v, w, s.work[v].event, stale);
    BothCreate(Run(t, [Claim(w, s.work[v].event), LookUp(w)], stale), v, w, a, b, stale);
  }

  /** The states these two speak of are reached: one event found, claimed and looked up. */
  lemma {:induction false} ClearedIsReached(stale: int)
    ensures var s := Run(Next(START, Discover("r", "k"), stale), [Claim(1, 0), LookUp(1)], stale);
            1 in s.work && s.work[1].Cleared? && Owns(s, 1, stale) && s.tasks == []
  {
    var found := Next(START, Discover("r", "k"), stale);
    assert |found.events| == 1 && found.events[0].status == Discovered && found.events[0].taskId.None?;
    RunTwo(found, Claim(1, 0), LookUp(1), stale);
    var s1 := Next(found, Claim(1, 0), stale);
    assert WorkOf(s1, 1) == Claiming(0, 0) && s1.tasks == [];
  }

  /**
   Timeliness is needed (3): a created task whose id was not recorded is found again by the next claimant, unless
   meanwhile its rule got another agent or its status left those the lookup considers. Exactly then a second
   task is created.
   */
  lemma {:induction false} LostRecordCreatesASecondTaskIff(
      s: System, v: Worker, w: Worker, k: nat, agent: nat, listed: bool, task: string, stale: int)
    requires v != w && WorkOf(s, v).Creating? && WorkOf(s, w).Idle? && WorkOf(s, v).event < |s.events|
    requires k < |s.tasks| && forall i :: 0 <= i < |s.tasks| ==> (s.tasks[i].event == WorkOf(s, v).event <==> i == k)
    ensures var e := WorkOf(s, v).event;
            var lost := Next(Next(Next(s, LoseRecord(v), stale), Retarget(s.events[e].ruleId, agent), stale), SetTaskStatus(k, listed), stale);
            var claimed := Next(lost, Claim(w, e), stale);
            |Run(claimed, [LookUp(w), CreateTask(w, task)], stale).tasks| == |s.tasks| + 1 <==> agent != s.tasks[k].agent || !listed
  {
    var e := WorkOf(s, v).event;
    var lost := Next(Next(Next(s, LoseRecord(v), stale), Retarget(s.events[e].ruleId, agent), stale), SetTaskStatus(k, listed), stale);
    assert lost.events[e].status == Failed && lost.events[e].taskId.None? && lost.events[e].ruleId == s.events[e].ruleId;
    assert lost.tasks == s.tasks[k := s.tasks[k].(listed := listed)] && WorkOf(lost, w).Idle?;
    var claimed := Next(lost, Claim(w, e), stale);
    assert claimed.tasks == lost.tasks && WorkOf(claimed, w).Claiming? && WorkOf(claimed, w).event == e && TargetOf(claimed, e) == agent;
    ClaimantCreatesIff(claimed, w, task, stale);
    assert Findable(claimed, claimed.tasks[k]) <==> listed && agent == s.tasks[k].agent;
  }
}
