/**
 Background agent tasks: the table (app/repositories/agent_task_repo.py) and the handlers that create,
 continue, rerun and cancel a task in place (app/api/agent_tasks.py).
 */
module AgentTasks {
  import opened Options
  import opened PyText

  // ----- Rows

  /** `input_payload_json` as the handlers write and read it; a missing key, or unreadable JSON, is `None`. */
  datatype Payload = Payload(
    skillName: Option<string>,
    sessionId: Option<string>,
    rootTaskId: Option<string>,
    parentTaskId: Option<string>,
    followupTask: Option<string>,
    previousTaskId: Option<string>,
    originalTask: Option<string>,
    userTask: Option<string>,
    inference: Option<string>
  )

  /** The status names the code knows; `Other` is any other text. */
  datatype StatusName =
    | Queued | Running
    | Done | Failed | Blocked | Stale | Cancelled | PendingRestart | CancelFailed
    | Other

  /**
   A stored status: the name it has once stripped and lower-cased, as the handlers read it, and whether
   the stored text is exactly that name, as the compare-and-set needs it.
   */
  datatype Status = Status(name: StatusName, exact: bool)

  datatype TaskType = AgentAsync | OtherType

  datatype Visibility = Private | Public

  datatype Summary = CancelledBeforeStarting | Text(text: string)

  datatype Task = Task(
    id: string,
    owner: int,
    visibility: Visibility,
    taskType: TaskType,
    status: Status,
    root: Option<string>,
    parent: Option<string>,
    session: Option<string>,
    skill: Option<string>,
    input: Payload,
    summary: Option<Summary>,
    error: Option<string>,
    runtimeRequest: Option<string>,
    result: Option<string>,
    startedAt: Option<int>,
    finishedAt: Option<int>
  )

  datatype User = User(id: int, admin: bool)

  datatype Reply = Ok(task: Task) | Refused(httpStatus: int)
    /** The task is running: the dispatcher decides what the cancellation does. */
    | AskDispatcher

  /** What a follow-up asks of the model settings, after the inference service looked at it. */
  datatype Inference = Rejected | Unchanged | Use(settings: string)

  const QUEUED := Status(Queued, true)
  const RUNNING := Status(Running, true)
  const CANCELLED := Status(Cancelled, true)

  predicate IsActive(s: Status) {
    s.name.Queued? || s.name.Running?
  }

  predicate IsTerminal(s: Status) {
    s.name.Done? || s.name.Failed? || s.name.Blocked? || s.name.Stale? || s.name.Cancelled?
    || s.name.PendingRestart? || s.name.CancelFailed?
  }

  /** `a or b` for optional text: an empty string counts as missing. */
  function Or(a: Option<string>, b: string): string {
    if a.Some? && a.value != "" then a.value else b
  }

  function RootIdFor(t: Task): string {
    Strip(Or(t.root, t.id))
  }

  predicate Active(t: Task) {
    IsActive(t.status)
  }

  function DropSlashes(s: string): string {
    if s != [] && s[0] == '/' then DropSlashes(s[1..]) else s
  }

  function NormalizeSkillName(s: Option<string>): string {
    Strip(DropSlashes(Strip(Or(s, ""))))
  }

  function SkillNameFor(t: Task): string {
    if NormalizeSkillName(t.skill) != "" then NormalizeSkillName(t.skill) else NormalizeSkillName(t.input.skillName)
  }

  function AsyncPayload(content: string, skill: string, session: string, root: string, parent: Option<string>,
                        previous: Option<string>, original: string, isFollowup: bool, inference: Option<string>): Payload
  {
    var continued := isFollowup || Or(previous, "") != "";
    Payload(
      Some(skill), Some(session), Some(root), parent,
      if continued then Some(content) else None,
      if continued && Or(previous, "") != "" then previous else None,
      if continued && Strip(original) != "" then Some(Strip(original)) else None,
      if continued then None else Some(content),
      inference)
  }

  function ResetForDispatch(t: Task, input: Payload, session: string): Task {
    t.(input := input, session := if session != "" then Some(session) else t.session, status := QUEUED,
       runtimeRequest := None, summary := None, error := None, startedAt := None, finishedAt := None, result := None)
  }

  /** The task the member first asked for: "original_task, else user_task". */
  function OriginalOf(p: Payload): string {
    Strip(Or(p.originalTask, Or(p.userTask, "")))
  }

  /** What a rerun repeats: the last follow-up, else the task itself. */
  function ContentToRerun(p: Payload): string {
    var followup := Strip(Or(p.followupTask, ""));
    if followup != "" then followup else Strip(Or(p.userTask, Or(p.originalTask, "")))
  }

  // ----- The rows the handlers write

  function SessionFor(rootId: string): string {
    "agent-task:" + rootId
  }

  function NewTask(id: string, owner: int, visibility: Visibility, content: string, skill: string, inference: Option<string>): Task {
    var session := SessionFor(id);
    Task(id, owner, visibility, AgentAsync, QUEUED, Some(id), None, Some(session), Some(skill),
         AsyncPayload(content, skill, session, id, None, None, "", false, inference),
         None, None, None, None, None, None)
  }

  function SettingsOf(requested: Inference): Option<string> {
    if requested.Use? then Some(requested.settings) else None
  }

  /** Why an async task is not created: the first of the handler's checks that fails. */
  function CreationRefusal(user: User, agents: map<string, int>, assignee: string, taskContent: string, skillName: string,
                           requested: Inference, visibility: Option<Visibility>): (r: Option<int>)
    ensures r.None? <==>
            Strip(taskContent) != "" && NormalizeSkillName(Some(skillName)) != "" && Strip(assignee) != "" && Strip(assignee) in agents
            && (user.admin || agents[Strip(assignee)] == user.id) && !requested.Rejected? && visibility.Some?
  {
    if NormalizeSkillName(Some(skillName)) == "" || Strip(taskContent) == "" || Strip(assignee) == "" then Some(400)
    else if Strip(assignee) !in agents then Some(404)
    else if !user.admin && agents[Strip(assignee)] != user.id then Some(403)
    else if requested.Rejected? || visibility.None? then Some(400)
    else None
  }

  function Continued(t: Task, content: string, inference: Option<string>): Task {
    var root := RootIdFor(t);
    var session := Strip(Or(t.session, SessionFor(root)));
    var input := AsyncPayload(content, SkillNameFor(t), session, root, t.parent, None, OriginalOf(t.input), true, inference);
    ResetForDispatch(t, input, session).(skill := Some(SkillNameFor(t)), root := Some(root))
  }

  function Rerun(t: Task, newSession: string): Task {
    var root := RootIdFor(t);
    var input := AsyncPayload(ContentToRerun(t.input), SkillNameFor(t), newSession, root, t.parent, None,
                              OriginalOf(t.input), Strip(Or(t.input.followupTask, "")) != "", t.input.inference);
    ResetForDispatch(t, input, newSession).(skill := Some(SkillNameFor(t)), root := Some(root))
  }

  function CancelledBeforeStart(t: Task): Task {
    t.(status := CANCELLED, summary := Some(CancelledBeforeStarting))
  }

  function ClaimedTask(t: Task, now: int): Task {
    t.(status := RUNNING, startedAt := Some(now))
  }

  // ----- The table

  function IndexOf(tasks: seq<Task>, id: string): (i: nat)
    ensures i <= |tasks|
    ensures i < |tasks| ==> tasks[i].id == id
    ensures forall k :: 0 <= k < i ==> tasks[k].id != id
  {
    if tasks == [] || tasks[0].id == id then 0 else 1 + IndexOf(tasks[1..], id)
  }

  /** The rows `list_by_root_task_id` returns. */
  predicate InChain(t: Task, root: string) {
    t.root == Some(root) || t.id == root
  }

  ghost predicate ChainIsActive(tasks: seq<Task>, root: string) {
    root != "" && exists i :: 0 <= i < |tasks| && InChain(tasks[i], root) && Active(tasks[i])
  }

  predicate CanSee(t: Task, user: User) {
    user.admin || t.owner == user.id || t.visibility.Public?
  }

  /** The checks that follow-up and rerun make, in their order: `None` lets the handler go on. */
  ghost function Objection(tasks: seq<Task>, id: string, user: User): Option<int> {
    var i := IndexOf(tasks, id);
    if i == |tasks| || !CanSee(tasks[i], user) then Some(404)
    else if !tasks[i].taskType.AgentAsync? then Some(400)
    else if tasks[i].owner != user.id then Some(403)
    else if Active(tasks[i]) || ChainIsActive(tasks, RootIdFor(tasks[i])) || SkillNameFor(tasks[i]) == "" then Some(409)
    else None
  }

  class AgentTaskTable {
    var tasks: seq<Task>

    constructor (rows: seq<Task>)
      ensures tasks == rows
    {
      tasks := rows;
    }

    /** Compare-and-set on the exact status. */
    method ClaimQueuedForDispatch(id: string, now: int) returns (claimed: Option<Task>)
      modifies this
      ensures var i := IndexOf(old(tasks), id);
              if i < |old(tasks)| && old(tasks)[i].status == Status(Queued, true) then
                tasks == old(tasks)[i := old(tasks)[i].(status := Status(Running, true), startedAt := Some(now))] && claimed == Some(tasks[i])
              else tasks == old(tasks) && claimed == None
    {
      var i := IndexOf(tasks, id);
      if |tasks| <= i || tasks[i].status != QUEUED {
        return None;
      }
      tasks := tasks[i := ClaimedTask(tasks[i], now)];
      claimed := Some(tasks[i]);
    }

    method ChainHasActiveTask(root: string) returns (active: bool)
      ensures active <==> ChainIsActive(tasks, root)
    {
      if root == "" {
        return false;
      }
      for i := 0 to |tasks|
        invariant forall k :: 0 <= k < i ==> !(InChain(tasks[k], root) && Active(tasks[k]))
      {
        if InChain(tasks[i], root) && Active(tasks[i]) {
          return true;
        }
      }
      active := false;
    }

    /**
     The refusals come in the handler's order. `agents` has the owner of each assistant; `requested` and `visibility`
     are what the settings service and the visibility check make of the request. A taken id is an IntegrityError (500).
     */
    method CreateAsync(id: string, user: User, agents: map<string, int>, assignee: string, taskContent: string, skillName: string,
                       requested: Inference, visibility: Option<Visibility>) returns (reply: Reply)
      modifies this
      ensures var refusal := CreationRefusal(user, agents, assignee, taskContent, skillName, requested, visibility);
              if refusal.Some? then reply == Refused(refusal.value)
              else if IndexOf(old(tasks), id) < |old(tasks)| then reply == Refused(500)
              else reply == Ok(NewTask(id, agents[Strip(assignee)], visibility.value, Strip(taskContent), NormalizeSkillName(Some(skillName)),
                                       if requested.Use? then Some(requested.settings) else None))
      ensures tasks == if reply.Ok? then old(tasks) + [reply.task] else old(tasks)
    {
      var content, skill := Strip(taskContent), NormalizeSkillName(Some(skillName));
      if skill == "" || content == "" {
        return Refused(400);
      }
      var agent := Strip(assignee);
      if agent == "" {
        return Refused(400);
      }
      if agent !in agents {
        return Refused(404);
      }
      if !user.admin && agents[agent] != user.id {
        return Refused(403);
      }
      if requested.Rejected? || visibility.None? {
        return Refused(400);
      }
      if IndexOf(tasks, id) < |tasks| {
        return Refused(500);
      }
      var task := NewTask(id, agents[agent], visibility.value, content, skill, SettingsOf(requested));
      tasks := tasks + [task];
      reply := Ok(task);
    }

    method Check(id: string, user: User) returns (objection: Option<int>, i: nat)
      ensures objection == Objection(tasks, id, user)
      ensures objection.None? ==> i == IndexOf(tasks, id) < |tasks|
    {
      i := IndexOf(tasks, id);
      if i == |tasks| || !CanSee(tasks[i], user) {
        return Some(404), i;
      }
      if !tasks[i].taskType.AgentAsync? {
        return Some(400), i;
      }
      if tasks[i].owner != user.id {
        return Some(403), i;
      }
      var busy := ChainHasActiveTask(RootIdFor(tasks[i]));
      objection := if Active(tasks[i]) || busy || SkillNameFor(tasks[i]) == "" then Some(409) else None;
    }

    /** A follow-up resets the same row: there is never a second row for it. */
    method FollowUp(id: string, taskContent: string, user: User, requested: Inference) returns (reply: Reply)
      modifies this
      ensures reply == FollowUpReply(old(tasks), id, taskContent, user, requested)
      ensures tasks == if reply.Ok? then old(tasks)[IndexOf(old(tasks), id) := reply.task] else old(tasks)
    {
      var content := Strip(taskContent);
      if content == "" {
        return Refused(400);
      }
      var objection, i := Check(id, user);
      if objection.Some? {
        return Refused(objection.value);
      }
      if requested.Rejected? {
        return Refused(400);
      }
      var task := Continued(tasks[i], content, if requested.Use? then Some(requested.settings) else tasks[i].input.inference);
      tasks := tasks[i := task];
      reply := Ok(task);
    }

    method RerunTask(id: string, user: User, newSession: string) returns (reply: Reply)
      modifies this
      ensures reply == RerunReply(old(tasks), id, user, newSession)
      ensures tasks == if reply.Ok? then old(tasks)[IndexOf(old(tasks), id) := reply.task] else old(tasks)
    {
      var objection, i := Check(id, user);
      if objection.Some? {
        return Refused(objection.value);
      }
      if ContentToRerun(tasks[i].input) == "" {
        return Refused(409);
      }
      var task := Rerun(tasks[i], newSession);
      tasks := tasks[i := task];
      reply := Ok(task);
    }

    method Cancel(id: string, user: User) returns (reply: Reply)
      modifies this
      ensures reply == CancelReply(old(tasks), id, user)
      ensures tasks == if reply.Ok? then old(tasks)[IndexOf(old(tasks), id) := reply.task] else old(tasks)
    {
      var i := IndexOf(tasks, id);
      if i == |tasks| || !CanSee(tasks[i], user) {
        return Refused(404);
      }
      if tasks[i].owner != user.id {
        return Refused(403);
      }
      if IsTerminal(tasks[i].status) {
        return Ok(tasks[i]);
      }
      if tasks[i].status.name.Queued? {
        tasks := tasks[i := CancelledBeforeStart(tasks[i])];
        return Ok(tasks[i]);
      }
      reply := if tasks[i].status.name.Running? then AskDispatcher else Refused(409);
    }
  }

  // ----- The handlers as functions of the table

  ghost function FollowUpReply(tasks: seq<Task>, id: string, taskContent: string, user: User, requested: Inference): Reply {
    if Strip(taskContent) == "" then Refused(400)
    else if Objection(tasks, id, user).Some? then Refused(Objection(tasks, id, user).value)
    else if requested.Rejected? then Refused(400)
    else
      var t := tasks[IndexOf(tasks, id)];
      Ok(Continued(t, Strip(taskContent), if requested.Use? then Some(requested.settings) else t.input.inference))
  }

  ghost function RerunReply(tasks: seq<Task>, id: string, user: User, newSession: string): Reply {
    if Objection(tasks, id, user).Some? then Refused(Objection(tasks, id, user).value)
    else if ContentToRerun(tasks[IndexOf(tasks, id)].input) == "" then Refused(409)
    else Ok(Rerun(tasks[IndexOf(tasks, id)], newSession))
  }

  function CancelReply(tasks: seq<Task>, id: string, user: User): Reply {
    var i := IndexOf(tasks, id);
    if i == |tasks| || !CanSee(tasks[i], user) then Refused(404)
    else if tasks[i].owner != user.id then Refused(403)
    else if IsTerminal(tasks[i].status) then Ok(tasks[i])
    else if tasks[i].status.name.Queued? then Ok(CancelledBeforeStart(tasks[i]))
    else if tasks[i].status.name.Running? then AskDispatcher
    else Refused(409)
  }

  // ----- When the handlers accept, on the columns of the row

  /** The row with this id that the user may act on: it exists, it is an async task, and it is the user's own. */
  predicate OwnAsyncTask(tasks: seq<Task>, id: string, user: User) {
    var i := IndexOf(tasks, id);
    i < |tasks| && tasks[i].taskType == AgentAsync && tasks[i].owner == user.id
  }

  /** Neither the row nor any row listed under its root is queued or running; a blank root lists nothing. */
  ghost predicate NothingRuns(tasks: seq<Task>, t: Task) {
    var root := Strip(if t.root.Some? && t.root.value != "" then t.root.value else t.id);
    && t.status.name != Queued && t.status.name != Running
    && (root != "" ==> forall k :: 0 <= k < |tasks| && (tasks[k].root == Some(root) || tasks[k].id == root) ==>
          tasks[k].status.name != Queued && tasks[k].status.name != Running)
  }

  lemma {:induction false} NoObjectionIff(tasks: seq<Task>, id: string, user: User)
    ensures Objection(tasks, id, user).None? <==>
            OwnAsyncTask(tasks, id, user) && var t := tasks[IndexOf(tasks, id)]; NothingRuns(tasks, t) && SkillNameFor(t) != ""
  {
    var i := IndexOf(tasks, id);
    if OwnAsyncTask(tasks, id, user) {
      NothingRunsIff(tasks, tasks[i]);
    }
  }

  lemma {:induction false} NothingRunsIff(tasks: seq<Task>, t: Task)
    ensures NothingRuns(tasks, t) <==> !Active(t) && !ChainIsActive(tasks, RootIdFor(t))
  {
    var root := RootIdFor(t);
    if k :| 0 <= k < |tasks| && InChain(tasks[k], root) && Active(tasks[k]) {
      assert tasks[k].root == Some(root) || tasks[k].id == root;
    }
  }

  /**
   A follow-up is accepted exactly when it says something, the task is the user's own async task with a skill,
   nothing in its chain is queued or running, and the settings asked for are not rejected.
   */
  lemma {:induction false} FollowUpIsAcceptedIff(tasks: seq<Task>, id: string, taskContent: string, user: User, requested: Inference)
    ensures FollowUpReply(tasks, id, taskContent, user, requested).Ok? <==>
            && Strip(taskContent) != "" && requested != Rejected && OwnAsyncTask(tasks, id, user)
            && var t := tasks[IndexOf(tasks, id)]; NothingRuns(tasks, t) && SkillNameFor(t) != ""
    ensures FollowUpReply(tasks, id, taskContent, user, requested).Ok? ==>
              var t := tasks[IndexOf(tasks, id)];
              FollowUpReply(tasks, id, taskContent, user, requested).task
              == Continued(t, Strip(taskContent), if requested.Use? then Some(requested.settings) else t.input.inference)
  {
    NoObjectionIff(tasks, id, user);
  }

  /** A rerun is accepted exactly when the task is the user's own, idle, and has a skill and a content to repeat. */
  lemma {:induction false} RerunIsAcceptedIff(tasks: seq<Task>, id: string, user: User, newSession: string)
    ensures RerunReply(tasks, id, user, newSession).Ok? <==>
            && OwnAsyncTask(tasks, id, user)
            && var t := tasks[IndexOf(tasks, id)]; NothingRuns(tasks, t) && SkillNameFor(t) != "" && ContentToRerun(t.input) != ""
    ensures RerunReply(tasks, id, user, newSession).Ok? ==>
              RerunReply(tasks, id, user, newSession).task == Rerun(tasks[IndexOf(tasks, id)], newSession)
  {
    NoObjectionIff(tasks, id, user);
  }

  /**
   What a user who may not act on a task is told: 404 when there is none or it is somebody else's private one, 400
   when it is no async task, 403 when it is visible but not the user's own. An administrator sees every task.
   */
  lemma {:induction false} RefusalsTellWhoMayAct(tasks: seq<Task>, id: string, user: User)
    ensures var i := IndexOf(tasks, id);
            var hidden := i == |tasks| || (tasks[i].owner != user.id && tasks[i].visibility == Private && !user.admin);
            && (Objection(tasks, id, user) == Some(404) <==> hidden)
            && (Objection(tasks, id, user) == Some(400) <==> !hidden && tasks[i].taskType != AgentAsync)
            && (Objection(tasks, id, user) == Some(403) <==> !hidden && tasks[i].taskType == AgentAsync && tasks[i].owner != user.id)
            && (Objection(tasks, id, user) == Some(409) <==>
                  OwnAsyncTask(tasks, id, user) && !(NothingRuns(tasks, tasks[i]) && SkillNameFor(tasks[i]) != ""))
  {
    var i := IndexOf(tasks, id);
    if OwnAsyncTask(tasks, id, user) {
      NothingRunsIff(tasks, tasks[i]);
    }
  }

  /** A blank follow-up is refused before anything else, rejected settings and missing content after everything else. */
  lemma {:induction false} RefusalsComeInOrder(tasks: seq<Task>, id: string, taskContent: string, user: User, requested: Inference, newSession: string)
    ensures var objection := Objection(tasks, id, user);
            && (Strip(taskContent) == "" ==> FollowUpReply(tasks, id, taskContent, user, requested) == Refused(400))
            && (Strip(taskContent) != "" && objection.Some? ==> FollowUpReply(tasks, id, taskContent, user, requested) == Refused(objection.value))
            && (objection.None? && requested == Rejected ==> FollowUpReply(tasks, id, taskContent, user, requested) == Refused(400))
            && (objection.Some? ==> RerunReply(tasks, id, user, newSession) == Refused(objection.value))
            && (objection.None? && ContentToRerun(tasks[IndexOf(tasks, id)].input) == "" ==> RerunReply(tasks, id, user, newSession) == Refused(409))
  {
    NoObjectionIff(tasks, id, user);
  }

  /** A cancellation is for the owner too: a queued task ends, a running one is the dispatcher's, a finished one stays. */
  lemma {:induction false} CancellationByTheOwner(tasks: seq<Task>, id: string, user: User)
    ensures var i, reply := IndexOf(tasks, id), CancelReply(tasks, id, user);
            var hidden := i == |tasks| || (tasks[i].owner != user.id && tasks[i].visibility == Private && !user.admin);
            && (reply == Refused(404) <==> hidden)
            && (reply == Refused(403) <==> !hidden && tasks[i].owner != user.id)
            && (reply == AskDispatcher <==> !hidden && tasks[i].owner == user.id && tasks[i].status.name == Running)
            && (reply == Refused(409) <==> !hidden && tasks[i].owner == user.id && tasks[i].status.name == Other)
            && (reply.Ok? ==> reply.task == if tasks[i].status.name == Queued
                  then tasks[i].(status := Status(Cancelled, true), summary := Some(CancelledBeforeStarting)) else tasks[i])
  {
  }

  // ----- What the handlers write, on the columns

  /** A column that says nothing: NULL or an empty text. */
  predicate NoText(column: Option<string>) {
    column.Some? ==> column.value == ""
  }

  /** The payload of a task: a first task carries its content as the user's task, a continued one as a follow-up with the original. */
  lemma {:induction false} PayloadByKey(content: string, skill: string, session: string, root: string, parent: Option<string>,
                                        previous: Option<string>, original: string, isFollowup: bool, inference: Option<string>)
    ensures var p := AsyncPayload(content, skill, session, root, parent, previous, original, isFollowup, inference);
            && p.skillName == Some(skill) && p.sessionId == Some(session) && p.rootTaskId == Some(root) && p.parentTaskId == parent
            && p.inference == inference
            && (!isFollowup && NoText(previous) ==>
                  p.userTask == Some(content) && p.followupTask == None && p.previousTaskId == None && p.originalTask == None)
            && (isFollowup || !NoText(previous) ==>
                  && p.userTask == None && p.followupTask == Some(content)
                  && p.previousTaskId == (if previous == Some("") then None else previous)
                  && p.originalTask == if Strip(original) == "" then None else Some(Strip(original)))
  {
  }

  /** A created task is its own root, with a session named after it, queued and never run. */
  lemma {:induction false} NewTaskByColumn(id: string, owner: int, visibility: Visibility, content: string, skill: string, inference: Option<string>)
    ensures var session := "agent-task:" + id;
            NewTask(id, owner, visibility, content, skill, inference) == Task(
              id, owner, visibility, AgentAsync, Status(Queued, true), Some(id), None, Some(session), Some(skill),
              Payload(Some(skill), Some(session), Some(id), None, None, None, None, Some(content), inference),
              None, None, None, None, None, None)
  {
  }

  /** The skill of a task: of its column or, when that names none, of its payload, between spaces and behind slashes. */
  lemma {:induction false} SkillOfATask(t: Task)
    ensures var column := NormalizeSkillName(t.skill);
            SkillNameFor(t) == if column != "" then column else NormalizeSkillName(t.input.skillName)
    ensures NormalizeSkillName(None) == ""
  {
    StripTrimmed("");
  }

  lemma {:induction false} SkillNamesDropLeadingSlashes(raw: string) returns (slashes: nat)
    ensures slashes <= |Strip(raw)| && (forall i :: 0 <= i < slashes ==> Strip(raw)[i] == '/')
    ensures slashes < |Strip(raw)| ==> Strip(raw)[slashes] != '/'
    ensures NormalizeSkillName(Some(raw)) == Strip(Strip(raw)[slashes..])
  {
    slashes := SlashesDropped(Strip(raw));
    if raw == "" {
      StripTrimmed("");
    }
  }

  lemma {:induction false} SlashesDropped(s: string) returns (n: nat)
    ensures n <= |s| && DropSlashes(s) == s[n..] && (forall i :: 0 <= i < n ==> s[i] == '/') && (n < |s| ==> s[n] != '/')
  {
    n := 0;
    if s != [] && s[0] == '/' {
      var m := SlashesDropped(s[1..]);
      n := m + 1;
      assert s[1..][m..] == s[n..];
      assert forall i :: 0 < i < n ==> s[i] == s[1..][i - 1];
    }
  }

  /** The root, the original task and the content to repeat: the first of the texts that is not empty, trimmed. */
  lemma {:induction false} FirstOfTheTexts(t: Task)
    ensures RootIdFor(t) == Strip(if NoText(t.root) then t.id else t.root.value)
    ensures OriginalOf(t.input) == Strip(if !NoText(t.input.originalTask) then t.input.originalTask.value
                                         else if !NoText(t.input.userTask) then t.input.userTask.value else "")
    ensures t.input.followupTask.Some? && Strip(t.input.followupTask.value) != "" ==> ContentToRerun(t.input) == Strip(t.input.followupTask.value)
    ensures t.input.followupTask.None? || Strip(t.input.followupTask.value) == "" ==>
              ContentToRerun(t.input) == Strip(if !NoText(t.input.userTask) then t.input.userTask.value
                                               else if !NoText(t.input.originalTask) then t.input.originalTask.value else "")
  {
    StripTrimmed("");
  }

  /** Queued again, with nothing left of the last dispatch; everything not named here is as it was. */
  ghost predicate QueuedAgain(t: Task, u: Task) {
    && u.status == Status(Queued, true) && u.root == Some(RootIdFor(t)) && u.skill == Some(SkillNameFor(t))
    && u.runtimeRequest == None && u.summary == None && u.error == None && u.startedAt == None && u.finishedAt == None && u.result == None
    && u.id == t.id && u.owner == t.owner && u.visibility == t.visibility && u.taskType == t.taskType && u.parent == t.parent
    && u.input.skillName == u.skill && u.input.rootTaskId == u.root && u.input.parentTaskId == t.parent && u.input.previousTaskId == None
  }

  /** A follow-up stays in the task's session, or in the one named after its root, and asks for the new content under the original task. */
  lemma {:induction false} ContinuedByColumn(t: Task, content: string, inference: Option<string>)
    ensures var u := Continued(t, content, inference);
            var session := Strip(if NoText(t.session) then "agent-task:" + RootIdFor(t) else t.session.value);
            && QueuedAgain(t, u)
            && u.session == (if session != "" then Some(session) else t.session) && u.input.sessionId == Some(session)
            && u.input.followupTask == Some(content) && u.input.userTask == None && u.input.inference == inference
            && u.input.originalTask == (if OriginalOf(t.input) == "" then None else Some(OriginalOf(t.input)))
  {
    StripIdempotent(Or(t.input.originalTask, Or(t.input.userTask, "")));
  }

  /** A rerun gets a session of its own and repeats the content: as a follow-up if that is what was last asked, else as a first task. */
  lemma {:induction false} RerunByColumn(t: Task, newSession: string)
    ensures var u, content := Rerun(t, newSession), ContentToRerun(t.input);
            var followedUp := t.input.followupTask.Some? && Strip(t.input.followupTask.value) != "";
            && QueuedAgain(t, u)
            && u.session == (if newSession != "" then Some(newSession) else t.session) && u.input.sessionId == Some(newSession)
            && u.input.inference == t.input.inference
            && (followedUp ==>
                  && u.input.followupTask == Some(content) && u.input.userTask == None
                  && u.input.originalTask == if OriginalOf(t.input) == "" then None else Some(OriginalOf(t.input)))
            && (!followedUp ==> u.input.userTask == Some(content) && u.input.followupTask == None && u.input.originalTask == None)
  {
    StripTrimmed("");
    StripIdempotent(Or(t.input.originalTask, Or(t.input.userTask, "")));
  }

  /** Why a creation is refused: 400 for a blank field, then 404 for an unknown assistant, 403 for somebody else's, 400 for the rest. */
  lemma {:induction false} CreationRefusals(user: User, agents: map<string, int>, assignee: string, taskContent: string, skillName: string,
                                            requested: Inference, visibility: Option<Visibility>)
    ensures var refusal, agent := CreationRefusal(user, agents, assignee, taskContent, skillName, requested, visibility), Strip(assignee);
            var blank := Strip(taskContent) == "" || NormalizeSkillName(Some(skillName)) == "" || agent == "";
            var stranger := agent in agents && !user.admin && agents[agent] != user.id;
            && (blank ==> refusal == Some(400))
            && (!blank && agent !in agents ==> refusal == Some(404))
            && (!blank && stranger ==> refusal == Some(403))
            && (!blank && agent in agents && !stranger ==> refusal == if requested == Rejected || visibility == None then Some(400) else None)
  {
  }
}
