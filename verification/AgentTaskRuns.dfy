/**
 Runs of the background task table: members create, continue, rerun and cancel tasks, dispatchers race
 to claim them, and the runtime's outcome is written back. Each handler is one atomic step.
 */
module AgentTaskRuns {
  import opened Options
  import opened PyText
  import opened AgentTasks

  datatype Step =
    | Create(id: string, owner: int, visibility: Visibility, content: string, skill: string, inference: Option<string>)
    | FollowUp(id: string, user: User, content: string, requested: Inference)
    | Rerun(id: string, user: User, newSession: string)
    | Cancel(id: string, user: User)
    | Claim(id: string, now: int)
    /** Any other write of a status: what the dispatcher and the reconciler do with an outcome. */
    | Settle(id: string, status: Status)

  ghost function CreateReply(tasks: seq<Task>, s: Step): Reply
    requires s.Create?
  {
    var content, skill := Strip(s.content), NormalizeSkillName(Some(s.skill));
    if skill == "" || content == "" then Refused(400)
    else if IndexOf(tasks, s.id) < |tasks| then Refused(500)
    else Ok(NewTask(s.id, s.owner, s.visibility, content, skill, s.inference))
  }

  predicate Claims(tasks: seq<Task>, id: string) {
    IndexOf(tasks, id) < |tasks| && tasks[IndexOf(tasks, id)].status == QUEUED
  }

  /** The row a step but a creation leaves at its id: the same row, or what the handler wrote. */
  ghost function RowAfter(tasks: seq<Task>, s: Step): Task
    requires !s.Create? && IndexOf(tasks, s.id) < |tasks|
  {
    var t := tasks[IndexOf(tasks, s.id)];
    match s
    case FollowUp(id, user, content, requested) =>
      var r := FollowUpReply(tasks, id, content, user, requested);
      if r.Ok? then r.task else t
    case Rerun(id, user, session) =>
      var r := RerunReply(tasks, id, user, session);
      if r.Ok? then r.task else t
    case Cancel(id, user) =>
      var r := CancelReply(tasks, id, user);
      if r.Ok? then r.task else t
    case Claim(id, now) => if t.status == QUEUED then ClaimedTask(t, now) else t
    case Settle(id, status) => t.(status := status)
  }

  ghost function Next(tasks: seq<Task>, s: Step): seq<Task> {
    if s.Create? then
      var r := CreateReply(tasks, s);
      if r.Ok? then tasks + [r.task] else tasks
    else
      var i := IndexOf(tasks, s.id);
      if i < |tasks| then tasks[i := RowAfter(tasks, s)] else tasks
  }

  /** A creation adds its row at the end unless a field is blank or the id is taken. */
  lemma {:induction false} CreationOnTheTable(tasks: seq<Task>, s: Step)
    requires s.Create?
    ensures var refused := Strip(s.content) == "" || NormalizeSkillName(Some(s.skill)) == "" || exists t :: t in tasks && t.id == s.id;
            Next(tasks, s) == if refused then tasks
                              else tasks + [NewTask(s.id, s.owner, s.visibility, Strip(s.content), NormalizeSkillName(Some(s.skill)), s.inference)]
  {
    var i := IndexOf(tasks, s.id);
    assert i < |tasks| ==> tasks[i] in tasks;
  }

  /** Every other step writes at most the row of its id: what the handler answers, the claim of a queued row, or a status. */
  lemma {:induction false} OtherStepsOnTheTable(tasks: seq<Task>, s: Step)
    requires !s.Create?
    ensures var i := IndexOf(tasks, s.id);
            && (i == |tasks| ==> Next(tasks, s) == tasks)
            && (i < |tasks| ==> match s {
                 case FollowUp(id, user, content, requested) => Next(tasks, s) == Answered(tasks, i, FollowUpReply(tasks, id, content, user, requested))
                 case Rerun(id, user, session) => Next(tasks, s) == Answered(tasks, i, RerunReply(tasks, id, user, session))
                 case Cancel(id, user) => Next(tasks, s) == Answered(tasks, i, CancelReply(tasks, id, user))
                 case Claim(_, now) => Next(tasks, s) == if tasks[i].status == Status(Queued, true)
                                         then tasks[i := tasks[i].(status := Status(Running, true), startedAt := Some(now))] else tasks
                 case Settle(_, status) => Next(tasks, s) == tasks[i := tasks[i].(status := status)]
                 case Create(_, _, _, _, _, _) => true })
  {
  }

  /** The table after a handler: its row when it accepts, else as before. */
  function Answered(tasks: seq<Task>, i: nat, reply: Reply): seq<Task>
    requires i < |tasks|
  {
    if reply.Ok? then tasks[i := reply.task] else tasks
  }

  ghost function Run(tasks: seq<Task>, steps: seq<Step>): seq<Task>
    decreases |steps|
  {
    if steps == [] then tasks else Run(Next(tasks, steps[0]), steps[1..])
  }

  // ----- One active task per chain

  /** What the chain property looks at of a row. */
  datatype View = View(id: string, root: string, active: bool, clean: bool)

  function ViewOf(t: Task): View {
    View(t.id, RootIdFor(t), Active(t), Clean(t))
  }

  function Views(tasks: seq<Task>): (v: seq<View>)
    ensures |v| == |tasks| && forall i :: 0 <= i < |tasks| ==> v[i] == ViewOf(tasks[i])
  {
    seq(|tasks|, i requires 0 <= i < |tasks| => ViewOf(tasks[i]))
  }

  /** Ids and stored roots are stripped, as uuids are. */
  predicate Clean(t: Task) {
    t.id != "" && Strip(t.id) == t.id && Strip(Or(t.root, "")) == Or(t.root, "")
  }

  /** Ids are unique and clean and, as the foreign key has it, every root is the id of a row. */
  ghost predicate WellRooted(v: seq<View>) {
    && (forall i, j :: 0 <= i < j < |v| ==> v[i].id != v[j].id)
    && (forall i :: 0 <= i < |v| ==> v[i].clean && HasId(v, v[i].root))
  }

  ghost predicate HasId(v: seq<View>, id: string) {
    exists j :: 0 <= j < |v| && v[j].id == id
  }

  /** A root is its own root: no chain hangs below another. */
  ghost predicate FlatRoots(v: seq<View>) {
    forall i, j :: 0 <= i < |v| && 0 <= j < |v| && v[j].id == v[i].root ==> v[j].root == v[j].id
  }

  ghost predicate OneActivePerRoot(v: seq<View>) {
    forall i, j :: 0 <= i < j < |v| && v[i].active && v[j].active ==> v[i].root != v[j].root
  }

  /** A chain is a listing by root id: no listing has two active tasks. */
  ghost predicate OneActivePerChain(tasks: seq<Task>) {
    forall root, i, j :: 0 <= i < j < |tasks| && root != "" && InChain(tasks[i], root) && InChain(tasks[j], root)
      ==> !(Active(tasks[i]) && Active(tasks[j]))
  }

  ghost predicate Sound(tasks: seq<Task>) {
    WellRooted(Views(tasks)) && OneActivePerRoot(Views(tasks))
  }

  /** New ids are uuids: not empty, with nothing to strip. */
  predicate FreshId(s: Step) {
    s.Create? ==> s.id != "" && Strip(s.id) == s.id
  }

  /**
   What the theorem asks of the status writes it knows nothing about: "queued" or "running" is written only over
   a row that is active already, as a dispatch does after its claim, or under a root where nothing is active.
   */
  ghost predicate Tame(tasks: seq<Task>, s: Step) {
    && FreshId(s)
    && (s.Settle? && IsActive(s.status) && IndexOf(tasks, s.id) < |tasks| ==>
          var t := tasks[IndexOf(tasks, s.id)]; Active(t) || Quiet(Views(tasks), RootIdFor(t)))
  }

  ghost predicate AllTame(tasks: seq<Task>, steps: seq<Step>)
    decreases |steps|
  {
    steps == [] || (Tame(tasks, steps[0]) && AllTame(Next(tasks, steps[0]), steps[1..]))
  }

  /** Nothing under the row's root is active. */
  ghost predicate Quiet(v: seq<View>, root: string) {
    forall k :: 0 <= k < |v| && v[k].root == root ==> !v[k].active
  }

  lemma {:induction false} RootIsListed(t: Task)
    requires Clean(t)
    ensures RootIdFor(t) != "" && Strip(RootIdFor(t)) == RootIdFor(t) && InChain(t, RootIdFor(t))
    ensures RootIdFor(t) == Or(t.root, t.id)
  {
  }

  /** Two lists of views with the same ids and roots. */
  ghost predicate SameShape(v: seq<View>, w: seq<View>) {
    |v| == |w| && forall k :: 0 <= k < |v| ==> w[k].id == v[k].id && w[k].root == v[k].root && w[k].clean == v[k].clean
  }

  lemma {:induction false} SameShapeUpdate(v: seq<View>, i: nat, w: View)
    requires i < |v| && w.id == v[i].id && w.root == v[i].root && w.clean == v[i].clean
    ensures SameShape(v, v[i := w])
  {
  }

  lemma {:induction false} SameShapeWellRooted(v: seq<View>, w: seq<View>)
    requires SameShape(v, w) && WellRooted(v)
    ensures WellRooted(w)
  {
    forall k | 0 <= k < |w| ensures HasId(w, w[k].root) {
      assert HasId(v, v[k].root);
      var j :| 0 <= j < |v| && v[j].id == v[k].root;
      assert w[j].id == w[k].root;
    }
  }

  lemma {:induction false} SameShapeFlat(v: seq<View>, w: seq<View>)
    requires SameShape(v, w) && FlatRoots(v)
    ensures FlatRoots(w)
  {
    forall i, j | 0 <= i < |w| && 0 <= j < |w| && w[j].id == w[i].root ensures w[j].root == w[j].id {
      assert v[j].id == v[i].root;
    }
  }

  /** A row changed in place: same id and root, and active only if it was or nothing under its root is. */
  lemma {:induction false} ReplaceKeepsOneActive(v: seq<View>, i: nat, w: View)
    requires OneActivePerRoot(v) && i < |v| && w.root == v[i].root
    requires w.active ==> v[i].active || forall k :: 0 <= k < |v| && v[k].root == w.root ==> !v[k].active
    ensures OneActivePerRoot(v[i := w])
  {
  }

  lemma {:induction false} HasIdStays(v: seq<View>, w: View, id: string)
    requires HasId(v, id)
    ensures HasId(v + [w], id)
  {
    var j :| 0 <= j < |v| && v[j].id == id;
    assert (v + [w])[j] == v[j];
  }

  lemma {:induction false} AppendKeepsIds(v: seq<View>, w: View)
    requires WellRooted(v) && !HasId(v, w.id)
    ensures forall k :: 0 <= k < |v| ==> v[k].id != w.id && v[k].root != w.id
    ensures forall i, j :: 0 <= i < j < |v + [w]| ==> (v + [w])[i].id != (v + [w])[j].id
  {
    forall k | 0 <= k < |v|
      ensures v[k].id != w.id && v[k].root != w.id
    {
      assert HasId(v, v[k].id) && HasId(v, v[k].root);
    }
  }

  lemma {:induction false} AppendKeepsRoots(v: seq<View>, w: View, k: nat)
    requires WellRooted(v) && w.clean && w.root == w.id && k <= |v|
    ensures (v + [w])[k].clean && HasId(v + [w], (v + [w])[k].root)
  {
    if k < |v| {
      HasIdStays(v, w, v[k].root);
    } else {
      assert (v + [w])[|v|].id == w.root;
    }
  }

  lemma {:induction false} AppendKeepsRooted(v: seq<View>, w: View)
    requires WellRooted(v) && w.clean && w.root == w.id && !HasId(v, w.id)
    ensures WellRooted(v + [w])
    ensures forall k :: 0 <= k < |v| ==> v[k].root != w.id
  {
    AppendKeepsIds(v, w);
    forall k | 0 <= k < |v + [w]|
      ensures (v + [w])[k].clean && HasId(v + [w], (v + [w])[k].root)
    {
      AppendKeepsRoots(v, w, k);
    }
  }

  lemma {:induction false} AppendKeepsFlat(v: seq<View>, w: View)
    requires FlatRoots(v) && w.root == w.id && !HasId(v, w.id)
    ensures FlatRoots(v + [w])
  {
    var after := v + [w];
    forall i, j | 0 <= i < |after| && 0 <= j < |after| && after[j].id == after[i].root ensures after[j].root == after[j].id {
      if j < |v| {
        assert HasId(v, v[j].id);
        if i < |v| {
          assert v[j].id == v[i].root;
        }
      }
    }
  }

  lemma {:induction false} AppendKeepsOneActive(v: seq<View>, w: View)
    requires OneActivePerRoot(v)
    requires forall k :: 0 <= k < |v| ==> v[k].root != w.root
    ensures OneActivePerRoot(v + [w])
  {
  }

  lemma {:induction false} QuietChain(tasks: seq<Task>, root: string)
    requires WellRooted(Views(tasks)) && root != "" && !ChainIsActive(tasks, root)
    ensures forall k :: 0 <= k < |tasks| && Views(tasks)[k].root == root ==> !Views(tasks)[k].active
  {
    forall k | 0 <= k < |tasks| && Views(tasks)[k].root == root ensures !Views(tasks)[k].active {
      assert Views(tasks)[k].clean;
      RootIsListed(tasks[k]);
    }
  }

  lemma {:induction false} ContinuedRow(t: Task, content: string, inference: Option<string>)
    requires Clean(t)
    ensures var u := Continued(t, content, inference); Clean(u) && u.id == t.id && RootIdFor(u) == RootIdFor(t)
  {
    RootIsListed(t);
  }

  lemma {:induction false} RerunRow(t: Task, session: string)
    requires Clean(t)
    ensures var u := AgentTasks.Rerun(t, session); Clean(u) && u.id == t.id && RootIdFor(u) == RootIdFor(t)
  {
    RootIsListed(t);
  }

  lemma {:induction false} NewRow(s: Step, tasks: seq<Task>)
    requires s.Create? && FreshId(s) && CreateReply(tasks, s).Ok?
    ensures var t := CreateReply(tasks, s).task; t.id == s.id && Clean(t) && RootIdFor(t) == s.id
  {
  }

  /** A tame status write leaves the row active only if it was, or nothing under its root is. */
  lemma {:induction false} StatusRow(tasks: seq<Task>, s: Step)
    requires (s.Cancel? || s.Claim? || s.Settle?) && Tame(tasks, s) && IndexOf(tasks, s.id) < |tasks|
    requires Clean(tasks[IndexOf(tasks, s.id)])
    ensures var t, u := tasks[IndexOf(tasks, s.id)], RowAfter(tasks, s);
            Clean(u) && u.id == t.id && RootIdFor(u) == RootIdFor(t) && (Active(u) ==> Active(t) || Quiet(Views(tasks), RootIdFor(t)))
  {
  }

  /** What a handler may leave: the row as it was, or a queued row under a root where nothing is active. */
  ghost predicate MayBecome(v: seq<View>, t: Task, u: Task) {
    u == t || (Clean(u) && u.id == t.id && RootIdFor(u) == RootIdFor(t) && Quiet(v, RootIdFor(t)))
  }

  lemma {:induction false} NoObjectionMeansIdleChain(tasks: seq<Task>, id: string, user: User)
    requires Objection(tasks, id, user).None?
    ensures IndexOf(tasks, id) < |tasks| && !ChainIsActive(tasks, RootIdFor(tasks[IndexOf(tasks, id)]))
  {
  }

  lemma {:induction false} NoObjectionMeansQuiet(tasks: seq<Task>, id: string, user: User)
    requires WellRooted(Views(tasks)) && Objection(tasks, id, user).None?
    ensures IndexOf(tasks, id) < |tasks| && Clean(tasks[IndexOf(tasks, id)])
    ensures Quiet(Views(tasks), RootIdFor(tasks[IndexOf(tasks, id)]))
  {
    NoObjectionMeansIdleChain(tasks, id, user);
    IdleChainIsQuiet(tasks, IndexOf(tasks, id));
  }

  lemma {:induction false} IdleChainIsQuiet(tasks: seq<Task>, i: nat)
    requires WellRooted(Views(tasks)) && i < |tasks| && !ChainIsActive(tasks, RootIdFor(tasks[i]))
    ensures Clean(tasks[i]) && Quiet(Views(tasks), RootIdFor(tasks[i]))
  {
    assert Views(tasks)[i].clean;
    RootIsListed(tasks[i]);
    QuietChain(tasks, RootIdFor(tasks[i]));
  }

  lemma {:induction false} FollowUpRowAfter(tasks: seq<Task>, s: Step)
    requires s.FollowUp? && WellRooted(Views(tasks)) && IndexOf(tasks, s.id) < |tasks|
    ensures MayBecome(Views(tasks), tasks[IndexOf(tasks, s.id)], RowAfter(tasks, s))
  {
    var t := tasks[IndexOf(tasks, s.id)];
    var r := FollowUpReply(tasks, s.id, s.content, s.user, s.requested);
    if r.Ok? {
      var inference := if s.requested.Use? then Some(s.requested.settings) else t.input.inference;
      var u := Continued(t, Strip(s.content), inference);
      assert RowAfter(tasks, s) == u;
      NoObjectionMeansQuiet(tasks, s.id, s.user);
      ContinuedRow(t, Strip(s.content), inference);
      assert MayBecome(Views(tasks), t, u);
    } else {
      assert RowAfter(tasks, s) == t;
    }
  }

  lemma {:induction false} RerunChoosesTheRow(tasks: seq<Task>, s: Step)
    requires s.Rerun? && IndexOf(tasks, s.id) < |tasks|
    ensures var t := tasks[IndexOf(tasks, s.id)];
            RowAfter(tasks, s) == t || (RowAfter(tasks, s) == AgentTasks.Rerun(t, s.newSession) && Objection(tasks, s.id, s.user).None?)
  {
  }

  lemma {:induction false} RerunRowAfter(tasks: seq<Task>, s: Step)
    requires s.Rerun? && WellRooted(Views(tasks)) && IndexOf(tasks, s.id) < |tasks|
    ensures MayBecome(Views(tasks), tasks[IndexOf(tasks, s.id)], RowAfter(tasks, s))
  {
    var t := tasks[IndexOf(tasks, s.id)];
    RerunChoosesTheRow(tasks, s);
    if RowAfter(tasks, s) != t {
      NoObjectionMeansQuiet(tasks, s.id, s.user);
      RerunRow(t, s.newSession);
    }
  }

  lemma {:induction false} ViewsOfReplaced(tasks: seq<Task>, i: nat, u: Task)
    requires i < |tasks|
    ensures Views(tasks[i := u]) == Views(tasks)[i := ViewOf(u)]
  {
  }

  lemma {:induction false} RowReplaced(tasks: seq<Task>, i: nat, u: Task)
    requires Sound(tasks) && i < |tasks|
    requires u == tasks[i] || (Clean(u) && u.id == tasks[i].id && RootIdFor(u) == RootIdFor(tasks[i]))
    requires u != tasks[i] && Active(u) ==> Active(tasks[i]) || Quiet(Views(tasks), RootIdFor(tasks[i]))
    ensures Sound(tasks[i := u])
    ensures FlatRoots(Views(tasks)) ==> FlatRoots(Views(tasks[i := u]))
  {
    var v, w := Views(tasks), ViewOf(u);
    assert v[i].clean;
    ReplaceKeepsOneActive(v, i, w);
    SameShapeUpdate(v, i, w);
    SameShapeWellRooted(v, v[i := w]);
    if FlatRoots(v) {
      SameShapeFlat(v, v[i := w]);
    }
    ViewsOfReplaced(tasks, i, u);
  }

  lemma {:induction false} RowAppended(tasks: seq<Task>, t: Task)
    requires Sound(tasks) && Clean(t) && RootIdFor(t) == t.id && IndexOf(tasks, t.id) == |tasks|
    ensures Sound(tasks + [t])
    ensures FlatRoots(Views(tasks)) ==> FlatRoots(Views(tasks + [t]))
  {
    var w := ViewOf(t);
    var v := NewIdIsUnused(tasks, t);
    AppendKeepsRooted(v, w);
    AppendKeepsOneActive(v, w);
    if FlatRoots(v) {
      AppendKeepsFlat(v, w);
    }
  }

  lemma {:induction false} NewIdIsUnused(tasks: seq<Task>, t: Task) returns (v: seq<View>)
    requires IndexOf(tasks, t.id) == |tasks|
    ensures v == Views(tasks) && !HasId(v, t.id) && Views(tasks + [t]) == v + [ViewOf(t)]
  {
    v := Views(tasks);
  }

  lemma {:induction false} CreationKeepsOneActive(tasks: seq<Task>, s: Step)
    requires Sound(tasks) && s.Create? && FreshId(s)
    ensures Sound(Next(tasks, s))
    ensures FlatRoots(Views(tasks)) ==> FlatRoots(Views(Next(tasks, s)))
  {
    if CreateReply(tasks, s).Ok? {
      NewRow(s, tasks);
      RowAppended(tasks, CreateReply(tasks, s).task);
    }
  }

  /** What a step makes of its row, whatever the step. */
  lemma {:induction false} RowStaysSafe(tasks: seq<Task>, s: Step)
    requires WellRooted(Views(tasks)) && Tame(tasks, s) && !s.Create? && IndexOf(tasks, s.id) < |tasks|
    ensures var t, u := tasks[IndexOf(tasks, s.id)], RowAfter(tasks, s);
            && (u == t || (Clean(u) && u.id == t.id && RootIdFor(u) == RootIdFor(t)))
            && (u != t && Active(u) ==> Active(t) || Quiet(Views(tasks), RootIdFor(t)))
  {
    assert Views(tasks)[IndexOf(tasks, s.id)].clean;
    if s.FollowUp? {
      FollowUpRowAfter(tasks, s);
    } else if s.Rerun? {
      RerunRowAfter(tasks, s);
    } else {
      StatusRow(tasks, s);
    }
  }

  lemma {:induction false} StepKeepsOneActive(tasks: seq<Task>, s: Step)
    requires Sound(tasks) && Tame(tasks, s)
    ensures Sound(Next(tasks, s))
    ensures FlatRoots(Views(tasks)) ==> FlatRoots(Views(Next(tasks, s)))
  {
    if s.Create? {
      CreationKeepsOneActive(tasks, s);
    } else if IndexOf(tasks, s.id) < |tasks| {
      RowStaysSafe(tasks, s);
      RowReplaced(tasks, IndexOf(tasks, s.id), RowAfter(tasks, s));
    }
  }

  /**
   A status write keeps the property exactly when it is tame: the dispatcher writing "running" over a row that
   another writer finished meanwhile breaks it whenever the chain has been taken up again.
   */
  lemma {:induction false} SettlingKeepsOneActiveIff(tasks: seq<Task>, id: string, status: Status)
    requires Sound(tasks)
    ensures OneActivePerRoot(Views(Next(tasks, Settle(id, status)))) <==> Tame(tasks, Settle(id, status))
  {
    if Tame(tasks, Settle(id, status)) {
      StepKeepsOneActive(tasks, Settle(id, status));
    } else {
      UntamedSettlingActivatesTwo(tasks, id, status);
    }
  }

  lemma {:induction false} UntamedSettlingActivatesTwo(tasks: seq<Task>, id: string, status: Status)
    requires !Tame(tasks, Settle(id, status))
    ensures !OneActivePerRoot(Views(Next(tasks, Settle(id, status))))
  {
    var i, k := ActiveSibling(tasks, id, status);
    var u := tasks[i].(status := status);
    ViewsOfReplaced(tasks, i, u);
    TwoActiveUnderOneRoot(Views(tasks), i, k, ViewOf(u));
  }

  lemma {:induction false} ActiveSibling(tasks: seq<Task>, id: string, status: Status) returns (i: nat, k: nat)
    requires !Tame(tasks, Settle(id, status))
    ensures i < |tasks| && i == IndexOf(tasks, id) && IsActive(status) && Next(tasks, Settle(id, status)) == tasks[i := tasks[i].(status := status)]
    ensures k < |tasks| && k != i && Active(tasks[k]) && RootIdFor(tasks[k]) == RootIdFor(tasks[i])
  {
    i := IndexOf(tasks, id);
    k := NotQuiet(Views(tasks), RootIdFor(tasks[i]));
    SettlingWritesTheStatus(tasks, id, status);
  }

  lemma {:induction false} SettlingWritesTheStatus(tasks: seq<Task>, id: string, status: Status)
    requires IndexOf(tasks, id) < |tasks|
    ensures var i := IndexOf(tasks, id); Next(tasks, Settle(id, status)) == tasks[i := tasks[i].(status := status)]
  {
  }

  lemma {:induction false} NotQuiet(v: seq<View>, root: string) returns (k: nat)
    requires !Quiet(v, root)
    ensures k < |v| && v[k].root == root && v[k].active
  {
    k :| 0 <= k < |v| && v[k].root == root && v[k].active;
  }

  lemma {:induction false} TwoActiveUnderOneRoot(v: seq<View>, i: nat, k: nat, w: View)
    requires i < |v| && k < |v| && i != k && w.active && v[k].active && w.root == v[k].root
    ensures !OneActivePerRoot(v[i := w])
  {
    var after := v[i := w];
    assert after[i] == w && after[k] == v[k];
  }

  /** With flat roots the listing of a task's root is exactly the tasks that have this root. */
  lemma {:induction false} RootsAreChains(tasks: seq<Task>, i: nat, k: nat)
    requires WellRooted(Views(tasks)) && FlatRoots(Views(tasks)) && i < |tasks| && k < |tasks|
    ensures InChain(tasks[k], RootIdFor(tasks[i])) <==> RootIdFor(tasks[k]) == RootIdFor(tasks[i])
  {
    var v := Views(tasks);
    assert v[i].clean && v[k].clean;
    RootIsListed(tasks[i]);
    RootIsListed(tasks[k]);
    if tasks[k].id == RootIdFor(tasks[i]) {
      assert v[k].id == v[i].root;
    }
  }

  /** A listing under any other id is that one task at most. */
  lemma {:induction false} OtherListingsAreSingle(tasks: seq<Task>, root: string, k: nat)
    requires WellRooted(Views(tasks)) && k < |tasks| && root != "" && InChain(tasks[k], root)
    requires forall i :: 0 <= i < |tasks| ==> Views(tasks)[i].root != root
    ensures tasks[k].id == root
  {
    assert Views(tasks)[k].clean;
    RootIsListed(tasks[k]);
  }

  lemma {:induction false} ChainsHaveOneActive(tasks: seq<Task>)
    requires Sound(tasks) && FlatRoots(Views(tasks))
    ensures OneActivePerChain(tasks)
  {
    forall root, i, j | 0 <= i < j < |tasks| && root != "" && InChain(tasks[i], root) && InChain(tasks[j], root)
      ensures !(Active(tasks[i]) && Active(tasks[j]))
    {
      var v := Views(tasks);
      if r :| 0 <= r < |tasks| && v[r].root == root {
        RootsAreChains(tasks, r, i);
        RootsAreChains(tasks, r, j);
        assert v[i].root == v[j].root;
      } else {
        OtherListingsAreSingle(tasks, root, i);
        OtherListingsAreSingle(tasks, root, j);
        assert v[i].id != v[j].id;
      }
    }
  }

  /**
   With atomic handlers, no run of creations, follow-ups, reruns, cancellations and claims ever leaves two
   queued or running tasks under one root; when roots are flat, no chain listing ever shows two.
   */
  lemma {:induction false} NeverTwoActiveInAChain(tasks: seq<Task>, steps: seq<Step>)
    requires Sound(tasks) && AllTame(tasks, steps)
    ensures OneActivePerRoot(Views(Run(tasks, steps)))
    ensures FlatRoots(Views(tasks)) ==> OneActivePerChain(Run(tasks, steps))
  {
    RunKeepsOneActive(tasks, steps);
    if FlatRoots(Views(tasks)) {
      ChainsHaveOneActive(Run(tasks, steps));
    }
  }

  lemma {:induction false} RunKeepsOneActive(tasks: seq<Task>, steps: seq<Step>)
    requires Sound(tasks) && AllTame(tasks, steps)
    ensures Sound(Run(tasks, steps))
    ensures FlatRoots(Views(tasks)) ==> FlatRoots(Views(Run(tasks, steps)))
    decreases |steps|
  {
    if steps != [] {
      StepKeepsOneActive(tasks, steps[0]);
      RunKeepsOneActive(Next(tasks, steps[0]), steps[1..]);
    }
  }

  /**
   Atomicity is needed: whenever two different rows of one root would each be accepted on the same table,
   two handlers that both checked before either wrote leave two active tasks under that root.
   */
  lemma {:induction false} TornFollowUpsActivateTwo(tasks: seq<Task>, a: string, b: string, u: User, v: User, contentA: string, contentB: string)
    requires Sound(tasks) && a != b
    requires FollowUpReply(tasks, a, contentA, u, Unchanged).Ok? && FollowUpReply(tasks, b, contentB, v, Unchanged).Ok?
    requires RootIdFor(tasks[IndexOf(tasks, a)]) == RootIdFor(tasks[IndexOf(tasks, b)])
    ensures var torn := tasks[IndexOf(tasks, a) := FollowUpReply(tasks, a, contentA, u, Unchanged).task]
                             [IndexOf(tasks, b) := FollowUpReply(tasks, b, contentB, v, Unchanged).task];
            !OneActivePerRoot(Views(torn))
  {
    var x := AcceptedRow(tasks, a, contentA, u);
    var y := AcceptedRow(tasks, b, contentB, v);
    TwoWritten(tasks, IndexOf(tasks, a), IndexOf(tasks, b), x, y);
  }

  /** What an accepted follow-up writes is active, under the root the row had. */
  lemma {:induction false} AcceptedRow(tasks: seq<Task>, id: string, content: string, user: User) returns (x: Task)
    requires Sound(tasks) && FollowUpReply(tasks, id, content, user, Unchanged).Ok?
    ensures x == FollowUpReply(tasks, id, content, user, Unchanged).task
    ensures IndexOf(tasks, id) < |tasks| && Active(x) && RootIdFor(x) == RootIdFor(tasks[IndexOf(tasks, id)])
  {
    x := FollowUpReply(tasks, id, content, user, Unchanged).task;
    var t := tasks[IndexOf(tasks, id)];
    assert Views(tasks)[IndexOf(tasks, id)].clean;
    ContinuedRow(t, Strip(content), t.input.inference);
  }

  lemma {:induction false} TwoWritten(tasks: seq<Task>, i: nat, j: nat, x: Task, y: Task)
    requires i < |tasks| && j < |tasks| && i != j && Active(x) && Active(y) && RootIdFor(x) == RootIdFor(y)
    ensures !OneActivePerRoot(Views(tasks[i := x][j := y]))
  {
    var w := Views(tasks[i := x][j := y]);
    assert w[i] == ViewOf(x) && w[j] == ViewOf(y);
  }

  lemma {:induction false} FirstFollowUp(tasks: seq<Task>, a: string, b: string, user: User, content: string) returns (x: Task)
    requires WellRooted(Views(tasks)) && (forall k :: 0 <= k < |tasks| ==> !Active(tasks[k]))
    requires IndexOf(tasks, a) < |tasks| && Strip(content) != ""
    requires tasks[IndexOf(tasks, a)].root == Some(b) && b != "" && Continuable(tasks[IndexOf(tasks, a)], user)
    ensures Next(tasks, Step.FollowUp(a, user, content, Unchanged)) == tasks[IndexOf(tasks, a) := x]
    ensures x.id == a && x.root == Some(b) && Active(x)
  {
    var t := tasks[IndexOf(tasks, a)];
    assert Views(tasks)[IndexOf(tasks, a)].clean;
    RootIsListed(t);
    AcceptedWhenIdle(tasks, a, user, content);
    x := Continued(t, Strip(content), t.input.inference);
  }

  lemma {:induction false} SecondFollowUp(tasks: seq<Task>, i: nat, x: Task, b: string, user: User, content: string) returns (y: Task)
    requires (forall k :: 0 <= k < |tasks| ==> !Active(tasks[k]))
    requires i < |tasks| && x.id == tasks[i].id && x.root == Some(b) && IndexOf(tasks, b) < |tasks| && IndexOf(tasks, b) != i
    requires Strip(content) != "" && Continuable(tasks[IndexOf(tasks, b)], user)
    requires RootIdFor(tasks[IndexOf(tasks, b)]) != x.id && RootIdFor(tasks[IndexOf(tasks, b)]) != b
    ensures Next(tasks[i := x], Step.FollowUp(b, user, content, Unchanged)) == tasks[i := x][IndexOf(tasks, b) := y]
    ensures y.id == b && Active(y)
  {
    IndexOfUnchanged(tasks, i, x, b);
    var t := tasks[IndexOf(tasks, b)];
    AcceptedWhenIdle(tasks[i := x], b, user, content);
    y := Continued(t, Strip(content), t.input.inference);
  }

  /**
   Flatness is needed: in an idle table where the root of one task has itself another root, following up
   on the task and then on its root is accepted, and the listing of that root shows two active tasks.
   */
  lemma {:induction false} NestedRootsShowTwoActive(tasks: seq<Task>, a: string, b: string, user: User, content: string)
    requires WellRooted(Views(tasks)) && (forall k :: 0 <= k < |tasks| ==> !Active(tasks[k]))
    requires a != b && b != "" && IndexOf(tasks, a) < |tasks| && IndexOf(tasks, b) < |tasks| && Strip(content) != ""
    requires Nested(tasks[IndexOf(tasks, a)], tasks[IndexOf(tasks, b)])
    requires Continuable(tasks[IndexOf(tasks, a)], user) && Continuable(tasks[IndexOf(tasks, b)], user)
    ensures !OneActivePerChain(Next(Next(tasks, Step.FollowUp(a, user, content, Unchanged)), Step.FollowUp(b, user, content, Unchanged)))
  {
    var i, j := IndexOf(tasks, a), IndexOf(tasks, b);
    var x := FirstFollowUp(tasks, a, b, user, content);
    var y := SecondFollowUp(tasks, i, x, b, user, content);
    TwoInOneListing(tasks[i := x][j := y], b, i, j);
  }

  lemma {:induction false} AcceptedWhenIdle(tasks: seq<Task>, id: string, user: User, content: string)
    requires Strip(content) != "" && IndexOf(tasks, id) < |tasks| && Continuable(tasks[IndexOf(tasks, id)], user)
    requires !Active(tasks[IndexOf(tasks, id)])
    requires forall k :: 0 <= k < |tasks| && InChain(tasks[k], RootIdFor(tasks[IndexOf(tasks, id)])) ==> !Active(tasks[k])
    ensures var i := IndexOf(tasks, id);
            Next(tasks, Step.FollowUp(id, user, content, Unchanged))
            == tasks[i := Continued(tasks[i], Strip(content), tasks[i].input.inference)]
  {
    assert Objection(tasks, id, user) == None;
  }

  lemma {:induction false} TwoInOneListing(tasks: seq<Task>, root: string, i: nat, j: nat)
    requires i < |tasks| && j < |tasks| && i != j && root != ""
    requires InChain(tasks[i], root) && InChain(tasks[j], root) && Active(tasks[i]) && Active(tasks[j])
    ensures !OneActivePerChain(tasks)
  {
    var lo, hi := if i < j then i else j, if i < j then j else i;
    assert 0 <= lo < hi < |tasks| && InChain(tasks[lo], root) && InChain(tasks[hi], root);
  }

  /** `a` hangs below `b`, and `b` below a third task. */
  predicate Nested(a: Task, b: Task) {
    a.root == Some(b.id) && RootIdFor(b) != a.id && RootIdFor(b) != b.id
  }

  predicate Continuable(t: Task, user: User) {
    t.taskType.AgentAsync? && t.owner == user.id && SkillNameFor(t) != ""
  }

  // ----- Whose tasks change

  /** The step is made by a member, and not by the one with this number. */
  predicate ByAnother(s: Step, owner: int) {
    (s.FollowUp? || s.Rerun? || s.Cancel?) && s.user.id != owner
  }

  lemma {:induction false} AnotherLeavesTheRow(tasks: seq<Task>, s: Step)
    requires IndexOf(tasks, s.id) < |tasks| && ByAnother(s, tasks[IndexOf(tasks, s.id)].owner)
    ensures RowAfter(tasks, s) == tasks[IndexOf(tasks, s.id)]
  {
    match s
    case FollowUp(id, user, content, requested) => FollowUpIsAcceptedIff(tasks, id, content, user, requested);
    case Rerun(id, user, session) => RerunIsAcceptedIff(tasks, id, user, session);
    case Cancel(id, user) => CancellationByTheOwner(tasks, id, user);
  }

  lemma {:induction false} OtherIdsLeaveTheRow(tasks: seq<Task>, s: Step, id: string)
    requires IndexOf(tasks, id) < |tasks| && (s.id != id || s.Create?)
    ensures IndexOf(Next(tasks, s), id) == IndexOf(tasks, id)
    ensures Next(tasks, s)[IndexOf(tasks, id)] == tasks[IndexOf(tasks, id)]
  {
    if s.Create? {
      if CreateReply(tasks, s).Ok? {
        IndexOfAppended(tasks, CreateReply(tasks, s).task, id);
      }
    } else if IndexOf(tasks, s.id) < |tasks| {
      var t := RowKeepsItsId(tasks, s);
      IndexOfUnchanged(tasks, IndexOf(tasks, s.id), t, id);
    }
  }

  /**
   No member, administrators included, changes another member's task: through any run in which every step at
   this id is a follow-up, rerun or cancellation by somebody else, or a creation, the row stays what it was.
   */
  lemma {:induction false} OnlyTheOwnerChangesATask(tasks: seq<Task>, steps: seq<Step>, id: string)
    requires IndexOf(tasks, id) < |tasks|
    requires forall k :: 0 <= k < |steps| && steps[k].id == id ==> steps[k].Create? || ByAnother(steps[k], tasks[IndexOf(tasks, id)].owner)
    ensures IndexOf(Run(tasks, steps), id) == IndexOf(tasks, id) < |Run(tasks, steps)|
    ensures Run(tasks, steps)[IndexOf(tasks, id)] == tasks[IndexOf(tasks, id)]
    decreases |steps|
  {
    if steps != [] {
      var s, i := steps[0], IndexOf(tasks, id);
      if s.id != id || s.Create? {
        OtherIdsLeaveTheRow(tasks, s, id);
      } else {
        AnotherLeavesTheRow(tasks, s);
        IndexOfUnchanged(tasks, i, tasks[i], id);
      }
      OnlyTheOwnerChangesATask(Next(tasks, s), steps[1..], id);
    }
  }

  // ----- Claims

  /** Whether this step leaves its row freshly queued. */
  ghost predicate Queues(tasks: seq<Task>, s: Step, id: string) {
    s.id == id && (
      || (s.Create? && CreateReply(tasks, s).Ok?)
      || (s.FollowUp? && FollowUpReply(tasks, id, s.content, s.user, s.requested).Ok?)
      || (s.Rerun? && RerunReply(tasks, id, s.user, s.newSession).Ok?)
      || (s.Settle? && s.status == QUEUED))
  }

  ghost function QueueWrites(tasks: seq<Task>, steps: seq<Step>, id: string): nat
    decreases |steps|
  {
    if steps == [] then 0
    else (if Queues(tasks, steps[0], id) then 1 else 0) + QueueWrites(Next(tasks, steps[0]), steps[1..], id)
  }

  ghost function SuccessfulClaims(tasks: seq<Task>, steps: seq<Step>, id: string): nat
    decreases |steps|
  {
    if steps == [] then 0
    else (if steps[0].Claim? && steps[0].id == id && Claims(tasks, id) then 1 else 0)
         + SuccessfulClaims(Next(tasks, steps[0]), steps[1..], id)
  }

  lemma {:induction false} IndexOfUnchanged(tasks: seq<Task>, i: nat, t: Task, id: string)
    requires i < |tasks| && t.id == tasks[i].id
    ensures IndexOf(tasks[i := t], id) == IndexOf(tasks, id)
  {
    var after := tasks[i := t];
    assert forall k :: 0 <= k < |tasks| ==> after[k].id == tasks[k].id;
  }

  lemma {:induction false} IndexOfAppended(tasks: seq<Task>, t: Task, id: string)
    requires IndexOf(tasks, t.id) == |tasks|
    ensures IndexOf(tasks, id) < |tasks| ==> IndexOf(tasks + [t], id) == IndexOf(tasks, id)
    ensures IndexOf(tasks + [t], t.id) == |tasks|
    ensures IndexOf(tasks, id) == |tasks| && id != t.id ==> IndexOf(tasks + [t], id) == |tasks| + 1
  {
    var after := tasks + [t];
    assert forall k :: 0 <= k < |tasks| ==> after[k] == tasks[k];
    assert after[|tasks|] == t;
  }

  lemma {:induction false} StepAndClaims(tasks: seq<Task>, s: Step, id: string)
    ensures var before, after := Claims(tasks, id), Claims(Next(tasks, s), id);
            && (s.Claim? && s.id == id ==> !after)
            && (after ==> before || Queues(tasks, s, id))
  {
    if s.Create? {
      CreationAndClaims(tasks, s, id);
    } else if IndexOf(tasks, s.id) < |tasks| {
      RowAndClaims(tasks, s, id);
    }
  }

  lemma {:induction false} CreationAndClaims(tasks: seq<Task>, s: Step, id: string)
    requires s.Create?
    ensures Claims(Next(tasks, s), id) ==> Claims(tasks, id) || Queues(tasks, s, id)
  {
    if CreateReply(tasks, s).Ok? {
      IndexOfAppended(tasks, CreateReply(tasks, s).task, id);
    }
  }

  lemma {:induction false} RowAndClaims(tasks: seq<Task>, s: Step, id: string)
    requires !s.Create? && IndexOf(tasks, s.id) < |tasks|
    ensures var before, after := Claims(tasks, id), Claims(Next(tasks, s), id);
            && (s.Claim? && s.id == id ==> !after)
            && (after ==> before || Queues(tasks, s, id))
  {
    var i := IndexOf(tasks, s.id);
    var t := RowKeepsItsId(tasks, s);
    IndexOfUnchanged(tasks, i, t, id);
  }

  lemma {:induction false} RowKeepsItsId(tasks: seq<Task>, s: Step) returns (t: Task)
    requires !s.Create? && IndexOf(tasks, s.id) < |tasks|
    ensures t == RowAfter(tasks, s) && t.id == s.id && Next(tasks, s) == tasks[IndexOf(tasks, s.id) := t]
  {
    t := RowAfter(tasks, s);
  }

  /**
   Every write of "queued" is consumed by at most one successful dispatch claim, under any interleaving
   of dispatchers, handlers and other status writes: the claims that succeed, plus a task still queued
   at the end, are at most the queue writes, plus a task queued at the start.
   */
  lemma {:induction false} EachQueueWriteIsClaimedOnce(tasks: seq<Task>, steps: seq<Step>, id: string)
    ensures SuccessfulClaims(tasks, steps, id) + (if Claims(Run(tasks, steps), id) then 1 else 0)
         <= QueueWrites(tasks, steps, id) + (if Claims(tasks, id) then 1 else 0)
    decreases |steps|
  {
    if steps != [] {
      StepAndClaims(tasks, steps[0], id);
      EachQueueWriteIsClaimedOnce(Next(tasks, steps[0]), steps[1..], id);
    }
  }

  // ----- The original task

  /** What a task created for `first` looks like after any history whose last content is `latest`. */
  predicate Remembers(p: Payload, first: string, latest: string) {
    || (p.userTask == Some(first) && p.originalTask.None? && p.followupTask.None? && latest == first)
    || (p.userTask.None? && p.originalTask == Some(first) && p.followupTask == Some(latest) && latest != "" && Strip(latest) == latest)
  }

  /** An accepted follow-up replaces the latest content, nothing else does. */
  ghost function LatestAfter(tasks: seq<Task>, s: Step, id: string, latest: string): string {
    if s.FollowUp? && s.id == id && FollowUpReply(tasks, id, s.content, s.user, s.requested).Ok? then Strip(s.content) else latest
  }

  /** The last content a member gave in the run. */
  ghost function LatestContent(tasks: seq<Task>, steps: seq<Step>, id: string, latest: string): string
    decreases |steps|
  {
    if steps == [] then latest
    else LatestContent(Next(tasks, steps[0]), steps[1..], id, LatestAfter(tasks, steps[0], id, latest))
  }

  ghost predicate Holds(tasks: seq<Task>, id: string, root: string, first: string, latest: string) {
    var i := IndexOf(tasks, id);
    i < |tasks| && RowHolds(tasks[i], root, first, latest)
  }

  lemma {:induction false} ContinuedRemembers(t: Task, content: string, inference: Option<string>, root: string, first: string, latest: string)
    requires first != "" && Strip(first) == first && Strip(root) == root && root != ""
    requires RootIdFor(t) == root && Remembers(t.input, first, latest) && content != "" && Strip(content) == content
    ensures var u := Continued(t, content, inference); RootIdFor(u) == root && Remembers(u.input, first, content)
  {
    RemembersMeans(t.input, first, latest);
  }

  lemma {:induction false} RerunRemembers(t: Task, session: string, root: string, first: string, latest: string)
    requires first != "" && Strip(first) == first && Strip(root) == root && root != ""
    requires RootIdFor(t) == root && Remembers(t.input, first, latest)
    ensures var u := AgentTasks.Rerun(t, session); RootIdFor(u) == root && Remembers(u.input, first, latest)
  {
    RemembersMeans(t.input, first, latest);
  }

  ghost predicate RowHolds(t: Task, root: string, first: string, latest: string) {
    RootIdFor(t) == root && Remembers(t.input, first, latest)
  }

  lemma {:induction false} RowAfterRemembers(tasks: seq<Task>, s: Step, root: string, first: string, latest: string)
    requires first != "" && Strip(first) == first && Strip(root) == root && root != ""
    requires !s.Create? && IndexOf(tasks, s.id) < |tasks| && RowHolds(tasks[IndexOf(tasks, s.id)], root, first, latest)
    ensures RowHolds(RowAfter(tasks, s), root, first, LatestAfter(tasks, s, s.id, latest))
  {
    var t := tasks[IndexOf(tasks, s.id)];
    if s.FollowUp? {
      var r := FollowUpReply(tasks, s.id, s.content, s.user, s.requested);
      if r.Ok? {
        StripIdempotent(s.content);
        ContinuedRemembers(t, Strip(s.content), if s.requested.Use? then Some(s.requested.settings) else t.input.inference,
                           root, first, latest);
      }
    } else if s.Rerun? {
      RerunRemembers(t, s.newSession, root, first, latest);
    }
  }

  lemma {:induction false} StepRemembers(tasks: seq<Task>, s: Step, id: string, root: string, first: string, latest: string)
    requires first != "" && Strip(first) == first && Strip(root) == root && root != ""
    requires Holds(tasks, id, root, first, latest)
    ensures Holds(Next(tasks, s), id, root, first, LatestAfter(tasks, s, id, latest))
  {
    if s.Create? {
      if CreateReply(tasks, s).Ok? {
        IndexOfAppended(tasks, CreateReply(tasks, s).task, id);
      }
    } else {
      var i := IndexOf(tasks, s.id);
      if i < |tasks| {
        IndexOfUnchanged(tasks, i, RowAfter(tasks, s), id);
        if s.id == id {
          RowAfterRemembers(tasks, s, root, first, latest);
        }
      }
    }
  }

  lemma {:induction false} RemembersMeans(p: Payload, first: string, latest: string)
    requires first != "" && Strip(first) == first && Remembers(p, first, latest)
    ensures OriginalOf(p) == first && ContentToRerun(p) == latest
  {
  }

  /**
   From the creation of an async task on, whatever sequence of follow-ups, reruns, cancellations, claims
   and outcomes follows, its payload still yields the content it was created with as the original task,
   the next rerun would repeat exactly the latest content, and its root id is unchanged.
   */
  lemma {:induction false} OriginalTaskSurvives(tasks: seq<Task>, steps: seq<Step>, id: string, root: string, first: string, latest: string)
    requires first != "" && Strip(first) == first && Strip(root) == root && root != ""
    requires Holds(tasks, id, root, first, latest)
    ensures var after := Run(tasks, steps);
            var i := IndexOf(after, id);
            && i < |after| && RootIdFor(after[i]) == root
            && OriginalOf(after[i].input) == first
            && ContentToRerun(after[i].input) == LatestContent(tasks, steps, id, latest)
    decreases |steps|
  {
    if steps != [] {
      StepRemembers(tasks, steps[0], id, root, first, latest);
      OriginalTaskSurvives(Next(tasks, steps[0]), steps[1..], id, root, first, LatestAfter(tasks, steps[0], id, latest));
    } else {
      RemembersMeans(tasks[IndexOf(tasks, id)].input, first, latest);
    }
  }

  /** A created task starts that history. */
  lemma {:induction false} CreationStartsTheHistory(tasks: seq<Task>, s: Step)
    requires s.Create? && CreateReply(tasks, s).Ok? && s.id != "" && Strip(s.id) == s.id
    ensures Holds(Next(tasks, s), s.id, s.id, Strip(s.content), Strip(s.content))
  {
    IndexOfAppended(tasks, CreateReply(tasks, s).task, s.id);
  }

  // ----- Any payload, not only those the handlers wrote

  /** A follow-up keeps the original task of every payload whatever wrote it. */
  lemma {:induction false} FollowUpKeepsAnyOriginal(t: Task, content: string, inference: Option<string>)
    ensures OriginalOf(Continued(t, content, inference).input) == OriginalOf(t.input)
  {
    StripIdempotent(Or(t.input.originalTask, Or(t.input.userTask, "")));
  }

  /**
   A rerun keeps the original task exactly when the payload carries a follow-up, or does not hold two
   different texts under `user_task` and `original_task`; otherwise the user task replaces the original.
   */
  lemma {:induction false} RerunKeepsTheOriginalIff(t: Task, session: string)
    requires ContentToRerun(t.input) != ""
    ensures OriginalOf(AgentTasks.Rerun(t, session).input) == OriginalOf(t.input) <==>
            Strip(Or(t.input.followupTask, "")) != "" || Or(t.input.userTask, "") == "" || Or(t.input.originalTask, "") == ""
            || Strip(t.input.userTask.value) == Strip(t.input.originalTask.value)
  {
    StripIdempotent(Or(t.input.originalTask, Or(t.input.userTask, "")));
    StripIdempotent(Or(t.input.userTask, Or(t.input.originalTask, "")));
  }

  /**
   Normalising a skill name strips, drops leading slashes and strips again, which may expose another
   slash. A task's skill survives a follow-up exactly when its stored name does not start with one.
   */
  lemma {:induction false} SkillSurvivesAFollowUpIff(t: Task, raw: string, content: string, inference: Option<string>)
    requires t.skill == Some(NormalizeSkillName(Some(raw))) && t.skill.value != ""
    requires NormalizeSkillName(t.skill) != ""
    ensures Continued(t, content, inference).skill == t.skill <==> t.skill.value[0] != '/'
  {
    var n := t.skill.value;
    StripIsTrimmed(DropSlashes(Strip(raw)));
    StripTrimmed(n);
    if n[0] == '/' {
      DropSlashesShape(n);
      var from, to := StripShape(DropSlashes(n));
      assert |Strip(DropSlashes(n))| < |n|;
    }
  }

  lemma {:induction false} DropSlashesShape(s: string)
    ensures |DropSlashes(s)| <= |s|
    ensures s != [] && s[0] == '/' ==> |DropSlashes(s)| < |s|
  {
    if s != [] && s[0] == '/' {
      DropSlashesShape(s[1..]);
    }
  }
}
