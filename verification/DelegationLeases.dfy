/**
 Any number of workers, and the members editing the rule, act on one delegation rule row while the
 clock runs. Every step is one committed statement of the rule table, or one read of it by a run.
 */
module DelegationLeases {
  import opened Options
  import opened DelegationRules

  type Worker = nat

  /**
   `held` says until when each worker that was given the rule believes it holds it; `runs` has the runs in
   progress, each with `deleted` as it last read it.
   */
  datatype System = System(now: Time, rule: Rule, held: map<Worker, Time>, runs: map<Worker, bool>)

  datatype Step =
    | Tick(elapsed: nat)
    /** A worker compares with the time `at` it noted before it went through its due rules. */
    | Acquire(w: Worker, at: Time)
    | Release(w: Worker, next: Option<Time>)
    /** A run begins, from the worker or from the API, which leases nothing; an archived rule is refused. */
    | StartRun(w: Worker)
    /** After a commit of its session the run reads the row again. */
    | Reread(w: Worker)
    /** The write that ends a run; it stores the state the run last read. */
    | FinishRun(w: Worker, next: Option<Time>)
    /** The write that ends a failed or skipped run; it stores no state. */
    | AbandonRun(w: Worker, next: Option<Time>)
    /** The worker's failure path: only the lock is cleared. */
    | Unlock(w: Worker)
    | Patch(patch: RulePatch)
    | Archive

  /** Whether this step is an acquisition that hands the rule to its worker. */
  predicate Acquires(s: System, step: Step) {
    step.Acquire? && step.at <= s.now && Due(s.rule, step.at) && !s.rule.deleted
  }

  function Next(s: System, step: Step, lease: int): System {
    match step
    case Tick(d) => s.(now := s.now + d)
    case Acquire(w, at) =>
      if s.now < at || !Due(s.rule, at) then s
      else s.(rule := Leased(s.rule, at, lease), held := if s.rule.deleted then s.held else s.held[w := at + lease])
    case Release(w, next) => s.(rule := Released(s.rule, s.now, next), held := s.held - {w})
    case StartRun(w) => if w in s.runs || s.rule.deleted then s else s.(runs := s.runs[w := s.rule.deleted])
    case Reread(w) => if w in s.runs then s.(runs := s.runs[w := s.rule.deleted]) else s
    case FinishRun(w, next) =>
      if w !in s.runs then s
      else s.(rule := RunFinished(s.rule, s.now, next, s.runs[w]), held := s.held - {w}, runs := s.runs - {w})
    case AbandonRun(w, next) =>
      if w !in s.runs then s
      else s.(rule := RunAbandoned(s.rule, s.now, next), held := s.held - {w}, runs := s.runs - {w})
    case Unlock(w) => s.(rule := s.rule.(lockedUntil := None, updatedAt := s.now), held := s.held - {w})
    case Patch(p) => s.(rule := Patched(s.rule, p, s.now))
    case Archive => s.(rule := if s.rule.deleted then s.rule else Archived(s.rule, s.now))
  }

  /** An acquisition leases the row from the time noted when the rule may be taken; the worker is given it unless it is archived. */
  lemma {:induction false} AcquireOnTheRow(s: System, w: Worker, at: Time, lease: int)
    ensures at <= s.now && Takeable(s.rule.(deleted := false), at) ==>
              Next(s, Acquire(w, at), lease) == s.(rule := s.rule.(lockedUntil := Some(at + lease), updatedAt := at),
                                                   held := if s.rule.deleted then s.held else s.held[w := at + lease])
    ensures !(at <= s.now && Takeable(s.rule.(deleted := false), at)) ==> Next(s, Acquire(w, at), lease) == s
  {
  }

  /** Letting go clears the lock, and a release schedules the next run; neither looks at who holds the rule. */
  lemma {:induction false} LettingGoOnTheRow(s: System, w: Worker, next: Option<Time>, lease: int)
    ensures Next(s, Release(w, next), lease)
         == s.(rule := s.rule.(lastRunAt := Some(s.now), nextRunAt := next, lockedUntil := None, updatedAt := s.now), held := s.held - {w})
    ensures Next(s, Unlock(w), lease) == s.(rule := s.rule.(lockedUntil := None, updatedAt := s.now), held := s.held - {w})
    ensures Next(s, Archive, lease) == if s.rule.deleted then s else
              s.(rule := s.rule.(enabled := false, deleted := true, nextRunAt := None, lockedUntil := None, updatedAt := s.now))
  {
  }

  /** A run starts on a rule that is not archived, reads the mark again after each commit, and ends on the row as `EndedRunsAreDueAgainIff` says. */
  lemma {:induction false} RunsOnTheRow(s: System, w: Worker, next: Option<Time>, lease: int)
    ensures Next(s, StartRun(w), lease) == if w in s.runs || s.rule.deleted then s else s.(runs := s.runs[w := false])
    ensures Next(s, Reread(w), lease) == if w in s.runs then s.(runs := s.runs[w := s.rule.deleted]) else s
    ensures w !in s.runs ==> Next(s, FinishRun(w, next), lease) == s == Next(s, AbandonRun(w, next), lease)
    ensures var ended := s.rule.(lastRunAt := Some(s.now), nextRunAt := if s.rule.enabled then next else None, lockedUntil := None, updatedAt := s.now);
            w in s.runs ==>
              && Next(s, FinishRun(w, next), lease) == s.(rule := ended.(deleted := s.runs[w]), held := s.held - {w}, runs := s.runs - {w})
              && Next(s, AbandonRun(w, next), lease) == s.(rule := ended, held := s.held - {w}, runs := s.runs - {w})
  {
  }

  function Run(s: System, steps: seq<Step>, lease: int): System
    decreases |steps|
  {
    if steps == [] then s else Run(Next(s, steps[0], lease), steps[1..], lease)
  }

  lemma {:induction false} RunStep(s: System, step: Step, rest: seq<Step>, lease: int)
    ensures Run(s, [step] + rest, lease) == Run(Next(s, step, lease), rest, lease)
  {
    assert ([step] + rest)[1..] == rest;
  }

  lemma {:induction false} RunTwo(s: System, a: Step, b: Step, lease: int)
    ensures Run(s, [a, b], lease) == Next(Next(s, a, lease), b, lease)
  {
    assert [a, b] == [a] + [b] && [b] == [b] + [];
    RunStep(s, a, [b], lease);
    RunStep(Next(s, a, lease), b, [], lease);
  }

  lemma {:induction false} RunThree(s: System, a: Step, b: Step, c: Step, lease: int)
    ensures Run(s, [a, b, c], lease) == Next(Next(Next(s, a, lease), b, lease), c, lease)
  {
    assert [a, b, c] == [a] + [b, c] && [b, c] == [b] + [c] && [c] == [c] + [];
    RunStep(s, a, [b, c], lease);
    RunStep(Next(s, a, lease), b, [c], lease);
    RunStep(Next(Next(s, a, lease), b, lease), c, [], lease);
  }

  lemma {:induction false} RunFour(s: System, a: Step, b: Step, c: Step, d: Step, lease: int)
    ensures Run(s, [a, b, c, d], lease) == Next(Next(Next(Next(s, a, lease), b, lease), c, lease), d, lease)
  {
    assert [a, b, c, d] == [a] + [b, c, d];
    RunStep(s, a, [b, c, d], lease);
    RunThree(Next(s, a, lease), b, c, d, lease);
  }

  // ----- Two acquisitions with no release between them

  /** Steps that never clear the lock: time passing, workers competing for the lease, runs starting and reading. */
  ghost predicate OnlyCompetition(steps: seq<Step>) {
    forall i :: 0 <= i < |steps| ==> steps[i].Tick? || steps[i].Acquire? || steps[i].StartRun? || steps[i].Reread?
  }

  lemma {:induction false} LockOutlasts(s: System, steps: seq<Step>, lease: nat, since: Time)
    requires OnlyCompetition(steps)
    requires s.rule.lockedUntil.Some? && since + lease <= s.rule.lockedUntil.value
    ensures var t := Run(s, steps, lease); t.rule.lockedUntil.Some? && since + lease <= t.rule.lockedUntil.value
    decreases |steps|
  {
    if steps != [] {
      LockOutlasts(Next(s, steps[0], lease), steps[1..], lease, since);
    }
  }

  /**
   Two acquisitions of the rule with only competition in between are more than the lease apart by the
   times their workers noted, whichever workers make them and however many fail in the meantime; so the
   second comes more than the lease after the time the first one noted.
   */
  lemma {:induction false} AcquisitionsAreALeaseApart(
      s: System, first: Worker, at: Time, between: seq<Step>, second: Worker, later: Time, lease: nat)
    requires Acquires(s, Acquire(first, at)) && OnlyCompetition(between)
    ensures var t := Run(Next(s, Acquire(first, at), lease), between, lease);
            Acquires(t, Acquire(second, later)) ==> at + lease < later <= t.now
  {
    LockOutlasts(Next(s, Acquire(first, at), lease), between, lease, at);
  }

  // ----- Mutual exclusion

  /**
   What the workers must respect: no worker acquires with a time noted longer ago than the lease, time never
   passes a holder's expiry while it holds, only a holder ends a run, and the rule is not switched off
   (which clears the lock) while it is held.
   */
  predicate Respectful(s: System, step: Step, lease: int) {
    match step
    case Tick(d) => forall w :: w in s.held ==> s.now + d <= s.held[w]
    case Acquire(_, at) => s.now <= at + lease
    case Release(w, _) => w in s.held
    case FinishRun(w, _) => w in s.runs ==> w in s.held
    case AbandonRun(w, _) => w in s.runs ==> w in s.held
    case Unlock(w) => w in s.held
    case Patch(p) => p.enabled == Some(false) ==> s.held == map[]
    case _ => true
  }

  predicate AllRespectful(s: System, steps: seq<Step>, lease: int)
    decreases |steps|
  {
    steps == [] || (Respectful(s, steps[0], lease) && AllRespectful(Next(s, steps[0], lease), steps[1..], lease))
  }

  ghost predicate AtMostOneHolder(s: System) {
    forall a, b :: a in s.held && b in s.held ==> a == b
  }

  ghost predicate LeaseInvariant(s: System) {
    && AtMostOneHolder(s)
    && (forall w :: w in s.held ==> s.now <= s.held[w])
    && (forall w :: w in s.held ==> s.rule.lockedUntil == Some(s.held[w]) || (s.rule.deleted && !s.rule.enabled))
  }

  /** A run that ends or a worker that lets go leaves nobody holding the rule. */
  lemma {:induction false} StepKeepsLeaseInvariant(s: System, step: Step, lease: nat)
    requires LeaseInvariant(s) && Respectful(s, step, lease)
    ensures LeaseInvariant(Next(s, step, lease))
  {
    var t := Next(s, step, lease);
    if step.FinishRun? || step.AbandonRun? {
      assert step.w in s.runs ==> t.held == map[];
    }
  }

  /** In every run whose workers respect their lease, at most one worker holds the rule, at every moment. */
  lemma {:induction false} MutualExclusion(s: System, steps: seq<Step>, lease: nat, k: nat)
    requires LeaseInvariant(s) && AllRespectful(s, steps, lease) && k <= |steps|
    ensures AtMostOneHolder(Run(s, steps[..k], lease))
    decreases |steps|
  {
    if k != 0 {
      StepKeepsLeaseInvariant(s, steps[0], lease);
      MutualExclusion(Next(s, steps[0], lease), steps[1..], lease, k - 1);
      assert steps[..k][1..] == steps[1..][..k - 1];
    }
  }

  /** A live, enabled rule with this worker among its holders. */
  predicate HeldAndLive(s: System, v: Worker) {
    v in s.held && s.rule.enabled && !s.rule.deleted
  }

  lemma {:induction false} AcquiringAddsAHolder(s: System, v: Worker, w: Worker, at: Time, lease: int)
    requires v in s.held && Acquires(s, Acquire(w, at))
    ensures {v, w} <= Next(s, Acquire(w, at), lease).held.Keys
  {
  }

  /**
   The respect is needed (1): whenever a run that leased nothing ends while a worker holds the rule, the lease is cleared,
   and once the next run it scheduled is due any other worker is given the rule as well.
   */
  lemma {:induction false} ApiRunSharesALease(s: System, v: Worker, api: Worker, w: Worker, next: Time, d: nat, lease: int)
    requires HeldAndLive(s, v) && api != v && api !in s.runs && next <= s.now + d
    ensures {v, w} <= Run(s, [StartRun(api), FinishRun(api, Some(next)), Tick(d), Acquire(w, s.now + d)], lease).held.Keys
  {
    RunFour(s, StartRun(api), FinishRun(api, Some(next)), Tick(d), Acquire(w, s.now + d), lease);
    var s1 := Next(s, StartRun(api), lease);
    var s2 := Next(s1, FinishRun(api, Some(next)), lease);
    assert v in s2.held && s2.rule.lockedUntil.None? && s2.rule.nextRunAt == Some(next);
    AcquiringAddsAHolder(Next(s2, Tick(d), lease), v, w, s.now + d, lease);
  }

  /** The respect is needed (2): so does switching the rule off and on again. */
  lemma {:induction false} SwitchingSharesALease(s: System, v: Worker, w: Worker, next: Time, d: nat, lease: int)
    requires HeldAndLive(s, v) && next <= s.now + d
    ensures var off, on := RulePatch(Some(false), false, None), RulePatch(Some(true), false, Some(next));
            {v, w} <= Run(s, [Patch(off), Patch(on), Tick(d), Acquire(w, s.now + d)], lease).held.Keys
  {
    var off, on := RulePatch(Some(false), false, None), RulePatch(Some(true), false, Some(next));
    RunFour(s, Patch(off), Patch(on), Tick(d), Acquire(w, s.now + d), lease);
    var s2 := Next(Next(s, Patch(off), lease), Patch(on), lease);
    assert v in s2.held && s2.rule.lockedUntil.None? && s2.rule.nextRunAt == Some(next);
    AcquiringAddsAHolder(Next(s2, Tick(d), lease), v, w, s.now + d, lease);
  }

  /** The respect is needed (3): whenever a holder of a rule that is still due outlives the lease, any other worker is given the rule too. */
  lemma {:induction false} OutlivedLeaseIsShared(s: System, v: Worker, w: Worker, d: nat, lease: int)
    requires HeldAndLive(s, v) && Due(s.rule.(lockedUntil := None), s.now)
    requires s.rule.lockedUntil.Some? ==> s.rule.lockedUntil.value < s.now + d
    ensures {v, w} <= Run(s, [Tick(d), Acquire(w, s.now + d)], lease).held.Keys
  {
    RunTwo(s, Tick(d), Acquire(w, s.now + d), lease);
    AcquiringAddsAHolder(Next(s, Tick(d), lease), v, w, s.now + d, lease);
  }

  /** The respect is needed (4): whenever a worker acquires with a time noted longer ago than the lease, any other is given the rule at once. */
  lemma {:induction false} OldNoteSharesALease(s: System, v: Worker, w: Worker, at: Time, lease: nat)
    requires Acquires(s, Acquire(v, at)) && at + lease < s.now
    ensures {v, w} <= Run(s, [Acquire(v, at), Acquire(w, s.now)], lease).held.Keys
  {
    RunTwo(s, Acquire(v, at), Acquire(w, s.now), lease);
    AcquiringAddsAHolder(Next(s, Acquire(v, at), lease), v, w, s.now, lease);
  }

  // ----- Archiving

  predicate IsArchived(r: Rule) {
    r.deleted && !r.enabled
  }

  /** The run is in progress and last read the rule before it was archived. */
  predicate Stale(s: System, w: Worker) {
    w in s.runs && !s.runs[w]
  }

  /** The run of this worker reads the row again, or ends. */
  predicate Renews(step: Step, w: Worker) {
    (step.Reread? || step.FinishRun? || step.AbandonRun?) && step.w == w
  }

  /** Step `i` finishes a run that was in progress at the start and has not read the rule since. */
  ghost predicate FinishesStale(s: System, steps: seq<Step>, i: nat) {
    i < |steps| && steps[i].FinishRun? && Stale(s, steps[i].w) && forall j :: 0 <= j < i ==> !Renews(steps[j], steps[i].w)
  }

  ghost predicate ArchivedThroughout(s: System, steps: seq<Step>, lease: int) {
    forall k :: 0 <= k <= |steps| ==> IsArchived(Run(s, steps[..k], lease).rule)
  }

  /** Along an archived rule no run starts, and a run stays stale until it reads again or ends. */
  lemma {:induction false} StaleUntilRenewed(s: System, step: Step, w: Worker, lease: int)
    requires IsArchived(s.rule)
    ensures Stale(Next(s, step, lease), w) <==> Stale(s, w) && !Renews(step, w)
  {
  }

  /** The first step of an archived rule un-archives it exactly when it finishes a stale run. */
  lemma {:induction false} OneStepFromArchived(s: System, step: Step, lease: int)
    requires IsArchived(s.rule)
    ensures IsArchived(Next(s, step, lease).rule) <==> !(step.FinishRun? && Stale(s, step.w))
  {
  }

  lemma {:induction false} FinishesStaleLater(s: System, steps: seq<Step>, i: nat, lease: int)
    requires IsArchived(s.rule) && 0 < i && steps != []
    ensures FinishesStale(s, steps, i) <==> FinishesStale(Next(s, steps[0], lease), steps[1..], i - 1)
  {
    if i < |steps| && steps[i].FinishRun? {
      var w, rest := steps[i].w, steps[1..];
      assert rest[i - 1] == steps[i];
      StaleUntilRenewed(s, steps[0], w, lease);
      assert forall j :: 0 < j < i ==> steps[j] == rest[j - 1];
      if forall j :: 0 <= j < i - 1 ==> !Renews(rest[j], w) {
        assert forall j :: 0 < j < i ==> !Renews(steps[j], w);
      }
      if forall j :: 0 <= j < i ==> !Renews(steps[j], w) {
        assert forall j :: 0 <= j < i - 1 ==> rest[j] == steps[j + 1];
      }
    }
  }

  lemma {:induction false} ArchivedThroughoutLater(s: System, steps: seq<Step>, lease: int)
    requires steps != []
    ensures ArchivedThroughout(s, steps, lease) <==>
            IsArchived(s.rule) && ArchivedThroughout(Next(s, steps[0], lease), steps[1..], lease)
  {
    var t := Next(s, steps[0], lease);
    assert steps[..0] == [];
    forall k | 0 < k <= |steps|
      ensures Run(s, steps[..k], lease) == Run(t, steps[1..][..k - 1], lease)
    {
      assert steps[..k] == [steps[0]] + steps[1..][..k - 1];
      RunStep(s, steps[0], steps[1..][..k - 1], lease);
    }
    if ArchivedThroughout(s, steps, lease) {
      assert Run(s, steps[..0], lease) == s;
      forall k | 0 <= k <= |steps[1..]|
        ensures IsArchived(Run(t, steps[1..][..k], lease).rule)
      {
        assert Run(s, steps[..k + 1], lease) == Run(t, steps[1..][..k], lease);
      }
    }
  }

  /**
   An archived rule stays archived through a run of steps exactly when no run that was in progress, and had last
   read the rule before it was archived, finishes without reading it again: releases, patches, acquisitions,
   new runs and runs that fail never undo the archiving.
   */
  lemma {:induction false} ArchivedUntilAStaleFinish(s: System, steps: seq<Step>, lease: int)
    requires IsArchived(s.rule)
    ensures ArchivedThroughout(s, steps, lease) <==> forall i :: 0 <= i < |steps| ==> !FinishesStale(s, steps, i)
    decreases |steps|
  {
    if steps == [] {
      assert steps[..0] == [];
    } else {
      var t := Next(s, steps[0], lease);
      OneStepFromArchived(s, steps[0], lease);
      ArchivedThroughoutLater(s, steps, lease);
      if FinishesStale(s, steps, 0) {
        assert t.rule == Run(t, steps[1..][..0], lease).rule;
      } else {
        ArchivedUntilAStaleFinish(t, steps[1..], lease);
        forall i | 0 < i < |steps|
          ensures FinishesStale(s, steps, i) <==> FinishesStale(t, steps[1..], i - 1)
        {
          FinishesStaleLater(s, steps, i, lease);
        }
        if forall i :: 0 <= i < |steps| ==> !FinishesStale(s, steps, i) {
          forall i | 0 <= i < |steps[1..]|
            ensures !FinishesStale(t, steps[1..], i)
          {
            assert !FinishesStale(s, steps, i + 1);
          }
        }
      }
    }
  }

  /** In particular, archiving while no run is in progress is final. */
  lemma {:induction false} ArchivingWithoutARunIsFinal(s: System, steps: seq<Step>, lease: int)
    requires IsArchived(s.rule) && s.runs == map[]
    ensures ArchivedThroughout(s, steps, lease)
  {
    ArchivedUntilAStaleFinish(s, steps, lease);
  }

  /** While it stays archived no worker is ever given the rule and no due listing can contain it. */
  lemma {:induction false} ArchivedIsNeverLeasedOrDue(s: System, steps: seq<Step>, lease: int, k: nat, w: Worker, at: Time)
    requires IsArchived(s.rule) && k <= |steps|
    requires forall i :: 0 <= i < |steps| ==> !FinishesStale(s, steps, i)
    ensures var t := Run(s, steps[..k], lease);
            !Acquires(t, Acquire(w, at)) && t.rule !in DueFirst([t.rule], at)
  {
    ArchivedUntilAStaleFinish(s, steps, lease);
    var t := Run(s, steps[..k], lease);
    assert IsArchived(t.rule);
    DueFirstMembers([t.rule], at);
  }

  /**
   A stale run exists whenever one starts before the archiving; when it finishes, the rule is no longer archived,
   and once a member switches it on again a worker is given it.
   */
  lemma {:induction false} StaleFinishUndoesArchiving(s: System, w: Worker, v: Worker, next: Option<Time>, lease: int)
    requires !s.rule.deleted && w !in s.runs
    ensures var archived := Run(s, [StartRun(w), Archive], lease);
            IsArchived(archived.rule) && Stale(archived, w)
            && var t := Run(archived, [FinishRun(w, next), Patch(RulePatch(Some(true), false, Some(s.now)))], lease);
               Acquires(t, Acquire(v, s.now))
  {
    RunTwo(s, StartRun(w), Archive, lease);
    var archived := Next(Next(s, StartRun(w), lease), Archive, lease);
    RunTwo(archived, FinishRun(w, next), Patch(RulePatch(Some(true), false, Some(s.now))), lease);
  }
}
