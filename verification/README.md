# A verified model of the portal's stateful core

The portal is a control plane: workers lease delegation rules and claim events, background tasks are queued and
dispatched, sessions are published and deleted, settings forms are merged with stored rows, administrators manage who
may sign in. This project models those parts in Dafny and proves what they keep over every run, and it models the
text transformations of the translation tooling and proves what their success implies.

Tables are sequences or maps of rows held by a class whose methods update them in place; a conditional update
reports whether it wrote. Protocols are step functions over such tables with a clock and workers, and the theorems
speak about every run of every length. Each method is proved equal to a specification, and the properties are proved
about the specification. What the specifications themselves decide and write is stated once more on plain columns, characters
and numbers, without the functions that compute it.

| module | what it models |
|---|---|
| `Options`, `PyText`, `KeyedRows` | optional values, `strip` and `lower`, rows told apart by a key |
| `DelegationRules`, `DelegationLeases`, `DelegationEvents` | rule listings, timed leases, archiving, event claims |
| `ProfileMigration` | the data part of revision 0036, statement by statement |
| `AgentTasks`, `AgentTaskRuns` | background tasks: create, follow up, rerun, cancel, dispatch |
| `SessionMetadata`, `SessionTitles` | the session registry with tombstones and an insert race; the title register |
| `LiteralParser`, `KeyExtractor` | the scanner that finds translation keys in sources |
| `Placeholders`, `Catalogues` | interpolation and the catalogue checker |
| `InlineJson` | the JSON inlined into a page |
| `ConnectorCards`, `AwsCards`, `ProxyCards` | settings forms merged with stored rows and their cross references |
| `AccessTables`, `ConfiguredNames`, `AccessRules`, `AccessControl` | users, the allowlist, administration |
| `LlmCatalog` | the model catalog and the clamps that read it |

## What the proofs found

Where the code does less than its comments or its use suggest, the model keeps the code and states exactly when the
property holds.

- A run started from the API ends by clearing the lock of whoever holds it, so does switching a rule off; and a worker compares with a
  time noted before it went through its due rules, so a lease may be over when it is given. Two workers can then hold the rule
  (`DelegationLeases.ApiRunSharesALease` and the three lemmas after it).
- The last write of a run stores the rule state the run last read, which is renewed after each commit of its session. A run that
  finishes without having read the rule since it was archived un-archives it; nothing else does
  (`DelegationLeases.ArchivedUntilAStaleFinish`, an if and only if).
- Listings count the offset in raw rows and the limit in live rows, so consecutive pages can repeat rows
  (`DelegationRules.ConsecutivePagesRepeat`).
- Two ways to a second task for one external item at once: a claimant that outlives its window, and a foreign "failed" while a claimant
  is at work. A task whose id could not be recorded is found again by its dedupe key, unless the rule's agent or the task's status
  changed in the meantime (`DelegationEvents.LostRecordCreatesASecondTaskIff`).
- Nested roots, two handlers that interleave, or the dispatcher writing `running` over a row that was finished meanwhile, leave two
  active tasks in a chain (`AgentTaskRuns`). A rerun replaces the
  original task of a payload that holds two different texts (`RerunKeepsTheOriginalIff`); a skill name that still starts with
  a slash after normalising loses it at the next follow-up (`SkillSurvivesAFollowUpIff`).
- The title route says that it changes the title only; on a deleted row it starts from an empty object and drops the other entries
  (`SessionTitles.PatchKeepsOtherEntriesIff`). A publish without a title overwrites a title patched between its read and its commit
  (`SessionTitles.LatePublishKeepsTheTitleIff`).
- A text used both as a plain and as a plural key may have `{n}` in its translation, which the plain use leaves unfilled
  (`Catalogues.CheckedKeyRendersFullyIff`). A braced escape above 10FFFF stops the scanner with an exception
  (`LiteralParser.OutOfRangeEscapeRaises`).
- Two EKS cards for one cluster are accepted when one names the account and the other gives its number, or when they give two names under
  which the same number is listed (`AwsCards.ClusterListedTwiceIff`).
- Startup can give an administrator an allowlist entry with role "user" (`AccessRules.StartupBreaksAgreementIff`), and a sign-in takes a role
  that may have changed since it was read (`AccessRules.LateSignInAgreesIff`).
- Two stored rows with the same name and URL both lose the fields their cards do not carry (`ConnectorCards.RenderedCardIsRestoredIff`).
- The context-size clamp is not monotone: an unoffered size below the default is raised to it (`LlmCatalog.SizeRoundsDownIff`).

## Assumptions

- Handlers are atomic steps except where a lemma names the interleaving (the insert race, torn follow-ups, the statements of the
  migration, claims and status updates of workers).
- Clocks do not run backwards. Ids given to new rows are fresh.
- Stored usernames are trimmed and unique ignoring case, as every route that creates one makes them; an untrimmed stored username
  would escape the check on removing one's own access, because entries are looked up by the trimmed name.
- Functions whose code is not modelled are parameters of the operations that call them: the schedule, inference settings,
  supported regions, endpoint, certificate and proxy-URL checks, and what the settings service makes of requested model settings.
- The lease is not negative. A task's dedupe key determines its event: rule ids are unique and long keys are hashed without collision.

## Model

| member | source | states |
|---|---|---|
| `PyText.SpacesByCode` | app/repositories/user_allowlist_repo.py:9-10 | The whitespace characters that strip takes off, by code |
| `PyText.LowerByCode` | app/repositories/user_allowlist_repo.py:9-10 | The letters A to Z become a to z and no other character changes |
| `PyText.RStripCharShape` | app/web.py:1743-1744 | Stripping a character takes every copy of it off the end and nothing else |
| `DelegationRules.CollectLive` | app/repositories/delegation_rule_repo.py:152-183 | The batch loop over an unchanging listing returns exactly the first `limit` rows that are not deleted among those after the first `offset` raw rows, in query order, whatever the batch size and wherever the deleted rows are |
| `DelegationRules.DelegationRuleRepository.List` | app/repositories/delegation_rule_repo.py:48-72 | A page of the visible rules, newest first, is "filter the deleted rows out, then take `limit`" after `offset` raw rows |
| `DelegationRules.ListedAreTheNewest` | app/repositories/delegation_rule_repo.py:48-72 | A listing is newest first, holds only live rules of the asked state that the viewer may read, and from offset 0 leaves out none that is newer than its last, or none at all when it is not full |
| `DelegationRules.DelegationRuleRepository.ListDueRules` | app/repositories/delegation_rule_repo.py:152-183 | The due listing is the first `limit` live due rules by next run; none is archived, locked or disabled |
| `DelegationRules.PageOfDueRules` | app/repositories/delegation_rule_repo.py:152-183 | Rules come by ascending next run, and one that may be taken is left out only behind a full listing |
| `DelegationRules.DueFirstMembers` | app/repositories/delegation_rule_repo.py:152-183 | The due listing holds exactly the rules that are due, each as often as it is stored, by ascending next run |
| `DelegationRules.OrderByIsAPermutation` | app/repositories/delegation_rule_repo.py:48-72 | The ordering used by the listings is ascending and loses and repeats no row |
| `DelegationRules.ConsecutivePagesRepeat` | app/repositories/delegation_rule_repo.py:48-72 | The offset counts raw rows and the limit live ones: pages taken with offsets 0 and `limit` are the first `2 * limit` live rows if and only if no deleted row lies among the first `limit` raw rows or no live row follows them; otherwise the first live row behind those is on both pages |
| `DelegationRules.DelegationRuleRepository.AcquireDueRuleLock` | app/repositories/delegation_rule_repo.py:185-209 | The compare-and-set writes the lease exactly when the rule is enabled, due and unlocked, and reports a lease only for a rule that is not archived; all other rows stay |
| `DelegationRules.DelegationRuleRepository.ReleaseLockAndScheduleNext` | app/repositories/delegation_rule_repo.py:211-218 | Release clears the lock and schedules the next run, touching nothing else |
| `DelegationRules.DelegationRuleRepository.StartRun` | app/services/delegation_rule_service.py:718-728 | A run starts on a rule that exists and is not archived, with the state it then reads; otherwise it is refused with 404 or 409 |
| `DelegationRules.DelegationRuleRepository.RereadRule` | app/services/delegation_rule_service.py:815-816 | After a commit the run has the state the row then has |
| `DelegationRules.DelegationRuleRepository.FinishRun` | app/services/delegation_rule_service.py:815-848 | The write that ends a run clears the lock whoever holds it and stores the state the run last read |
| `DelegationRules.DelegationRuleRepository.AbandonRun` | app/services/delegation_rule_service.py:857-877 | A run that fails clears the lock and reschedules, but stores no state |
| `DelegationRules.EndedRunsAreDueAgainIff` | app/repositories/delegation_rule_repo.py:211-218 | However a run ends the lock is gone and the run time noted, and an enabled rule is due again exactly from the next run scheduled |
| `DelegationRules.LeasedIsDueAgainIff` | app/repositories/delegation_rule_repo.py:185-209 | A leased rule is due again exactly when its lease is over |
| `DelegationRules.DelegationRuleRepository.Update` | app/api/delegation_rules.py:180-191 | A patch is refused for an archived rule before ownership is looked at, and otherwise changes the schedule columns only |
| `DelegationRules.PatchOnTheColumns` | app/services/delegation_rule_service.py:312-322 | Switching off clears the next run and the lock; switching on, or a new schedule of an enabled rule, sets the next run and leaves the lock; an archived rule stays as it is |
| `DelegationRules.DelegationRuleRepository.Archive` | app/api/delegation_rules.py:193-222 | Archiving disables the rule, clears its next run and lock and marks it deleted; a second time it changes nothing |
| `DelegationLeases.AcquisitionsAreALeaseApart` | app/repositories/delegation_rule_repo.py:185-209 | Two acquisitions of a rule with only time and competing workers in between are more than the lease apart by the times their workers noted |
| `DelegationLeases.MutualExclusion` | app/repositories/delegation_rule_repo.py:185-218 | If no worker acquires with a time older than the lease, every holder releases before its own expiry, only holders end runs and nobody switches a held rule off, no two workers ever hold the rule, at any moment of any run |
| `DelegationLeases.AcquireOnTheRow` | app/repositories/delegation_rule_repo.py:185-209 | An acquisition leases the row from the time its worker noted, and hands it over unless it is archived |
| `DelegationLeases.LettingGoOnTheRow` | app/services/delegation_worker.py:42-62 | A release, and the worker's failure path, clear the lock whoever holds it |
| `DelegationLeases.RunsOnTheRow` | app/services/delegation_rule_service.py:718-877 | A run starts on a live rule, reads its mark again after each commit and ends with the mark it last read |
| `DelegationLeases.ApiRunSharesALease` | app/services/delegation_rule_service.py:815-848 | Whenever a run that leased nothing ends while a worker holds the rule, any other worker is given it too once its next run is due |
| `DelegationLeases.SwitchingSharesALease` | app/api/delegation_rules.py:180-191 | Whenever a held rule is switched off and on, any other worker is given it too once its next run is due |
| `DelegationLeases.OutlivedLeaseIsShared` | app/repositories/delegation_rule_repo.py:185-209 | Whenever a holder of a rule that is still due outlives the lease, any other worker is given it too |
| `DelegationLeases.OldNoteSharesALease` | app/services/delegation_worker.py:42-62 | Whenever a worker acquires with a time noted longer ago than the lease, any other worker is given the rule at once |
| `DelegationLeases.ArchivedUntilAStaleFinish` | app/services/delegation_rule_service.py:718-877 | An archived rule stays archived through a run of steps if and only if no run that was in progress, having last read the rule before the archiving, finishes without reading it again |
| `DelegationLeases.ArchivingWithoutARunIsFinal` | app/api/delegation_rules.py:193-222 | Archiving while no run is in progress is never undone |
| `DelegationLeases.ArchivedIsNeverLeasedOrDue` | app/repositories/delegation_rule_repo.py:152-218 | While archived a rule is never leased and never due, even after a holder releases it with a next run |
| `DelegationLeases.StaleFinishUndoesArchiving` | app/services/delegation_rule_service.py:815-848 | Whenever a run starts before the archiving and finishes after it without reading again, the rule is no longer archived and can be enabled and leased again |
| `DelegationEvents.EventTable.CreateEventOrGetExisting` | app/repositories/delegation_rule_repo.py:250-280 | An event is inserted exactly when its (rule, dedupe key) is free; otherwise the row that holds the key comes back and the table is unchanged |
| `DelegationEvents.EventTable.ClaimEventForTaskCreation` | app/repositories/delegation_rule_repo.py:356-390 | The claim succeeds exactly on an event without task that is discovered, failed, or claimed longer ago than the stale window |
| `DelegationEvents.EventTable.UpdateEventStatus` | app/repositories/delegation_rule_repo.py:330-346 | The status update overwrites status, error and task id, the latter also with none |
| `DelegationEvents.DiscoveryOnTheTable` | app/repositories/delegation_rule_repo.py:250-280 | Discovering an item adds an event exactly when no event has its key |
| `DelegationEvents.ClaimOnTheRow` | app/repositories/delegation_rule_repo.py:356-390 | A worker's claim writes exactly what the conditional update writes |
| `DelegationEvents.LookUpOnTheRow` | app/services/delegation_rule_service.py:513-530 | A claimant links its event to the newest task listed for the rule's agent, and creates one only when there is none |
| `DelegationEvents.CreationOnTheTable` | app/services/delegation_rule_service.py:560-602 | A task is created for the agent the rule has then |
| `DelegationEvents.EndOnTheRow` | app/repositories/delegation_rule_repo.py:330-346 | A claimant ends with its task's id on the event, or with a failure and no id |
| `DelegationEvents.OthersOnTheRow` | app/repositories/delegation_rule_repo.py:330-346 | Any other status update overwrites the task id too; a payload update only the time |
| `DelegationEvents.OneEventPerItem` | app/repositories/delegation_rule_repo.py:250-280 | In every interleaving there is at most one event row per (rule, dedupe key) |
| `DelegationEvents.ClaimsAreAWindowApart` | app/repositories/delegation_rule_repo.py:356-390 | Two successful claims of an event with no status update of it between them are more than max(1, stale_after_seconds) apart |
| `DelegationEvents.AtMostOneTaskPerItem` | app/services/delegation_rule_service.py:489-602 | In every run in which claimants finish within the window, nobody else updates an event a worker is on, and an event with a task but no id stays findable, no external item gets two tasks |
| `DelegationEvents.LateClaimantCreatesASecondTask` | app/repositories/delegation_rule_repo.py:356-390 | Whenever a claimant past its lookup outlives its window, the next one gets as far, and both create a task |
| `DelegationEvents.ForeignFailureCreatesASecondTask` | app/services/delegation_rule_service.py:806-812 | Marking an event failed while its claimant is past the lookup has the same effect at once |
| `DelegationEvents.ClaimantCreatesIff` | app/services/delegation_rule_service.py:509-602 | A claimant creates a task if and only if the lookup by dedupe key finds none of the event's tasks; otherwise it links the event to the newest found |
| `DelegationEvents.ClearedIsReached` | app/repositories/delegation_rule_repo.py:250-280 | The states those two start from are reached: an event found, claimed and looked up |
| `DelegationEvents.LostRecordCreatesASecondTaskIff` | app/services/delegation_rule_service.py:599-600 | In any table, the one task of an event whose id was not recorded is found by the next claimant, and a second task is created if and only if meanwhile the rule got another agent or the task a status the lookup leaves out |
| `ProfileMigration.KeeperIsTheFirstMaximum` | alembic/versions/20260925_0036_single_runtime_profile_per_user.py:62-69 | The keeper is the first profile that none outranks by (agents bound, is default, updated) |
| `ProfileMigration.CountBindings` | alembic/versions/20260925_0036_single_runtime_profile_per_user.py:128-131 | The counting loop yields the number of agents bound to each profile |
| `ProfileMigration.CountsAreBindings` | alembic/versions/20260925_0036_single_runtime_profile_per_user.py:128-131 | The dictionary read with default 0 is the number of bindings |
| `ProfileMigration.GroupByOwner` | alembic/versions/20260925_0036_single_runtime_profile_per_user.py:133-135 | The grouping loop yields each owner once, with exactly its profiles in reading order |
| `ProfileMigration.PortalDatabase.Upgrade` | alembic/versions/20260925_0036_single_runtime_profile_per_user.py:126-197 | Each state follows the last by one statement; from intact bindings no state in between has an agent on a missing profile, whether the migration succeeds or stops; it stops exactly when an archive id is taken, and otherwise ends in the specified database |
| `ProfileMigration.PortalDatabase.MarkAndArchive` | alembic/versions/20260925_0036_single_runtime_profile_per_user.py:137-162 | The first phase marks every keeper and archives every other profile |
| `ProfileMigration.PortalDatabase.RebindAgents` | alembic/versions/20260925_0036_single_runtime_profile_per_user.py:170-191 | The second phase rebinds every agent as specified |
| `ProfileMigration.PortalDatabase.DeleteMerged` | alembic/versions/20260925_0036_single_runtime_profile_per_user.py:193-197 | The last phase deletes exactly the archived profiles, to which nobody is bound any more |
| `ProfileMigration.SurvivorsAndArchivePartition` | alembic/versions/20260925_0036_single_runtime_profile_per_user.py:139-197 | Survivors and newly archived rows partition the original profiles, survivors change only their default mark, and every archive row keeps its owner and config and names its owner's keeper |
| `ProfileMigration.OneSurvivorPerOwnerAndTheBest` | alembic/versions/20260925_0036_single_runtime_profile_per_user.py:62-200 | Exactly one profile survives per owner, so the unique index can be built, and no other profile of that owner outranks it |
| `ProfileMigration.AgentsFollowTheirOwner` | alembic/versions/20260925_0036_single_runtime_profile_per_user.py:170-191 | At the end every agent is on its owner's one profile, with that profile's revision applied exactly when it was on it before and zero otherwise; an agent whose owner has none is unbound exactly when its row was merged away; bindings are intact |
| `AgentTasks.AgentTaskTable.ClaimQueuedForDispatch` | app/repositories/agent_task_repo.py:251-263 | The claim succeeds exactly on a row whose stored status is exactly `queued`, and makes it running |
| `AgentTasks.AgentTaskTable.ChainHasActiveTask` | app/api/agent_tasks.py:206-212 | The loop finds whether any task listed under a root is queued or running |
| `AgentTasks.AgentTaskTable.CreateAsync` | app/api/agent_tasks.py:246-289 | The refusals come in the handler's order; a created task is queued, its own root, owned by the assistant's owner, and carries its content as the user task |
| `AgentTasks.CreationRefusals` | app/api/agent_tasks.py:62-72 | Which refusal a creation gets: 400 for a blank field, 404 for an unknown assistant, 403 for somebody else's, 400 for settings or visibility |
| `AgentTasks.NewTaskByColumn` | app/api/agent_tasks.py:246-289 | A new task is its own root, in a session named after it, queued, with its content as the user's task |
| `AgentTasks.PayloadByKey` | app/api/agent_tasks.py:153-184 | A first task carries its content as the user's task, a continued one as a follow-up with the original |
| `AgentTasks.SkillOfATask` | app/api/agent_tasks.py:223-227 | The skill is the column's or, when that names none, the payload's |
| `AgentTasks.AgentTaskTable.FollowUp` | app/api/agent_tasks.py:349-387 | A follow-up is refused for the reasons and in the order of the handler, and otherwise resets the same row |
| `AgentTasks.FollowUpIsAcceptedIff` | app/api/agent_tasks.py:292-388 | A follow-up is accepted if and only if it says something, the task is the user's own async task with a skill, nothing in its chain is queued or running, and the settings are not rejected |
| `AgentTasks.ContinuedByColumn` | app/api/agent_tasks.py:349-388 | The same row is queued again with nothing left of the last dispatch, in its session, with the new content under the original task |
| `AgentTasks.AgentTaskTable.RerunTask` | app/api/agent_tasks.py:390-438 | A rerun resets the same row in a new session with the content last given |
| `AgentTasks.RerunIsAcceptedIff` | app/api/agent_tasks.py:390-413 | A rerun is accepted if and only if the task is the user's own, idle, with a skill and a content to repeat |
| `AgentTasks.RerunByColumn` | app/api/agent_tasks.py:415-440 | The row is queued again in a session of its own with the last follow-up, or the task itself, as content |
| `AgentTasks.FirstOfTheTexts` | app/api/agent_tasks.py:202-204 | Root, original task and the content to repeat are the first of their texts that is not empty, trimmed |
| `AgentTasks.SkillNamesDropLeadingSlashes` | app/api/agent_tasks.py:140-141 | A skill name loses its outer spaces and leading slashes, and nothing else |
| `AgentTasks.RefusalsTellWhoMayAct` | app/api/agent_tasks.py:349-363 | 404 for a task that is missing or somebody's private one, 400 for one that is not async, 403 for somebody else's, 409 for one that is busy or has no skill: each exactly then |
| `AgentTasks.RefusalsComeInOrder` | app/api/agent_tasks.py:292-413 | Blank content is refused before anything else, rejected settings and a missing content after everything else |
| `AgentTasks.AgentTaskTable.Cancel` | app/api/agent_tasks.py:441-470 | Cancelling a queued task ends it, a finished one changes nothing, a running one is left to the dispatcher |
| `AgentTasks.CancellationByTheOwner` | app/api/agent_tasks.py:441-463 | Only the owner cancels: a queued task ends, a running one is the dispatcher's, a finished one stays, each refusal exactly when it applies |
| `AgentTaskRuns.NeverTwoActiveInAChain` | app/api/agent_tasks.py:202-243 | With atomic handlers no run leaves two queued or running tasks under one root, and with flat roots no chain listing ever shows two, if other writers put an active status only over an active row or under an idle root |
| `AgentTaskRuns.SettlingKeepsOneActiveIff` | app/services/task_dispatcher.py:1026-1071 | A status write by the dispatcher keeps the property if and only if it is of that kind; writing `running` over a row finished meanwhile breaks it once the chain was taken up again |
| `AgentTaskRuns.RootsAreChains` | app/repositories/agent_task_repo.py:63-69 | With flat roots the listing of a task's root is exactly the tasks that have this root |
| `AgentTaskRuns.TornFollowUpsActivateTwo` | app/api/agent_tasks.py:349-387 | Two follow-ups that both checked before either wrote leave two active tasks under one root |
| `AgentTaskRuns.NestedRootsShowTwoActive` | app/api/agent_tasks.py:202-212 | When a root has itself another root, two accepted follow-ups leave a listing with two active tasks |
| `AgentTaskRuns.EachQueueWriteIsClaimedOnce` | app/repositories/agent_task_repo.py:251-263 | In every interleaving the successful claims of a task, plus one if it is queued at the end, are at most its writes of `queued`, plus one if it was queued at the start |
| `AgentTaskRuns.OnlyTheOwnerChangesATask` | app/api/agent_tasks.py:84-86 | Through every run in which the steps at a task are follow-ups, reruns and cancellations by others, administrators included, its row never changes |
| `AgentTaskRuns.CreationOnTheTable` | app/api/agent_tasks.py:246-289 | A creation adds its row at the end unless a field is blank or the id is taken |
| `AgentTaskRuns.OtherStepsOnTheTable` | app/repositories/agent_task_repo.py:251-286 | Every other step writes at most the row of its id |
| `AgentTaskRuns.OriginalTaskSurvives` | app/api/agent_tasks.py:153-184 | After any run "original task, else user task" is still the content the task was created with, a rerun would repeat exactly the latest content, and the root id is unchanged |
| `AgentTaskRuns.CreationStartsTheHistory` | app/api/agent_tasks.py:246-289 | A created task is the start of such a history |
| `AgentTaskRuns.FollowUpKeepsAnyOriginal` | app/api/agent_tasks.py:349-387 | A follow-up keeps the original task of every payload, whoever wrote it |
| `AgentTaskRuns.RerunKeepsTheOriginalIff` | app/api/agent_tasks.py:390-438 | A rerun keeps the original task if and only if the payload has a follow-up or does not hold two different texts as user task and original task |
| `AgentTaskRuns.SkillSurvivesAFollowUpIff` | app/api/agent_tasks.py:140-141 | A task's skill survives a follow-up if and only if its stored name does not start with a slash, which normalising can leave behind |
| `SessionMetadata.SessionRegistry.ApplyFields` | app/repositories/agent_session_metadata_repo.py:15-24 | The loop applies the fields in order, ignores unknown ones and leaves a tombstone alone unless reactivation is allowed |
| `SessionMetadata.SessionRegistry.Upsert` | app/repositories/agent_session_metadata_repo.py:64-92 | Also when another session inserts the row between read and commit, the table ends as if the upsert ran after that insert; keys stay unique |
| `SessionMetadata.SessionRegistry.MarkDeleted` | app/repositories/agent_session_metadata_repo.py:94-119 | A missing row becomes a tombstone, a deleted row stays exactly as it is and is reported as already deleted; a tombstone that loses the insert race raises and leaves the winner's row |
| `SessionMetadata.TombstoneAfterApply` | app/repositories/agent_session_metadata_repo.py:15-24 | `deleted_at` after the fields is the old one when it was set and reactivation is not allowed, else the last one asked for |
| `SessionMetadata.UpsertWritesOneRow` | app/repositories/agent_session_metadata_repo.py:64-92 | An upsert writes one row in its place or at the end and leaves every other |
| `SessionMetadata.UpsertOnTheColumns` | app/repositories/agent_session_metadata_repo.py:64-92 | The row has its key, the time, the last metadata asked for and the tombstone the fields may give it |
| `SessionMetadata.LastValueOfAColumn` | app/repositories/agent_session_metadata_repo.py:15-24 | Each text column has the last value the fields give it |
| `SessionMetadata.OtherColumnsStay` | app/repositories/agent_session_metadata_repo.py:15-24 | A column the fields do not name keeps its value |
| `SessionMetadata.DeletionOnTheColumns` | app/repositories/agent_session_metadata_repo.py:94-119 | A deletion stamps the row and its event state, keeps its metadata, other columns and an event type it has; a missing row becomes a blank tombstone |
| `SessionMetadata.TombstonesAreAbsorbing` | app/repositories/agent_session_metadata_repo.py:64-119 | In every run without reactivation there is one row per (agent, session) and a set `deleted_at` never changes |
| `SessionMetadata.DeletingTwice` | app/repositories/agent_session_metadata_repo.py:94-119 | A second deletion changes nothing |
| `SessionMetadata.TheLoserRunsAfterTheWinner` | app/repositories/agent_session_metadata_repo.py:64-92 | An upsert that loses the race against an upsert or a deletion ends in the state of running it after the winner, whose tombstone it keeps |
| `SessionTitles.SessionApi.UpsertSessionMetadata` | app/api/internal_session_metadata.py:19-53 | A publish for a known agent stores the payload with the title read before, also when another session inserts the row meanwhile; for an unknown agent it changes nothing |
| `SessionTitles.SessionApi.UpdateSessionTitle` | app/api/internal_session_metadata.py:56-76 | A title is stripped, refused when blank, and stored among the entries read before, also when another session inserts the row meanwhile |
| `SessionTitles.TitleIsTheLastOneSent` | app/api/internal_session_metadata.py:19-76 | After any run of publishes, title patches, settings writes and deletions the stored title is the last nonblank one sent by either route |
| `SessionTitles.WhatCountsAsATitle` | app/api/internal_session_metadata.py:30-40 | A title counts when it is a string with something besides whitespace in it |
| `SessionTitles.LatePublishKeepsTheTitleIff` | app/api/internal_session_metadata.py:19-53 | When something is written between a publish's read and its commit, the title is the one the register should have if and only if the publish sends its own or the stored title is the one it read |
| `SessionTitles.LosingPublishForgetsTheWinnersTitle` | app/api/internal_session_metadata.py:19-53 | A publish that loses the insert race leaves its own title or none, never the winner's |
| `SessionTitles.LatePatchKeepsItsTitle` | app/api/internal_session_metadata.py:56-76 | A title patch ends with its own title, whatever is written between its read and its commit |
| `SessionTitles.PublishKeepsItsEntries` | app/api/internal_session_metadata.py:19-41 | A publish stores its own entries and, without a title of its own, the stored title and nothing else |
| `SessionTitles.PatchKeepsOtherEntriesIff` | app/api/internal_session_metadata.py:56-76 | A title patch keeps every other entry if and only if the row is not deleted or has no other entry |
| `SessionTitles.PublishReplacesTheRuntimesColumns` | app/api/internal_session_metadata.py:44-53 | A publish replaces every column the runtime owns and leaves the run settings |
| `LiteralParser.ParseStringLiteral` | scripts/i18n_check.py:120-144 | The loop returns what the recursive definition of a literal says, including the error an out-of-range escape raises |
| `LiteralParser.ParserInvertsEverySpelling` | scripts/i18n_check.py:93-144 | For every string and every way of writing its characters (raw, short, `\xXX`, `\uXXXX`, `\u{...}` up to 10FFFF) the parser returns that string and the index past the closing quote |
| `LiteralParser.ShortEscapesInNumbers` | scripts/i18n_check.py:47 | A backslash before n, t or r is read as 10, 9 or 13, before any other character but x and u as that character |
| `LiteralParser.BrokenHexIsTheLetter` | scripts/i18n_check.py:93-137 | An x or u behind a backslash that starts none of the three hex escapes is read as that letter |
| `LiteralParser.UnterminatedLiteralIsNone` | scripts/i18n_check.py:120-144 | A literal that the line or the text ends in the middle of is none |
| `LiteralParser.NoQuoteNoLiteral` | scripts/i18n_check.py:120-123 | There is no literal where no quote stands |
| `LiteralParser.HexDigitsAreTheTable` | scripts/i18n_check.py:90 | The hexadecimal digits and their values, in both cases, are those of the table of sixteen |
| `LiteralParser.OnlyTheTableIsHex` | scripts/i18n_check.py:90 | No other character is a digit |
| `LiteralParser.EveryCodePointCanBeSpelled` | scripts/i18n_check.py:93-117 | Every code point has a braced spelling and, within range, the fixed-width ones |
| `LiteralParser.OutOfRangeEscapeRaises` | scripts/i18n_check.py:93-117 | A braced escape above 10FFFF makes the parser raise wherever it stands |
| `KeyExtractor.SkipArgument` | scripts/i18n_check.py:147-176 | The loop stops where the recursive definition says |
| `KeyExtractor.CharactersByCode` | scripts/i18n_check.py:73-176 | Whitespace, brackets and quotes are the characters of these codes |
| `KeyExtractor.FindsTheCommaAfterTheArgument` | scripts/i18n_check.py:147-176 | Behind an argument of any nesting, with literals and template strings of any content, the top-level comma is the one found |
| `KeyExtractor.NoCommaWhenItBreaksOff` | scripts/i18n_check.py:147-176 | An argument that the text, its line, the call's bracket, or an open template or literal ends before a top-level comma has none |
| `KeyExtractor.SimpleCallYieldsItsKey` | scripts/i18n_check.py:179-218 | A call with a literal, spaced and spelled in any way and followed by a comma or parenthesis, yields the text the literal spells |
| `KeyExtractor.ComposedKeyIsRefused` | scripts/i18n_check.py:79-90 | A literal followed by anything else is refused |
| `KeyExtractor.WhatCannotBeRead` | scripts/i18n_check.py:179-203 | A plain call without a literal and a plural call without a comma are reported; a bad escape in either makes the extractor raise |
| `KeyExtractor.NoArgumentIsProse` | scripts/i18n_check.py:190-193 | A call with nothing but whitespace in it is passed over |
| `KeyExtractor.ComposedSingularIsRefused` | scripts/i18n_check.py:208-211 | A plural call is reported when anything but a comma follows its first form |
| `KeyExtractor.ComposedPluralIsRefused` | scripts/i18n_check.py:212-215 | Or when neither a comma nor a parenthesis follows its second |
| `KeyExtractor.MissingPluralIsRefused` | scripts/i18n_check.py:204-217 | Or when its second form is no literal |
| `KeyExtractor.MissingSingularIsRefused` | scripts/i18n_check.py:204-207 | Or when its first form is none |
| `KeyExtractor.PluralCallYieldsBothForms` | scripts/i18n_check.py:179-218 | A plural call with a count of any shape yields both spelled forms joined |
| `Placeholders.UnfilledTokensAreTheText` | app/i18n.py:93-102 | Reading a text as tokens loses and invents nothing |
| `Placeholders.InterpolateFillsTheTokens` | app/i18n.py:93-102 | Interpolation, with its short cut, always fills the tokens |
| `Placeholders.ValuesAreNeverRescanned` | app/i18n.py:93-102 | The value put in for a placeholder is never scanned again, and what stands around it is filled on its own |
| `Placeholders.NamesAreTheWrittenOnes` | scripts/i18n_check.py:236-237 | The placeholders of a text are exactly the braced names written in it, wherever they stand |
| `Placeholders.NameCharactersByCode` | app/i18n.py:38 | A name is a letter or underscore and then letters, digits and underscores |
| `Placeholders.NothingWrittenNothingFilled` | app/i18n.py:93-102 | A text in which no braced name is written is left as it is |
| `Placeholders.CoveredIffNothingLeftToFill` | scripts/i18n_check.py:236-237 | Parameters cover the placeholders if and only if no further parameter could change the rendering |
| `Catalogues.CheckCatalogues` | scripts/i18n_check.py:240-263 | The loops report exactly the problems of the keys in use in all locales, and exactly the unused entries |
| `Catalogues.ProblemsOfAKey` | scripts/i18n_check.py:247-259 | What is reported of a key: that it is missing, the placeholders its translation adds, and those it drops; a plural may add n |
| `Catalogues.TheLastUseDecides` | scripts/i18n_check.py:244 | Of several uses of one text the last says whether it is plural |
| `Catalogues.NoErrorsMeansEveryKeyPasses` | scripts/i18n_check.py:240-263 | No error is reported if and only if every key in use passes in every locale |
| `Catalogues.CheckedPluralRendersFully` | app/i18n.py:112-118 | A plural key of a passing catalogue renders with no placeholder unfilled and nothing left that a further parameter could change, for every count and all parameters covering the English key but the `n` the count gives |
| `Catalogues.PluralRendersTheFormOfTheCount` | app/i18n.py:112-118 | The catalogue's entry for both forms, else the English form for the count; the count fills n unless the caller gives one |
| `Catalogues.PlainLookupFallsBackToTheKey` | app/i18n.py:105-109 | The catalogue's entry when it says something, else the English key |
| `Catalogues.EnglishPluralRendersFully` | app/i18n.py:112-118 | Without a translation the English forms render as fully under the same parameters |
| `Catalogues.CheckedKeyRendersFullyIff` | app/i18n.py:105-109 | What `translate` returns for a plain key of a passing catalogue leaves nothing to fill under any covering parameters, if and only if its translation has no `{n}` that was let in because the same text is also a plural key |
| `Catalogues.PlainUseOfAPluralTextIsNotCovered` | scripts/i18n_check.py:240-263 | One text used both ways passes the check and leaves `{n}` unfilled in the plain use |
| `InlineJson.FivePassesAreOne` | app/i18n.py:158-171 | The five replacements never disturb one another: they are one pass |
| `InlineJson.NothingAffectedIsLeft` | app/i18n.py:158-171 | No `<`, `>`, `&`, U+2028 or U+2029 is left |
| `InlineJson.AffectedByCode` | app/i18n.py:158-171 | The five characters are those with codes 26, 3C, 3E, 2028 and 2029 in hexadecimal |
| `InlineJson.InliningPreservesMeaningIff` | app/i18n.py:158-171 | A JSON text reads as the same characters and strings as before if and only if its affected characters lie only inside strings (section 7 of RFC 8259) |
| `InlineJson.ReadsPlainText` | app/i18n.py:158-171 | The JSON reader takes a string of ordinary characters for their codes |
| `InlineJson.LexesInOrder` | app/i18n.py:158-171 | It takes a text for its strings and other characters, in order |
| `InlineJson.ShortEscapesByCode` | app/i18n.py:158-171 | It knows the eight short escapes of section 7 of RFC 8259 and no other |
| `InlineJson.ReadsShortEscape` | app/i18n.py:158-171 | A short escape reads as its character; an unknown one makes the text bad |
| `InlineJson.ReadsUnicodeEscape` | app/i18n.py:158-171 | A four-digit escape reads as its value |
| `ConnectorCards.BuildUniqueIndex` | app/web.py:1745-1759 | The index holds exactly the keys that one stored row has, each with that row |
| `ConnectorCards.OnlyRowIsTheOnlyOne` | app/web.py:1745-1759 | The indexed row is found exactly when no other row has its key |
| `ConnectorCards.SettingsParseInstances` | app/web.py:1733-1821 | The loops over cards and fields yield the merged cards, with the stored row looked up by name and URL, else name, else URL |
| `ConnectorCards.FoundRowSharesTheIdentity` | app/web.py:1773-1796 | A stored row is used for a card only if it is the single row with the card's original name and URL, or name, or URL |
| `ConnectorCards.OwnRowIsFoundIff` | app/web.py:1773-1796 | A stored row is found under its own name and URL if and only if no other row has both |
| `ConnectorCards.KeysAreTriedInTurn` | app/web.py:1773-1796 | The only row with name and URL, else the only one with the name, else the only one with the URL |
| `ConnectorCards.RowsAreHitByTheirTexts` | app/web.py:1742-1743 | Rows are compared by their normalised texts, and a blank key is nobody's |
| `ConnectorCards.IdentitiesIgnoreClosingSlashes` | app/web.py:1743-1744 | Identities are compared without outer spaces, closing slashes and case |
| `ConnectorCards.CountsNoNegativeCards` | app/web.py:1761-1765 | As many cards are read as the form says, and none when it says nothing or a negative number |
| `ConnectorCards.AmbiguousOrNewCardInheritsNothing` | app/web.py:1773-1818 | A brand-new card and one whose identity belongs to no row or to several inherit nothing |
| `ConnectorCards.EditsArrive` | app/web.py:1811-1818 | What is typed into a field that is not cleared is what is stored, whatever was stored before |
| `ConnectorCards.ClearedFieldsAreBlank` | app/web.py:1811-1818 | A ticked clear box leaves the field blank, whatever is stored or typed |
| `ConnectorCards.AbsentFieldsAreInheritedIff` | app/web.py:1811-1818 | A field the form does not carry is the found row's when it is to be kept, and blank otherwise |
| `ConnectorCards.TheSwitchIsItsBox` | app/web.py:1808-1810 | The switch is its own box, and a card has exactly the connector's fields |
| `ConnectorCards.NamedKeepsOrder` | app/web.py:1819-1821 | The cards with a name or a URL are kept, in order |
| `ConnectorCards.RenderedCardIsRestoredIff` | app/web.py:1733-1821 | An unedited card, with its kept fields posted prefilled or left out, comes back with every field of its row if and only if no other row shares name and URL or nothing it has to keep was left out |
| `ConnectorCards.UneditedPageKeepsEverythingIff` | app/web.py:1733-1821 | Saving a page nobody edited gives back every stored row in its place, passwords included, if and only if that holds for every row |
| `AwsCards.SettingsParseAwsAccounts` | app/web.py:1826-1871 | The account cards are accepted or refused with the first fault of the first faulty card, down to the first unsupported region |
| `AwsCards.AccountsPassIff` | app/web.py:1858-1871 | The rows pass if and only if each has a twelve-digit number and only supported regions and no two names are equal ignoring case |
| `AwsCards.AccountsAnswers` | app/web.py:1834-1871 | The first card that needs a name, else the first fault of the rows, refuses the form; otherwise the rows are the merged cards |
| `AwsCards.FaultOfAnAccount` | app/web.py:1859-1870 | Which fault a row has: its number, its repeated name, or its first unsupported region |
| `AwsCards.NumberByCode` | app/schemas/runtime_profile.py:742-751 | An account number is twelve digits, trimmed |
| `AwsCards.TheFirstFaultIsRefused` | app/web.py:1858-1871 | The first row with a fault is the one refused |
| `AwsCards.RegionsBetweenSeparators` | app/web.py:918-922 | Regions stand between commas and whitespace |
| `AwsCards.ParseAwsEksClusterCards` | app/web.py:1874-1896 | The cards are trimmed and the empty ones dropped, in order |
| `AwsCards.SettingsParseAwsEksClusters` | app/web.py:1899-1939 | The cards are validated in order against the listed accounts, and refused at the first fault |
| `AwsCards.KnownAreTheListed` | app/web.py:1909-1914 | The known keys are exactly the names and numbers of listed accounts |
| `AwsCards.ClustersAcceptedIff` | app/web.py:1915-1939 | The cards are accepted if and only if each passes and no two share (account key, region, cluster) |
| `AwsCards.TheFirstBadRowIsRefused` | app/web.py:1916-1938 | The first row that does not pass or repeats an earlier one is refused by its place and reason |
| `AwsCards.OwnFaults` | app/web.py:1916-1934 | Which reason a row is refused for, in the order the fields are looked at |
| `AwsCards.FilledCardsKeepOrder` | app/web.py:1885-1896 | The cards with anything typed in are read, trimmed and in order |
| `AwsCards.AcceptedClustersResolve` | app/web.py:1899-1939 | Every accepted row belongs to a listed account, by name or number, and has a cluster and an endpoint |
| `AwsCards.ClusterListedTwiceIff` | app/web.py:1920-1938 | Two accepted rows stand for the same cluster of one account, that is of the listed cards with one number, if and only if one gives the number and the other such a card's name, or they give different names of such cards |
| `AwsCards.SameClusterByNameAndNumberIsAccepted` | app/web.py:1920-1938 | A pair by name and number is accepted |
| `AwsCards.SameClusterByTwoNamesIsAccepted` | app/web.py:1920-1938 | A pair by the names of two listed cards with one number is accepted |
| `AwsCards.SettingsAwsDefaultAccountOk` | app/web.py:1942-1956 | The default account is accepted if and only if it is blank or the name or number of a listed account |
| `ProxyCards.ProxyRowsError` | app/web.py:1444-1461 | The loop reports the first fault of the first faulty card |
| `ProxyCards.RowsPassIff` | app/web.py:1444-1461 | The cards pass if and only if every name and URL is usable and names are unique ignoring case |
| `ProxyCards.FaultOfACard` | app/web.py:1450-1460 | Which fault a card has, given the cards before it |
| `ProxyCards.UsableNamesByCode` | app/schemas/runtime_profile.py:476-484 | A usable name is up to 64 letters and digits, and behind the first also hyphens and underscores |
| `ProxyCards.TheFirstFaultIsReported` | app/web.py:1450-1461 | The first card with a fault is the one reported |
| `ProxyCards.ProxySectionFromForm` | app/web.py:1524-1572 | The section, or the first reason to refuse it with the cards, default and choices as posted |
| `ProxyCards.EveryChoiceIsShownAgain` | app/web.py:1533-1547 | A refusal shows again exactly the connectors for which something was chosen |
| `ProxyCards.ChoicesAcceptedIff` | app/web.py:1557-1572 | The assignments are accepted if and only if each nonblank one is "none" or the exact name of a card |
| `ProxyCards.TheLastChoiceDecides` | app/web.py:1557-1572 | The last nonblank choice of a connector decides: none in any case is direct, anything else the proxy of that name |
| `ProxyCards.FirstBadChoiceIsNamed` | app/web.py:1557-1572 | The first choice that is neither is refused by connector and name |
| `ProxyCards.SectionAnswers` | app/web.py:1549-1572 | The first reason to refuse, or the section with the switch, the cards, the default asked for or the first name, and the choices |
| `ProxyCards.StoredSectionHasNoDanglingReference` | app/web.py:1513-1572 | A stored section has unique usable names, a default among them when there are cards, and only assignments that are direct or among them |
| `ProxyCards.AProxyNamedNoneCannotBeAssigned` | app/web.py:1558-1569 | A proxy may be called "none", but no connector can be assigned to it |
| `AccessControl.AccessStore.Ensure` | app/repositories/user_allowlist_repo.py:60-83 | An entry is added, reactivated or given the role, as asked |
| `AccessControl.AccessStore.CreateUser` | app/api/users.py:56-78 | Refused for an unusable or taken name; otherwise entry and account with the role |
| `AccessControl.AccessStore.AddToAllowlist` | app/api/users.py:135-159 | Refused for an active entry; otherwise entry and account of that name get the role |
| `AccessControl.AccessStore.AddBulkToAllowlist` | app/api/users.py:162-196 | The loop splits the names into added and already allowlisted |
| `AccessControl.AccessStore.RemoveFromAllowlist` | app/api/users.py:199-232 | The entry goes unless it is the bootstrap administrator's, the caller's own or the last administrator's |
| `AccessControl.AccessStore.UpdateUser` | app/api/users.py:235-273 | The role changes in both tables unless a guard refuses |
| `AccessControl.AccessStore.RevokeUserAccess` | app/api/users.py:286-296 | Removal of the entry under the account's name |
| `AccessControl.AccessStore.EnsureConfiguredAccess` | app/services/access_control_service.py:34-60 | Startup grants the configured names and establishes the bootstrap administrator |
| `AccessTables.EnsureTouchesOneName` | app/repositories/user_allowlist_repo.py:60-83 | After `ensure` the name is granted with the right role and activity; every other name is granted as before |
| `AccessRules.AccessTouchesOneName` | app/api/users.py:37-53 | Giving access sets the role of the entry and of the account under that one name |
| `AccessRules.CreationGivesAccess` | app/api/users.py:56-78 | A created account and its active entry have the role asked for; every other name is as before |
| `AccessRules.CreationAnswers` | app/api/users.py:56-78 | Which answer a creation gets, from the name and the accounts alone; a refusal changes nothing |
| `AccessRules.AddingAnswers` | app/api/users.py:135-159 | A name that is not let in yet is let in with the role asked for, its account gets that role, and a new entry says who added it; a bad name or one let in already is refused |
| `AccessRules.BulkAllowlistsEveryName` | app/api/users.py:162-196 | Afterwards every name is allowlisted: those that were are only listed as such and keep their entry, the others are added with the role asked for |
| `AccessRules.BulkLeavesOtherNames` | app/api/users.py:162-196 | A name the request does not contain keeps its entry and is on neither list |
| `AccessRules.BulkAnswers` | app/api/users.py:162-196 | A request with no name, more than 200, or one too short or too long changes nothing; any other answers with the names added and those found, in order |
| `AccessRules.UpdateReachesBothTables` | app/api/users.py:235-273 | A role change reaches the account and its entry together and nothing else |
| `AccessRules.UpdateAnswers` | app/api/users.py:235-273 | Which guard refuses a role change: only taking administration away is refused, for the bootstrap name, oneself, or the last administrator |
| `AccessRules.RemovalAnswers` | app/api/users.py:199-232 | Which guard refuses a removal, by the name of the entry and its account |
| `AccessRules.RevocationAnswers` | app/api/users.py:286-296 | A revocation is the removal of the active entry of the account's name, if it has one |
| `AccessRules.RevocationRevokes` | app/api/users.py:286-296 | A revoked account has no entry and is no effective administrator; every other name is as before |
| `AccessRules.RequestKeeps` | app/api/users.py:56-296 | Every request keeps everybody's effective administration except its target's, and keeps role agreement wherever it held, new accounts included |
| `AccessRules.TargetIsAnother` | app/api/users.py:199-273 | The target is never the caller nor the bootstrap administrator |
| `AccessRules.AdministrationSurvivesARequest` | app/api/users.py:56-296 | The calling administrator and an effective bootstrap administrator stay effective |
| `AccessRules.LastAdministratorGuardIsNeverReached` | app/api/users.py:199-262 | For an effective administrator the "at least one administrator" guard never decides |
| `AccessRules.StartupReturnsAnEffectiveAdministrator` | app/services/access_control_service.py:34-60 | Startup returns an account if and only if it has a name and a password or an administrator of that name, and that account is an effective administrator |
| `AccessRules.StartupKeepsAdministrators` | app/services/access_control_service.py:34-60 | Startup takes administration from nobody |
| `AccessRules.StartupBreaksAgreementIff` | app/services/access_control_service.py:34-60 | Startup breaks the agreement of an account if and only if it is an administrator without entry whose name is configured and who is not the bootstrap administrator |
| `AccessRules.SignInKeeps` | app/services/external_login_service.py:36-62 | An account created at sign-in takes the role of its entry; nothing else changes |
| `AccessRules.SignInAnswers` | app/services/external_login_service.py:36-62 | A name without an account gets one, with the role of its entry or as a member; any other sign-in changes nothing |
| `AccessRules.PromptSignIn` | app/services/external_login_service.py:49-62 | With nobody in between a sign-in that reads and inserts separately is the plain one |
| `AccessRules.LosingSignInTakesTheWinnersAccount` | app/services/external_login_service.py:52-64 | A sign-in that finds its name taken when it inserts ends where signing in after the winner would, whoever the winner is: with the tables unchanged and the winner's account |
| `AccessRules.LateSignInAgreesIff` | app/services/external_login_service.py:52-59 | An account created at sign-in agrees with the entry that stands when it is inserted if and only if there is none or its role is the one read before |
| `AccessControl.AccessStore.ProvisionExternalUser` | app/services/external_login_service.py:36-66 | The account of the name, created with the role of its entry if there is none, or the one somebody else inserted meanwhile |
| `AccessRules.AnAdministratorAlwaysExists` | app/services/access_control_service.py:62-70 | From tables with an effective administrator every run of requests by anyone, sign-ins and startups leaves one; a bootstrap administrator stays itself |
| `AccessRules.OnlyAdministratorsAreHeard` | app/services/access_control_service.py:62-70 | Only an administrator whom the allowlist lets in is heard |
| `AccessRules.AgreementSurvivesRuns` | app/api/users.py:37-296 | Between startups, roles and entries that agree everywhere agree everywhere after any run |
| `ConfiguredNames.ConfiguredAllowlistUsernames` | app/services/access_control_service.py:14-22 | The loop yields the distinct nonblank names of the pieces |
| `ConfiguredNames.SplitAtASeparator` | app/services/access_control_service.py:17 | A separator keeps its two sides apart and a text without one is a single piece |
| `ConfiguredNames.SeparatorsByCode` | app/services/access_control_service.py:17 | The separators are the comma, the semicolon and the line feed |
| `ConfiguredNames.CleanedNamesThePieces` | app/services/access_control_service.py:14-22 | The names are exactly those some piece spells |
| `ConfiguredNames.CleanedIsNormalAndDistinct` | app/services/access_control_service.py:14-22 | They are normalised, nonblank and distinct |
| `ConfiguredNames.NamesKeepTheirOrder` | app/services/access_control_service.py:14-22 | Each stands where it first appeared |
| `LlmCatalog.ModelRegistry.RegisterCatalogModels` | app/contracts/llm_catalog.py:166-198 | The new catalog is a function of the arguments alone; it is known exactly when it lists a model; registered windows are positive and listings nonempty |
| `LlmCatalog.ModelRegistry.ClearCatalogModels` | app/contracts/llm_catalog.py:219-223 | Clearing forgets everything |
| `LlmCatalog.RegisteredIffSpelled` | app/contracts/llm_catalog.py:178-186 | A key has a window if and only if a usable row spells it |
| `LlmCatalog.TheLastUsableRowDecides` | app/contracts/llm_catalog.py:178-186 | The last usable row that spells a key decides its window |
| `LlmCatalog.TheLastListingDecides` | app/contracts/llm_catalog.py:187-196 | The last row that lists something for a key decides its levels |
| `LlmCatalog.UnlistedKeysHaveNoLevels` | app/contracts/llm_catalog.py:187-196 | A key that no row with a listing spells has no levels of its own |
| `LlmCatalog.ModelsAreTheIds` | app/contracts/llm_catalog.py:172-176 | The known models are the nonblank ids, trimmed and lower-cased |
| `LlmCatalog.WordsByName` | app/contracts/llm_catalog.py:187-196 | A text names a level in any case and between any spaces |
| `LlmCatalog.UsableAreTheWords` | app/contracts/llm_catalog.py:187-196 | A registered listing has exactly the nonblank words of its texts, trimmed and lower-cased |
| `LlmCatalog.OptionsAreALadder` | app/contracts/llm_catalog.py:295-307 | The offered sizes strictly increase, are the presets within the window and its end, and for a known window end at min(window, 1,000,000) |
| `LlmCatalog.WindowOfAModel` | app/contracts/llm_catalog.py:282-292 | The registered window for Copilot only, else 1,000,000 for a bundled model, else none |
| `LlmCatalog.RegisteredWindowBoundsTheSizes` | app/contracts/llm_catalog.py:282-307 | A Copilot model is offered sizes up to the window of the last usable row of its catalog, at most 1,000,000 |
| `LlmCatalog.NoRequestGetsTheDefault` | app/contracts/llm_catalog.py:310-333 | A request that is no number gets 256,000 when offered, else the greatest size below it, else the least |
| `LlmCatalog.DefaultIsClosest` | app/contracts/llm_catalog.py:310-316 | The default is the greatest offered size within 256,000, else the least |
| `LlmCatalog.EffectiveSizeIsSound` | app/contracts/llm_catalog.py:319-333 | For every registered catalog the effective size is offered, never above a known window, and stable when reapplied |
| `LlmCatalog.SizeRoundsDownIff` | app/contracts/llm_catalog.py:319-333 | The effective size is the greatest offered one within the request if and only if the request is offered or at least the default; it exceeds the request if and only if neither |
| `LlmCatalog.LevelsOffered` | app/contracts/llm_catalog.py:336-350 | A model offers exactly the supported levels its row lists, or all five when it lists none of them, in order |
| `LlmCatalog.LevelsOfAModel` | app/contracts/llm_catalog.py:336-350 | The listing counts for Copilot only |
| `LlmCatalog.ModelRegistry.EffectiveReasoningEffort` | app/contracts/llm_catalog.py:353-373 | For any requested text the two searching loops find the greatest offered level within the one it names (medium for any other text), else the least offered |
| `LlmCatalog.WantedByName` | app/contracts/llm_catalog.py:361-363 | A text that names a level asks for it, any other for medium |
| `LlmCatalog.LevelClampIsAMonotoneRetraction` | app/contracts/llm_catalog.py:353-373 | The effective level is determined, keeps an offered request, is stable when reapplied, and is monotone |

## Left out

- Kubernetes, the HTTP and WebSocket proxy, single sign-on, git and the templates: I/O around the modelled state.
- Passwords, audit rows, display names and title derivation: written beside the modelled columns and read by none of them.
- `POST /api/agent-tasks`: it accepts any status and root id, so the chain property does not cover the tasks it creates.
- The dispatcher's own bookkeeping beside the status, such as request ids and results: no property speaks of it.
- The summary listing of rules: it runs the same batch loop over other columns.
- The single-URL branch of the proxy form: it copies stored assignments and relies on a sanitizer that is not modelled.
- The Default Connections reader of the same cards, which keeps no stored value and so has nothing to preserve.
- Table and column creation, the index statement and the downgrade of revision 0036: only rows are modelled.
- Sorting of the checker's report and of the catalog's ids: results are sets or follow the order of the input.
- Walking the source tree, the check for untranslated characters and writing catalogues: file handling around the modelled scanner.
- Lower-casing of letters outside A to Z, and digits outside 0 to 9 in account numbers: Python's tables are not reproduced.
- Pairing of UTF-16 surrogate escapes: `InlineJson` compares the escapes before pairing, which pairing cannot tell apart.
- JSON parsing of stored columns: columns are structured values, with unreadable text as a case of its own.
- DelegationRules.DelegationRuleRepository.List: rows with equal sort keys come in table order, where the database leaves the order open.
