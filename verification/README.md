# Ask AI cores, modelled and proved

A Dafny 4.11 project about the parts of the regulatory assistant that carry state, loops or
arithmetic. Each part has a model in the form of its source and theorems about it. Code that
works step by step is a class or a method with loops, proved equal to a specification on
values; the theorems are about that specification. `dafny verify dfyconfig.toml` checks
everything.

| part | files | what is modelled |
|---|---|---|
| Legacy backfill | `LegacyBackfill*.dfy` | two tables, batches in id order after a cursor, rollback of one batch on drift, repair of session bounds, the verification scans, series of interrupted runs |
| Optimistic turns | `Turn*.dfy` | a query cache with paged views and records, the operations begin, reconcile, markUnsynced and retry, the merged view |
| Task graph | `TaskGraph.dfy` | graph construction and the depth-first search that goes on after a cycle |
| Event reconciliation | `Event*.dfy`, `Ordering.dfy` | grouping, sorting, conflicts, near-duplicates |
| Live evidence | `Live*.dfy` | retries, screening, admission, deduplication, accounting, terminal state |
| Claim verification | `Claim*.dfy` | span checks, token coverage, outcomes, the two-pass loop, a partial result constructor |
| Confidence | `Confidence*.dfy` | weighted means, ceilings, gates and labels over the reals |
| Paging | `Keyset.dfy`, `ManualDocumentSearch*.dfy`, `FederatedSearch*.dfy` | cursors, look-ahead, the cursor predicate, result groups |
| Rate limiter | `RateLimiter.dfy` | the per-key deque and whole runs of calls |

The files named `*Outcome*`, `EventContents.dfy`, `LiveDecisions.dfy` and `ConfidenceResults.dfy`
say what the main operations answer in the columns of their inputs and outputs, without the
vocabulary of the model. `Foundations.dfy` holds shared vocabulary. Every lemma turns automatic
induction off; where a proof is by induction the recursive call is written out.

How primitives appear. Name-based identifiers (section 5.5 of RFC 9562) and digests are free
constructors or injective by being the value they digest. Base64 and JSON cursors are tokens.
Case folding, white-space normalisation, collation, host parsing and calendars are functions
that the theorems quantify over. Model and connector calls are arbitrary replies. Decimal and
binary floats are reals, so a rounded copy of a score in a result equals the exact one, and
dictionaries that only repeat result fields are dropped. Database rows are finite maps or
sequences; a query's filters are one opaque row predicate.

Five results are about where a plausible claim stops being true. Each comes with a concrete
input and an exact condition.

* Tables without drift can still make a backfill raise: an ordinary session may hold a
  deterministic identifier (`NoDriftDoesNotPreventRaising`).
  `UnlimitedRunRaisesExactlyOnConflict` and `LimitedRunRaisesExactlyOnConflict` give the
  exact conditions.
* A turn that was already cached when `begin` runs is recorded as synced without an overlay,
  so another page set of the session does not show it until it is fetched there
  (`RacedBeginCanHideTheTurn`). `RacedBeginShownExactly` gives the exact condition.
* A section score lies between its claims' scores only when something carries coverage; with
  none it falls below the lowest of them (`NoCoverageFallsBelowLowest`).
  `SectionScoreBetweenExactly` gives the exact condition.
* Coverage is a weight as well as a dimension, so weaker inputs do not always give weaker
  scores: less coverage on one claim can lift its section's score, the overall score and even
  the overall label (`LessCoverageCanRaise`). It never lifts a claim or the label of a section,
  nor the overall label when all sections are critical (`WorseInputsNeverRaise`).
  `OneClaimFallsExactly` and `SectionScoresFallExactly` give the exact conditions on claims for
  a section, `OneClaimFallsOverallExactly` and `OneSectionFallsExactly` for the overall score;
  when no section gains, nothing overall rises (`NoSectionGains`). `OverallLabelRisesExactly`
  says when a higher overall score also lifts the label.
* A second verification pass that fails after a correction raises instead of returning,
  because its failure result carries one attempt together with a correction
  (`SecondTimeoutRaises`). `RaisesExactly` gives the exact condition.

## Model

| member | source | states |
|---|---|---|
| LegacyBackfillTheorems.RunsRefineOneShot | apps/api/backend/ask/backfill.py:330-418 | After any series of runs with any batch sizes, limits and cursors, some of which may raise or be refused, a last run that returns and leaves nothing pending has produced exactly the one-shot assignment of the first tables, session bounds included; `OneShotExactly` says what that is, column by column. |
| LegacyBackfillTheorems.RunsKeepOneShot | apps/api/backend/ask/backfill.py:575-660 | Every series of runs keeps the one-shot outcome of the tables, so an interrupted run can always be resumed. |
| LegacyBackfillTheorems.BatchKeepsOneShot | apps/api/backend/ask/backfill.py:204-377 | Committing one compatible batch, whatever rows it holds, leaves the one-shot outcome of the tables unchanged, although it writes bounds from its own rows only. |
| LegacyBackfillTheorems.RepairKeepsOneShot | apps/api/backend/ask/backfill.py:380-418 | Repairing session bounds early or twice leaves the one-shot outcome unchanged. |
| LegacyBackfillTheorems.FurtherRunChangesNothing | apps/api/backend/ask/backfill.py:595-645 | Once nothing is pending, a further run selects no row, writes nothing and only reports the verification. |
| LegacyBackfillVerification.UnlimitedRunRaisesExactlyOnConflict | apps/api/backend/ask/backfill.py:302-377 | An unlimited run raises if and only if some pending row above its cursor conflicts, by its own columns or by the session at its deterministic identifier; otherwise it updates every pending row above the cursor. |
| LegacyBackfillVerification.LimitedRunRaisesExactlyOnConflict | apps/api/backend/ask/backfill.py:595-634 | A run limited to some batches raises if and only if a conflicting row is among the first `batches * size` pending rows above its cursor; otherwise it updates exactly those. |
| LegacyBackfillVerification.RunsOnlyFill | apps/api/backend/ask/backfill.py:344-377 | Over every series of runs no row disappears, no message is added, no non-null identity and no other message column changes, and existing sessions keep everything but their bounds. |
| LegacyBackfillVerification.BatchesConserve | apps/api/backend/ask/backfill.py:595-634 | Rows updated plus rows still pending equal the rows pending before, sessions created account exactly for the growth of the session table, and a limited run stays within its batches. |
| LegacyBackfillVerification.FullRunEndsValid | apps/api/backend/ask/backfill.py:575-660 | From tables without drift in which every session id names a session, a full run that returns is complete: drift 0, valid, backfilled equals legacy, updated equals initially pending. |
| LegacyBackfillVerification.OneShotDriftFree | apps/api/backend/ask/backfill.py:462-563 | The one-shot assignment of drift-free tables is drift-free and backfills exactly the legacy messages, with the same set of legacy messages before and after. |
| LegacyBackfillVerification.NoDriftExactly | apps/api/backend/ask/backfill.py:462-563 | The drift counter is 0 if and only if, row by row, every legacy message agrees with its identities, owner and event and every legacy session is expected, sits at its own identifier and carries the marker. |
| LegacyBackfillVerification.PreviewPredictsRun | apps/api/backend/ask/backfill.py:421-459 | The preview's pending count is what a full run updates, and its sessions to create exceed the sessions created by exactly the expected sessions that exist without the marker. |
| LegacyBackfillVerification.NoDriftDoesNotPreventRaising | apps/api/backend/ask/backfill.py:302-327 | Concrete tables without drift on which a full run still raises, because an ordinary session holds a deterministic identifier. |
| LegacyBackfillOutcome.RunsComplete | apps/api/backend/ask/backfill.py:330-418 | After any series of runs, a last run that returns and leaves no null identity has completed the first tables, column by column: identities filled, sessions added and bounds set exactly as `Completes` spells out. |
| LegacyBackfillOutcome.OneShotExactly | apps/api/backend/ask/backfill.py:204-418 | The one-shot assignment is the only table that completes the first one: which identities, which sessions with which owner, event, title, status and marker, and which bounds. |
| LegacyBackfillOutcome.RunSetsBounds | apps/api/backend/ask/backfill.py:380-418 | After any run that returns, a legacy session with messages starts at its first and ends at its last one, both attained, and the last message is the end; every other session was there before with the same bounds. |
| LegacyBackfillOutcome.RepairSetsBounds | apps/api/backend/ask/backfill.py:390-417 | The repair gives a legacy session with messages exactly their bounds and changes nothing else. |
| LegacyBackfillOutcome.RunAnswersExactly | apps/api/backend/ask/backfill.py:575-660 | A request is refused exactly outside its limits; a run raises exactly when it gets to a conflicting row; otherwise it fills exactly the rows it gets to and reports their number, the last of them and its state. |
| LegacyBackfillOutcome.MessageCountersExactly | apps/api/backend/ask/backfill.py:185-202 | Each counter of the message scan is the number of rows of which its condition, written on the columns, holds. |
| LegacyBackfillOutcome.SessionCountersExactly | apps/api/backend/ask/backfill.py:421-563 | Each counter of the session scan, the drift they add up to, what makes the tables valid, and the preview. |
| LegacyBackfillStore.Store.CandidateSessions | apps/api/backend/ask/backfill.py:204-225 | One candidate session for each scope of the batch, with the first and last time of its own rows. |
| LegacyBackfillStore.Store.InsertSessions | apps/api/backend/ask/backfill.py:227-284 | Afterwards the table holds its old rows unchanged and every candidate whose identifier was free, as the candidate was; the returned ids are exactly the new ones, and their number is the table's growth. |
| LegacyBackfillStore.Store.SessionsDisagree | apps/api/backend/ask/backfill.py:285-326 | Reports drift exactly when some session of the batch has another owner, event or marker. |
| LegacyBackfillStore.Store.EnsureSessions | apps/api/backend/ask/backfill.py:204-327 | Adds exactly the missing sessions, counts them, and reports drift exactly when the sessions of the batch disagree. |
| LegacyBackfillStore.Store.BackfillBatch | apps/api/backend/ask/backfill.py:330-377 | Applies one batch exactly as the batch step on values does, or reports the drift that rolls it back. |
| LegacyBackfillStore.Store.ReconcileSessionTimestamps | apps/api/backend/ask/backfill.py:380-418 | Afterwards every legacy session with messages begins with the first and ends with the last of them, and nothing else has changed. |
| LegacyBackfillStore.Store.BatchTransaction | apps/api/backend/ask/backfill.py:595-630 | One turn of the loop as a transaction: on drift the tables are those from before this batch, and earlier batches stay. |
| LegacyBackfillStore.Store.RunBatchLoop | apps/api/backend/ask/backfill.py:595-630 | The loop over the mutable tables computes the batched run on values, from any cursor and under any limit. |
| LegacyBackfillStore.Store.RunBackfill | apps/api/backend/ask/backfill.py:575-660 | A whole run on the mutable tables gives the outcome and the tables of the run on values. |
| LegacyBackfillCounters.CountMessages | apps/api/backend/ask/backfill.py:462-518 | The message scan's counters are the sizes of the sets of rows they are meant to count, and the expected identifiers are those of all legacy messages. |
| LegacyBackfillCounters.CountSessions | apps/api/backend/ask/backfill.py:520-563 | The session scan yields the legacy sessions, their metadata mismatches and their duplicates by scope. |
| LegacyBackfillCounters.VerifyBackfill | apps/api/backend/ask/backfill.py:462-563 | The two scans together compute the verification that the theorems are about. |
| LegacyBackfillCounters.PreviewBackfill | apps/api/backend/ask/backfill.py:421-459 | The preview computed by scanning equals its definition on sets. |
| TaskGraph.BuildGraph | scripts/agent_os_compliance/validators/tasks.py:26-43 | The graph's nodes are the task ids, each with an edge to a dependency if and only if its last row names it, it does not start with `B-`, and it is a task's name or an epic's that some task's name extends; the nodes are listed once each, in the order of their first rows. |
| TaskGraph.CycleSearch.Visit | scripts/agent_os_compliance/validators/tasks.py:52-62 | Terminates on every graph because the unvisited nodes shrink; keeps the visiting set as the path of open calls, every reported node on a cycle, and every edge of a finished node finished earlier or reported. |
| TaskGraph.CycleSearch.VisitAll | scripts/agent_os_compliance/validators/tasks.py:64-65 | After all nodes, reported nodes lie on cycles and every cycle holds a reported node. |
| TaskGraph.ClosesCycle | scripts/agent_os_compliance/validators/tasks.py:52-55 | Meeting a node that is being visited closes a cycle through it. |
| TaskGraph.EveryCycleIsReported | scripts/agent_os_compliance/validators/tasks.py:49-65 | Once every node is finished, every cycle contains a reported node. |
| TaskGraph.CheckCycles | scripts/agent_os_compliance/validators/tasks.py:26-66 | Circular dependencies are reported if and only if the task graph has a cycle. |
| RateLimiter.TokenBucket.Check | apps/api/backend/api/ratelimit.py:13-24 | One call evicts the key's old entries in place, then records the call or refuses it, exactly as the value model of the limiter does; other keys keep their entries. |
| RateLimiter.NeverMoreThanLimit | apps/api/backend/api/ratelimit.py:7-24 | Under a non-decreasing clock, every closed interval of the window's length holds at most `limit` accepted calls of a key. |
| RateLimiter.AcceptedExactlyBelowLimit | apps/api/backend/api/ratelimit.py:13-24 | A call is accepted if and only if fewer than `limit` accepted calls of its key lie in the closed window that ends now, although old entries have been evicted. |
| RateLimiter.RefusedExactlyWhenFull | apps/api/backend/api/ratelimit.py:16-22 | A call is refused if and only if the window that ends now holds exactly `limit` accepted calls. |
| RateLimiter.KeysAreIndependent | apps/api/backend/api/ratelimit.py:10-24 | Calls of other keys, however interleaved, never change a decision. |
| TurnReconciler.UpsertPersistedTurn | apps/web/lib/ask-ai-reconciliation.ts:332-388 | The flat map over the pages with its shared `replaced` flag computes the upsert on values. |
| TurnReconciler.MergeResearchTurns | apps/web/lib/ask-ai-reconciliation.ts:424-444 | Filling the id map, overlaying the records and sorting computes the merged view on values. |
| TurnReconciler.ResearchTurnReconciler.Begin | apps/web/lib/ask-ai-reconciliation.ts:463-513 | Begin on the mutable cache gives the outcome and the whole cache of the step on values, refusals included. |
| TurnReconciler.ResearchTurnReconciler.UpdatePersistedTurnCaches | apps/web/lib/ask-ai-reconciliation.ts:390-422 | Rewrites every cached page set of the session and no other, and says whether all of them retained the turn. |
| TurnReconciler.ResearchTurnReconciler.Reconcile | apps/web/lib/ask-ai-reconciliation.ts:515-556 | Reconcile on the mutable cache gives the outcome and the whole cache of the step on values. |
| TurnReconciler.ResearchTurnReconciler.MarkUnsynced | apps/web/lib/ask-ai-reconciliation.ts:558-597 | Marking on the mutable cache gives the outcome and the whole cache of the step on values. |
| TurnReconciler.ResearchTurnReconciler.Retry | apps/web/lib/ask-ai-reconciliation.ts:599-638 | Retry on the mutable cache gives the outcome and the whole cache of the step on values. |
| TurnReconciliationTheorems.UpsertEffect | apps/web/lib/ask-ai-reconciliation.ts:332-388 | After an upsert the turn is in the pages exactly once when it was retained and absent otherwise; all other turns keep their order and multiplicity. |
| TurnReconciliationTheorems.UpsertKeepsPages | apps/web/lib/ask-ai-reconciliation.ts:354-388 | For a non-empty page set the page count, cursors and page parameters stay, and every page keeps its other turns in order. |
| TurnReconciliationTheorems.UpsertIdempotent | apps/web/lib/ask-ai-reconciliation.ts:332-388 | A second upsert of the same turn changes nothing. |
| TurnReconciliationTheorems.MergedViewEffect | apps/web/lib/ask-ai-reconciliation.ts:424-444 | Every merged view is sorted, free of duplicate ids, and shows exactly the ids of its pages and of the records' overlays. |
| TurnReconciliationRuns.RunKeepsRecords | apps/web/lib/ask-ai-reconciliation.ts:446-638 | Over every sequence of operations the records stay schema-valid, sorted and unique by key and turn, none is removed, none changes its key, turn or session, and synced stays synced. |
| TurnReconciliationRuns.StepKeepsRecords | apps/web/lib/ask-ai-reconciliation.ts:463-638 | Each single operation keeps that invariant and every record. |
| TurnReconciliationRuns.SyncedRecordAlwaysValid | apps/web/lib/ask-ai-reconciliation.ts:304-330 | Once the persisted match passes, the record that reconcile builds satisfies the record schema, retained or not. |
| TurnReconciliationRuns.RefusedChangesNothing | apps/web/lib/ask-ai-reconciliation.ts:457-638 | A refused operation leaves records and pages untouched. |
| TurnReconciliationRuns.OtherScopesUntouched | apps/web/lib/ask-ai-reconciliation.ts:220-252 | Operations of one owner and session change nothing that belongs to another. |
| TurnVisibility.RecordShownExactly | apps/web/lib/ask-ai-reconciliation.ts:424-444 | Over any pages, a record's turn is shown exactly once if and only if the record is saving or unsynced, carries an overlay, or the pages hold the turn. |
| TurnVisibility.RunShowsRecordsExactly | apps/web/lib/ask-ai-reconciliation.ts:424-638 | The same after any sequence of operations, in every cached page set: in particular every saving or unsynced turn is shown exactly once. |
| TurnVisibility.ReconcileShowsPersistedTurn | apps/web/lib/ask-ai-reconciliation.ts:515-556 | After reconcile, the merged view of every cached page set of the session shows the persisted turn itself, once, whether the page kept it or only the overlay does. |
| TurnVisibility.ReconciledTurnStaysVisible | apps/web/lib/ask-ai-reconciliation.ts:446-638 | A reconciled turn is shown exactly once in every such view after any further sequence of operations. |
| TurnVisibility.RacedBeginShownExactly | apps/web/lib/ask-ai-reconciliation.ts:463-513 | A turn that was already cached when begin ran is shown in a page set if and only if that page set itself holds it; otherwise every view shows it. |
| TurnVisibility.RacedBeginCanHideTheTurn | apps/web/lib/ask-ai-reconciliation.ts:463-513 | A concrete cache with two page sets of one session on which begin succeeds and only one of the two views shows the turn. |
| TurnOutcomes.RetryExactly | apps/web/lib/ask-ai-reconciliation.ts:599-638 | Retry answers with the stored record of the key and makes exactly the unsynced and saving records of that key saving, without code, persistence or overlay; a synced one stays; each refusal has its condition. |
| TurnOutcomes.MarkUnsyncedExactly | apps/web/lib/ask-ai-reconciliation.ts:558-597 | Marking answers with the stored record of the key, which is unsynced with exactly this code; all other records stay; each refusal has its condition. |
| TurnOutcomes.BeginAnswersExactly | apps/web/lib/ask-ai-reconciliation.ts:463-490 | Begin accepts exactly a valid input of this session whose key is known with the same turn, or whose key and turn are both new; each refusal has its condition and changes nothing. |
| TurnOutcomes.BeginStoresExactly | apps/web/lib/ask-ai-reconciliation.ts:492-513 | A new record is saving, or synced exactly when its turn is on a cached page, and joins the others in order of time and key; a known key changes nothing. |
| TurnOutcomes.ReconcileAnswersExactly | apps/web/lib/ask-ai-reconciliation.ts:515-540 | Reconcile accepts exactly a valid turn that is the first record of the key come back; each refusal has its condition and changes nothing. |
| TurnOutcomes.ReconcileStoresExactly | apps/web/lib/ask-ai-reconciliation.ts:541-556 | Every record of the key becomes the synced one, with the persisted turn as overlay exactly when some page set has no room for it; the other records stay. |
| TurnOutcomes.ReconcilePagesExactly | apps/web/lib/ask-ai-reconciliation.ts:390-422 | The turn is upserted into every page set of the session and no other, or into a first one of size 20 when there is none. |
| TurnOutcomes.UpsertExactly | apps/web/lib/ask-ai-reconciliation.ts:332-388 | An upsert takes the place of the first turn of its id, drops its repetitions, or goes to the end when the last page is the end, and is retained exactly then. |
| TurnOutcomes.ViewExactly | apps/web/lib/ask-ai-reconciliation.ts:424-444 | The merged view shows the last turn of each id on the pages, else the first that a record adds, by time and at the same time by id. |
| TurnOutcomes.RecordSchemaExactly | apps/web/lib/ask-ai-reconciliation.ts:80-146 | What a saving, an unsynced and a synced record may carry. |
| TurnOutcomes.OptimisticExactly | apps/web/lib/ask-ai-reconciliation.ts:29-68 | An optimistic turn is anchored by its user message, may hold an assistant message of the same event, and claims no run. |
| TurnOutcomes.RecordsExactly | apps/web/lib/ask-ai-reconciliation.ts:227-237 | The records of an owner and session are those stored for both, or none. |
| TurnOutcomes.MatchExactly | apps/web/lib/ask-ai-reconciliation.ts:304-330 | A persisted turn matches exactly when turn, user message, content, event and any assistant message are the same. |
| EventReconciler.ReconcileInternalLiveEvents | apps/api/backend/ask/event_reconciliation.py:294-339 | Grouping in a dictionary, reconciling each group, marking and sorting computes the result on values. |
| EventReconciler.MarkNearDuplicates | apps/api/backend/ask/event_reconciliation.py:546-580 | The index lists and the in-place replacement mark exactly the events that the value model marks. |
| EventReconciler.GroupByFingerprint | apps/api/backend/ask/event_reconciliation.py:308-310 | The dictionary holds, for exactly the fingerprints that occur, their origins in input order. |
| EventReconciler.ReconcileFingerprintGroup | apps/api/backend/ask/event_reconciliation.py:351-443 | One group becomes the event on values, the loop that keeps first occurrences included; its sources are exactly those of its views. |
| EventReconciliationTheorems.ReorderingChangesNothing | apps/api/backend/ask/event_reconciliation.py:294-339 | Any permutation of the input origins gives the same result: same events, order, identifiers, conflicts and status. |
| EventReconciliationTheorems.OriginsInTheirEvent | apps/api/backend/ask/event_reconciliation.py:351-398 | An event shows an origin if and only if their fingerprints match, in the origin's own provenance lane. |
| EventReconciliationTheorems.OriginsConserved | apps/api/backend/ask/event_reconciliation.py:308-339 | The views of all events add up to the number of origins: every origin is shown once. |
| EventReconciliationTheorems.ConflictExactlyOnDisagreement | apps/api/backend/ask/event_reconciliation.py:446-543 | An event carries a conflict on a field if and only if two of its origins disagree on the compared value. |
| EventReconciliationTheorems.PartialExactlyOnDisagreement | apps/api/backend/ask/event_reconciliation.py:312-339 | The result is partial if and only if two origins of one fingerprint disagree on a compared field. |
| EventReconciliationTheorems.NearDuplicatesExactly | apps/api/backend/ask/event_reconciliation.py:546-580 | Marking keeps every event in place and marks a standalone event if and only if another standalone event shares its near key. |
| EventReconciliationTheorems.EventsAlwaysValid | apps/api/backend/ask/event_reconciliation.py:213-262 | Every event of a result passes the checks of the event model. |
| EventReconciliationTheorems.EventsDistinct | apps/api/backend/ask/event_reconciliation.py:285-287 | No fingerprint, and so no event identifier, occurs twice in a result. |
| EventReconciliationTheorems.ResultAlwaysValid | apps/api/backend/ask/event_reconciliation.py:176-291 | Whatever the origins, a built result passes the checks of the conflict, event and result models: event shapes, distinct observations and identifiers, a status that fits the events, distinct notes. |
| EventContents.EstablishedExactly | apps/api/backend/ask/event_reconciliation.py:368-372 | An event has an established status exactly when some origin establishes one and all that do agree up to normalisation; it is the stripped status of one of them. |
| EventContents.ReportedExactly | apps/api/backend/ask/event_reconciliation.py:373-377 | The reported statuses are one for every normalised status of the live origins, in order of these. |
| EventContents.DateExactly | apps/api/backend/ask/event_reconciliation.py:378-388 | An event has a date exactly when its dated origins agree on the instant, and a semantic exactly when they agree on theirs; both are one of theirs. |
| EventContents.DisplayExactly | apps/api/backend/ask/event_reconciliation.py:389-413 | Key, label and type are those of the first origin: official before live, then by identifier. |
| EventContents.ViewsExactly | apps/api/backend/ask/event_reconciliation.py:583-597 | The views of an event show exactly its origins, column by column, each in its own lane. |
| EventContents.EntitiesExactly | apps/api/backend/ask/event_reconciliation.py:410-410 | The entities are those of the origins, each once, in order. |
| EventContents.NamesExactly | apps/api/backend/ask/event_reconciliation.py:399-415 | Each lane is ordered by identifier, and the names of event and conflict are made of the fingerprint and the origins in that order. |
| EventContents.FieldsExactly | apps/api/backend/ask/event_reconciliation.py:446-524 | What is compared on each field and what an observation of it shows. |
| EventContents.ConflictsShowOrigins | apps/api/backend/ask/event_reconciliation.py:525-543 | Conflicts come in the order of the fields, and each shows, in the order of the origins, what every origin with the field says. |
| EventContents.KindExactly | apps/api/backend/ask/event_reconciliation.py:390-398 | Conflicting, exact duplicate and near duplicate, each by its own condition; near duplicates are the single origins of which another event tells the same story. |
| EventContents.NearGroupExactly | apps/api/backend/ask/event_reconciliation.py:546-580 | Near duplicates name their story and exactly the events that tell it. |
| EventContents.OutcomeExactly | apps/api/backend/ask/event_reconciliation.py:294-339 | What is refused, the status, each note by its condition, and the order of the events: by instant, undated last, then by key and name. |
| EventContents.OrderedUniqueExactly | apps/api/backend/ask/event_reconciliation.py:632-639 | The list without repetition keeps the first occurrence of every value, in order. |
| LiveDeduplication.Deduplicate | apps/api/backend/ask/live_intelligence.py:1121-1178 | The loop over the key index computes the deduplication on values. |
| LiveDeduplication.RetainedIsMergedGroup | apps/api/backend/ask/live_intelligence.py:1121-1178 | Every item is assigned to exactly one retained item, which is the fold of its group starting with the head; the rejections are exactly those of the items that are not heads, in input order. |
| LiveDeduplication.SourcesConserved | apps/api/backend/ask/live_intelligence.py:1145-1168 | The multiset of sources behind the retained items is that of all items. |
| LiveDeduplication.HeadsAndLinks | apps/api/backend/ask/live_intelligence.py:1127-1170 | A head agrees with no earlier item in its folded address, its digest, or publisher and title up to case and white space; an absorbed item agrees in one of them with an earlier item of its own group. |
| LiveDeduplication.LeastGroupTakesItem | apps/api/backend/ask/live_intelligence.py:1127-1170 | An item starts a group if and only if nothing before it carries one of its keys; otherwise it goes to the least of the groups that last took its keys. |
| LiveDeduplication.BridgedGroupsStayApart | apps/api/backend/ask/live_intelligence.py:1127-1170 | Concrete items of which the third shares keys with two groups: it joins the first and the two stay apart, so a shared key does not mean a shared group. |
| LiveDeduplication.ChainToHead | apps/api/backend/ask/live_intelligence.py:1136-1170 | Every absorbed item is linked to its head by a chain of shared keys inside its group. |
| LiveDeduplication.HeadsInInputOrder | apps/api/backend/ask/live_intelligence.py:1138-1143 | Retained items appear in the input order of their heads. |
| LiveDeduplication.ShareKeyExactly | apps/api/backend/ask/live_intelligence.py:1127-1135 | Two items share a key exactly when their folded addresses, their digests, or publisher and title up to case and white space are equal. |
| LiveDeduplication.TwoPublishersStayApart | apps/api/backend/ask/live_intelligence.py:1127-1150 | Concrete items of two publishers with one headline: both are retained. |
| LiveDeduplication.RetainedHoldsGroup | apps/api/backend/ask/live_intelligence.py:1151-1168 | A retained item is its head with the sources of the whole group, one after another, and the identifiers of those it absorbed. |
| LiveConnector.RunConnector | apps/api/backend/ask/live_intelligence.py:910-972 | The retry loop, with its returns inside the attempt and in both handlers, computes the run on values. |
| LiveConnector.RunStopsExactly | apps/api/backend/ask/live_intelligence.py:917-972 | A run stops at the first final reply or at the third attempt, sleeps once between attempts for 50 and then 100 milliseconds, and nothing else fits that description. |
| LiveConnector.RunPayloadIsValid | apps/api/backend/ask/live_intelligence.py:923-948 | Whatever a provider sends, the payload handed on names that provider and meets the payload contract. |
| LiveConnector.TransientOnlyAfterAllAttempts | apps/api/backend/ask/live_intelligence.py:953-970 | A run ends with a retryable timeout or outage if and only if all three attempts failed that way. |
| LiveIntelligence.ExecuteLiveIntelligence | apps/api/backend/ask/live_intelligence.py:602-798 | Request check, rate check, screening, the runs, admission, deduplication and terminal state, in loops, compute the execution on values. |
| LiveIntelligence.Preflight | apps/api/backend/ask/live_intelligence.py:637-696 | The screening loop yields exactly the outcomes and rejections of the blocked providers and the connectors that may run. |
| LiveIntelligence.CollectRuns | apps/api/backend/ask/live_intelligence.py:698-755 | The loops over runs and items yield exactly each provider's outcome, admitted evidence and rejections. |
| LiveAccounting.CountsBalance | apps/api/backend/ask/live_intelligence.py:637-798 | Admitted counts sum to the evidence plus the duplicate rejections; rejections are those of screening, of the providers and of deduplication, and only screening ones name no item. |
| LiveAccounting.EveryProviderReportedOnce | apps/api/backend/ask/live_intelligence.py:637-755 | Past the request and rate checks each selected provider has exactly one outcome and nobody else has any. |
| LiveAccounting.TerminalStateExactly | apps/api/backend/ask/live_intelligence.py:757-798 | Each terminal state is characterised by the provider outcomes alone: evidence exactly for satisfied or partial, no match exactly when every provider had none, and so on. |
| LiveAccounting.ResultAlwaysValid | apps/api/backend/ask/live_intelligence.py:493-517 | The result contract never rejects what an execution builds. |
| LiveAccounting.AdmittedExactlyWhenAdmissible | apps/api/backend/ask/live_intelligence.py:975-1009 | An item passes the ordered admission checks if and only if it meets all of them at once. |
| LiveAccounting.SourcesAreExactlyAdmissibleItems | apps/api/backend/ask/live_intelligence.py:637-798 | The sources behind the returned evidence are exactly the admissible items of the final payloads of ready providers, through retry, admission and merging. |
| LiveDecisions.RunExactly | apps/api/backend/ask/live_intelligence.py:910-972 | A run ends at the first reply that is no passing failure, or at the third, after pauses of 50 and 100 ms, and is credited with what that reply stands for. |
| LiveDecisions.RequestExactly | apps/api/backend/ask/live_intelligence.py:248-340 | Which requests are accepted, written on their columns. |
| LiveDecisions.RefusalsExactly | apps/api/backend/ask/live_intelligence.py:602-641 | A bad request and one beyond 10 searches a minute or 3 in flight are refused with their codes; all others are executed. |
| LiveDecisions.ScreenExactly | apps/api/backend/ask/live_intelligence.py:646-704 | A provider runs when it is connected, enabled, entitled, truly named and secure; the first of these that fails decides code and reason. |
| LiveDecisions.WindowExactly | apps/api/backend/ask/live_intelligence.py:1012-1047 | Each time window in microseconds. |
| LiveDecisions.RejectionExactly | apps/api/backend/ask/live_intelligence.py:975-1009 | An item is rejected for the first of twelve things that is wrong with it, and admitted exactly when none is. |
| LiveDecisions.ItemsExactly | apps/api/backend/ask/live_intelligence.py:733-755 | Every item of a payload is handed on as it is or rejected by name and reason, in order. |
| LiveDecisions.OutcomesExactly | apps/api/backend/ask/live_intelligence.py:719-770 | The outcome and lists of a blocked provider, of a failed run, and of one with items. |
| LiveDecisions.CodesExactly | apps/api/backend/ask/live_intelligence.py:757-798 | Code and disclosure of every terminal state, and what makes evidence partial. |
| LiveDecisions.StatesExactly | apps/api/backend/ask/live_intelligence.py:757-798 | Each terminal state, read off the outcomes of the providers. |
| LiveDecisions.PayloadExactly | apps/api/backend/ask/live_intelligence.py:374-397 | What a payload may say. |
| LiveDecisions.ContractExactly | apps/api/backend/ask/live_intelligence.py:493-517 | What a result may say. |
| ClaimTokens.JoinedTokens | apps/api/backend/ask/claim_verification.py:739-741 | Joining span texts with spaces neither splits, merges nor adds a token. |
| ClaimVerification.ValidPropositions | apps/api/backend/ask/claim_verification.py:700-741 | Accepts if and only if all spans are exact substrings, in order and disjoint, evidence is cited and quoted exactly, and all material tokens are covered with multiplicity. |
| ClaimVerification.ParseProviderOutput | apps/api/backend/ask/claim_verification.py:646-697 | Turns a reply into an attempt with the weakest normalised outcome and a confidence that is the least of its propositions' and one of them, or into nothing, as on values. |
| ClaimVerification.RunPasses | apps/api/backend/ask/claim_verification.py:394-504 | The two-pass loop over text, evidence, attempts and correction computes the passes on values. |
| ClaimVerification.ExecuteClaimVerification | apps/api/backend/ask/claim_verification.py:347-504 | The whole verification, including the early failures, computes the verification on values, where construction of an invalid result raises. |
| ClaimVerificationTheorems.SpansCoverTheClaim | apps/api/backend/ask/claim_verification.py:739-741 | The tokens of the separate accepted spans, taken together, contain every material token of the claim with multiplicity. |
| ClaimVerificationTheorems.SpansFitTheClaim | apps/api/backend/ask/claim_verification.py:700-720 | Accepted spans never overlap, so together they are no longer than the claim. |
| ClaimVerificationTheorems.SupportedExactly | apps/api/backend/ask/claim_verification.py:744-776 | A claim counts as supported if and only if every proposition is supported at or above the threshold of the claim's risk. |
| ClaimVerificationTheorems.ContradictedExactly | apps/api/backend/ask/claim_verification.py:744-776 | The outcome is contradiction if and only if some proposition is contradicted at 0.90 or above. |
| ClaimVerificationTheorems.GroundedProseIsSound | apps/api/backend/ask/claim_verification.py:394-504 | Grounded prose is returned only after at most two judged passes, with all final propositions supported, tokens and evidence within the original claim's, a matching release and latency within budget. |
| ClaimVerificationTheorems.PublishedExactly | apps/api/backend/ask/claim_verification.py:839-863 | Among returned results, grounded prose is exactly the supported ones whose release names this provider and whose latency is within budget. |
| ClaimVerificationTheorems.HistoryIsFaithful | apps/api/backend/ask/claim_verification.py:394-504 | The attempts of a returned result judge the original claim first and then at most one recorded correction that narrows it, after an unsupported first pass. |
| ClaimVerificationTheorems.RaisesExactly | apps/api/backend/ask/claim_verification.py:411-455 | No result is returned if and only if the first pass led to an admissible correction and the second pass timed out, raised or was unusable. |
| ClaimVerificationTheorems.SecondTimeoutRaises | apps/api/backend/ask/claim_verification.py:411-455 | Concrete contract-valid replies, a correction that narrows and then a timeout, on which no result is returned. |
| ClaimVerificationTheorems.FailureStateExactly | apps/api/backend/ask/claim_verification.py:405-490 | The state of a returned result names what happened: timeouts and outages are exactly those of the first pass, and invalid output means an unusable first reply or a correction that does not narrow. |
| ClaimOutcomes.AttemptExactly | apps/api/backend/ask/claim_verification.py:744-776 | The attempt of a usable reply: each of the four outcomes by the thresholds of its propositions, and the least of their confidences. |
| ClaimOutcomes.UsableExactly | apps/api/backend/ask/claim_verification.py:646-669 | Which replies are usable. |
| ClaimOutcomes.PayloadExactly | apps/api/backend/ask/claim_verification.py:173-204 | The contract of a reply: numbering, sizes, and when it may ask for a correction. |
| ClaimOutcomes.PropositionExactly | apps/api/backend/ask/claim_verification.py:107-170 | The contract of a proposition, outcome by outcome. |
| ClaimOutcomes.PropositionHoldsExactly | apps/api/backend/ask/claim_verification.py:708-738 | A proposition holds exactly when all its spans quote claim and evidence character by character and it cites allowed evidence only. |
| ClaimOutcomes.SpanTextsAre | apps/api/backend/ask/claim_verification.py:707-720 | The texts whose tokens are counted are those of the spans, in order. |
| ClaimOutcomes.CorrectionExactly | apps/api/backend/ask/claim_verification.py:779-790 | A correction narrows: another text, some tokens, none more often than in the claim, and no new evidence. |
| ClaimOutcomes.WordsExactly | apps/api/backend/ask/claim_verification.py:793-798 | The words of a text are its maximal runs of word characters, in order. |
| ClaimOutcomes.TokensExactly | apps/api/backend/ask/claim_verification.py:793-798 | The tokens are the folded words without the five connectives. |
| ClaimOutcomes.RefusalsExactly | apps/api/backend/ask/claim_verification.py:352-385 | What is returned before the first pass. |
| ClaimOutcomes.FirstPassExactly | apps/api/backend/ask/claim_verification.py:394-504 | How the first pass ends, with every column of the result and its reason. |
| ClaimOutcomes.SecondPassExactly | apps/api/backend/ask/claim_verification.py:394-504 | How the second pass ends: with both attempts, the correction and a reason, or not at all. |
| ClaimOutcomes.ContractExactly | apps/api/backend/ask/claim_verification.py:298-331 | What a result may say. |
| Confidence.HighGateFailures | apps/api/backend/ask/confidence.py:431-451 | A gate is listed if and only if it fails, in the order of the gates, and nothing is listed exactly when the claim passes every gate. |
| Confidence.CalculateClaim | apps/api/backend/ask/confidence.py:303-341 | The final score is the point of 0..100 nearest to the base score less the penalties, and the final label is the best one that this score, both ceilings, the High gates and the hard unknowns allow. |
| Confidence.CalculateConfidence | apps/api/backend/ask/confidence.py:260-300 | The accumulating loops compute the whole result on values for every valid request and refuse every other. |
| ConfidenceTheorems.ResultsInRange | apps/api/backend/ask/confidence.py:217-249 | Every score of every valid request lies in 0..100, so the result contracts never reject. |
| ConfidenceTheorems.SectionScoreBetweenExactly | apps/api/backend/ask/confidence.py:356-371 | A section score lies between its lowest and highest claim score if and only if some claim has coverage or the lowest score is 0. |
| ConfidenceTheorems.NoCoverageIsUnknown | apps/api/backend/ask/confidence.py:356-371 | A section whose claims carry no coverage is Unknown. |
| ConfidenceCoverage.NoCoverageFallsBelowLowest | apps/api/backend/ask/confidence.py:356-371 | A concrete valid request whose only claim scores 80 without coverage, while its section scores 24. |
| ConfidenceTheorems.SectionLabelExactly | apps/api/backend/ask/confidence.py:356-375 | A section's label is that of its weakest claim when some claim carries coverage, and Unknown otherwise: with coverage, its own score never lowers its label. |
| ConfidenceTheorems.WorseInputsNeverRaise | apps/api/backend/ask/confidence.py:303-428 | More penalties, hard unknowns, critical sections or strict reasons, and weaker evidence, coverage or ceilings, never raise a claim's score or label or a section's label, nor the overall label when all sections are critical; with the coverage kept, nor any section or overall score or label. |
| ConfidenceCoverage.LessCoverageCanRaise | apps/api/backend/ask/confidence.py:350-428 | Two valid requests that differ only in one claim's coverage, which falls: its section's score rises from about 73.3 to 82, the overall score rises, and the overall label goes from Medium to High. |
| ConfidenceCoverage.OneClaimFallsExactly | apps/api/backend/ask/confidence.py:350-371 | When one claim falls in score or coverage, the section's mean does not rise, and neither does its score, if and only if inequalities hold between that claim and the total coverage and weighted sum of the others. |
| ConfidenceCoverage.SectionScoresFallExactly | apps/api/backend/ask/confidence.py:350-371 | The same for any number of claims at once, on two valid requests: no better inputs leave a section's score where it was or lower if and only if the cross-multiplied sums say so or no coverage is left. |
| ConfidenceCoverage.StrongClaimOnlyLowers | apps/api/backend/ask/confidence.py:350-371 | A claim that still scores at least the mean of the others never raises its section when it falls. |
| ConfidenceCoverage.OneSectionFallsExactly | apps/api/backend/ask/confidence.py:350-411 | When no better inputs change the claims of one section only, the overall score does not rise if and only if that section gains nothing by its cross-multiplied sums, whatever its importance and whether it is critical or not. |
| ConfidenceCoverage.OneClaimFallsOverallExactly | apps/api/backend/ask/confidence.py:350-411 | When one claim of a valid request is replaced by one that is no better, the request stays valid and the overall score does not rise if and only if the inequality between that claim and the others of its section holds. |
| ConfidenceCoverage.NoSectionGains | apps/api/backend/ask/confidence.py:350-428 | When no section gains by its sums, however many claims fall, neither the overall score nor the overall label rises. |
| ConfidenceCoverage.OverallLabelRisesExactly | apps/api/backend/ask/confidence.py:389-428 | No better inputs raise the overall label if and only if the overall score comes to reach the threshold of a label that every claim of the critical sections, all of them with coverage, and under strict reasons every claim, still has. |
| ConfidenceTheorems.WeightsApplyExactly | apps/api/backend/ask/confidence.py:306-310 | The base score lies between any bounds of the six dimensions, and each dimension moves it by exactly its own weight. |
| ConfidenceTheorems.PenaltiesAddUp | apps/api/backend/ask/confidence.py:311-311 | Penalty points do not depend on listing order, and one more penalty costs exactly its own points. |
| ConfidenceTheorems.ClaimHighExactly | apps/api/backend/ask/confidence.py:307-323 | A claim is High if and only if it scores 80, passes every gate, has no hard unknown and both ceilings are High. |
| ConfidenceTheorems.OverallHighExactly | apps/api/backend/ask/confidence.py:389-428 | The overall label is High if and only if the overall score reaches 80, all claims of all critical sections are fully High, and under strict reasons all claims are; section scores need no condition of their own. |
| ConfidenceResults.RequestExactly | apps/api/backend/ask/confidence.py:169-214 | Which requests are accepted: no name twice, a critical section, and claims and sections that cover one another. |
| ConfidenceResults.ClaimContractExactly | apps/api/backend/ask/confidence.py:94-134 | Which claims are accepted. |
| ConfidenceResults.PointsExactly | apps/api/backend/ask/confidence.py:311-311 | The six penalties cost 25, 20, 15, 10, 10 and 5 points. |
| ConfidenceResults.ClaimColumns | apps/api/backend/ask/confidence.py:303-341 | Every column of a claim's result, with weights, limits and thresholds as numbers. |
| ConfidenceResults.SectionColumns | apps/api/backend/ask/confidence.py:344-386 | Every column of a section's result. |
| ConfidenceResults.OverallColumns | apps/api/backend/ask/confidence.py:389-428 | Every column of the overall result; the label is the best that its score and the claims allow. |
| ConfidenceResults.SumsExactly | apps/api/backend/ask/confidence.py:356-371 | Totals and weighted sums add up, one weight and one product for every element. |
| ConfidenceResults.MembersExactly | apps/api/backend/ask/confidence.py:344-355 | The claims of a section are those of its names, in its order. |
| ManualDocumentSearchTheorems.KeysAgree | apps/api/backend/ask/manual_document_search.py:175-188 | The sort key recomputed from a returned item is the key the query sorted its row by, over all combinations of missing dates. |
| ManualDocumentSearchTheorems.CursorRoundTrip | apps/api/backend/ask/manual_document_search.py:374-430 | A cursor decodes to the key and day it was made for, under its own filters and no others. |
| ManualDocumentSearchTheorems.ListingIsExact | apps/api/backend/ask/manual_document_search.py:738-764 | The sorted listing holds each matching row exactly once, in strictly descending key order. |
| ManualDocumentSearchTheorems.SearchIsSlice | apps/api/backend/ask/manual_document_search.py:215-306 | From the position a cursor stands for, a search returns the next rows of the listing and a further cursor exactly when rows are left. |
| ManualDocumentSearchTheorems.FollowingCursorsReadsEveryRowOnce | apps/api/backend/ask/manual_document_search.py:215-306 | Following `next_cursor` with any page sizes and any clock reads a prefix of the first day's listing and reaches its end exactly when no cursor is left, within one page per row. |
| ManualDocumentSearchTheorems.FollowingCursorsEnds | apps/api/backend/ask/manual_document_search.py:269-306 | Following cursors never fails and always comes to the end of the listing. |
| ManualDocumentSearchTheorems.ResponsesNeverRejected | apps/api/backend/ask/manual_document_search.py:169-192 | The response contract never rejects, for any cursor a client sends. |
| ManualDocumentOutcomes.ListingInOrder | apps/api/backend/ask/manual_document_search.py:738-764 | The listing is ordered by relevance, day, document and version, all descending and without ties. |
| ManualDocumentOutcomes.KeyExactly | apps/api/backend/ask/manual_document_search.py:738-764 | A row sorts by its effective, else publication, else issue day, else the first day of all. |
| ManualDocumentOutcomes.ItemExactly | apps/api/backend/ask/manual_document_search.py:309-361 | What an item shows of its row. |
| ManualDocumentOutcomes.CursorExactly | apps/api/backend/ask/manual_document_search.py:398-430 | Which cursors are accepted and what they decode to. |
| ManualDocumentOutcomes.TokenExactly | apps/api/backend/ask/manual_document_search.py:374-395 | What the cursor after a row holds. |
| ManualDocumentOutcomes.ReachedExactly | apps/api/backend/ask/manual_document_search.py:738-757 | Which rows are behind a cursor. |
| ManualDocumentOutcomes.RowContractExactly | apps/api/backend/ask/manual_document_search.py:110-135 | Which rows meet the contract of an item. |
| ManualDocumentOutcomes.AnswersExactly | apps/api/backend/ask/manual_document_search.py:273-306 | What is refused, and what a page says of its day, its items and what is left. |
| ManualDocumentOutcomes.AnyPageExactly | apps/api/backend/ask/manual_document_search.py:251-306 | Whatever the rows of a query are: what a page shows, and when it is unavailable or rejected. |
| ManualDocumentOutcomes.ContractExactly | apps/api/backend/ask/manual_document_search.py:159-192 | What a response may say. |
| Keyset.RestOfListing | apps/api/backend/ask/manual_document_search.py:738-764 | Selecting what lies strictly behind a listed row and sorting it gives the rest of the sorted listing. |
| Keyset.EndedSessionReadsAll | apps/api/backend/ask/manual_document_search.py:250-306 | Any paging session over a served listing ends exactly when it has read the listing once, in order. |
| FederatedSearch.FederatedSearch | apps/api/backend/ask/federated_search.py:358-478 | The loops that fill pages and failures and then the result groups compute the search on values. |
| FederatedSearchTheorems.CursorRoundTrip | apps/api/backend/ask/federated_search.py:550-608 | A cursor decodes to the row it was made for, under its own group and exactly under criteria that differ at most in the case of the query. |
| FederatedSearchTheorems.GroupListingIsExact | apps/api/backend/ask/federated_search.py:611-628 | A group's listing holds each matching row exactly once, in strictly descending key order. |
| FederatedSearchTheorems.FollowingGroupCursors | apps/api/backend/ask/federated_search.py:263-328 | Following one group's cursors with any page sizes reads its listing once, in order, never fails and ends. |
| FederatedSearchTheorems.ResponsesNeverRejected | apps/api/backend/ask/federated_search.py:184-207 | The contract of a result group never rejects, for any cursor a client sends. |
| FederatedSearchTheorems.StatusExactly | apps/api/backend/ask/federated_search.py:421-452 | Each group's status is read off the store: unavailable exactly when it was asked for and its query failed, not requested exactly when it was not asked for, complete exactly with items. |
| FederatedSearchTheorems.UnavailableExactly | apps/api/backend/ask/federated_search.py:376-420 | The whole search is unavailable if and only if the cursor is acceptable and either the session or repository fails or every query that was asked for does. |
| FederatedSearchTheorems.FailuresStayInTheirGroup | apps/api/backend/ask/federated_search.py:395-416 | A group's entry depends on its own rows only, whatever fails elsewhere. |
| FederatedSearchTheorems.BestMatchIsTop | apps/api/backend/ask/federated_search.py:421-478 | In every response the Best Match entry holds an item of the other groups that none of theirs ranks above, or nothing exactly when they are all empty. |
| FederatedSearchOutcomes.ListingInOrder | apps/api/backend/ask/federated_search.py:611-628 | A group is listed by relevance, time and text order, all descending and without ties. |
| FederatedSearchOutcomes.RowsExactly | apps/api/backend/ask/federated_search.py:274-283 | A provenance filter empties the groups of the other provenance. |
| FederatedSearchOutcomes.RequestExactly | apps/api/backend/ask/federated_search.py:113-136 | Which requests are accepted. |
| FederatedSearchOutcomes.CursorExactly | apps/api/backend/ask/federated_search.py:579-608 | Which cursors are accepted and what they decode to. |
| FederatedSearchOutcomes.TokenExactly | apps/api/backend/ask/federated_search.py:561-576 | What the cursor after a row holds. |
| FederatedSearchOutcomes.ReachedExactly | apps/api/backend/ask/federated_search.py:611-625 | Which rows are behind a cursor. |
| FederatedSearchOutcomes.GroupExactly | apps/api/backend/ask/federated_search.py:395-452 | What the entry of one group says: not asked, failed, or the next rows of its query with a cursor exactly when more are left. |
| FederatedSearchOutcomes.GroupsInOrder | apps/api/backend/ask/federated_search.py:421-478 | A response has all eight groups in their order. |
| FederatedSearchOutcomes.BetterExactly | apps/api/backend/ask/federated_search.py:453-457 | One item ranks above another by relevance and then by name. |
| FederatedSearchOutcomes.EmptyBestExactly | apps/api/backend/ask/federated_search.py:458-478 | Without any item, Best Match is unavailable exactly when some query failed. |
| FederatedSearchOutcomes.OutcomeExactly | apps/api/backend/ask/federated_search.py:358-420 | When a cursor is refused and when the search is unavailable. |
| FederatedSearchOutcomes.RejectedExactly | apps/api/backend/ask/federated_search.py:421-478 | Whatever the store holds, a response is rejected only when a group breaks its contract, and an answered one never does. |
| FederatedSearchOutcomes.ContractExactly | apps/api/backend/ask/federated_search.py:178-207 | What a group may say. |

## Left out

- FullRunEndsValid: assumes positive message ids, which the identity column of the message table guarantees, because the cursor of a full run is 0.
- FollowingCursorsReadsEveryRowOnce: assumes that matching rows differ in document or registry version and meet the item contract; the primary keys of documents and family assignments and the lateral limit of one registry row give the former.
- FollowingGroupCursors: assumes distinct stable ids within a group, an open session, and a client that repeats its query as it was, since a cursor is also accepted for other case variants; sort instants are never null, because every sort column is declared not null, so the fallback to the epoch is not modelled.
- NeverMoreThanLimit: assumes a clock that never goes backwards, as the monotonic clock promises.
- CheckCycles: recursion depth is not limited, while the interpreter limits it.
- Backfill: the migration lock, lock and statement timeouts, pauses, durations, and errors of constraints other than the quoted predicates (a unique index on public identifiers among them).
- Turn records: the format checks of identifiers and timestamps by the schema library, the React hooks, and refetches of the query cache by other code.
- Task validator: every finding other than the circular dependency, and the parsing of task documents.
- Event reconciliation: length and format checks of input and output fields, the JSON rendering, and the texts of notes.
- Live evidence: URL parsing, digest and time-zone primitives, trust ranks, badges and artifact envelopes, the cache and its stale fallback, concurrency of the connectors.
- Claim verification: admission of the request and revalidation of evidence (given as an outcome), stripping of white space by the parser, reason codes, the verification artifact, per-pass deadlines.
- CanonicalDate: the source takes the one element of a set of equal instants, which the hash order may choose among different offsets when semantics differ; the model takes the first in origin order. Both denote the same instant.
- Confidence: reason strings and versions, stripping of identifiers, knowledge-mode policies beyond their key, mode and ceiling; a policy's trigger is not modelled, only which ceilings its mode allows under some trigger.
- Manual search: full-text matching and filters, excerpts, titles and routes, failures of the database.
- Federated search: the query correction and its catalog, full-text matching, titles, subtitles and routes.
- Knowledge modes, degradation tables and card contracts: finite tables and single-branch checks that would only add easy members.
