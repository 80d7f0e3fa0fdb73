# A model of the erasure control flow

These Dafny modules model how the system decides that a person's data is erased or exported, and prove
that the decision is sound: the privacy-request aggregate and its event log, the two database writers
and the audit chain they share, the deduplication of requests about one person, the agent's execution
engine, the streaming export between adapter and agent, the erase, export and verify steps of the
database connector, and the stores, leases and calendar arithmetic around them.

`dafny verify dfyconfig.toml` checks the whole project.

Code that changes state is modelled as classes and methods with the same branches, each proved against
a specification on values; the theorems about whole runs are lemmas about those specifications.

| file | what it holds |
|---|---|
| `PrivacyRequest`, `PrivacyRequestAggregate`, `PrivacyRequestTraces`, `PrivacyRequestLaws` | the 12-status aggregate: which event a command records or which error it throws, the mutable class proved to do exactly that, theorems about every event log, and what a log's events alone say of status, attempts and plan |
| `HashChain` | building and verifying the audit chain |
| `Store`, `Repository`, `BindEffects`, `SaveEffects` | the tables, the `save` and `bindSubject` transactions statement by statement, and what each accepts, writes, records and answers |
| `AuditInvariants`, `AttemptPersistence`, `Deduplication` | the audit chains, the stored attempts and the groups of duplicates that those transactions keep |
| `ArrivalOrder`, `Interleavings` | binds arriving in any order, and every interleaving of commands, saves and binds |
| `ExecutionSteps`, `BlockDownstream`, `ExecutionDag`, `StepRunner` | the agent's plan validation, blocking, scheduling and crash-restartable step runner |
| `ExportReader`, `ExportStream`, `ExportLaws` | the reader of export frames, the writer at the other end, both together, and each line and call spelled out |
| `LikePattern`, `StorageLifecycle`, `SupabaseMapping`, `MappingLaws`, `TableLifecycle` | the database connector: LIKE escaping, keyset paging, mapping validation, erase and verify |
| `Calendar`, `Rfc3339` | day numbers, time stamp parsing, and the time windows that rest on them |
| `JobLeases`, `NonceStores`, `Delivery`, `Pairing` | bounded stores and leases against their histories |
| `StringOrder`, `Paths`, `Wrappers` | the order of ids and names; path segments; option and result types |

## What is assumed

- A hash, a JSON codec, a signature and a base64url text are functions or values; where a result needs
  one to be injective or faithful, it says so as a precondition (`CollisionFree`, `Faithful`).
- A database transaction is one atomic step over tables held as maps; row and advisory locks are that
  atomicity. The clock, random ids, network answers and crashes are arguments, so every theorem holds
  for all of them.
- Attempt ids are not shared between requests and at most one aggregate object per request is in memory.
  Where a result needs event ids to be new, it says so. Ids and object names have one strict total order.
- The calls of the step runner on one step, and the calls of the in-memory pairing repository, do not
  overlap. Nobody uploads objects under a subject's prefix while it is being erased, and the lines of
  the nonce file are never torn.
- Export paths are ASCII, so that both ends of a stream measure them alike.

## Properties that hold only under a condition

Each of these is proved with its condition, and with an input for which the wider claim fails.

- A request can be replayed inside its own time window when it is dated ahead of its first acceptance
  (`ReplayExactly`, `AheadOfClockReplays`); it cannot when it is not (`NeverAcceptedTwice`).
- The file nonce store answers as the memory store exactly when no append fails that would have stored an
  accepted nonce (`FileStoreIsMemoryStore`); a failed append can refuse a nonce that was never accepted
  (`FailedAppendCanRefuse`), never the reverse (`FileNeverAcceptsTwice`).
- A pairing token's hash pairs at most as often as it was issued (`EveryRunIsSafe`): once used, it pairs
  again only if it is issued again (`UsedPairsNoMore`), and then it can (`ReissuedHashPairsTwice`).
- The order in which binds arrive does not matter when each request is named by one input
  (`ArrivalOrderDoesNotMatter`); of two subjects sent for one request the first counts (`TwoInputsRace`).
- A forced pairing cleans up active work only when it replaces an active agent (`ForceCleansUp`).
- The export reader depends on chunk boundaries through its buffer limit. A completed export is delivered
  exactly when it is unbroken and every chunk fits (`DeliversEndToEnd`, `TripsExactly`), as it does when no
  chunk runs past a newline (`ChunksWithinLinesFit`, `FrameByFrameDelivers`); two frames that each fit can
  be turned away in one chunk (`CoalescedLinesTrip`).
- A storage delete answered "not found", or with success for a part of its batch, counts as success, so an
  erase can succeed and leave objects behind; verification is satisfied exactly when every call removed
  its whole batch (`EraseThenVerify`, `AcceptedReplyLeavesObject`).
- A validated bucket keeps subjects whose ids hold no slash apart exactly when its template has a slash
  after the token (`KeepsApartExactly`, `MappedBucketSparesOthers`); with `u{user_id}` an erase for user
  "x" takes the objects of user "xx" (`LetterTemplateReachesOthers`, `LetterBucketTakesOthers`).
- The day formula is the day count exactly from the first of March of year 0 on (`ClosedFormExactly`,
  `YearZeroCollides`).

## Model

| member | source | states |
|---|---|---|
| PrivacyRequestAggregate.Aggregate.Create | packages/domain/src/privacy-request/privacy-request.ts:209-252 | a new aggregate holds the initial state and has the created event pending |
| PrivacyRequestAggregate.Aggregate.BeginIdentityVerification | packages/domain/src/privacy-request/privacy-request.ts:254-262 | records exactly the event its decision names and moves the fields exactly as that event says, or throws exactly the decided error and changes nothing |
| PrivacyRequestAggregate.Aggregate.MarkIdentityVerified | packages/domain/src/privacy-request/privacy-request.ts:264-272 | the same, for identity verification |
| PrivacyRequestAggregate.Aggregate.BeginPlanning | packages/domain/src/privacy-request/privacy-request.ts:274-283 | the same, for the start of planning |
| PrivacyRequestAggregate.Aggregate.AttachPlan | packages/domain/src/privacy-request/privacy-request.ts:285-308 | the same, for a new plan: only a higher plan version, and the approval is dropped |
| PrivacyRequestAggregate.Aggregate.ApprovePlan | packages/domain/src/privacy-request/privacy-request.ts:310-324 | the same, for an approval of exactly the attached plan |
| PrivacyRequestAggregate.Aggregate.RejectPlan | packages/domain/src/privacy-request/privacy-request.ts:326-349 | the same, for both dispositions of a rejection |
| PrivacyRequestAggregate.Aggregate.AuthorizeExecution | packages/domain/src/privacy-request/privacy-request.ts:351-388 | the same, for an initial authorization: status, plan, step scope, binding, approval and attempt id in the order of the code |
| PrivacyRequestAggregate.Aggregate.MarkExecuting | packages/domain/src/privacy-request/privacy-request.ts:390-401 | the same, for the start of an attempt |
| PrivacyRequestAggregate.Aggregate.Complete | packages/domain/src/privacy-request/privacy-request.ts:403-414 | the same, for completion |
| PrivacyRequestAggregate.Aggregate.MarkPartial | packages/domain/src/privacy-request/privacy-request.ts:416-431 | the same, for a partial outcome; the current attempt is closed only while executing |
| PrivacyRequestAggregate.Aggregate.Fail | packages/domain/src/privacy-request/privacy-request.ts:433-446 | the same, for a failure |
| PrivacyRequestAggregate.Aggregate.MarkNeedsReview | packages/domain/src/privacy-request/privacy-request.ts:448-461 | the same, for a review |
| PrivacyRequestAggregate.Aggregate.RequestReplan | packages/domain/src/privacy-request/privacy-request.ts:463-482 | the same, for a replan, which drops plan and approval |
| PrivacyRequestAggregate.Aggregate.BeginRetry | packages/domain/src/privacy-request/privacy-request.ts:484-524 | the same, for a retry under the plan in force and the expected version |
| PrivacyRequestAggregate.Aggregate.InvalidateAuthorization | packages/domain/src/privacy-request/privacy-request.ts:526-543 | the same, for an invalidated authorization, which cancels the attempt and the approval |
| PrivacyRequestAggregate.Aggregate.AcceptRetainedOutcome | packages/domain/src/privacy-request/privacy-request.ts:545-562 | the same, for accepting a partial outcome |
| PrivacyRequestAggregate.Aggregate.Cancel | packages/domain/src/privacy-request/privacy-request.ts:564-580 | the same, for a cancellation |
| PrivacyRequestAggregate.Aggregate.MarkEventsCommitted | packages/domain/src/privacy-request/privacy-request.ts:611-616 | drops exactly the first count pending events, or refuses and changes nothing |
| PrivacyRequestAggregate.Recorded | packages/domain/src/privacy-request/privacy-request.ts:699-711 | recording an event keeps state, log and pending queue consistent: the state is the replay of the log, the queue its tail |
| PrivacyRequestTraces.RecordsExactly | packages/domain/src/privacy-request/privacy-request.ts:254-580 | an event can be recorded in a state if and only if some command decides it there |
| PrivacyRequestTraces.EventsRebuildState | packages/domain/src/privacy-request/privacy-request.ts:254-580 | folding the events alone rebuilds status, version, plan, approval and attempts; two logs with the same events agree on all but times |
| PrivacyRequestTraces.VersionCountsEvents | packages/domain/src/privacy-request/privacy-request.ts:699-702 | in every run the version is the number of recorded events |
| PrivacyRequestTraces.StepsFollowTable | packages/domain/src/privacy-request/privacy-request.ts:7-38 | every recorded status change is in the transition table, and none leaves completed or cancelled |
| PrivacyRequestTraces.AuthorizationNeedsLiveApproval | packages/domain/src/privacy-request/privacy-request.ts:285-388 | in every run, each authorization, initial or retry, is of the plan in force, and if that plan needs approval an approval of exactly that plan stands, with no new plan, rejection, replan or invalidation after it |
| PrivacyRequestTraces.AuthorizedVersionsNeverDecrease | packages/domain/src/privacy-request/privacy-request.ts:463-524 | authorized plan versions never decrease along a run |
| PrivacyRequestTraces.AttemptHistory | packages/domain/src/privacy-request/privacy-request.ts:644-697 | in every run attempts are numbered 1..n with distinct ids, completed exactly in a terminal status, and all but possibly the last are completed |
| PrivacyRequestTraces.CompletedAttemptsAreFinal | packages/domain/src/privacy-request/privacy-request.ts:682-697 | a completed attempt never changes again, and no attempt is removed or renumbered |
| PrivacyRequestTraces.AttemptAlwaysFound | packages/domain/src/privacy-request/privacy-request.ts:674-680 | in no reachable state does a command throw because the current attempt is missing |
| PrivacyRequestLaws.StatusTellsLastEvent | packages/domain/src/privacy-request/privacy-request.ts:254-580 | in every run the last event alone tells the status, and each status what kinds of event can have come last: completed exactly after a completion or an accepted outcome, cancelled exactly after a cancellation or a final rejection, and so for all twelve |
| PrivacyRequestLaws.AttemptStory | packages/domain/src/privacy-request/privacy-request.ts:351-580 | the story of each attempt in the log: the k-th authorisation is the k-th attempt with its binding, scope and time; it ends with the next entry, or the one after an execution start, and that entry decides its final status and completion time for good |
| PrivacyRequestLaws.CurrentIsLastAuthorized | packages/domain/src/privacy-request/privacy-request.ts:669-672 | the current attempt is the one authorised last |
| PrivacyRequestLaws.PlanOfLog | packages/domain/src/privacy-request/privacy-request.ts:285-482 | the plan and the approval in force are those the log created or gave last and has not withdrawn since |
| PrivacyRequestLaws.PlanVersionsIncrease | packages/domain/src/privacy-request/privacy-request.ts:285-299 | along a run the plan versions created strictly increase, whatever was rejected or replanned in between |
| PrivacyRequestLaws.RefusedExactly | packages/domain/src/privacy-request/privacy-request.ts:254-660 | in every reachable state a command is refused with an error exactly when that error's own condition on statuses, plan, scope, ids, reason and version holds, and else accepted |
| PrivacyRequestLaws.AcceptedLeadsThere | packages/domain/src/privacy-request/privacy-request.ts:254-580 | an accepted command records its own arguments under the current attempt and plan, and leads to the status it aims at |
| PrivacyRequestLaws.TableIsExact | packages/domain/src/privacy-request/privacy-request.ts:7-38 | the transition table holds exactly the moves that some recorded event makes |
| HashChain.BuildChain | packages/domain/src/audit/hash-chain.ts:37-50 | the chain built from events: each link carries the hash before it and its own |
| HashChain.VerifyChain | packages/domain/src/audit/hash-chain.ts:12-35 | accepts exactly the chains that are built from their own events, and otherwise names the first broken link |
| HashChain.LinkedIsBuilt | packages/domain/src/audit/hash-chain.ts:12-50 | link-by-link validity is the same as being the built chain of the stripped events |
| HashChain.SameHeadSameChain | packages/domain/src/audit/canonical-event.ts:36-52 | with a collision-free hash, two valid chains with the same last hash are equal |
| Repository.Repository.PersistAttempts | packages/database/src/repositories/privacy-request-repository.ts:221-245 | the upsert loop is the attempt-by-attempt upsert of the table with its checks, trigger and unique index |
| Repository.Repository.PersistEvents | packages/database/src/repositories/privacy-request-repository.ts:247-336 | the event loop appends one chained audit row and one outbox row an event behind the environment's head |
| Repository.Repository.SaveAggregate | packages/database/src/repositories/privacy-request-repository.ts:125-219 | a save commits snapshot, attempts and events together and clears the queue, or fails with the decided error, a violated unique index among them, and changes neither database nor queue |
| Repository.Repository.AppendAuditEvent | apps/api/src/modules/privacy-requests/subject-envelope-service.ts:546-628 | appends one audit row, creating the head row if it is missing |
| Repository.Repository.InsertAliases | apps/api/src/modules/privacy-requests/subject-envelope-service.ts:527-544 | inserts the aliases that are not there yet |
| Repository.Repository.WriteRequests | apps/api/src/modules/privacy-requests/subject-envelope-service.ts:358-404 | writes the two request rows of a bind and says which request was cancelled in favour of which |
| Repository.Repository.RecordBind | apps/api/src/modules/privacy-requests/subject-envelope-service.ts:411-443 | the audit rows of a bind: the cancelled candidate first, then the request |
| Repository.Repository.BindSubject | apps/api/src/modules/privacy-requests/subject-envelope-service.ts:220-454 | a bind commits its checks, rows, aliases and audit rows as one step, or fails and changes nothing |
| AuditInvariants.EveryRunAudited | packages/database/src/repositories/privacy-request-repository.ts:247-336 | over every interleaving of saves and binds, each stored version is the number of the request's audit rows, audit and outbox rows match one to one, and each environment's chain has sequences 1..n, is valid and ends at its head row |
| AuditInvariants.SaveKeepsAudited | packages/database/src/repositories/privacy-request-repository.ts:125-219 | one save keeps that invariant |
| AuditInvariants.BindKeepsAudited | apps/api/src/modules/privacy-requests/subject-envelope-service.ts:389-443 | one bind keeps it, also when it cancels another request |
| AuditInvariants.AppendKeepsJournal | packages/database/src/repositories/privacy-request-repository.ts:247-336 | one appended event extends exactly its environment's chain and the outbox |
| AuditInvariants.AppendSucceeds | packages/database/migrations/0001_initial.sql:262-266 | behind an intact chain one append fails exactly when its event id is already there: sequence numbers and hashes never collide |
| AuditInvariants.AppendAllSucceeds | packages/database/src/repositories/privacy-request-repository.ts:247-336 | a list of events is appended exactly when their ids are new and distinct |
| Deduplication.BindsConverge | apps/api/src/modules/privacy-requests/subject-envelope-service.ts:343-403 | binding any requests in any order, with overrides, retries and failures among them, leaves every subject with no bound request or exactly one active one, the earliest |
| Deduplication.SurvivorIsOrderIndependent | apps/api/src/modules/privacy-requests/subject-envelope-service.ts:343-403 | two runs of binds that all go through and name the same requests for a subject bind exactly those requests and keep the same survivor |
| Deduplication.BoundAreNamed | apps/api/src/modules/privacy-requests/subject-envelope-service.ts:391-404 | when every bind of a run goes through, a subject's bound requests are exactly those the run named for it |
| ArrivalOrder.ArrivalOrderDoesNotMatter | apps/api/src/modules/privacy-requests/subject-envelope-service.ts:220-454 | the same binds in any two orders, one input a request, failures and repeats among them: every subject keeps the same survivor, and every request ends in the same status, bound to the same subject or to none |
| ArrivalOrder.BoundAreAdmitted | apps/api/src/modules/privacy-requests/subject-envelope-service.ts:265-341 | the database before the run decides which requests end up in a group: those with an input that asks for nothing missing there |
| ArrivalOrder.RunCarries | apps/api/src/modules/privacy-requests/subject-envelope-service.ts:220-281 | a bind that asks for nothing missing before the run is in force after it, whatever came between, and sending it again changes nothing |
| ArrivalOrder.TwoInputsRace | apps/api/src/modules/privacy-requests/subject-envelope-service.ts:265-282 | with two different subjects sent for one request the order does matter |
| Deduplication.BindSettlesGroup | apps/api/src/modules/privacy-requests/subject-envelope-service.ts:358-403 | one bind moves a settled group to the settled group with the newcomer |
| Deduplication.BindJoinsGroup | apps/api/src/modules/privacy-requests/subject-envelope-service.ts:391-404 | a bind without override adds its request to its subject's group and to no other |
| Deduplication.SurvivorIsUnique | apps/api/src/modules/privacy-requests/subject-envelope-service.ts:751-759 | the survivor is the only active request and the least by creation time and id |
| Deduplication.DuplicateChain | apps/api/src/modules/privacy-requests/subject-envelope-service.ts:359-403 | following duplicate_of from any request of the group visits no request twice, goes back in time and ends at the survivor |
| Deduplication.BindCancelsOnlyCancellable | apps/api/src/modules/privacy-requests/subject-envelope-service.ts:508-525 | whatever the database holds, a bind cancels only requests in a cancellable status and changes no third request |
| Deduplication.IndexNeverAborts | packages/database/migrations/0001_initial.sql:131-135 | the partial unique index on active requests never aborts a bind |
| BindEffects.BindAnswers | apps/api/src/modules/privacy-requests/subject-envelope-service.ts:220-341 | a bind goes through exactly when it repeats a committed one, or the request is unbound, in its version and early enough, the key versions match, the agent serves the environment, and an envelope sealed for its key has not expired; else the first thing missing is the error |
| BindEffects.BindWrites | apps/api/src/modules/privacy-requests/subject-envelope-service.ts:343-404 | the rows a bind writes and what it answers: the request gives way exactly to an earliest rival that came before it or can no longer be cancelled, and else displaces it; every other row stays |
| BindEffects.BindSpares | apps/api/src/modules/privacy-requests/subject-envelope-service.ts:405-410 | the other tables after a bind: the envelope is gone, the aliases are in, nothing else changes |
| BindEffects.AliasesWritten | apps/api/src/modules/privacy-requests/subject-envelope-service.ts:527-544 | an alias that was there stays, and of the new ones each kind and hash gets its first |
| BindEffects.BindRecords | apps/api/src/modules/privacy-requests/subject-envelope-service.ts:411-443 | what the audit trail and the outbox say of a bind: a displaced rival first, by the agent, then the request, by the agent or the overriding owner with the reason, all at the time of the bind |
| BindEffects.BindTwice | apps/api/src/modules/privacy-requests/subject-envelope-service.ts:231-244 | sending a bind again answers as the first time and changes nothing more |
| AttemptPersistence.SaveStoresAttempts | packages/database/src/repositories/privacy-request-repository.ts:221-245 | after a save the stored attempts of the request are exactly the aggregate's, and no other request's row changed |
| AttemptPersistence.UpsertStoresEvolved | packages/database/migrations/0001_initial.sql:162-172 | the checks, the unique index and the immutability trigger cannot fire for a later state of the same attempts |
| AttemptPersistence.EveryRunPersists | packages/database/migrations/0001_initial.sql:283-315 | over every run of creations, commands, saves and binds the table holds the attempts as last committed, and completed rows are final |
| AttemptPersistence.StaleAggregateNeverSaves | packages/database/src/repositories/privacy-request-repository.ts:173-219 | after another writer raised the stored version, the aggregate never saves again |
| SaveEffects.SaveWritesRow | packages/database/src/repositories/privacy-request-repository.ts:173-219 | the row a save writes: a first save creates it at its own time and bound to nobody, a later one keeps all that and moves status, completion, attempt and version; nothing else changes |
| SaveEffects.UpsertExactly | packages/database/migrations/0001_initial.sql:137-181 | one attempt upsert: turned away by a column check or the unique number, else inserted, left alone when completed, or moved on; the immutability trigger has nothing to reject |
| SaveEffects.RowRefusedExactly | packages/database/src/repositories/privacy-request-repository.ts:173-219 | when the request row of a save is refused, whatever the table holds: the row is there already or not as expected, or another active request of the same subject stands beside it |
| SaveEffects.SaveRecords | packages/database/src/repositories/privacy-request-repository.ts:247-336 | what the audit trail and the outbox say of a save: one row an event in order, with its name, its actor and its payload |
| SaveEffects.SaveRefusedExactly | packages/database/src/repositories/privacy-request-repository.ts:125-219 | in every sound world a refused save answers the first of conflict, unknown environment, overtaken row and used event id that holds |
| SaveEffects.RunKeepsDates | packages/database/src/repositories/privacy-request-repository.ts:179-186 | over every run a stored request has a completion time exactly when it is completed or cancelled, whoever ended it |
| SaveEffects.CreatedWhenFirstSaved | packages/database/src/repositories/privacy-request-repository.ts:186-199 | over every run a request's creation time is the time of its first save |
| SaveEffects.SurvivorSavedFirst | apps/api/src/modules/privacy-requests/subject-envelope-service.ts:343-404 | over every interleaving from an empty table, of all requests bound to a subject the one first saved earliest, by time and then id, is the only one active |
| Interleavings.EveryInterleavingIsSound | packages/database/migrations/0001_initial.sql:131-135 | over every interleaving of creations, commands, saves and binds, attempts are stored as last committed, the audit chains are intact, and every subject is settled with at most one active request |
| Interleavings.SaveSucceedsExactly | packages/database/src/repositories/privacy-request-repository.ts:131-219 | a save goes through exactly when something is pending, the caller names the committed version, the environment is known, nobody wrote the row since and the new event ids are new; foreign keys, checks, triggers and unique indices never decide |
| Interleavings.BindAnswersInWorld | apps/api/src/modules/privacy-requests/subject-envelope-service.ts:220-454 | and a bind, given new event ids, exactly when it repeats a committed one or nothing it asks for is missing; else the first thing missing is the error |
| BlockDownstream.BlockAll | agent/crates/agent-core/src/dag.rs:88-119 | the in-place loop ends with exactly the fixpoint of the blocking pass |
| BlockDownstream.BlockPass | agent/crates/agent-core/src/dag.rs:100-114 | one pass over the array, and whether it changed anything |
| BlockDownstream.BlocksExactly | agent/crates/agent-core/src/dag.rs:88-119 | a step is blocked if and only if it is pending and reaches an initially failed, reviewed or blocked step through pending steps |
| BlockDownstream.BlockedHasCause | agent/crates/agent-core/src/dag.rs:105-112 | the block reasons of a blocked step name a path of pending steps that ends at an initial cause |
| BlockDownstream.BlockedInPass | agent/crates/agent-core/src/dag.rs:105-112 | the reason names the first dependency, in the order of the plan, that had failed when the step was blocked |
| BlockDownstream.ReasonsEndAtCause | agent/crates/agent-core/src/dag.rs:105-112 | with unique ids, following the reasons is unambiguous and ends at that cause |
| BlockDownstream.OnlyPendingChange | agent/crates/agent-core/src/dag.rs:101-114 | only pending steps change, and only in status and reason |
| BlockDownstream.Idempotent | agent/crates/agent-core/src/dag.rs:88-119 | blocking twice is blocking once |
| BlockDownstream.NoPendingBelowBad | agent/crates/agent-core/src/dag.rs:88-119 | afterwards no pending step depends on a failed, reviewed or blocked one |
| ExecutionDag.HasCycle | agent/crates/agent-core/src/dag.rs:121-135 | the depth-first search terminates, restores the visiting set, and returns true if and only if the path meets itself again |
| ExecutionDag.Validate | agent/crates/agent-core/src/dag.rs:49-70 | Ok exactly when ids are unique and non-empty, keys non-empty, dependencies known and the graph acyclic; each error exactly otherwise |
| ExecutionDag.AcyclicBySearch | agent/crates/agent-core/src/dag.rs:63-68 | searching from every step finds a cycle if and only if there is one |
| ExecutionDag.RunnableExactly | agent/crates/agent-core/src/dag.rs:72-86 | the runnable steps are, in the order of the plan, exactly the pending ones all of whose dependencies succeeded |
| ExecutionDag.NoDeadlock | agent/crates/agent-core/src/dag.rs:72-119 | on a valid graph after blocking, with nothing in progress, nothing is runnable only if nothing is pending |
| StepRunner.Runner.RunStep | agent/crates/agent-core/src/runner.rs:90-163 | the runner's awaits, saves and early returns are the step function, for every crash and save failure |
| StepRunner.EveryRunIsSafe | agent/crates/agent-core/src/runner.rs:90-163 | over any sequence of calls with crashes and failed saves anywhere: at most one execute, before every reconcile, before every verify; each made under the stored status that announces it; a first verify only right after an Ok; and the stored status moves forward only and says what the last contact was |
| StepRunner.StepIsSafe | agent/crates/agent-core/src/runner.rs:90-163 | one call keeps that, and never answers with the invalid-state error |
| StepRunner.NoExecutionAfterInFlight | agent/crates/agent-core/src/runner.rs:111-137 | once the in-flight status is stored, later calls make no execute |
| StepRunner.ReplyTellsStored | agent/crates/agent-core/src/runner.rs:90-163 | a returned result is the stored status, and a connector error leaves the step in flight, failed or in review |
| StepRunner.PassesInFlightAcknowledged | agent/crates/agent-core/src/runner.rs:111-137 | over any run a step passes the in-flight status only after an execute or a reconcile that returned Ok |
| StepRunner.UnresolvedStaysInFlight | agent/crates/agent-core/src/runner.rs:130-137 | a step in flight whose reconcile does not return Ok stays in flight, and the caller is told why |
| StepRunner.SavedCallMoves | agent/crates/agent-core/src/runner.rs:90-163 | with every save written, the connector's answers alone decide the stored status and the reply, from each status |
| StepRunner.SavesComeFirst | agent/crates/agent-core/src/runner.rs:103-137 | a save that is not written ends the call there, with no further contact, a store error or a crash, and the new status stored or the old |
| StepRunner.LostVerdict | agent/crates/agent-core/src/runner.rs:139-163 | a verdict whose save is lost leaves the step verifying, or stored with the caller not told |
| ExportReader.ReadExportFrames | agent/crates/adapter-http/src/lib.rs:296-372 | the buffered reader is the chunk-by-chunk specification, with its sink writes |
| ExportReader.ReadLine | agent/crates/adapter-http/src/lib.rs:318-361 | one line: every rejection, and the variables and sink after it |
| ExportReader.ReadBounded | agent/crates/adapter-http/src/lib.rs:280-294 | a bounded body is read whole exactly when nothing broke and it fits; else the first break or the first chunk past the limit is the error |
| ExportReader.SplitOfJoined | agent/crates/adapter-http/src/lib.rs:316-317 | splitting undoes joining lines with newlines, in only one way |
| ExportReader.ChunkingDoesNotMatter | agent/crates/adapter-http/src/lib.rs:296-372 | streams of the same bytes whose chunks fit give the same result and the same writes, those of splitting the whole stream on newlines |
| ExportReader.CutShortIsPrefix | agent/crates/adapter-http/src/lib.rs:304-315 | a broken or cut-short stream has written a prefix of what the whole stream would, and a reported success read all of it |
| ExportReader.TripsExactly | agent/crates/adapter-http/src/lib.rs:302-315 | for acceptable lines the buffer limit is exceeded exactly when some chunk does not fit |
| ExportReader.ChunksWithinLinesFit | agent/crates/adapter-http/src/lib.rs:302-315 | chunks that never run past a newline fit whenever each line does |
| ExportReader.CoalescedLinesTrip | agent/crates/adapter-http/src/lib.rs:302-315 | two lines that fit one by one are rejected in one chunk |
| ExportStream.SucceedsExactly | agent/crates/adapter-http/src/lib.rs:316-372 | an export succeeds with count n exactly when the lines are data and then one completion of n, nothing after it, within the budgets and taken by the sink, which then holds exactly the data in order |
| ExportLaws.LineExactly | agent/crates/adapter-http/src/lib.rs:318-361 | what one line does: it completes the export, adds its data, or ends it with exactly one error |
| ExportLaws.FirstBadLine | agent/crates/adapter-http/src/lib.rs:316-361 | an export that ends in the lines ends with the error of its first line that is not taken |
| ExportLaws.EndExactly | agent/crates/adapter-http/src/lib.rs:362-372 | how a stream of good lines ends: cut in a line, without its completion, or with it |
| ExportLaws.BreakReported | agent/crates/adapter-http/src/lib.rs:304-307 | a broken stream never exports, and is reported as broken unless something before the break ended it |
| ExportLaws.TripsWhen | agent/crates/adapter-http/src/lib.rs:297-315 | the buffer limit in numbers: two frames and 1024 bytes |
| ExportStream.ExportWriter.WriteFrame | sdk/typescript/src/create-adapter.ts:221-232 | a frame is sent and counted exactly as specified, or refused with its bytes counted |
| ExportStream.ExportWriter.Bytes | sdk/typescript/src/create-adapter.ts:233-252 | checks path, content type and size before the frame |
| ExportLaws.CallAnswers | sdk/typescript/src/create-adapter.ts:218-252 | what a call of the writer comes to: a good one is counted whether or not it goes out, and goes out exactly within budget, frame limit and room |
| ExportLaws.CallsMade | sdk/typescript/src/create-adapter.ts:259-265 | a resource makes its calls in order up to the first refusal it does not swallow |
| ExportLaws.ClosedStreamEnds | sdk/typescript/src/create-adapter.ts:218-282 | once the budget is exceeded or the stream has rejected a chunk, nothing more goes out and the export never completes |
| ExportStream.ExportWriter.WriteChunk | sdk/typescript/src/create-adapter.ts:221-232 | a chunk reaches the stream in order or is rejected, after which the stream takes nothing more |
| ExportStream.ExportWriter.ExportData | sdk/typescript/src/create-adapter.ts:207-286 | the loop over resources, the completion frame, the close and the error path, also when the stream turns a chunk away or does not close |
| ExportStream.StreamShape | sdk/typescript/src/create-adapter.ts:218-282 | whatever resources and stream do, what was sent is sendable data and at most one closing frame; on a stream that took everything the error frame is missing exactly when the export budget is exhausted |
| ExportStream.CompletesWhen | sdk/typescript/src/create-adapter.ts:218-282 | with no error swallowed, the export completes exactly when every call is allowed and fits, the counts are valid, the budget suffices and the stream takes every chunk and closes, and then all data is sent in order and the counts add up |
| ExportStream.WriterFrameFits | sdk/typescript/src/create-adapter.ts:226-229 | any frame within the writer's limit is within the reader's |
| ExportStream.DeliversEndToEnd | agent/crates/adapter-http/src/lib.rs:296-372 | writer and reader together, for any chunking and any break: the reader reports count n exactly when the export completed with n, nothing broke, every chunk fit the buffer and the sink took the data; its sink always holds a prefix of the data sent; and when nothing broke and all fit, each failure arrives as the right error |
| ExportStream.FrameByFrameDelivers | agent/crates/adapter-http/src/lib.rs:302-315 | a completed export whose chunks do not run past a frame's end is delivered whole |
| LikePattern.EscapeLikePrefix | agent/crates/connector-supabase/src/discover.rs:303-313 | the escaping loop computes the escaped prefix |
| LikePattern.LikePrefixExact | agent/crates/connector-supabase/src/discover.rs:303-313 | under LIKE the escaped prefix matches exactly the names that start with it |
| StorageLifecycle.Bucket.EraseStorage | agent/crates/connector-supabase/src/erase.rs:99-168 | the paging loop that deletes as it goes is the same as listing all names once and deleting them in batches, also when a query or a call fails or a call removes part of its batch |
| StorageLifecycle.Bucket.ExportStorage | agent/crates/connector-supabase/src/export.rs:115-161 | the export visits every matching object once, in order and numbered, or stops at the first page that cannot be queried or object that cannot be downloaded |
| StorageLifecycle.NextPage | agent/crates/connector-supabase/src/erase.rs:111-140 | a page starts right after the last name of the one before, whichever of that one's rows are gone by then |
| StorageLifecycle.CallsCoverOnce | agent/crates/connector-supabase/src/erase.rs:113-161 | the delete calls name every matching object once, at most 1000 a call |
| StorageLifecycle.CallsInTurn | agent/crates/connector-supabase/src/erase.rs:111-161 | the calls are made one a page, all but the last of a thousand names and accepted; a failure is that of the last call, or of the query after it |
| StorageLifecycle.ReplyMeans | agent/crates/connector-supabase/src/erase.rs:144-160 | which answers go on and which error each other status is |
| StorageLifecycle.EraseLeaves | agent/crates/connector-supabase/src/erase.rs:111-161 | failing or not, an erase names only the subject's objects and leaves exactly what no call removed |
| StorageLifecycle.VerifyCounts | agent/crates/connector-supabase/src/verify.rs:57-83 | the verification counts exactly the objects under the prefix |
| StorageLifecycle.EraseThenVerify | agent/crates/connector-supabase/src/verify.rs:57-83 | a successful erase asks for exactly the subject's objects and touches no other; the verification after it is satisfied exactly when the names removed cover the names asked for, that is, when every call removed its whole batch |
| StorageLifecycle.EraseVerifiesUnlessNotFound | agent/crates/connector-supabase/src/erase.rs:144-160 | if successes remove their whole batch, only an answer of not found can leave something behind |
| StorageLifecycle.AcceptedReplyLeavesObject | agent/crates/connector-supabase/src/erase.rs:151-157 | and it can, as can a success that removed nothing: the erase reports success and the verification finds the object |
| StorageLifecycle.SecondEraseIsEmpty | agent/crates/connector-supabase/src/erase.rs:99-168 | erasing again after a satisfied verification calls nothing and changes nothing |
| StorageLifecycle.SecondEraseRetries | agent/crates/connector-supabase/src/erase.rs:99-168 | otherwise it asks for exactly what was left |
| StorageLifecycle.MappedBucketErases | agent/crates/connector-supabase/src/config.rs:203-206 | for every validated bucket and every subject with a user id: an erase whose calls remove their batches verifies empty, and erasing again affects nothing |
| StorageLifecycle.MappedBucketSparesOthers | agent/crates/connector-supabase/src/config.rs:203-206 | in a bucket that keeps subjects apart an erase for one leaves every object of another, whatever happens during it |
| StorageLifecycle.LetterBucketTakesOthers | agent/crates/connector-supabase/src/config.rs:203-206 | in the bucket of a template such as u{user_id} a successful erase for user x asks for every object of user xx |
| SupabaseMapping.Validate | agent/crates/connector-supabase/src/config.rs:87-161 | accepts exactly the allowed mappings and keeps every entry |
| SupabaseMapping.ValidateTable | agent/crates/connector-supabase/src/config.rs:92-130 | accepts exactly the allowed tables; an anonymised table always clears its identity column |
| SupabaseMapping.ValidateFields | agent/crates/connector-supabase/src/config.rs:113-121 | accepts exactly lists of distinct valid identifiers |
| MappingLaws.MappingExactly | agent/crates/connector-supabase/src/config.rs:87-161 | a mapping is allowed exactly when it maps something and every table and bucket in it is allowed |
| MappingLaws.TableExactly | agent/crates/connector-supabase/src/config.rs:92-130 | when a table is allowed and what it becomes, on its own fields |
| MappingLaws.TemplateExactly | agent/crates/connector-supabase/src/config.rs:265-274 | a template is valid exactly when it is a path of plain segments, perhaps with a slash at the end, without a backslash, that holds the token once |
| SupabaseMapping.TemplateSplits | agent/crates/connector-supabase/src/config.rs:265-274 | a template with one token is filled in exactly one place |
| SupabaseMapping.SubjectPrefixesDiffer | agent/crates/connector-supabase/src/config.rs:203-216 | a prefix is never empty, and two subjects get the same one exactly when their ids are the same |
| SupabaseMapping.PrefixExactly | agent/crates/connector-supabase/src/config.rs:203-216 | a prefix is the template with the trimmed application user id in the place of the token, and an error exactly when that is missing or blank |
| SupabaseMapping.SubjectValueExactly | agent/crates/connector-supabase/src/config.rs:184-195 | a table's value is what the mapped field, user id or email, holds between white space, and an error exactly when that field is missing or blank |
| SupabaseMapping.KeepsApartExactly | agent/crates/connector-supabase/src/config.rs:265-274 | a validated bucket keeps subjects whose ids hold no slash apart if and only if its template has a slash after the token |
| SupabaseMapping.LetterTemplateReachesOthers | agent/crates/connector-supabase/src/config.rs:265-274 | a template of one letter and the token is valid, and everything of user xx is then reached for user x |
| TableLifecycle.SubjectTable.EraseTable | agent/crates/connector-supabase/src/erase.rs:40-97 | deletes or clears exactly the subject's rows and counts them, for each way it can fail |
| TableLifecycle.SubjectTable.VerifyTable | agent/crates/connector-supabase/src/verify.rs:27-55 | counts the subject's rows left |
| TableLifecycle.EraseAnswers | agent/crates/connector-supabase/src/erase.rs:40-97 | what an erase answers: the number of the subject's rows, or the first of mismatch, missing field, failed query and uncertain commit |
| TableLifecycle.EraseLeaves | agent/crates/connector-supabase/src/erase.rs:51-97 | what an erase leaves: every other row, and none of the subject's or those with the mapped fields cleared; one not applied changes nothing |
| TableLifecycle.VerifyAnswers | agent/crates/connector-supabase/src/verify.rs:27-55 | a verification counts exactly the rows whose identity column holds the subject's own mapped field |
| TableLifecycle.ErasedVerifies | agent/crates/connector-supabase/src/verify.rs:27-55 | after a successful erase through a validated mapping no row is the subject's and the verification is satisfied |
| TableLifecycle.OnlyMappedFieldCounts | agent/crates/connector-supabase/src/config.rs:184-195 | subjects who differ only in the field that is not mapped are one to the table |
| TableLifecycle.OthersRowsStay | agent/crates/connector-supabase/src/erase.rs:51-79 | an erase leaves every row of a subject whose mapped field differs |
| TableLifecycle.ErasesExactly | agent/crates/connector-supabase/src/config.rs:105-112 | an erase leaves nothing to find exactly when it deletes, or clears the identity column, or there was nothing |
| TableLifecycle.ValidErasesAll | agent/crates/connector-supabase/src/config.rs:105-112 | a validated mapping erases all it verifies, and erasing again changes nothing |
| TableLifecycle.DeleteKeepsOthers | agent/crates/connector-supabase/src/erase.rs:58-65 | a delete removes every copy of the subject's rows and of no other |
| TableLifecycle.AnonymizeKeepsOthers | agent/crates/connector-supabase/src/erase.rs:66-79 | anonymising changes only the subject's rows, and those only in the mapped fields |
| Calendar.ClosedFormCounts | agent/crates/agent-core/src/authorization.rs:234-244 | the day formula against the calendar counted one day at a time, for every date from year 0 on |
| Calendar.ClosedFormExactly | agent/crates/agent-core/src/authorization.rs:234-244 | it is the number of days since 1970-01-01 exactly from 0000-03-01 on |
| Calendar.YearZeroCollides | agent/crates/agent-core/src/authorization.rs:234-244 | before that two different days get one number |
| Calendar.DayCountIncreases | agent/crates/agent-core/src/authorization.rs:234-244 | the counted day number grows with the date |
| Rfc3339.ParseRender | agent/crates/agent-core/src/authorization.rs:203-246 | every canonical UTC time stamp (section 5.6 of RFC 3339) parses to the nanoseconds since 1970 |
| Rfc3339.ParseShaped | agent/crates/agent-core/src/authorization.rs:203-246 | text of that shape parses exactly when its fields lie in their ranges, a day up to 31 in every month |
| Rfc3339.ParseKeepsOrder | agent/crates/agent-core/src/authorization.rs:203-246 | parsing preserves and reflects the order of canonical time stamps |
| Rfc3339.AuthorizationWindow | agent/crates/agent-core/src/authorization.rs:105-117 | an authorization is in force exactly from its start to before its end, and otherwise the error says which of the two, or that they are out of order |
| Rfc3339.LeaseWindow | agent/crates/agent-core/src/authorization.rs:143-152 | a lease is in force exactly until its end, if that is after its issue and within ninety seconds, and otherwise expired or invalid |
| JobLeases.JobRepository.Poll | apps/api/src/modules/agent-gateway/job-repository.ts:340-373 | returns the first offered job by availability and id, and none exactly when none is offered |
| JobLeases.JobRepository.LeaseJob | apps/api/src/modules/agent-gateway/job-repository.ts:375-442 | a fresh grant, the running lease again, or a refusal, with exactly the row written |
| JobLeases.JobRepository.SendHeartbeat | apps/api/src/modules/agent-gateway/job-repository.ts:444-481 | extends a live lease of the same agent, and nothing else |
| JobLeases.OfferedExactlyGranted | apps/api/src/modules/agent-gateway/job-repository.ts:340-442 | a job is freshly leased exactly when a poll would offer it: due, not over, in nobody's lease, for an agent at work there; for sixty seconds and as one attempt more |
| JobLeases.HeartbeatExtends | apps/api/src/modules/agent-gateway/job-repository.ts:444-481 | a heartbeat extends exactly the agent's own running lease, to sixty seconds from now |
| JobLeases.EveryHistoryExcludes | apps/api/src/modules/agent-gateway/job-repository.ts:375-508 | over any history with a clock that does not go back, no agent is answered about a job while another's lease runs, the expiry is the last fresh grant or heartbeat plus 60 000 ms, and attempt counts the fresh grants |
| JobLeases.AnswerKeepsMatch | apps/api/src/modules/agent-gateway/job-repository.ts:405-481 | one answer keeps the row in step with the history of answers |
| NonceStores.MemoryNonceStore.Consume | sdk/typescript/src/signature.ts:60-75 | one consume of the memory store |
| NonceStores.FileNonceStore.Consume | sdk/typescript/src/signature.ts:77-139 | one consume of the file store: map, file and answer, for every way the append can end |
| NonceStores.FileNonceStore.Load | sdk/typescript/src/signature.ts:115-138 | a fresh process rebuilds the map from the file, the last line of a nonce counting |
| NonceStores.ConsumeExactly | sdk/typescript/src/signature.ts:60-75 | the memory store accepts exactly a nonce it does not know, and forgets exactly what has expired |
| NonceStores.FileConsumeExactly | sdk/typescript/src/signature.ts:77-139 | the file store's answer, map and file for every way an append can end |
| NonceStores.LoadedExactly | sdk/typescript/src/signature.ts:115-138 | a file yields the nonces of its lines, each with the expiry of its last line |
| NonceStores.FileStoreIsMemoryStore | sdk/typescript/src/signature.ts:60-139 | across any restarts, with a clock that does not go back, the file store answers as one uninterrupted memory store if and only if no append fails that would have stored an accepted nonce |
| NonceStores.FileNeverAcceptsTwice | sdk/typescript/src/signature.ts:95-112 | whatever restarts and failed appends lie between, a nonce once accepted is refused until it expires |
| NonceStores.FailedAppendCanRefuse | sdk/typescript/src/signature.ts:105-112 | an append that fails after writing can refuse a nonce that was never accepted, after a restart |
| NonceStores.AcceptExactly | sdk/typescript/src/create-adapter.ts:130-136 | a request is accepted exactly when its signature is good, its time stamp within sixty seconds of its arrival, and its nonce not known; which it then is for sixty seconds |
| NonceStores.NeverAcceptedTwice | sdk/typescript/src/create-adapter.ts:130-136 | a nonce is accepted again only after the acceptance window of the first; a request not dated after its first acceptance never |
| NonceStores.ReplayExactly | sdk/typescript/src/signature.ts:42-49 | the exact condition under which the same request is accepted again |
| NonceStores.AheadOfClockReplays | sdk/typescript/src/signature.ts:42-49 | a request for which it is |
| Delivery.DeliveryDeduplicator.Accept | agent/crates/agent-core/src/connection.rs:126-162 | true exactly when the id is not among the last capacity accepted ids; set and queue hold the same distinct ids, never more than the capacity |
| Delivery.JobIdExactly | agent/crates/agent-core/src/connection.rs:126-162 | the job a message announces, or what is wrong with it |
| Delivery.FreshExactly | agent/crates/agent-core/src/connection.rs:126-162 | an id is fresh exactly when none of the last capacity acceptances was of it |
| Delivery.DeliveredOncePerCapacity | agent/crates/agent-core/src/connection.rs:126-162 | over any messages, one id is accepted again only more than capacity acceptances later |
| Delivery.EveryJobDelivered | agent/crates/agent-core/src/connection.rs:126-162 | no well-formed message's job is lost |
| Pairing.InMemoryPairingRepository.IssueToken | apps/api/src/modules/agents/pairing-service.ts:328-341 | stores a fresh token, or refuses an unknown environment |
| Pairing.InMemoryPairingRepository.ConsumeAndPair | apps/api/src/modules/agents/pairing-service.ts:379-457 | pairs, or refuses with the decided error and no change |
| Pairing.InMemoryPairingRepository.RevokeAgent | apps/api/src/modules/agents/pairing-service.ts:468-477 | revokes the tenant's own agent |
| Pairing.ConsumeAnswers | apps/api/src/modules/agents/pairing-service.ts:379-457 | what a consume answers: the first refusal that holds, or the new agent under the token's tenant with its key |
| Pairing.IssueStores | apps/api/src/modules/agents/pairing-service.ts:328-341 | issuing stores the token unused over any of that hash, if its environment exists |
| Pairing.RevokeEnds | apps/api/src/modules/agents/pairing-service.ts:468-477 | revoking is for the agent's own tenant, and ends that agent and nothing else |
| Pairing.ConsumeReplaces | apps/api/src/modules/agents/pairing-service.ts:379-457 | a failed consume changes nothing; a successful one leaves the new agent as the only active one, revokes just the old one and uses the token up |
| Pairing.WorkKeepsItsAgent | apps/api/src/modules/agents/pairing-service.ts:417-423 | while an environment has active work its agent stays active and the work stays, over any run without a forced pairing there or a revocation of that agent |
| Pairing.ForceCleansUp | apps/api/src/modules/agents/pairing-service.ts:417-436 | a force that replaces an active agent leaves no envelope, attempt or old ciphertext and puts every affected request in review; otherwise it cleans nothing |
| Pairing.EveryRunIsSafe | apps/api/src/modules/agents/pairing-service.ts:328-478 | over any run an environment has at most one active agent, and a token hash pairs at most as often as it was issued |
| Pairing.UsedPairsNoMore | apps/api/src/modules/agents/pairing-service.ts:379-457 | once a hash has been used, no run without another issue of it pairs it again |
| Pairing.ReissuedHashPairsTwice | apps/api/src/modules/agents/pairing-service.ts:337-340 | and with one it can: issue, consume, issue, consume pairs it twice |
| Pairing.RevokedForever | apps/api/src/modules/agents/pairing-service.ts:436-477 | a revoked agent stays revoked |

## Left out

- Tenancy and row-level security: one tenant is modelled, so the ownership check reduces to the environment being known.
- The shape of a bind's input before its transaction: key lengths, the alias limit and alias versions.
- Policy version, deadline and creator columns, and idempotency records: stored and never read by the modelled decisions.
- `pullEvents`, which drains the event queue without saving, and the force replacement of the database-backed pairing repository, which raises a request's version without an audit row: both stand outside the persistence and audit theorems.
- Removal of an expired envelope by a bind: the delete is rolled back by the throw after it, so the model's bind changes nothing there.
- Identity verification before planning is not claimed: the transition table lets a failed request that was never verified be replanned, and a bind sets the verified status from planning as well.
- The bytes of the canonical event: `Hasher` takes the previous hash and the event as values.
- `Repository.Repository.SaveAggregate` and `Repository.Repository.BindSubject` model the statements of one transaction in order, not the locks between transactions.
- Frame JSON and base64url text; a codec stands for both. The factor 1.4 of the frame limit is the exact rational 14/10.
- Counters that saturate or wrap at 64 bits when more than 2^64 bytes or objects pass through one call; saturation is modelled where a limit is compared.
- Export calls that a resource does not await: the model runs each resource's calls one after another.
- `StorageLifecycle.Bucket.EraseStorage` starts after the lookup of the mapping and the check of the plan's action; the table erase includes its own.
- The auth-user resource of the connector, the approved-function list of its mapping and the discovery report: one request or one check each.
- `Rfc3339.ParseRender` covers canonical text; on other text `Parse` follows the code, which ignores extra parts of a date or time, accepts signed numbers and any day up to 31. Years whose arithmetic leaves 128 bits are not modelled.
- The payload and authorization text of a job, and the control sequence counter: `JobLeases` models the columns the lease decisions read.
- `NonceStores.FileNonceStore.Consume`: a file that cannot be read or holds a corrupt line makes the source refuse every request; the model's file is always readable.
- `ReconnectBackoff`, role checks, telemetry, kill switches, key handling, HTTP routes and web pages: no property that spans operations.
