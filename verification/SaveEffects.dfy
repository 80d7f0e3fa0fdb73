/** What a save of an aggregate writes and answers, on the fields of the tables, and what that makes of
 *  creation times over whole runs. */
module SaveEffects {
  import opened Wrappers
  import opened PrivacyRequest
  import opened PrivacyRequestTraces
  import opened HashChain
  import opened StringOrder
  import opened Store
  import opened AuditInvariants
  import opened Deduplication
  import B = BindEffects
  import P = AttemptPersistence
  import opened Interleavings

  // ----- the request row -----

  predicate Over(status: Status) {
    status == Completed || status == Cancelled
  }

  /** What every save stores of the aggregate, with its own time for a request that is over. */
  predicate Snapshot(row: RequestRow, s: State, at: int) {
    && row.status == s.status && row.version == s.version && row.currentAttemptId == s.currentAttemptId
    && row.completedAt == if Over(s.status) then Some(at) else None
  }

  /** A first save: created at its time, bound to nobody. */
  predicate Inserted(row: RequestRow, info: RequestInfo, at: int) {
    && row.environmentId == info.environmentId && row.requestType == info.requestType && row.createdAt == at
    && row.subjectHash == None && row.keyVersion == None && row.canonicalizationVersion == None
    && row.duplicateOverride == false && row.duplicateOf == None
  }

  /** A later save keeps all else of the row. */
  predicate Kept(before: RequestRow, row: RequestRow) {
    && row.environmentId == before.environmentId && row.requestType == before.requestType
    && row.createdAt == before.createdAt && row.subjectHash == before.subjectHash
    && row.keyVersion == before.keyVersion && row.canonicalizationVersion == before.canonicalizationVersion
    && row.duplicateOverride == before.duplicateOverride && row.duplicateOf == before.duplicateOf
  }

  lemma SaveWritesRow(h: Hasher, db: Db, info: RequestInfo, s: State, pending: seq<Event>, expected: int,
                      stamps: seq<Stamp>, at: int)
    requires |stamps| >= |pending| && Save(h, db, info, s, pending, expected, stamps, at).Ok?
    ensures expected == 0 <==> info.id !in db.requests
    ensures expected > 0 ==> db.requests[info.id].version == expected
    ensures var next := Save(h, db, info, s, pending, expected, stamps, at).value;
            && next.requests.Keys == db.requests.Keys + {info.id}
            && (forall other | other in db.requests && other != info.id :: next.requests[other] == db.requests[other])
            && Snapshot(next.requests[info.id], s, at)
            && (expected == 0 ==> Inserted(next.requests[info.id], info, at))
            && (expected != 0 ==> Kept(db.requests[info.id], next.requests[info.id]))
            && next.environments == db.environments && next.agents == db.agents && next.envelopes == db.envelopes
            && next.aliases == db.aliases
  {
  }

  /** Somebody else is in the way of a first save, or a later one does not meet the row it expects. */
  predicate Conflicts(requests: map<string, RequestRow>, info: RequestInfo, expected: int) {
    if expected == 0 then info.id in requests
    else info.id !in requests || requests[info.id].environmentId != info.environmentId
         || requests[info.id].version != expected
  }

  /** Another active request of the same subject and kind stands beside the one that would become active. */
  predicate Doubles(requests: map<string, RequestRow>, id: string, status: Status)
    requires id in requests
  {
    var row := requests[id];
    && row.subjectHash.Some? && !row.duplicateOverride && !Over(status)
    && exists other :: other in requests && other != id && requests[other].environmentId == row.environmentId
                       && requests[other].subjectHash == row.subjectHash
                       && requests[other].requestType == row.requestType
                       && !requests[other].duplicateOverride && !Over(requests[other].status)
  }

  /** When the request row is refused, whatever the table holds. */
  lemma RowRefusedExactly(requests: map<string, RequestRow>, info: RequestInfo, s: State, expected: int, at: int)
    ensures var r := SavedRow(requests, info, s, expected, at);
            && (r == Err(ConcurrencyConflict(info.id)) <==> Conflicts(requests, info, expected))
            && (r == Err(UniqueViolation) <==>
                  !Conflicts(requests, info, expected) && expected != 0 && Doubles(requests, info.id, s.status))
            && (r.Err? ==> r.error in {ConcurrencyConflict(info.id), UniqueViolation})
  {
  }

  // ----- the attempts table -----

  predicate Terminal(status: AttemptStatus) {
    || status == AttemptSucceeded || status == AttemptPartiallySucceeded || status == AttemptFailed
    || status == AttemptNeedsReview || status == AttemptCancelled
  }

  /** A row the column checks turn away. */
  predicate Malformed(a: Attempt) {
    a.number <= 0 || a.binding.planVersion <= 0 || |a.allowedStepIds| == 0 || Terminal(a.status) != a.completedAt.Some?
  }

  predicate NumberTaken(table: map<string, Attempt>, a: Attempt) {
    exists id :: id in table && table[id].requestId == a.requestId && table[id].number == a.number
  }

  /** One upsert: turned away by a check or the unique number; otherwise it inserts, leaves a completed row
    * alone, or moves an open row's status and completion. The immutability trigger has nothing to reject. */
  lemma UpsertExactly(table: map<string, Attempt>, a: Attempt)
    ensures PutAttempt(table, a) == Err(CheckViolation) <==> Malformed(a)
    ensures PutAttempt(table, a) == Err(UniqueViolation) <==> !Malformed(a) && a.id !in table && NumberTaken(table, a)
    ensures PutAttempt(table, a).Err? ==> PutAttempt(table, a).error in {CheckViolation, UniqueViolation}
    ensures PutAttempt(table, a).Ok? ==>
              var next := PutAttempt(table, a).value;
              && next.Keys == table.Keys + {a.id}
              && (forall id | id in table && id != a.id :: next[id] == table[id])
              && if a.id !in table then next[a.id] == a
                 else if table[a.id].completedAt.Some? then next[a.id] == table[a.id]
                 else next[a.id] == table[a.id].(status := a.status, completedAt := a.completedAt)
  {
  }

  /** The trigger rejects any change of a completed row, and of another column than status and completion. */
  lemma TriggerExactly(before: Attempt, after: Attempt)
    ensures TriggerRejects(before, after) <==>
            || before.completedAt.Some? || after.id != before.id || after.requestId != before.requestId
            || after.number != before.number || after.kind != before.kind || after.binding != before.binding
            || after.allowedStepIds != before.allowedStepIds || after.createdAt != before.createdAt
  {
  }

  // ----- the journal -----

  /** Who an event's audit row names: the agent or the person of its payload, else the system. */
  predicate ActorTold(e: Event, actor: Actor) {
    if e.PlanningRequested? || e.ExecutionStarted? then actor == Actor(Agent, e.agentId)
    else if e.Authorized? && e.agent.Some? then actor == Actor(Agent, e.agent.value)
    else if e.VerificationRequested? || e.SubjectVerified? || e.ReplanRequested? || e.AuthorizationInvalidated?
            || e.OutcomeAccepted? || e.RequestCancelled? then actor == Actor(User, e.actorId)
    else if e.PlanApproved? then actor == Actor(User, e.approval.decidedBy)
    else if e.PlanWasRejected? then actor == Actor(User, e.decidedBy)
    else actor == Actor(System, "forgetops-domain")
  }

  /** The names of the events in the audit trail. */
  predicate ActionTold(e: Event, action: string) {
    match e
    case RequestCreated(_, _) => action == "PrivacyRequestCreated"
    case VerificationRequested(_) => action == "IdentityVerificationRequested"
    case SubjectVerified(_) => action == "IdentityVerified"
    case PlanningRequested(_) => action == "PlanningRequested"
    case PlanCreated(_) => action == "ExecutionPlanCreated"
    case PlanApproved(_) => action == "ExecutionPlanApproved"
    case PlanWasRejected(_, _) => action == "ExecutionPlanRejected"
    case Authorized(_, _, _, _, _) => action == "ExecutionAuthorized"
    case ExecutionStarted(_, _) => action == "ExecutionStarted"
    case RequestCompleted(_, _) => action == "PrivacyRequestCompleted"
    case RequestPartial(_, _, _) => action == "PrivacyRequestPartiallyCompleted"
    case RequestFailed(_) => action == "PrivacyRequestFailed"
    case ReviewNeeded(_) => action == "PrivacyRequestNeedsReview"
    case ReplanRequested(_, _) => action == "ReplanRequested"
    case AuthorizationInvalidated(_, _, _) => action == "ExecutionAuthorizationInvalidated"
    case OutcomeAccepted(_, _, _) => action == "RetainedOutcomeAccepted"
    case RequestCancelled(_, _, _) => action == "PrivacyRequestCancelled"
  }

  predicate TellsEvent(note: Note, info: RequestInfo, e: Event) {
    && note.environmentId == info.environmentId && note.requestId == info.id && note.metadata == Payload(e)
    && ActorTold(e, note.actor) && ActionTold(e, note.action)
  }

  lemma ActionsTold(e: Event)
    ensures ActionTold(e, ActionOf(e))
  {
  }

  /** The journal after a save: one link and one outbox row a pending event, in order. */
  lemma SaveRecords(h: Hasher, db: Db, info: RequestInfo, s: State, pending: seq<Event>, expected: int,
                    stamps: seq<Stamp>, at: int)
    returns (notes: seq<Note>)
    requires |stamps| >= |pending| && Save(h, db, info, s, pending, expected, stamps, at).Ok?
    ensures |notes| == |pending| && forall i | 0 <= i < |notes| :: TellsEvent(notes[i], info, pending[i])
    ensures B.Extends(db.journal, Save(h, db, info, s, pending, expected, stamps, at).value.journal, notes, stamps)
  {
    notes := EventNotes(info.environmentId, info.id, pending);
    B.AppendAllExtends(h, db.journal, notes, stamps);
    forall i | 0 <= i < |notes|
      ensures TellsEvent(notes[i], info, pending[i])
    {
      ActionsTold(pending[i]);
    }
  }

  // ----- creation times over whole runs -----

  /** Creation time, kind and environment of a request, once saved, are never written again. */
  predicate SameOrigin(before: map<string, RequestRow>, after: map<string, RequestRow>, id: string) {
    id in before ==>
      && id in after && after[id].createdAt == before[id].createdAt
      && after[id].requestType == before[id].requestType && after[id].environmentId == before[id].environmentId
  }

  lemma OriginsStay(h: Hasher, world: P.World, step: P.Step, id: string)
    requires P.Allowed(world, step)
    ensures SameOrigin(world.db.requests, P.Next(h, world, step).db.requests, id)
  {
    match step
    case SaveLive(other, expected, stamps, at) =>
      var l := world.live[other];
      if P.SaveOf(h, world.db, l, step).Ok? {
        SaveWritesRow(h, world.db, l.info, Replay(l.log), P.PendingOf(l), expected, stamps, at);
      }
    case BindSubject(input, stamps) =>
      if Bind(h, world.db, input, stamps).Ok? {
        B.BindSpares(h, world.db, input, stamps);
        if !B.Repeats(world.db, input) {
          B.BindWrites(h, world.db, input, stamps);
        }
      }
    case _ =>
  }

  lemma {:induction false} OriginsStayInRun(h: Hasher, world: P.World, steps: seq<P.Step>, id: string)
    requires P.AllowedRun(h, world, steps)
    ensures SameOrigin(world.db.requests, P.Run(h, world, steps).db.requests, id)
    decreases |steps|
  {
    if steps != [] {
      OriginsStay(h, world, steps[0], id);
      OriginsStayInRun(h, P.Next(h, world, steps[0]), steps[1..], id);
    }
  }

  /** A stored request has a completion time exactly when it is over. */
  ghost predicate Dated(rows: map<string, RequestRow>) {
    forall id | id in rows :: rows[id].completedAt.Some? <==> Over(rows[id].status)
  }

  lemma SaveKeepsDates(h: Hasher, db: Db, info: RequestInfo, s: State, pending: seq<Event>, expected: int,
                       stamps: seq<Stamp>, at: int)
    requires |stamps| >= |pending| && Save(h, db, info, s, pending, expected, stamps, at).Ok? && Dated(db.requests)
    ensures Dated(Save(h, db, info, s, pending, expected, stamps, at).value.requests)
  {
    SaveWritesRow(h, db, info, s, pending, expected, stamps, at);
  }

  lemma BindKeepsDates(h: Hasher, db: Db, input: BindInput, stamps: seq<Stamp>)
    requires |stamps| >= 2 && Bind(h, db, input, stamps).Ok? && Dated(db.requests)
    ensures Dated(Bind(h, db, input, stamps).value.0.requests)
  {
    B.BindSpares(h, db, input, stamps);
    if !B.Repeats(db, input) {
      B.BindWrites(h, db, input, stamps);
    }
  }

  lemma StepKeepsDates(h: Hasher, world: P.World, step: P.Step)
    requires P.Allowed(world, step) && Dated(world.db.requests)
    ensures Dated(P.Next(h, world, step).db.requests)
  {
    match step
    case SaveLive(id, expected, stamps, at) =>
      var l := world.live[id];
      if P.SaveOf(h, world.db, l, step).Ok? {
        SaveKeepsDates(h, world.db, l.info, Replay(l.log), P.PendingOf(l), expected, stamps, at);
      }
    case BindSubject(input, stamps) =>
      if Bind(h, world.db, input, stamps).Ok? {
        BindKeepsDates(h, world.db, input, stamps);
      }
    case _ =>
  }

  /** Over every run, whoever ended the request. */
  lemma {:induction false} RunKeepsDates(h: Hasher, world: P.World, steps: seq<P.Step>)
    requires P.AllowedRun(h, world, steps) && Dated(world.db.requests)
    ensures Dated(P.Run(h, world, steps).db.requests)
    decreases |steps|
  {
    if steps != [] {
      StepKeepsDates(h, world, steps[0]);
      RunKeepsDates(h, P.Next(h, world, steps[0]), steps[1..]);
    }
  }

  /** The step saves the request, and the save goes through. */
  ghost predicate SavesNow(h: Hasher, world: P.World, step: P.Step, id: string)
    requires P.Allowed(world, step)
  {
    step.SaveLive? && step.id == id && P.SaveOf(h, world.db, world.live[id], step).Ok?
  }

  /** The time of a request's first save in a run. */
  ghost function FirstSaved(h: Hasher, world: P.World, steps: seq<P.Step>, id: string): Option<int>
    requires P.AllowedRun(h, world, steps)
    decreases |steps|
  {
    if steps == [] then None
    else if SavesNow(h, world, steps[0], id) then Some(steps[0].persistedAt)
    else FirstSaved(h, P.Next(h, world, steps[0]), steps[1..], id)
  }

  lemma BindAddsNoRow(h: Hasher, db: Db, input: BindInput, stamps: seq<Stamp>)
    requires |stamps| >= 2 && Bind(h, db, input, stamps).Ok?
    ensures Bind(h, db, input, stamps).value.0.requests.Keys == db.requests.Keys
  {
    B.BindSpares(h, db, input, stamps);
    if !B.Repeats(db, input) {
      B.BindWrites(h, db, input, stamps);
    }
  }

  /** Only its own save brings a request into the table, created at the save's time. */
  lemma RowsAppear(h: Hasher, world: P.World, step: P.Step, id: string)
    requires P.Consistent(world) && P.Allowed(world, step) && id !in world.db.requests
    ensures id in P.Next(h, world, step).db.requests <==> SavesNow(h, world, step, id)
    ensures SavesNow(h, world, step, id) ==>
              Inserted(P.Next(h, world, step).db.requests[id], world.live[id].info, step.persistedAt)
  {
    if step.SaveLive? {
      var l := world.live[step.id];
      assert P.LiveOk(world.db, l, step.id);
      if P.SaveOf(h, world.db, l, step).Ok? {
        SaveWritesRow(h, world.db, l.info, Replay(l.log), P.PendingOf(l), step.expectedVersion, step.stamps,
                      step.persistedAt);
      }
    } else if step.BindSubject? && Bind(h, world.db, step.input, step.bindStamps).Ok? {
      BindAddsNoRow(h, world.db, step.input, step.bindStamps);
    }
  }

  /** Over every run a request's creation time is the time of its first save. */
  lemma {:induction false} CreatedWhenFirstSaved(h: Hasher, world: P.World, steps: seq<P.Step>, id: string)
    requires P.Consistent(world) && P.AllowedRun(h, world, steps) && id !in world.db.requests
    ensures var rows := P.Run(h, world, steps).db.requests;
            && (id in rows <==> FirstSaved(h, world, steps, id).Some?)
            && (id in rows ==> FirstSaved(h, world, steps, id) == Some(rows[id].createdAt))
    decreases |steps|
  {
    if steps != [] {
      var next := P.Next(h, world, steps[0]);
      RowsAppear(h, world, steps[0], id);
      P.StepKeepsConsistent(h, world, steps[0]);
      if SavesNow(h, world, steps[0], id) {
        OriginsStayInRun(h, next, steps[1..], id);
      } else {
        CreatedWhenFirstSaved(h, next, steps[1..], id);
      }
    }
  }

  /** One request was first saved before another: earlier, or at the same time with the lesser id. */
  ghost predicate SavedBefore(h: Hasher, world: P.World, steps: seq<P.Step>, a: string, b: string)
    requires P.AllowedRun(h, world, steps)
  {
    var first, second := FirstSaved(h, world, steps, a), FirstSaved(h, world, steps, b);
    && first.Some? && second.Some?
    && (first.value < second.value || (first.value == second.value && Less(a, b)))
  }

  /** Over every interleaving of creations, commands, saves and binds from an empty table: of all requests
    * bound to a subject, the one whose first save came first is the only one active. */
  lemma SurvivorSavedFirst(h: Hasher, world: P.World, steps: seq<P.Step>, g: Subject) returns (winner: string)
    requires Sound(h, world) && world.db.requests == map[] && P.AllowedRun(h, world, steps)
    requires BoundIds(P.Run(h, world, steps).db.requests, g) != {}
    ensures var rows := P.Run(h, world, steps).db.requests;
            && winner in BoundIds(rows, g)
            && (forall id | id in BoundIds(rows, g) && id != winner :: SavedBefore(h, world, steps, winner, id))
            && forall id | id in BoundIds(rows, g) :: id == winner <==> rows[id].status !in {Completed, Cancelled}
  {
    var rows := P.Run(h, world, steps).db.requests;
    EveryInterleavingIsSound(h, world, steps);
    assert GroupSettled(rows, g);
    winner :| Settled(rows, g, winner);
    SurvivorIsUnique(rows, g, winner);
    CreatedWhenFirstSaved(h, world, steps, winner);
    forall id | id in BoundIds(rows, g) && id != winner
      ensures SavedBefore(h, world, steps, winner, id)
    {
      CreatedWhenFirstSaved(h, world, steps, id);
    }
  }

  // ----- why a save is refused -----

  /** The refusals of a save of a live aggregate, the first that holds. */
  ghost predicate Refused(db: Db, l: P.Live, step: P.Step, e: StoreError)
    requires step.SaveLive? && |l.log| <= |step.stamps| && l.committed <= |l.log|
  {
    var id := l.info.id;
    var current := step.expectedVersion == l.committed < |l.log|;
    var known := l.info.environmentId in db.environments;
    var alone := l.committed > 0 ==> id in db.requests && db.requests[id].version == l.committed;
    match e
    case ConcurrencyConflict(other) => other == id && (!current || (known && !alone))
    case TenantScopeViolation => current && !known
    case UniqueViolation => current && known && alone && !StampsFree(db.journal.audit, step.stamps, |l.log| - l.committed)
    case _ => false
  }

  lemma AppendAllError(h: Hasher, j: Journal, notes: seq<Note>, stamps: seq<Stamp>)
    requires |notes| <= |stamps| && AppendAll(h, j, notes, stamps).Err?
    ensures AppendAll(h, j, notes, stamps) == Err(UniqueViolation)
  {
  }

  /** A save never leaves a current attempt that is not stored for its request: it would fail on the foreign
    * key, after every other check. */
  lemma DanglingAttemptFails(h: Hasher, db: Db, info: RequestInfo, s: State, pending: seq<Event>, expected: int,
                             stamps: seq<Stamp>, at: int)
    requires |stamps| >= |pending| && PutAttempts(db.attempts, s.attempts).Ok?
    ensures var table := PutAttempts(db.attempts, s.attempts).value;
            var r := Save(h, db, info, s, pending, expected, stamps, at);
            var dangling := s.currentAttemptId.Some?
                            && (s.currentAttemptId.value !in table || table[s.currentAttemptId.value].requestId != info.id);
            && (r.Ok? ==> !dangling)
            && (r == Err(ForeignKeyViolation) ==> dangling)
            && (dangling && s.version == expected + |pending| && |pending| > 0 && expected >= 0
                && info.environmentId in db.environments && SavedRow(db.requests, info, s, expected, at).Ok?
                && AppendAll(h, db.journal, EventNotes(info.environmentId, info.id, pending), stamps).Ok?
                ==> r == Err(ForeignKeyViolation))
  {
    var notes := EventNotes(info.environmentId, info.id, pending);
    if AppendAll(h, db.journal, notes, stamps).Err? {
      AppendAllError(h, db.journal, notes, stamps);
    }
  }

  lemma SaveErrs(h: Hasher, db: Db, l: P.Live, step: P.Step)
    requires P.LogOk(l, l.info.id) && P.RowOkFor(db, l)
    requires step.SaveLive? && |l.log| <= |step.stamps|
    requires var put := PutAttempts(db.attempts, P.AttemptsOf(l));
             put.Ok? && P.StoredFor(put.value, l.info.id, P.AttemptsOf(l))
    requires var notes := EventNotes(l.info.environmentId, l.info.id, P.PendingOf(l));
             AppendAll(h, db.journal, notes, step.stamps).Ok? <==>
               StampsFree(db.journal.audit, step.stamps, |l.log| - l.committed)
    ensures P.SaveOf(h, db, l, step).Err? ==> Refused(db, l, step, P.SaveOf(h, db, l, step).error)
  {
    P.PendingCount(l);
    VersionCountsEvents(l.log);
    P.CurrentAttemptStored(l, l.info.id, PutAttempts(db.attempts, P.AttemptsOf(l)).value);
    var notes := EventNotes(l.info.environmentId, l.info.id, P.PendingOf(l));
    if AppendAll(h, db.journal, notes, step.stamps).Err? {
      AppendAllError(h, db.journal, notes, step.stamps);
    }
    if step.expectedVersion == l.committed && (l.committed > 0 ==> db.requests[l.info.id].version == l.committed) {
      P.NeverIndexed(db, l, l.info.id, step);
    }
  }

  /** In every sound world a save answers exactly the first refusal that holds, and goes through if none
    * does: SaveSucceedsExactly says when that is. */
  lemma SaveRefusedExactly(h: Hasher, world: P.World, step: P.Step)
    requires CollisionFree(h) && P.Consistent(world) && JournalIntact(h, world.db.journal)
    requires step.SaveLive? && P.Allowed(world, step)
    ensures var l := world.live[step.id];
            && P.LiveOk(world.db, l, step.id)
            && (P.SaveOf(h, world.db, l, step).Err? ==> Refused(world.db, l, step, P.SaveOf(h, world.db, l, step).error))
            && (P.SaveOf(h, world.db, l, step).Ok? ==> forall e :: !Refused(world.db, l, step, e))
  {
    var l := world.live[step.id];
    assert P.LiveOk(world.db, l, step.id);
    SaveSucceedsExactly(h, world, step);
    P.PendingCount(l);
    P.SaveStoresAttempts(world, step.id);
    AppendAllSucceeds(h, world.db.journal, EventNotes(l.info.environmentId, step.id, P.PendingOf(l)), step.stamps);
    SaveErrs(h, world.db, l, step);
  }
}
