/** The tables and the two transactions that write them, as functions on the committed database.
 *
 *  A transaction is one atomic step: it yields the next database, or an error and no change. The
 *  statement-by-statement methods of Repository.dfy are proved against these functions.
 */
module Store {
  import opened Wrappers
  import opened PrivacyRequest
  import opened HashChain
  import opened StringOrder

  datatype RequestRow = RequestRow(
    environmentId: string, requestType: RequestType, status: Status, subjectHash: Option<string>,
    keyVersion: Option<int>, canonicalizationVersion: Option<int>, duplicateOverride: bool,
    duplicateOf: Option<string>, createdAt: int, completedAt: Option<int>, currentAttemptId: Option<string>,
    version: int)

  datatype Environment = Environment(keyVersion: int, canonicalizationVersion: int)

  datatype AgentStatus = AgentPairing | AgentOnline | AgentOffline | AgentOutdated | AgentRevoked

  datatype AgentRow = AgentRow(environmentId: string, status: AgentStatus, encryptionKeyId: Option<string>)

  datatype Envelope = Envelope(environmentId: string, encryptionKeyId: string, expiresAt: int)

  datatype Alias = Alias(kind: string, subjectHash: string, keyVersion: int, canonicalizationVersion: int)

  datatype Head = Head(sequence: nat, eventHash: Option<string>)

  datatype OutboxRow = OutboxRow(
    id: string, environmentId: string, aggregateId: string, action: string, payload: Metadata, occurredAt: int)

  /** The audit chain heads, the audit events and the outbox. */
  datatype Journal = Journal(heads: map<string, Head>, audit: seq<Link>, outbox: seq<OutboxRow>)

  datatype Db = Db(
    environments: map<string, Environment>, agents: map<string, AgentRow>, requests: map<string, RequestRow>,
    attempts: map<string, Attempt>, envelopes: map<string, Envelope>, aliases: map<(string, string, string), Alias>,
    journal: Journal)

  datatype StoreError =
    | ConcurrencyConflict(requestId: string) | TenantScopeViolation | UniqueViolation | CheckViolation
    | CompletedAttemptImmutable | ForeignKeyViolation
    | RequestNotFound | AlreadyBound | VersionConflict | BindingStateInvalid | KeyVersionMismatch
    | AgentNotActive | EnvelopeNotFound | EnvelopeExpired | EnvelopeKeyMismatch

  // ----- the journal -----

  /** What a writer wants recorded; the stamp is the fresh event id and the clock. */
  datatype Note = Note(environmentId: string, requestId: string, actor: Actor, action: string, metadata: Metadata)

  datatype Stamp = Stamp(id: string, at: int)

  function HeadOf(j: Journal, environmentId: string): Head {
    if environmentId in j.heads then j.heads[environmentId] else Head(0, None)
  }

  function NextLink(h: Hasher, head: Head, note: Note, stamp: Stamp): Link {
    var event := AuditEvent(stamp.id, note.environmentId, head.sequence + 1, note.requestId, note.actor, note.action,
                            note.metadata, stamp.at);
    Link(event, head.eventHash, h(head.eventHash, event))
  }

  /** The primary key and the two unique indices of the audit table. */
  predicate KeysFree(audit: seq<Link>, link: Link) {
    forall l | l in audit ::
      && l.event.id != link.event.id
      && (l.event.environmentId == link.event.environmentId ==>
            l.event.sequence != link.event.sequence && l.eventHash != link.eventHash)
  }

  function OutboxOf(link: Link): OutboxRow {
    OutboxRow(link.event.id, link.event.environmentId, link.event.requestId, link.event.action, link.event.metadata,
              link.event.createdAt)
  }

  function Append(h: Hasher, j: Journal, note: Note, stamp: Stamp): Result<Journal, StoreError> {
    var head := HeadOf(j, note.environmentId);
    var link := NextLink(h, head, note, stamp);
    if !KeysFree(j.audit, link) then Err(UniqueViolation)
    else Ok(Journal(j.heads[note.environmentId := Head(head.sequence + 1, Some(link.eventHash))],
                    j.audit + [link], j.outbox + [OutboxOf(link)]))
  }

  function AppendAll(h: Hasher, j: Journal, notes: seq<Note>, stamps: seq<Stamp>): Result<Journal, StoreError>
    requires |stamps| >= |notes|
  {
    if notes == [] then Ok(j)
    else
      var n := |notes| - 1;
      var before :- AppendAll(h, j, notes[..n], stamps[..n]);
      Append(h, before, notes[n], stamps[n])
  }

  function ActorOf(e: Event): Actor {
    match e
    case PlanningRequested(agent) => Actor(Agent, agent)
    case ExecutionStarted(agent, _) => Actor(Agent, agent)
    case Authorized(_, Some(agent), _, _, _) => Actor(Agent, agent)
    case VerificationRequested(actor) => Actor(User, actor)
    case SubjectVerified(actor) => Actor(User, actor)
    case ReplanRequested(actor, _) => Actor(User, actor)
    case AuthorizationInvalidated(actor, _, _) => Actor(User, actor)
    case OutcomeAccepted(actor, _, _) => Actor(User, actor)
    case RequestCancelled(actor, _, _) => Actor(User, actor)
    case PlanApproved(approval) => Actor(User, approval.decidedBy)
    case PlanWasRejected(decider, _) => Actor(User, decider)
    case _ => Actor(System, "forgetops-domain")
  }

  function ActionOf(e: Event): string {
    match e
    case RequestCreated(_, _) => "PrivacyRequestCreated"
    case VerificationRequested(_) => "IdentityVerificationRequested"
    case SubjectVerified(_) => "IdentityVerified"
    case PlanningRequested(_) => "PlanningRequested"
    case PlanCreated(_) => "ExecutionPlanCreated"
    case PlanApproved(_) => "ExecutionPlanApproved"
    case PlanWasRejected(_, _) => "ExecutionPlanRejected"
    case Authorized(_, _, _, _, _) => "ExecutionAuthorized"
    case ExecutionStarted(_, _) => "ExecutionStarted"
    case RequestCompleted(_, _) => "PrivacyRequestCompleted"
    case RequestPartial(_, _, _) => "PrivacyRequestPartiallyCompleted"
    case RequestFailed(_) => "PrivacyRequestFailed"
    case ReviewNeeded(_) => "PrivacyRequestNeedsReview"
    case ReplanRequested(_, _) => "ReplanRequested"
    case AuthorizationInvalidated(_, _, _) => "ExecutionAuthorizationInvalidated"
    case OutcomeAccepted(_, _, _) => "RetainedOutcomeAccepted"
    case RequestCancelled(_, _, _) => "PrivacyRequestCancelled"
  }

  function EventNotes(environmentId: string, requestId: string, events: seq<Event>): (r: seq<Note>)
    ensures |r| == |events|
  {
    seq(|events|, i requires 0 <= i < |events| =>
      Note(environmentId, requestId, ActorOf(events[i]), ActionOf(events[i]), Payload(events[i])))
  }

  // ----- the attempts table -----

  /** The column checks and the table check of execution_attempts. */
  predicate RowChecked(a: Attempt) {
    && a.number > 0
    && a.binding.planVersion > 0
    && a.allowedStepIds != []
    && (TerminalAttempt(a.status) <==> a.completedAt.Some?)
  }

  /** The immutability trigger, fired by an update of an existing row. */
  predicate TriggerRejects(old_: Attempt, new_: Attempt) {
    old_.completedAt.Some? || new_ != old_.(status := new_.status, completedAt := new_.completedAt)
  }

  /** Insert, or on conflict update the status and completion of a row that is not yet completed. */
  function PutAttempt(table: map<string, Attempt>, a: Attempt): Result<map<string, Attempt>, StoreError> {
    if !RowChecked(a) then Err(CheckViolation)
    else if a.id !in table then
      if exists id | id in table :: table[id].requestId == a.requestId && table[id].number == a.number
      then Err(UniqueViolation)
      else Ok(table[a.id := a])
    else if table[a.id].completedAt.Some? then Ok(table)
    else
      var updated := table[a.id].(status := a.status, completedAt := a.completedAt);
      if TriggerRejects(table[a.id], updated) then Err(CompletedAttemptImmutable)
      else Ok(table[a.id := updated])
  }

  function PutAttempts(table: map<string, Attempt>, attempts: seq<Attempt>): Result<map<string, Attempt>, StoreError> {
    if attempts == [] then Ok(table)
    else
      var before :- PutAttempts(table, attempts[..|attempts| - 1]);
      PutAttempt(before, attempts[|attempts| - 1])
  }

  // ----- saving an aggregate -----

  function SavedRow(requests: map<string, RequestRow>, info: RequestInfo, s: State, expectedVersion: int,
                    persistedAt: int): Result<RequestRow, StoreError>
  {
    var completedAt := if s.status in {Completed, Cancelled} then Some(persistedAt) else None;
    if expectedVersion == 0 then
      if info.id in requests then Err(ConcurrencyConflict(info.id))
      else Indexable(requests, info.id,
                     RequestRow(info.environmentId, info.requestType, s.status, None, None, None, false, None,
                                persistedAt, completedAt, s.currentAttemptId, s.version))
    else if info.id !in requests || requests[info.id].environmentId != info.environmentId
            || requests[info.id].version != expectedVersion then Err(ConcurrencyConflict(info.id))
    else Indexable(requests, info.id,
                   requests[info.id].(status := s.status, completedAt := completedAt,
                                      currentAttemptId := s.currentAttemptId, version := s.version))
  }

  /** A row written under an id passes the partial unique index, or the write fails. */
  function Indexable(requests: map<string, RequestRow>, id: string, row: RequestRow): Result<RequestRow, StoreError> {
    if IndexFree(requests, id, row) then Ok(row) else Err(UniqueViolation)
  }

  function Save(h: Hasher, db: Db, info: RequestInfo, s: State, pending: seq<Event>, expectedVersion: int,
                stamps: seq<Stamp>, persistedAt: int): Result<Db, StoreError>
    requires |stamps| >= |pending|
  {
    if expectedVersion < 0 || pending == [] || s.version != expectedVersion + |pending|
    then Err(ConcurrencyConflict(info.id))
    else if info.environmentId !in db.environments then Err(TenantScopeViolation)
    else
      var row :- SavedRow(db.requests, info, s, expectedVersion, persistedAt);
      var attempts :- PutAttempts(db.attempts, s.attempts);
      var journal :- AppendAll(h, db.journal, EventNotes(info.environmentId, info.id, pending), stamps);
      if s.currentAttemptId.Some? &&
         !(s.currentAttemptId.value in attempts && attempts[s.currentAttemptId.value].requestId == info.id)
      then Err(ForeignKeyViolation)
      else Ok(db.(requests := db.requests[info.id := row], attempts := attempts, journal := journal))
  }

  // ----- binding a subject -----

  datatype DuplicateOverride = DuplicateOverride(ownerActorId: string, reason: string)

  datatype BindInput = BindInput(
    environmentId: string, requestId: string, agentId: string, subjectHash: string, keyVersion: int,
    canonicalizationVersion: int, expectedVersion: int, aliases: seq<Alias>, override: Option<DuplicateOverride>,
    now: int)

  datatype BindOutcome = Bound | DuplicateCancelled | DuplicateOverridden

  datatype BindResult = BindResult(requestId: string, duplicateOf: Option<string>, outcome: BindOutcome)

  predicate Cancellable(s: Status) {
    s in {Created, IdentityVerificationPending, IdentityVerified, Planning, AwaitingApproval}
  }

  predicate Active(row: RequestRow) {
    row.status !in {Completed, Cancelled}
  }

  /** The rows the partial unique index of privacy_requests ranges over. */
  predicate Indexed(row: RequestRow) {
    row.subjectHash.Some? && !row.duplicateOverride && Active(row)
  }

  predicate SameGroup(a: RequestRow, b: RequestRow) {
    a.environmentId == b.environmentId && a.subjectHash == b.subjectHash && a.requestType == b.requestType
  }

  predicate IndexFree(requests: map<string, RequestRow>, id: string, row: RequestRow) {
    forall other | other in requests && other != id :: !(Indexed(row) && Indexed(requests[other])
                                                         && SameGroup(row, requests[other]))
  }

  /** The order of created_at, then id. */
  predicate Before(requests: map<string, RequestRow>, a: string, b: string)
    requires a in requests && b in requests
  {
    requests[a].createdAt < requests[b].createdAt || (requests[a].createdAt == requests[b].createdAt && Less(a, b))
  }

  lemma BeforeTotal(requests: map<string, RequestRow>, a: string, b: string)
    requires a in requests && b in requests
    ensures Before(requests, a, b) || a == b || Before(requests, b, a)
    ensures !(Before(requests, a, b) && Before(requests, b, a))
    ensures a == b ==> !Before(requests, a, b)
  {
    LessTrichotomy(a, b);
  }

  lemma BeforeTransitive(requests: map<string, RequestRow>, a: string, b: string, c: string)
    requires a in requests && b in requests && c in requests
    requires Before(requests, a, b) && Before(requests, b, c)
    ensures Before(requests, a, c)
  {
    if Less(a, b) && Less(b, c) {
      LessTransitive(a, b, c);
    }
  }

  predicate IsLeast(requests: map<string, RequestRow>, ids: set<string>, m: string)
    requires ids <= requests.Keys
  {
    m in ids && forall x | x in ids :: x == m || Before(requests, m, x)
  }

  lemma {:induction false} LeastExists(requests: map<string, RequestRow>, ids: set<string>)
    requires ids <= requests.Keys && ids != {}
    ensures exists m :: IsLeast(requests, ids, m)
    decreases ids
  {
    var a :| a in ids;
    if ids == {a} {
      assert IsLeast(requests, ids, a);
    } else {
      LeastExists(requests, ids - {a});
      var m :| IsLeast(requests, ids - {a}, m);
      BeforeTotal(requests, a, m);
      if Before(requests, a, m) {
        forall x | x in ids ensures x == a || Before(requests, a, x) {
          if x != a && x != m {
            BeforeTransitive(requests, a, m, x);
          }
        }
        assert IsLeast(requests, ids, a);
      } else {
        assert IsLeast(requests, ids, m);
      }
    }
  }

  lemma LeastUnique(requests: map<string, RequestRow>, ids: set<string>, m: string, n: string)
    requires ids <= requests.Keys
    requires IsLeast(requests, ids, m) && IsLeast(requests, ids, n)
    ensures m == n
  {
    BeforeTotal(requests, m, n);
  }

  /** The active rows already bound to the subject, in the order of the candidate query. */
  function Candidates(requests: map<string, RequestRow>, input: BindInput, requestType: RequestType): (r: set<string>)
    ensures r <= requests.Keys
  {
    set id | id in requests && id != input.requestId
             && requests[id].environmentId == input.environmentId
             && requests[id].subjectHash == Some(input.subjectHash)
             && requests[id].requestType == requestType
             && !requests[id].duplicateOverride
             && Active(requests[id])
  }

  /** The first row of the candidate query, which orders by created_at and id. */
  function FirstCandidate(requests: map<string, RequestRow>, input: BindInput, requestType: RequestType):
    (r: Option<string>)
    ensures r.Some? ==> IsLeast(requests, Candidates(requests, input, requestType), r.value)
    ensures r.None? ==> Candidates(requests, input, requestType) == {}
  {
    var ids := Candidates(requests, input, requestType);
    if ids == {} then None
    else
      LeastExists(requests, ids);
      assert forall m, n | IsLeast(requests, ids, m) && IsLeast(requests, ids, n) :: m == n by {
        forall m, n | IsLeast(requests, ids, m) && IsLeast(requests, ids, n) ensures m == n {
          LeastUnique(requests, ids, m, n);
        }
      }
      var m :| IsLeast(requests, ids, m);
      Some(m)
  }

  predicate BoundTo(row: RequestRow, input: BindInput) {
    && row.subjectHash == Some(input.subjectHash)
    && row.keyVersion == Some(input.keyVersion)
    && row.canonicalizationVersion == Some(input.canonicalizationVersion)
  }

  function ExistingOutcome(row: RequestRow): BindOutcome {
    if row.duplicateOf.Some? then DuplicateCancelled
    else if row.duplicateOverride then DuplicateOverridden
    else Bound
  }

  /** Every check a bind makes before it writes, in source order. */
  function BindCheck(db: Db, input: BindInput): Option<StoreError> {
    if input.requestId !in db.requests then Some(RequestNotFound) else
    var row := db.requests[input.requestId];
    if row.environmentId != input.environmentId || input.environmentId !in db.environments
    then Some(RequestNotFound) else
    if row.subjectHash.Some? || row.keyVersion.Some? || row.canonicalizationVersion.Some? then Some(AlreadyBound) else
    if row.version != input.expectedVersion then Some(VersionConflict) else
    if !Cancellable(row.status) then Some(BindingStateInvalid) else
    var env := db.environments[input.environmentId];
    if env.keyVersion != input.keyVersion || env.canonicalizationVersion != input.canonicalizationVersion
    then Some(KeyVersionMismatch) else
    if input.agentId !in db.agents || db.agents[input.agentId].environmentId != input.environmentId
       || db.agents[input.agentId].status !in {AgentPairing, AgentOnline, AgentOffline, AgentOutdated} then Some(AgentNotActive) else
    if input.requestId !in db.envelopes || db.envelopes[input.requestId].environmentId != input.environmentId
    then Some(EnvelopeNotFound) else
    var envelope := db.envelopes[input.requestId];
    if envelope.expiresAt <= input.now then Some(EnvelopeExpired) else
    if db.agents[input.agentId].encryptionKeyId != Some(envelope.encryptionKeyId)
       || envelope.encryptionKeyId == "" then Some(EnvelopeKeyMismatch)
    else None
  }

  /** A request that already carries the very binding asked for: the retry of a committed bind. */
  predicate IsRetry(db: Db, input: BindInput) {
    && input.requestId in db.requests
    && db.requests[input.requestId].environmentId == input.environmentId
    && input.environmentId in db.environments
    && BoundTo(db.requests[input.requestId], input)
  }

  /** Which of the two duplicates goes: the earlier request survives unless it can no longer be cancelled. */
  datatype Judgement = Keep | CancelCurrent(first: string) | CancelCandidate(second: string)

  function Judge(requests: map<string, RequestRow>, input: BindInput): Judgement
    requires input.requestId in requests
  {
    var row := requests[input.requestId];
    if input.override.Some? then Keep
    else
      match FirstCandidate(requests, input, row.requestType)
      case None => Keep
      case Some(c) =>
        if Before(requests, c, input.requestId) || !Cancellable(requests[c].status) then CancelCurrent(c)
        else CancelCandidate(c)
  }

  function CancelledRow(row: RequestRow, duplicateOf: string, now: int): RequestRow {
    row.(status := Cancelled, duplicateOf := Some(duplicateOf), completedAt := Some(now), version := row.version + 1)
  }

  function BoundRow(row: RequestRow, input: BindInput, duplicateOf: Option<string>): RequestRow {
    row.(subjectHash := Some(input.subjectHash), keyVersion := Some(input.keyVersion),
         canonicalizationVersion := Some(input.canonicalizationVersion),
         duplicateOverride := input.override.Some?, duplicateOf := duplicateOf,
         status := if duplicateOf.Some? then Cancelled else IdentityVerified,
         completedAt := if duplicateOf.Some? then Some(input.now) else None,
         version := row.version + 1)
  }

  function DuplicateOf(v: Judgement): Option<string> {
    if v.CancelCurrent? then Some(v.first) else None
  }

  /** The request rows after a bind. */
  function BoundRows(requests: map<string, RequestRow>, input: BindInput, v: Judgement): map<string, RequestRow>
    requires input.requestId in requests
    requires v.CancelCandidate? ==> v.second in requests
  {
    var rows := if v.CancelCandidate?
                then requests[v.second := CancelledRow(requests[v.second], input.requestId, input.now)]
                else requests;
    rows[input.requestId := BoundRow(requests[input.requestId], input, DuplicateOf(v))]
  }

  function OutcomeOf(input: BindInput, v: Judgement): BindOutcome {
    if v.CancelCurrent? then DuplicateCancelled else if input.override.Some? then DuplicateOverridden else Bound
  }

  function BindNotes(input: BindInput, v: Judgement): (r: seq<Note>)
    ensures |r| == if v.CancelCandidate? then 2 else 1
  {
    var agent := Actor(Agent, input.agentId);
    var own := Note(
      input.environmentId, input.requestId,
      if input.override.Some? then Actor(User, input.override.value.ownerActorId) else agent,
      if input.override.Some? then "SubjectDuplicateOverrideApplied"
      else if v.CancelCurrent? then "PrivacyRequestDuplicateCancelled" else "SubjectIdentityBound",
      BindNote(DuplicateOf(v), input.keyVersion, input.canonicalizationVersion,
               if input.override.Some? then Some(input.override.value.reason) else None));
    if v.CancelCandidate?
    then [Note(input.environmentId, v.second, agent, "PrivacyRequestDuplicateCancelled", DuplicateNote(input.requestId)),
          own]
    else [own]
  }

  /** Aliases are inserted unless the key is there already. */
  function PutAliases(table: map<(string, string, string), Alias>, requestId: string, aliases: seq<Alias>):
    map<(string, string, string), Alias>
  {
    if aliases == [] then table
    else
      var before := PutAliases(table, requestId, aliases[..|aliases| - 1]);
      var a := aliases[|aliases| - 1];
      var key := (requestId, a.kind, a.subjectHash);
      if key in before then before else before[key := a]
  }

  /** A bind writes its own time on everything it records. */
  function Timed(stamps: seq<Stamp>, now: int): (r: seq<Stamp>)
    ensures |r| == |stamps| && forall i :: 0 <= i < |r| ==> r[i] == Stamp(stamps[i].id, now)
  {
    seq(|stamps|, i requires 0 <= i < |stamps| => Stamp(stamps[i].id, now))
  }

  function Bind(h: Hasher, db: Db, input: BindInput, stamps: seq<Stamp>): Result<(Db, BindResult), StoreError>
    requires |stamps| >= 2
  {
    if IsRetry(db, input) then
      var row := db.requests[input.requestId];
      Ok((db.(envelopes := db.envelopes - {input.requestId}),
          BindResult(input.requestId, row.duplicateOf, ExistingOutcome(row))))
    else
      var check := BindCheck(db, input);
      if check.Some? then Err(check.value)
      else
        var v := Judge(db.requests, input);
        var rows := BoundRows(db.requests, input, v);
        if !IndexFree(rows, input.requestId, rows[input.requestId]) then Err(UniqueViolation)
        else
          var journal :- AppendAll(h, db.journal, BindNotes(input, v), Timed(stamps, input.now));
          Ok((db.(requests := rows, journal := journal, envelopes := db.envelopes - {input.requestId},
                  aliases := PutAliases(db.aliases, input.requestId, input.aliases)),
              BindResult(input.requestId, DuplicateOf(v), OutcomeOf(input, v))))
  }
}
