/** The privacy-request state machine as an event-sourced specification.
 *
 *  Decide says which event a command records, or with which error it throws; Apply says what one
 *  recorded event does to the state. The mutating aggregate of PrivacyRequestAggregate.dfy is proved
 *  against this pair, and the theorems of PrivacyRequestTraces.dfy speak about every log of it.
 */
module PrivacyRequest {
  import opened Wrappers

  datatype Status =
    | Created | IdentityVerificationPending | IdentityVerified | Planning | AwaitingApproval
    | ExecutionAuthorized | Executing | Completed | PartiallyCompleted | Failed | NeedsReview | Cancelled

  /** The table of allowed status changes. */
  predicate Transition(from: Status, next: Status) {
    match from
    case Created => next in {IdentityVerificationPending, IdentityVerified, Cancelled}
    case IdentityVerificationPending => next in {IdentityVerified, Failed, Cancelled}
    case IdentityVerified => next in {Planning, Cancelled}
    case Planning => next in {AwaitingApproval, ExecutionAuthorized, Failed, Cancelled}
    case AwaitingApproval => next in {ExecutionAuthorized, Planning, Cancelled}
    case ExecutionAuthorized => next in {Executing, AwaitingApproval, Cancelled}
    case Executing => next in {Completed, PartiallyCompleted, Failed, NeedsReview}
    case Completed => false
    case PartiallyCompleted => next in {Planning, ExecutionAuthorized, NeedsReview, Completed}
    case Failed => next in {Planning, ExecutionAuthorized, NeedsReview, Cancelled}
    case NeedsReview => next in {Planning, ExecutionAuthorized, PartiallyCompleted, Completed, Cancelled}
    case Cancelled => false
  }

  datatype Binding = Binding(planId: string, planVersion: int, planFingerprint: string)

  datatype Plan = Plan(binding: Binding, requiresApproval: bool)

  datatype Approval = Approval(binding: Binding, decidedBy: string)

  datatype AttemptKind = Initial | Retry

  datatype AttemptStatus =
    | AttemptPlanned | AttemptAwaitingApproval | AttemptAuthorized | AttemptRunning | AttemptSucceeded
    | AttemptPartiallySucceeded | AttemptFailed | AttemptNeedsReview | AttemptCancelled

  /** The statuses for which the attempts table demands a completion time. */
  predicate TerminalAttempt(s: AttemptStatus) {
    s in {AttemptSucceeded, AttemptPartiallySucceeded, AttemptFailed, AttemptNeedsReview, AttemptCancelled}
  }

  datatype Attempt = Attempt(
    id: string, requestId: string, number: nat, kind: AttemptKind, binding: Binding,
    allowedStepIds: seq<string>, status: AttemptStatus, createdAt: string, completedAt: Option<string>)

  datatype Disposition = ChangesRequested | PlanRejected

  /** A domain event. Every payload also carries the request id, which never varies within one
    * aggregate; only the first event keeps it here. */
  datatype Event =
    | RequestCreated(requestId: string, environmentId: string)
    | VerificationRequested(actorId: string)
    | SubjectVerified(actorId: string)
    | PlanningRequested(agentId: string)
    | PlanCreated(plan: Plan)
    | PlanApproved(approval: Approval)
    | PlanWasRejected(decidedBy: string, disposition: Disposition)
    | Authorized(binding: Binding, agent: Option<string>, attemptId: string, kind: AttemptKind,
                 allowedStepIds: seq<string>)
    | ExecutionStarted(agentId: string, attemptId: string)
    | RequestCompleted(affectedCount: int, attemptId: string)
    | RequestPartial(affectedCount: int, failedCount: int, currentAttempt: Option<string>)
    | RequestFailed(currentAttempt: Option<string>)
    | ReviewNeeded(currentAttempt: Option<string>)
    | ReplanRequested(actorId: string, reason: string)
    | AuthorizationInvalidated(actorId: string, reason: string, currentAttempt: Option<string>)
    | OutcomeAccepted(actorId: string, reason: string, currentAttempt: Option<string>)
    | RequestCancelled(actorId: string, reason: string, currentAttempt: Option<string>)

  datatype Command =
    | BeginIdentityVerification(actorId: string)
    | MarkIdentityVerified(actorId: string)
    | BeginPlanning(agentId: string)
    | AttachPlan(plan: Plan)
    | ApprovePlan(approval: Approval)
    | RejectPlan(decidedBy: string, disposition: Disposition)
    | AuthorizeExecution(binding: Binding, agentId: string, attemptId: string, allowedStepIds: seq<string>)
    | MarkExecuting(agentId: string)
    | Complete(affectedCount: int)
    | MarkPartial(affectedCount: int, failedCount: int)
    | Fail
    | MarkNeedsReview
    | RequestReplan(actorId: string, reason: string)
    | BeginRetry(attemptId: string, allowedStepIds: seq<string>, expectedVersion: int)
    | InvalidateAuthorization(actorId: string, reason: string)
    | AcceptRetainedOutcome(actorId: string, reason: string)
    | Cancel(actorId: string, reason: string)

  datatype Error =
    | StateConflict(from: Status, to: Status)
    | PlanVersionMismatch
    | StepScopeInvalid
    | AuditReasonInvalid
    | AttemptIdInvalid
    | AttemptNotFound
    | RequestVersionMismatch

  /** The answer to a command: the event it records, or the error it throws. */
  datatype Decision = Accept(event: Event) | Throw(error: Error)

  datatype State = State(
    id: string, status: Status, version: nat, currentAttemptId: Option<string>, plan: Option<Plan>,
    approval: Option<Approval>, latestPlanVersion: int, attempts: seq<Attempt>)

  datatype RequestType = Delete | Export

  datatype RequestSource = Admin | PrivacyPortal | Api

  datatype RequestInfo = RequestInfo(
    id: string, environmentId: string, requestType: RequestType, source: RequestSource, policyVersion: int,
    createdByActorId: string, deadlineAt: string)

  /** What one call records, with the clock value the command read. */
  datatype Entry = Entry(event: Event, at: string)

  predicate ValidScope(stepIds: seq<string>) {
    && stepIds != []
    && "" !in stepIds
    && forall i, j | 0 <= i < j < |stepIds| :: stepIds[i] != stepIds[j]
  }

  predicate LowerOrDigit(c: char) {
    'a' <= c <= 'z' || '0' <= c <= '9'
  }

  predicate ValidReason(reason: string) {
    && 1 <= |reason| <= 64
    && LowerOrDigit(reason[0])
    && forall i | 0 <= i < |reason| :: LowerOrDigit(reason[i]) || reason[i] in {'_', ':', '-'}
  }

  predicate AttemptIdFree(attempts: seq<Attempt>, id: string) {
    id != "" && forall a | a in attempts :: a.id != id
  }

  function FindAttempt(attempts: seq<Attempt>, id: Option<string>): (r: Option<Attempt>)
    ensures r.Some? ==> id == Some(r.value.id)
  {
    if attempts == [] then None
    else if Some(attempts[0].id) == id then Some(attempts[0])
    else FindAttempt(attempts[1..], id)
  }

  function ReplaceAttempt(attempts: seq<Attempt>, updated: Attempt): seq<Attempt> {
    seq(|attempts|, i requires 0 <= i < |attempts| =>
      if attempts[i].id == updated.id then updated else attempts[i])
  }

  function UpdateAttempt(attempts: seq<Attempt>, id: Option<string>, status: AttemptStatus,
                         completedAt: Option<string>): seq<Attempt>
  {
    match FindAttempt(attempts, id)
    case None => attempts
    case Some(a) => ReplaceAttempt(attempts, a.(status := status, completedAt := completedAt))
  }

  function NewState(requestId: string): State {
    State(requestId, Created, 1, None, None, None, 0, [])
  }

  // ----- commands -----

  predicate Retryable(s: Status) {
    s in {PartiallyCompleted, Failed, NeedsReview}
  }

  predicate CanMove(s: State, next: Status) {
    Transition(s.status, next)
  }

  predicate HasCurrentAttempt(s: State) {
    FindAttempt(s.attempts, s.currentAttemptId).Some?
  }

  /** The event a command records in state s, or the error it throws, checks in source order. */
  function Decide(s: State, c: Command): Decision {
    match c
    case BeginIdentityVerification(actor) =>
      if !CanMove(s, IdentityVerificationPending) then Throw(StateConflict(s.status, IdentityVerificationPending)) else
      Accept(VerificationRequested(actor))
    case MarkIdentityVerified(actor) =>
      if !CanMove(s, IdentityVerified) then Throw(StateConflict(s.status, IdentityVerified)) else
      Accept(SubjectVerified(actor))
    case BeginPlanning(agent) =>
      if s.status != IdentityVerified then Throw(StateConflict(s.status, Planning)) else
      Accept(PlanningRequested(agent))
    case AttachPlan(plan) =>
      if s.status != Planning then Throw(StateConflict(s.status, AwaitingApproval)) else
      if plan.binding.planVersion <= s.latestPlanVersion then Throw(PlanVersionMismatch) else
      Accept(PlanCreated(plan))
    case ApprovePlan(approval) =>
      if s.status != AwaitingApproval then Throw(StateConflict(s.status, AwaitingApproval)) else
      if s.plan.None? || s.plan.value.binding != approval.binding then Throw(PlanVersionMismatch) else
      Accept(PlanApproved(approval))
    case RejectPlan(decider, disposition) =>
      var target := if disposition == ChangesRequested then Planning else Cancelled;
      if s.status != AwaitingApproval then Throw(StateConflict(s.status, target)) else
      Accept(PlanWasRejected(decider, disposition))
    case AuthorizeExecution(binding, agent, attemptId, steps) =>
      var conflict := StateConflict(s.status, ExecutionAuthorized);
      if s.status !in {Planning, AwaitingApproval} then Throw(conflict) else
      if s.plan.None? then Throw(conflict) else
      if !ValidScope(steps) then Throw(StepScopeInvalid) else
      if s.plan.value.binding != binding then Throw(PlanVersionMismatch) else
      if s.status == Planning && s.plan.value.requiresApproval then Throw(conflict) else
      if s.status == AwaitingApproval && s.approval.None? then Throw(conflict) else
      if !AttemptIdFree(s.attempts, attemptId) then Throw(AttemptIdInvalid) else
      Accept(Authorized(binding, Some(agent), attemptId, Initial, steps))
    case MarkExecuting(agent) =>
      if s.status != ExecutionAuthorized then Throw(StateConflict(s.status, Executing)) else
      if !HasCurrentAttempt(s) then Throw(AttemptNotFound) else
      Accept(ExecutionStarted(agent, s.currentAttemptId.value))
    case Complete(affected) =>
      if s.status != Executing then Throw(StateConflict(s.status, Completed)) else
      if !HasCurrentAttempt(s) then Throw(AttemptNotFound) else
      Accept(RequestCompleted(affected, s.currentAttemptId.value))
    case MarkPartial(affected, failed) =>
      if !CanMove(s, PartiallyCompleted) then Throw(StateConflict(s.status, PartiallyCompleted)) else
      if s.status == Executing && !HasCurrentAttempt(s) then Throw(AttemptNotFound) else
      Accept(RequestPartial(affected, failed, s.currentAttemptId))
    case Fail =>
      if !CanMove(s, Failed) then Throw(StateConflict(s.status, Failed)) else
      if s.status == Executing && !HasCurrentAttempt(s) then Throw(AttemptNotFound) else
      Accept(RequestFailed(s.currentAttemptId))
    case MarkNeedsReview =>
      if !CanMove(s, NeedsReview) then Throw(StateConflict(s.status, NeedsReview)) else
      if s.status == Executing && !HasCurrentAttempt(s) then Throw(AttemptNotFound) else
      Accept(ReviewNeeded(s.currentAttemptId))
    case RequestReplan(actor, reason) =>
      if !Retryable(s.status) then Throw(StateConflict(s.status, Planning)) else
      if !ValidReason(reason) then Throw(AuditReasonInvalid) else
      Accept(ReplanRequested(actor, reason))
    case BeginRetry(attemptId, steps, expectedVersion) =>
      if !Retryable(s.status) then Throw(StateConflict(s.status, ExecutionAuthorized)) else
      if expectedVersion != s.version then Throw(RequestVersionMismatch) else
      if s.plan.None? then Throw(StateConflict(s.status, ExecutionAuthorized)) else
      if !ValidScope(steps) then Throw(StepScopeInvalid) else
      if !AttemptIdFree(s.attempts, attemptId) then Throw(AttemptIdInvalid) else
      Accept(Authorized(s.plan.value.binding, None, attemptId, Retry, steps))
    case InvalidateAuthorization(actor, reason) =>
      if s.status != ExecutionAuthorized then Throw(StateConflict(s.status, AwaitingApproval)) else
      if !ValidReason(reason) then Throw(AuditReasonInvalid) else
      if !HasCurrentAttempt(s) then Throw(AttemptNotFound) else
      Accept(AuthorizationInvalidated(actor, reason, s.currentAttemptId))
    case AcceptRetainedOutcome(actor, reason) =>
      if s.status !in {PartiallyCompleted, NeedsReview} then Throw(StateConflict(s.status, Completed)) else
      if !ValidReason(reason) then Throw(AuditReasonInvalid) else
      Accept(OutcomeAccepted(actor, reason, s.currentAttemptId))
    case Cancel(actor, reason) =>
      if !CanMove(s, Cancelled) then Throw(StateConflict(s.status, Cancelled)) else
      if !ValidReason(reason) then Throw(AuditReasonInvalid) else
      if s.status == ExecutionAuthorized && !HasCurrentAttempt(s) then Throw(AttemptNotFound) else
      Accept(RequestCancelled(actor, reason, s.currentAttemptId))
  }

  // ----- events -----

  /** The next state for the outcome of an execution: only a running attempt is closed by it. */
  function Leave(s: State, when: Status, next: Status, attempt: Option<string>, outcome: AttemptStatus,
                 at: string): State
  {
    s.(status := next,
       attempts := if s.status == when then UpdateAttempt(s.attempts, attempt, outcome, Some(at)) else s.attempts)
  }

  /** The state change one recorded event stands for. It reads the event, the state and the clock
    * value, never the command. */
  function Change(s: State, e: Event, at: string): State {
    match e
    case RequestCreated(id, _) => NewState(id)
    case VerificationRequested(_) => s.(status := IdentityVerificationPending)
    case SubjectVerified(_) => s.(status := IdentityVerified)
    case PlanningRequested(_) => s.(status := Planning)
    case PlanCreated(plan) =>
      s.(plan := Some(plan), approval := None, latestPlanVersion := plan.binding.planVersion,
         status := if plan.requiresApproval then AwaitingApproval else s.status)
    case PlanApproved(approval) => s.(approval := Some(approval))
    case PlanWasRejected(_, ChangesRequested) => s.(plan := None, approval := None, status := Planning)
    case PlanWasRejected(_, PlanRejected) => s.(approval := None, status := Cancelled)
    case Authorized(binding, _, id, kind, steps) =>
      var attempt := Attempt(id, s.id, |s.attempts| + 1, kind, binding, steps, AttemptAuthorized, at, None);
      s.(status := ExecutionAuthorized, currentAttemptId := Some(id), attempts := s.attempts + [attempt])
    case ExecutionStarted(_, id) =>
      s.(status := Executing, attempts := UpdateAttempt(s.attempts, Some(id), AttemptRunning, None))
    case RequestCompleted(_, id) => Leave(s, Executing, Completed, Some(id), AttemptSucceeded, at)
    case RequestPartial(_, _, id) => Leave(s, Executing, PartiallyCompleted, id, AttemptPartiallySucceeded, at)
    case RequestFailed(id) => Leave(s, Executing, Failed, id, AttemptFailed, at)
    case ReviewNeeded(id) => Leave(s, Executing, NeedsReview, id, AttemptNeedsReview, at)
    case ReplanRequested(_, _) => s.(plan := None, approval := None, status := Planning)
    case AuthorizationInvalidated(_, _, id) =>
      Leave(s, ExecutionAuthorized, AwaitingApproval, id, AttemptCancelled, at).(approval := None)
    case OutcomeAccepted(_, _, _) => s.(status := Completed)
    case RequestCancelled(_, _, id) => Leave(s, ExecutionAuthorized, Cancelled, id, AttemptCancelled, at)
  }

  function Apply(s: State, entry: Entry): State {
    Change(s, entry.event, entry.at).(version := s.version + 1)
  }

  predicate Started(log: seq<Entry>) {
    log != [] && log[0].event.RequestCreated?
  }

  function Init(log: seq<Entry>): seq<Entry>
    requires log != []
  {
    log[..|log| - 1]
  }

  function Last(log: seq<Entry>): Entry
    requires log != []
  {
    log[|log| - 1]
  }

  /** The state a reader of the log alone rebuilds. */
  function Replay(log: seq<Entry>): State
    requires Started(log)
  {
    if |log| == 1 then NewState(log[0].event.requestId) else Apply(Replay(Init(log)), Last(log))
  }
}
