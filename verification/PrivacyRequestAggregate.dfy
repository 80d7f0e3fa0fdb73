/** The mutable aggregate: fields updated in place, one method a command.
 *
 *  Each method is proved to record exactly the event that Decide names and to move its fields exactly
 *  as Apply says, or to throw exactly the error of Decide and leave every field as it was. Valid ties
 *  the fields to the log of all events ever recorded.
 */
module PrivacyRequestAggregate {
  import opened Wrappers
  import opened PrivacyRequest
  import opened PrivacyRequestTraces

  /** A command either returns normally or throws. */
  datatype Reply = Done | Threw(error: Error)

  /** The pending events are the last ones of the log. */
  ghost predicate Queued(log: seq<Entry>, events: seq<Event>) {
    |events| <= |log| && forall k :: 0 <= k < |events| ==> events[k] == log[|log| - |events| + k].event
  }

  /** The state is what replaying the log gives, and the pending events are its last ones. */
  ghost predicate Consistent(info: RequestInfo, s: State, log: seq<Entry>, events: seq<Event>) {
    && Reachable(log)
    && log[0].event == RequestCreated(info.id, info.environmentId)
    && s == Replay(log)
    && Queued(log, events)
  }

  /** Recording the event of one more command keeps a state, its log and its queue consistent. */
  lemma Recorded(info: RequestInfo, s: State, log: seq<Entry>, events: seq<Event>, c: Command, at: string)
    requires Consistent(info, s, log, events)
    ensures var d := Decide(s, c);
            d.Accept? ==>
              Consistent(info, Apply(s, Entry(d.event, at)), log + [Entry(d.event, at)], events + [d.event])
  {
    var d := Decide(s, c);
    if d.Accept? {
      ReachableStep(log, c, Entry(d.event, at));
    }
  }

  class Aggregate {
    const info: RequestInfo
    var status: Status
    var version: nat
    var currentAttemptId: Option<string>
    var plan: Option<Plan>
    var approval: Option<Approval>
    var latestPlanVersion: int
    var attempts: seq<Attempt>
    var events: seq<Event>
    ghost var log: seq<Entry>

    /** The fields as one value. */
    function View(): State
      reads this
    {
      State(info.id, status, version, currentAttemptId, plan, approval, latestPlanVersion, attempts)
    }

    ghost predicate Valid()
      reads this
    {
      Consistent(info, View(), log, events)
    }

    /** The effect of one call of command c that reads the clock at `at`. */
    twostate predicate Handled(c: Command, at: string, reply: Reply)
      reads this
    {
      match Decide(old(View()), c)
      case Accept(e) =>
        && reply == Done
        && View() == Apply(old(View()), Entry(e, at))
        && events == old(events) + [e]
        && log == old(log) + [Entry(e, at)]
      case Throw(error) => reply == Threw(error) && unchanged(this)
    }

    constructor Create(input: RequestInfo)
      ensures Valid()
      ensures info == input
      ensures View() == NewState(input.id)
      ensures log == [Entry(RequestCreated(input.id, input.environmentId), "")] && |events| == 1
    {
      info := input;
      status := Created;
      version := 1;
      currentAttemptId, plan, approval, latestPlanVersion, attempts := None, None, None, 0, [];
      events := [RequestCreated(input.id, input.environmentId)];
      log := [Entry(RequestCreated(input.id, input.environmentId), "")];
    }

    // ----- private helpers of the class -----

    method Record(e: Event, ghost at: string)
      modifies this`version, this`events, this`log
      ensures version == old(version) + 1
      ensures events == old(events) + [e]
      ensures log == old(log) + [Entry(e, at)]
    {
      version := version + 1;
      events := events + [e];
      log := log + [Entry(e, at)];
    }

    /** Checks the table of transitions before it changes anything. */
    method MoveTo(next: Status, e: Event, ghost at: string) returns (reply: Reply)
      modifies this`status, this`version, this`events, this`log
      ensures reply == if Transition(old(status), next) then Done else Threw(StateConflict(old(status), next))
      ensures reply == Done ==>
                && status == next && version == old(version) + 1
                && events == old(events) + [e] && log == old(log) + [Entry(e, at)]
      ensures reply != Done ==> unchanged(this)
    {
      if !Transition(status, next) {
        return Threw(StateConflict(status, next));
      }
      status := next;
      Record(e, at);
      return Done;
    }

    method AppendAttempt(attempt: Attempt)
      modifies this`attempts, this`currentAttemptId
      ensures attempts == old(attempts) + [attempt]
      ensures currentAttemptId == Some(attempt.id)
    {
      attempts := attempts + [attempt];
      currentAttemptId := Some(attempt.id);
    }

    function BuildAttempt(id: string, kind: AttemptKind, binding: Binding, stepIds: seq<string>, at: string):
      Result<Attempt, Error>
      reads this
    {
      if AttemptIdFree(attempts, id)
      then Ok(Attempt(id, info.id, |attempts| + 1, kind, binding, stepIds, AttemptAuthorized, at, None))
      else Err(AttemptIdInvalid)
    }

    function UpdatedCurrentAttempt(next: AttemptStatus, completedAt: Option<string>): Result<Attempt, Error>
      reads this
    {
      match FindAttempt(attempts, currentAttemptId)
      case None => Err(AttemptNotFound)
      case Some(a) => Ok(a.(status := next, completedAt := completedAt))
    }

    predicate Bound(binding: Binding)
      reads this
    {
      plan.Some? && plan.value.binding == binding
    }

    // ----- commands -----

    method BeginIdentityVerification(actorId: string) returns (reply: Reply)
      requires Valid()
      modifies this
      ensures Valid()
      ensures Handled(Command.BeginIdentityVerification(actorId), "", reply)
    {
      Recorded(info, View(), log, events, Command.BeginIdentityVerification(actorId), "");
      reply := MoveTo(IdentityVerificationPending, VerificationRequested(actorId), "");
      assert reply == Done ==> View() == Apply(old(View()), Entry(VerificationRequested(actorId), ""));
      assert reply != Done ==> View() == old(View());
    }

    method MarkIdentityVerified(actorId: string) returns (reply: Reply)
      requires Valid()
      modifies this
      ensures Valid()
      ensures Handled(Command.MarkIdentityVerified(actorId), "", reply)
    {
      Recorded(info, View(), log, events, Command.MarkIdentityVerified(actorId), "");
      reply := MoveTo(IdentityVerified, SubjectVerified(actorId), "");
      assert reply == Done ==> View() == Apply(old(View()), Entry(SubjectVerified(actorId), ""));
      assert reply != Done ==> View() == old(View());
    }

    method BeginPlanning(agentId: string) returns (reply: Reply)
      requires Valid()
      modifies this
      ensures Valid()
      ensures Handled(Command.BeginPlanning(agentId), "", reply)
    {
      Recorded(info, View(), log, events, Command.BeginPlanning(agentId), "");
      if status != IdentityVerified {
        return Threw(StateConflict(status, Planning));
      }
      reply := MoveTo(Planning, PlanningRequested(agentId), "");
      assert View() == Apply(old(View()), Entry(PlanningRequested(agentId), ""));
    }

    method AttachPlan(input: Plan) returns (reply: Reply)
      requires Valid()
      modifies this
      ensures Valid()
      ensures Handled(Command.AttachPlan(input), "", reply)
    {
      Recorded(info, View(), log, events, Command.AttachPlan(input), "");
      if status != Planning {
        return Threw(StateConflict(status, AwaitingApproval));
      }
      if input.binding.planVersion <= latestPlanVersion {
        return Threw(PlanVersionMismatch);
      }
      plan := Some(input);
      approval := None;
      latestPlanVersion := input.binding.planVersion;
      if input.requiresApproval {
        status := AwaitingApproval;
        Record(PlanCreated(input), "");
      } else {
        Record(PlanCreated(input), "");
      }
      reply := Done;
    }

    method ApprovePlan(input: Approval) returns (reply: Reply)
      requires Valid()
      modifies this
      ensures Valid()
      ensures Handled(Command.ApprovePlan(input), "", reply)
    {
      Recorded(info, View(), log, events, Command.ApprovePlan(input), "");
      if status != AwaitingApproval {
        return Threw(StateConflict(status, AwaitingApproval));
      }
      if !Bound(input.binding) {
        return Threw(PlanVersionMismatch);
      }
      approval := Some(input);
      Record(PlanApproved(input), "");
      reply := Done;
    }

    method RejectPlan(decidedBy: string, disposition: Disposition) returns (reply: Reply)
      requires Valid()
      modifies this
      ensures Valid()
      ensures Handled(Command.RejectPlan(decidedBy, disposition), "", reply)
    {
      Recorded(info, View(), log, events, Command.RejectPlan(decidedBy, disposition), "");
      if status != AwaitingApproval {
        return Threw(StateConflict(status, if disposition == ChangesRequested then Planning else Cancelled));
      }
      approval := None;
      if disposition == ChangesRequested {
        plan := None;
        reply := MoveTo(Planning, PlanWasRejected(decidedBy, disposition), "");
      } else {
        reply := MoveTo(Cancelled, PlanWasRejected(decidedBy, disposition), "");
      }
    }

    method AuthorizeExecution(binding: Binding, agentId: string, attemptId: string, allowedStepIds: seq<string>,
                              now: string)
      returns (reply: Reply)
      requires Valid()
      modifies this
      ensures Valid()
      ensures Handled(Command.AuthorizeExecution(binding, agentId, attemptId, allowedStepIds), now, reply)
    {
      Recorded(info, View(), log, events, Command.AuthorizeExecution(binding, agentId, attemptId, allowedStepIds), now);
      if !Transition(status, ExecutionAuthorized) {
        return Threw(StateConflict(status, ExecutionAuthorized));
      }
      if status != Planning && status != AwaitingApproval {
        return Threw(StateConflict(status, ExecutionAuthorized));
      }
      if plan.None? {
        return Threw(StateConflict(status, ExecutionAuthorized));
      }
      if !ValidScope(allowedStepIds) {
        return Threw(StepScopeInvalid);
      }
      if !Bound(binding) {
        return Threw(PlanVersionMismatch);
      }
      if (status == Planning && plan.value.requiresApproval) || (status == AwaitingApproval && approval.None?) {
        return Threw(StateConflict(status, ExecutionAuthorized));
      }
      var attempt := BuildAttempt(attemptId, Initial, binding, allowedStepIds, now);
      if attempt.Err? {
        return Threw(attempt.error);
      }
      AppendAttempt(attempt.value);
      reply := MoveTo(ExecutionAuthorized, Authorized(binding, Some(agentId), attemptId, Initial, allowedStepIds),
                          now);
      assert View() == Apply(old(View()), Entry(Authorized(binding, Some(agentId), attemptId, Initial, allowedStepIds), now));
    }

    method MarkExecuting(agentId: string) returns (reply: Reply)
      requires Valid()
      modifies this
      ensures Valid()
      ensures Handled(Command.MarkExecuting(agentId), "", reply)
    {
      Recorded(info, View(), log, events, Command.MarkExecuting(agentId), "");
      if status != ExecutionAuthorized {
        return Threw(StateConflict(status, Executing));
      }
      var update := UpdatedCurrentAttempt(AttemptRunning, None);
      if update.Err? {
        return Threw(update.error);
      }
      attempts := ReplaceAttempt(attempts, update.value);
      reply := MoveTo(Executing, ExecutionStarted(agentId, update.value.id), "");
      assert View() == Apply(old(View()), Entry(ExecutionStarted(agentId, old(currentAttemptId).value), ""));
    }

    method Complete(affectedCount: int, now: string) returns (reply: Reply)
      requires Valid()
      modifies this
      ensures Valid()
      ensures Handled(Command.Complete(affectedCount), now, reply)
    {
      Recorded(info, View(), log, events, Command.Complete(affectedCount), now);
      if status != Executing {
        return Threw(StateConflict(status, Completed));
      }
      var update := UpdatedCurrentAttempt(AttemptSucceeded, Some(now));
      if update.Err? {
        return Threw(update.error);
      }
      attempts := ReplaceAttempt(attempts, update.value);
      reply := MoveTo(Completed, RequestCompleted(affectedCount, update.value.id), now);
      assert View() == Apply(old(View()), Entry(RequestCompleted(affectedCount, old(currentAttemptId).value), now));
    }

    /** The shape MarkPartial, Fail, MarkNeedsReview and Cancel share: in status `when` the current
      * attempt is closed first. */
    method EndAttempt(when: Status, next: Status, outcome: AttemptStatus, e: Event, now: string) returns (reply: Reply)
      requires Transition(status, next)
      modifies this
      ensures old(status) == when && !HasCurrentAttempt(old(View())) ==>
                reply == Threw(AttemptNotFound) && unchanged(this)
      ensures (old(status) == when ==> HasCurrentAttempt(old(View()))) ==>
                && reply == Done
                && View() == Leave(old(View()), when, next, old(currentAttemptId), outcome, now)
                             .(version := old(version) + 1)
                && events == old(events) + [e] && log == old(log) + [Entry(e, now)]
    {
      if status == when {
        var update := UpdatedCurrentAttempt(outcome, Some(now));
        if update.Err? {
          return Threw(update.error);
        }
        attempts := ReplaceAttempt(attempts, update.value);
      }
      reply := MoveTo(next, e, now);
    }

    method MarkPartial(affectedCount: int, failedCount: int, now: string) returns (reply: Reply)
      requires Valid()
      modifies this
      ensures Handled(Command.MarkPartial(affectedCount, failedCount), now, reply)
      ensures Valid()
    {
      Recorded(info, View(), log, events, Command.MarkPartial(affectedCount, failedCount), now);
      if !Transition(status, PartiallyCompleted) {
        return Threw(StateConflict(status, PartiallyCompleted));
      }
      reply := EndAttempt(Executing, PartiallyCompleted, AttemptPartiallySucceeded,
                          RequestPartial(affectedCount, failedCount, currentAttemptId), now);
    }

    method Fail(now: string) returns (reply: Reply)
      requires Valid()
      modifies this
      ensures Valid()
      ensures Handled(Command.Fail, now, reply)
    {
      Recorded(info, View(), log, events, Command.Fail, now);
      if !Transition(status, Failed) {
        return Threw(StateConflict(status, Failed));
      }
      reply := EndAttempt(Executing, Failed, AttemptFailed, RequestFailed(currentAttemptId), now);
    }

    method MarkNeedsReview(now: string) returns (reply: Reply)
      requires Valid()
      modifies this
      ensures Valid()
      ensures Handled(Command.MarkNeedsReview, now, reply)
    {
      Recorded(info, View(), log, events, Command.MarkNeedsReview, now);
      if !Transition(status, NeedsReview) {
        return Threw(StateConflict(status, NeedsReview));
      }
      reply := EndAttempt(Executing, NeedsReview, AttemptNeedsReview, ReviewNeeded(currentAttemptId), now);
    }

    method RequestReplan(actorId: string, reason: string) returns (reply: Reply)
      requires Valid()
      modifies this
      ensures Valid()
      ensures Handled(Command.RequestReplan(actorId, reason), "", reply)
    {
      Recorded(info, View(), log, events, Command.RequestReplan(actorId, reason), "");
      if !Transition(status, Planning) {
        return Threw(StateConflict(status, Planning));
      }
      if status != PartiallyCompleted && status != Failed && status != NeedsReview {
        return Threw(StateConflict(status, Planning));
      }
      if !ValidReason(reason) {
        return Threw(AuditReasonInvalid);
      }
      plan := None;
      approval := None;
      reply := MoveTo(Planning, ReplanRequested(actorId, reason), "");
      assert View() == Apply(old(View()), Entry(ReplanRequested(actorId, reason), ""));
    }

    method BeginRetry(attemptId: string, allowedStepIds: seq<string>, expectedVersion: int, now: string)
      returns (reply: Reply)
      requires Valid()
      modifies this
      ensures Valid()
      ensures Handled(Command.BeginRetry(attemptId, allowedStepIds, expectedVersion), now, reply)
    {
      Recorded(info, View(), log, events, Command.BeginRetry(attemptId, allowedStepIds, expectedVersion), now);
      if !Transition(status, ExecutionAuthorized) {
        return Threw(StateConflict(status, ExecutionAuthorized));
      }
      if status != PartiallyCompleted && status != Failed && status != NeedsReview {
        return Threw(StateConflict(status, ExecutionAuthorized));
      }
      if expectedVersion != version {
        return Threw(RequestVersionMismatch);
      }
      if plan.None? {
        return Threw(StateConflict(status, ExecutionAuthorized));
      }
      if !ValidScope(allowedStepIds) {
        return Threw(StepScopeInvalid);
      }
      var attempt := BuildAttempt(attemptId, Retry, plan.value.binding, allowedStepIds, now);
      if attempt.Err? {
        return Threw(attempt.error);
      }
      var retry := Authorized(attempt.value.binding, None, attempt.value.id, Retry, attempt.value.allowedStepIds);
      AppendAttempt(attempt.value);
      reply := MoveTo(ExecutionAuthorized, retry, now);
      assert View() == Apply(old(View()), Entry(retry, now));
    }

    method InvalidateAuthorization(actorId: string, reason: string, now: string) returns (reply: Reply)
      requires Valid()
      modifies this
      ensures Valid()
      ensures Handled(Command.InvalidateAuthorization(actorId, reason), now, reply)
    {
      Recorded(info, View(), log, events, Command.InvalidateAuthorization(actorId, reason), now);
      if status != ExecutionAuthorized {
        return Threw(StateConflict(status, AwaitingApproval));
      }
      if !ValidReason(reason) {
        return Threw(AuditReasonInvalid);
      }
      var update := UpdatedCurrentAttempt(AttemptCancelled, Some(now));
      if update.Err? {
        return Threw(update.error);
      }
      var invalidated := AuthorizationInvalidated(actorId, reason, currentAttemptId);
      attempts := ReplaceAttempt(attempts, update.value);
      approval := None;
      reply := MoveTo(AwaitingApproval, invalidated, now);
      assert View() == Apply(old(View()), Entry(invalidated, now));
    }

    method AcceptRetainedOutcome(actorId: string, reason: string) returns (reply: Reply)
      requires Valid()
      modifies this
      ensures Valid()
      ensures Handled(Command.AcceptRetainedOutcome(actorId, reason), "", reply)
    {
      Recorded(info, View(), log, events, Command.AcceptRetainedOutcome(actorId, reason), "");
      if status != PartiallyCompleted && status != NeedsReview {
        return Threw(StateConflict(status, Completed));
      }
      if !ValidReason(reason) {
        return Threw(AuditReasonInvalid);
      }
      reply := MoveTo(Completed, OutcomeAccepted(actorId, reason, currentAttemptId), "");
      assert View() == Apply(old(View()), Entry(OutcomeAccepted(actorId, reason, old(currentAttemptId)), ""));
    }

    method Cancel(actorId: string, reason: string, now: string) returns (reply: Reply)
      requires Valid()
      modifies this
      ensures Valid()
      ensures Handled(Command.Cancel(actorId, reason), now, reply)
    {
      Recorded(info, View(), log, events, Command.Cancel(actorId, reason), now);
      if !Transition(status, Cancelled) {
        return Threw(StateConflict(status, Cancelled));
      }
      if !ValidReason(reason) {
        return Threw(AuditReasonInvalid);
      }
      reply := EndAttempt(ExecutionAuthorized, Cancelled, AttemptCancelled,
                          RequestCancelled(actorId, reason, currentAttemptId), now);
    }

    // ----- the pending-event queue -----

    /** Drops the first `count` pending events; any other count is refused without effect. */
    method MarkEventsCommitted(count: int) returns (ok: bool)
      requires Valid()
      modifies this`events
      ensures Valid()
      ensures ok <==> 0 <= count <= |old(events)|
      ensures events == if ok then old(events)[count..] else old(events)
    {
      if count < 0 || count > |events| {
        return false;
      }
      events := events[count..];
      return true;
    }
  }
}
