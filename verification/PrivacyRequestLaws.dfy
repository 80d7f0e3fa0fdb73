/** What a log's events alone say: the status, the story of each attempt, the plan and its approval, and
 *  which commands are refused with which error. */
module PrivacyRequestLaws {
  import opened Wrappers
  import opened PrivacyRequest
  import opened PrivacyRequestTraces

  // ----- the status -----

  /** The last event tells the status, and the status tells what kind of event came last. */
  lemma {:induction false} StatusTellsLastEvent(log: seq<Entry>)
    requires Reachable(log)
    ensures var e, status := Last(log).event, Replay(log).status;
            && (status == Created <==> e.RequestCreated?)
            && (status == IdentityVerificationPending <==> e.VerificationRequested?)
            && (status == IdentityVerified <==> e.SubjectVerified?)
            && (status == Planning <==>
                  || e.PlanningRequested? || e.ReplanRequested?
                  || (e.PlanCreated? && !e.plan.requiresApproval)
                  || (e.PlanWasRejected? && e.disposition == ChangesRequested))
            && (status == AwaitingApproval <==>
                  || e.PlanApproved? || e.AuthorizationInvalidated? || (e.PlanCreated? && e.plan.requiresApproval))
            && (status == ExecutionAuthorized <==> e.Authorized?)
            && (status == Executing <==> e.ExecutionStarted?)
            && (status == Completed <==> e.RequestCompleted? || e.OutcomeAccepted?)
            && (status == PartiallyCompleted <==> e.RequestPartial?)
            && (status == Failed <==> e.RequestFailed?)
            && (status == NeedsReview <==> e.ReviewNeeded?)
            && (status == Cancelled <==>
                  e.RequestCancelled? || (e.PlanWasRejected? && e.disposition == PlanRejected))
  {
    if |log| > 1 {
      assert StepAt(log, |log| - 1);
      assert Init(log) == log[..|log| - 1];
    }
  }

  // ----- attempts -----

  function Authorizations(log: seq<Entry>): nat {
    if log == [] then 0 else Authorizations(Init(log)) + if Last(log).event.Authorized? then 1 else 0
  }

  /** The entry that ended the attempt authorised at i: the next one, unless that starts the execution, and
    * then the one after. */
  function EndOf(log: seq<Entry>, i: nat): (r: Option<nat>)
    requires i < |log|
    ensures r.Some? ==> i < r.value < |log|
  {
    if i + 1 < |log| && !log[i + 1].event.ExecutionStarted? then Some(i + 1)
    else if i + 2 < |log| then Some(i + 2)
    else None
  }

  /** How an event ends an attempt. */
  ghost predicate EndsAs(e: Event, outcome: AttemptStatus) {
    && (outcome == AttemptSucceeded <==> e.RequestCompleted?)
    && (outcome == AttemptPartiallySucceeded <==> e.RequestPartial?)
    && (outcome == AttemptFailed <==> e.RequestFailed?)
    && (outcome == AttemptNeedsReview <==> e.ReviewNeeded?)
    && (outcome == AttemptCancelled <==> e.AuthorizationInvalidated? || e.RequestCancelled?)
    && outcome !in {AttemptPlanned, AttemptAwaitingApproval, AttemptAuthorized, AttemptRunning}
  }

  /** An attempt against the entry that authorised it and the entries after it. */
  ghost predicate Tells(log: seq<Entry>, i: nat, a: Attempt)
    requires i < |log| && log[i].event.Authorized?
    requires log[0].event.RequestCreated?
  {
    var e := log[i].event;
    && a.id == e.attemptId && a.requestId == log[0].event.requestId && a.number == Authorizations(log[..i]) + 1
    && a.kind == e.kind && a.binding == e.binding && a.allowedStepIds == e.allowedStepIds && a.createdAt == log[i].at
    && match EndOf(log, i)
       case Some(j) => a.completedAt == Some(log[j].at) && EndsAs(log[j].event, a.status)
       case None =>
         a.completedAt == None && a.status == if i + 1 < |log| then AttemptRunning else AttemptAuthorized
  }

  lemma {:induction false} AttemptsCounted(log: seq<Entry>)
    requires Reachable(log)
    ensures |Replay(log).attempts| == Authorizations(log)
  {
    if |log| == 1 {
      assert Init(log) == [];
    } else {
      ReachablePrefix(log, |log| - 1);
      AttemptsCounted(Init(log));
      assert StepAt(log, |log| - 1);
      var status, done := RowsChange(Replay(Init(log)), Last(log));
    }
  }

  /** The attempt an authorisation adds. */
  lemma AttemptAdded(log: seq<Entry>, i: nat)
    requires Reachable(log) && 1 <= i < |log| && log[i].event.Authorized?
    ensures Reachable(log[..i + 1])
    ensures var s := Replay(log[..i + 1]);
            && |s.attempts| == Authorizations(log[..i]) + 1
            && Tells(log[..i + 1], i, s.attempts[|s.attempts| - 1])
  {
    ReachablePrefix(log, i);
    ReachablePrefix(log, i + 1);
    ReplayStep(log, i);
    AttemptsCounted(log[..i]);
    VersionCountsEvents(log[..i]);
    assert log[..i + 1][..i] == log[..i];
    assert StepAt(log, i);
    var status, done := RowsChange(Replay(log[..i]), log[i]);
  }

  /** What one more entry makes of the open attempt. */
  lemma OpenAttemptMoves(s: State, entry: Entry)
    requires AttemptsWellFormed(s) && Open(s.status) && Records(s, entry.event)
    ensures s.attempts != []
    ensures var t, last := Apply(s, entry).attempts, |s.attempts| - 1;
            && |t| == |s.attempts|
            && t[last] == s.attempts[last].(status := t[last].status, completedAt := t[last].completedAt)
            && if entry.event.ExecutionStarted? then t[last].status == AttemptRunning && t[last].completedAt == None
               else EndsAs(entry.event, t[last].status) && t[last].completedAt == Some(entry.at)
  {
    match entry.event
    case ExecutionStarted(_, _) => RowsUpdated(s, AttemptRunning, None);
    case RequestCompleted(_, _) => RowsUpdated(s, AttemptSucceeded, Some(entry.at));
    case RequestPartial(_, _, _) => RowsUpdated(s, AttemptPartiallySucceeded, Some(entry.at));
    case RequestFailed(_) => RowsUpdated(s, AttemptFailed, Some(entry.at));
    case ReviewNeeded(_) => RowsUpdated(s, AttemptNeedsReview, Some(entry.at));
    case AuthorizationInvalidated(_, _, _) => RowsUpdated(s, AttemptCancelled, Some(entry.at));
    case RequestCancelled(_, _, _) => RowsUpdated(s, AttemptCancelled, Some(entry.at));
    case _ =>
  }

  /** One entry more in the story: it starts the execution, or ends the attempt. */
  lemma TellsMore(log: seq<Entry>, i: nat, a: Attempt, b: Attempt)
    requires i + 1 < |log| && log[i].event.Authorized? && log[0].event.RequestCreated?
    requires i + 2 == |log| || (i + 3 == |log| && log[i + 1].event.ExecutionStarted?)
    requires Tells(Init(log), i, a) && b == a.(status := b.status, completedAt := b.completedAt)
    requires Last(log).event.ExecutionStarted? ==> i + 2 == |log| && b.status == AttemptRunning && b.completedAt == None
    requires !Last(log).event.ExecutionStarted? ==>
               EndsAs(Last(log).event, b.status) && b.completedAt == Some(Last(log).at)
    ensures Tells(log, i, b)
  {
    assert Init(log)[..i] == log[..i] && Init(log)[i] == log[i];
  }

  lemma OpenAfter(log: seq<Entry>)
    requires Reachable(log) && (Last(log).event.Authorized? || Last(log).event.ExecutionStarted?)
    ensures Open(Replay(log).status) && AttemptsWellFormed(Replay(log))
  {
    StatusTellsLastEvent(log);
    AttemptHistory(log);
  }

  lemma LastStep(log: seq<Entry>)
    requires Reachable(log) && |log| > 1
    ensures Reachable(Init(log)) && Records(Replay(Init(log)), Last(log).event)
    ensures Replay(log) == Apply(Replay(Init(log)), Last(log))
  {
    ReachablePrefix(log, |log| - 1);
    assert StepAt(log, |log| - 1);
  }

  /** The log's last entry, recorded while the attempt authorised at i was still open. */
  lemma StoryMoves(log: seq<Entry>, i: nat)
    requires Reachable(log) && i + 1 < |log| && log[i].event.Authorized?
    requires i + 2 == |log| || (i + 3 == |log| && log[i + 1].event.ExecutionStarted?)
    requires var s := Replay(Init(log)); s.attempts != [] && Tells(Init(log), i, s.attempts[|s.attempts| - 1])
    ensures var t := Replay(log); t.attempts != [] && Tells(log, i, t.attempts[|t.attempts| - 1])
  {
    LastStep(log);
    OpenAfter(Init(log));
    var s, t := Replay(Init(log)), Apply(Replay(Init(log)), Last(log));
    OpenAttemptMoves(s, Last(log));
    TellsMore(log, i, s.attempts[|s.attempts| - 1], t.attempts[|t.attempts| - 1]);
  }

  /** The story of the attempt authorised last, up to the entry that ends it. */
  lemma {:induction false} StoryOfLast(log: seq<Entry>, i: nat)
    requires Reachable(log) && 1 <= i < |log| && log[i].event.Authorized?
    requires |log| <= i + 2 || (|log| == i + 3 && log[i + 1].event.ExecutionStarted?)
    ensures var s := Replay(log);
            |s.attempts| == Authorizations(log[..i]) + 1 && Tells(log, i, s.attempts[|s.attempts| - 1])
  {
    if |log| == i + 1 {
      AttemptAdded(log, i);
      assert log[..i + 1] == log;
    } else {
      var n := |log| - 1;
      ReachablePrefix(log, n);
      StoryOfLast(Init(log), i);
      assert Init(log)[..i] == log[..i];
      StoryMoves(log, i);
      AttemptsCounted(log);
      AttemptsCounted(Init(log));
      assert StepAt(log, n);
      StatusTellsLastEvent(Init(log));
    }
  }

  /** A completed attempt of a prefix is the same attempt in the whole log. */
  lemma CompletedCarries(log: seq<Entry>, n: nat, k: nat)
    requires Reachable(log) && 1 <= n <= |log| && Reachable(log[..n])
    requires k < |Replay(log[..n]).attempts| && Replay(log[..n]).attempts[k].completedAt.Some?
    ensures k < |Replay(log).attempts| && Replay(log).attempts[k] == Replay(log[..n]).attempts[k]
  {
    CompletedAttemptsAreFinal(log, n);
  }

  lemma TellsCarries(log: seq<Entry>, n: nat, i: nat, a: Attempt)
    requires i < n <= |log| && log[i].event.Authorized? && log[0].event.RequestCreated?
    requires EndOf(log[..n], i).Some? && Tells(log[..n], i, a)
    ensures Tells(log, i, a)
  {
    assert log[..n][..i] == log[..i];
  }

  /** The story of each attempt: the k-th authorisation of the log is the k-th attempt, open until the entry
    * that ends it, and then for good what that entry made of it, at its time. */
  lemma AttemptStory(log: seq<Entry>, i: nat)
    requires Reachable(log) && i < |log| && log[i].event.Authorized?
    ensures |Replay(log).attempts| == Authorizations(log)
    ensures var k := Authorizations(log[..i]);
            k < |Replay(log).attempts| && Tells(log, i, Replay(log).attempts[k])
  {
    AttemptsCounted(log);
    var end := EndOf(log, i);
    if end.None? {
      StoryOfLast(log, i);
    } else {
      var n := end.value + 1;
      ReachablePrefix(log, n);
      assert log[..n][..i] == log[..i];
      StoryOfLast(log[..n], i);
      CompletedCarries(log, n, Authorizations(log[..i]));
      TellsCarries(log, n, i, Replay(log).attempts[Authorizations(log[..i])]);
    }
  }

  /** The current attempt is the one authorised last. */
  lemma {:induction false} CurrentIsLastAuthorized(log: seq<Entry>)
    requires Reachable(log)
    ensures Authorizations(log) == 0 ==> Replay(log).currentAttemptId == None
    ensures forall i | 0 <= i < |log| && log[i].event.Authorized? && Authorizations(log[..i]) + 1 == Authorizations(log) ::
              Replay(log).currentAttemptId == Some(log[i].event.attemptId)
  {
    AttemptHistory(log);
    AttemptsCounted(log);
    forall i | 0 <= i < |log| && log[i].event.Authorized? && Authorizations(log[..i]) + 1 == Authorizations(log)
      ensures Replay(log).currentAttemptId == Some(log[i].event.attemptId)
    {
      AttemptStory(log, i);
    }
  }

  // ----- plan and approval -----

  /** The plan in force: the one created last, unless changes were requested or a replan was since. */
  function PlanInForce(log: seq<Entry>): Option<Plan> {
    if log == [] then None
    else
      match Last(log).event
      case PlanCreated(plan) => Some(plan)
      case PlanWasRejected(_, ChangesRequested) => None
      case ReplanRequested(_, _) => None
      case _ => PlanInForce(Init(log))
  }

  /** The approval that stands: the one given last, unless something has ended it since. */
  function ApprovalInForce(log: seq<Entry>): Option<Approval> {
    if log == [] then None
    else if Last(log).event.PlanApproved? then Some(Last(log).event.approval)
    else if EndsApproval(Last(log).event) then None
    else ApprovalInForce(Init(log))
  }

  lemma {:induction false} PlanOfLog(log: seq<Entry>)
    requires Reachable(log)
    ensures Replay(log).plan == PlanInForce(log) && Replay(log).approval == ApprovalInForce(log)
  {
    if |log| == 1 {
      assert Init(log) == [];
    } else {
      ReachablePrefix(log, |log| - 1);
      PlanOfLog(Init(log));
      assert StepAt(log, |log| - 1);
    }
  }

  /** No plan version is ever reused: along a log the versions created strictly increase from 1. */
  lemma {:induction false} PlanVersionsIncrease(log: seq<Entry>)
    requires Reachable(log)
    ensures forall i | 0 <= i < |log| && log[i].event.PlanCreated? ::
              0 < log[i].event.plan.binding.planVersion <= Replay(log).latestPlanVersion
    ensures forall i, j | 0 <= i < j < |log| && log[i].event.PlanCreated? && log[j].event.PlanCreated? ::
              log[i].event.plan.binding.planVersion < log[j].event.plan.binding.planVersion
    ensures Replay(log).latestPlanVersion == 0
            || exists i :: 0 <= i < |log| && log[i].event.PlanCreated?
                           && log[i].event.plan.binding.planVersion == Replay(log).latestPlanVersion
    ensures Replay(log).latestPlanVersion >= 0
  {
    if |log| > 1 {
      var n := |log| - 1;
      ReachablePrefix(log, n);
      PlanVersionsIncrease(Init(log));
      assert StepAt(log, n);
      assert forall i | 0 <= i < n :: Init(log)[i] == log[i];
      if Last(log).event.PlanCreated? {
        assert log[n].event.plan.binding.planVersion == Replay(log).latestPlanVersion;
      } else {
        assert Replay(log).latestPlanVersion == Replay(Init(log)).latestPlanVersion;
        if Replay(log).latestPlanVersion != 0 {
          var i :| 0 <= i < n && Init(log)[i].event.PlanCreated?
                   && Init(log)[i].event.plan.binding.planVersion == Replay(log).latestPlanVersion;
          assert log[i].event.PlanCreated?;
        }
      }
    }
  }

  // ----- what a command records, and why it is refused -----

  /** The status a command leads to; a plan that needs no approval leaves the request in planning. */
  function Aim(c: Command): Status {
    match c
    case BeginIdentityVerification(_) => IdentityVerificationPending
    case MarkIdentityVerified(_) => IdentityVerified
    case BeginPlanning(_) => Planning
    case AttachPlan(_) => AwaitingApproval
    case ApprovePlan(_) => AwaitingApproval
    case RejectPlan(_, ChangesRequested) => Planning
    case RejectPlan(_, PlanRejected) => Cancelled
    case AuthorizeExecution(_, _, _, _) => ExecutionAuthorized
    case MarkExecuting(_) => Executing
    case Complete(_) => Completed
    case MarkPartial(_, _) => PartiallyCompleted
    case Fail => Failed
    case MarkNeedsReview => NeedsReview
    case RequestReplan(_, _) => Planning
    case BeginRetry(_, _, _) => ExecutionAuthorized
    case InvalidateAuthorization(_, _) => AwaitingApproval
    case AcceptRetainedOutcome(_, _) => Completed
    case Cancel(_, _) => Cancelled
  }

  /** The statuses in which a command is not out of place. */
  predicate InPlace(status: Status, c: Command) {
    match c
    case BeginIdentityVerification(_) => status == Created
    case MarkIdentityVerified(_) => status in {Created, IdentityVerificationPending}
    case BeginPlanning(_) => status == IdentityVerified
    case AttachPlan(_) => status == Planning
    case ApprovePlan(_) => status == AwaitingApproval
    case RejectPlan(_, _) => status == AwaitingApproval
    case AuthorizeExecution(_, _, _, _) => status in {Planning, AwaitingApproval}
    case MarkExecuting(_) => status == ExecutionAuthorized
    case Complete(_) => status == Executing
    case MarkPartial(_, _) => status in {Executing, NeedsReview}
    case Fail => status in {IdentityVerificationPending, Planning, Executing}
    case MarkNeedsReview => status in {Executing, PartiallyCompleted, Failed}
    case RequestReplan(_, _) => status in {PartiallyCompleted, Failed, NeedsReview}
    case BeginRetry(_, _, _) => status in {PartiallyCompleted, Failed, NeedsReview}
    case InvalidateAuthorization(_, _) => status == ExecutionAuthorized
    case AcceptRetainedOutcome(_, _) => status in {PartiallyCompleted, NeedsReview}
    case Cancel(_, _) => status !in {Executing, PartiallyCompleted, Completed, Cancelled}
  }

  predicate Authorizes(c: Command) {
    c.AuthorizeExecution? || c.BeginRetry?
  }

  /** The step ids are none, or one is empty or repeated. */
  predicate BadScope(steps: seq<string>) {
    || |steps| == 0
    || (exists i :: 0 <= i < |steps| && steps[i] == "")
    || exists i, j :: 0 <= i < j < |steps| && steps[i] == steps[j]
  }

  /** An attempt id that is empty or already used. */
  predicate BadAttemptId(attempts: seq<Attempt>, id: string) {
    id == "" || exists i :: 0 <= i < |attempts| && attempts[i].id == id
  }

  predicate ReasonChar(c: char) {
    'a' <= c <= 'z' || '0' <= c <= '9' || c == '_' || c == ':' || c == '-'
  }

  /** A reason that is empty, longer than 64, or holds another character, at first also none of the signs. */
  predicate BadReason(reason: string) {
    || reason == "" || |reason| > 64 || reason[0] in {'_', ':', '-'}
    || exists i :: 0 <= i < |reason| && !ReasonChar(reason[i])
  }

  predicate BadReasonOf(c: Command) {
    (c.RequestReplan? || c.InvalidateAuthorization? || c.AcceptRetainedOutcome? || c.Cancel?) && BadReason(c.reason)
  }

  /** An authorisation of a plan that still waits for its approval. */
  predicate Unapproved(s: State, c: Command) {
    && c.AuthorizeExecution? && s.plan.Some? && !BadScope(c.allowedStepIds) && s.plan.value.binding == c.binding
    && ((s.status == Planning && s.plan.value.requiresApproval) || (s.status == AwaitingApproval && s.approval.None?))
  }

  /** When a command is refused, with each error. */
  ghost predicate Refused(s: State, c: Command, e: Error) {
    match e
    case StateConflict(from, to) =>
      && from == s.status && to == Aim(c)
      && (|| !InPlace(s.status, c)
          || (c.AuthorizeExecution? && s.plan.None?)
          || (c.BeginRetry? && c.expectedVersion == s.version && s.plan.None?)
          || Unapproved(s, c))
    case RequestVersionMismatch => InPlace(s.status, c) && c.BeginRetry? && c.expectedVersion != s.version
    case StepScopeInvalid =>
      && InPlace(s.status, c) && Authorizes(c) && s.plan.Some? && BadScope(c.allowedStepIds)
      && (c.BeginRetry? ==> c.expectedVersion == s.version)
    case PlanVersionMismatch =>
      && InPlace(s.status, c)
      && (|| (c.AttachPlan? && c.plan.binding.planVersion <= s.latestPlanVersion)
          || (c.ApprovePlan? && (s.plan.None? || s.plan.value.binding != c.approval.binding))
          || (c.AuthorizeExecution? && s.plan.Some? && !BadScope(c.allowedStepIds) && s.plan.value.binding != c.binding))
    case AttemptIdInvalid =>
      && InPlace(s.status, c) && Authorizes(c) && s.plan.Some? && !BadScope(c.allowedStepIds) && !Unapproved(s, c)
      && (c.AuthorizeExecution? ==> s.plan.value.binding == c.binding)
      && (c.BeginRetry? ==> c.expectedVersion == s.version) && BadAttemptId(s.attempts, c.attemptId)
    case AuditReasonInvalid => InPlace(s.status, c) && BadReasonOf(c)
    case AttemptNotFound => InPlace(s.status, c) && NeedsAttempt(s, c) && !BadReasonOf(c) && !AttemptThere(s)
  }

  /** Commands that start or end the current attempt. */
  predicate NeedsAttempt(s: State, c: Command) {
    || c.MarkExecuting? || c.Complete? || c.InvalidateAuthorization?
    || (s.status == Executing && (c.MarkPartial? || c.Fail? || c.MarkNeedsReview?))
    || (s.status == ExecutionAuthorized && c.Cancel?)
  }

  predicate AttemptThere(s: State) {
    exists i :: 0 <= i < |s.attempts| && s.currentAttemptId == Some(s.attempts[i].id)
  }

  lemma {:induction false} FoundExactly(attempts: seq<Attempt>, id: Option<string>)
    ensures FindAttempt(attempts, id).Some? <==> exists i :: 0 <= i < |attempts| && id == Some(attempts[i].id)
  {
    if attempts != [] {
      FoundExactly(attempts[1..], id);
      assert forall i | 0 < i < |attempts| :: attempts[i] == attempts[1..][i - 1];
    }
  }

  lemma ReasonExactly(reason: string)
    ensures ValidReason(reason) <==> !BadReason(reason)
  {
  }

  lemma IdExactly(attempts: seq<Attempt>, id: string)
    ensures AttemptIdFree(attempts, id) <==> !BadAttemptId(attempts, id)
  {
  }

  lemma ScopeExactly(steps: seq<string>)
    ensures ValidScope(steps) <==> !BadScope(steps)
  {
  }

  lemma AuthorizingRefused(s: State, c: Command)
    requires c.AuthorizeExecution? || c.BeginRetry?
    ensures forall e :: Decide(s, c) == Throw(e) <==> Refused(s, c, e)
  {
    ScopeExactly(c.allowedStepIds);
    IdExactly(s.attempts, c.attemptId);
  }

  lemma ReasonedRefused(s: State, c: Command)
    requires c.RequestReplan? || c.InvalidateAuthorization? || c.AcceptRetainedOutcome? || c.Cancel?
    requires HasCurrentAttempt(s) <==> AttemptThere(s)
    ensures forall e :: Decide(s, c) == Throw(e) <==> Refused(s, c, e)
  {
    ReasonExactly(c.reason);
  }

  /** In any state a command is refused with exactly the error whose condition holds. */
  lemma RefusedInState(s: State, c: Command)
    ensures forall e :: Decide(s, c) == Throw(e) <==> Refused(s, c, e)
  {
    assert HasCurrentAttempt(s) <==> AttemptThere(s) by {
      FoundExactly(s.attempts, s.currentAttemptId);
    }
    if c.AuthorizeExecution? || c.BeginRetry? {
      AuthorizingRefused(s, c);
    } else if c.RequestReplan? || c.InvalidateAuthorization? || c.AcceptRetainedOutcome? || c.Cancel? {
      ReasonedRefused(s, c);
    }
  }

  /** In every reachable state a command is refused with exactly the error whose condition holds, which is
    * never that of a missing attempt, and otherwise accepted. */
  lemma RefusedExactly(log: seq<Entry>, c: Command, e: Error)
    requires Reachable(log)
    ensures Decide(Replay(log), c) == Throw(e) <==> Refused(Replay(log), c, e) && e != AttemptNotFound
  {
    AttemptAlwaysFound(log, c);
    RefusedInState(Replay(log), c);
  }

  /** What an accepted command puts on record: its own arguments, and what the state knows of the current
    * attempt and the plan. */
  ghost predicate Told(s: State, c: Command, e: Event) {
    match c
    case BeginIdentityVerification(actor) => e == VerificationRequested(actor)
    case MarkIdentityVerified(actor) => e == SubjectVerified(actor)
    case BeginPlanning(agent) => e == PlanningRequested(agent)
    case AttachPlan(plan) => e == PlanCreated(plan)
    case ApprovePlan(approval) => e == PlanApproved(approval)
    case RejectPlan(decider, disposition) => e == PlanWasRejected(decider, disposition)
    case AuthorizeExecution(binding, agent, id, steps) => e == Authorized(binding, Some(agent), id, Initial, steps)
    case MarkExecuting(agent) => s.currentAttemptId.Some? && e == ExecutionStarted(agent, s.currentAttemptId.value)
    case Complete(affected) => s.currentAttemptId.Some? && e == RequestCompleted(affected, s.currentAttemptId.value)
    case MarkPartial(affected, failed) => e == RequestPartial(affected, failed, s.currentAttemptId)
    case Fail => e == RequestFailed(s.currentAttemptId)
    case MarkNeedsReview => e == ReviewNeeded(s.currentAttemptId)
    case RequestReplan(actor, reason) => e == ReplanRequested(actor, reason)
    case BeginRetry(id, steps, _) => s.plan.Some? && e == Authorized(s.plan.value.binding, None, id, Retry, steps)
    case InvalidateAuthorization(actor, reason) => e == AuthorizationInvalidated(actor, reason, s.currentAttemptId)
    case AcceptRetainedOutcome(actor, reason) => e == OutcomeAccepted(actor, reason, s.currentAttemptId)
    case Cancel(actor, reason) => e == RequestCancelled(actor, reason, s.currentAttemptId)
  }

  lemma ToldInState(s: State, c: Command)
    ensures Decide(s, c).Accept? ==> Told(s, c, Decide(s, c).event)
  {
  }

  /** In every reachable state an accepted command records what it was told, under the current attempt, and
    * leads to the status it aims at; a plan that needs no approval leaves the request in planning. */
  lemma AcceptedLeadsThere(log: seq<Entry>, c: Command, at: string)
    requires Reachable(log) && Decide(Replay(log), c).Accept?
    ensures var e := Decide(Replay(log), c).event;
            && Told(Replay(log), c, e)
            && Reachable(log + [Entry(e, at)])
            && Replay(log + [Entry(e, at)]).status
               == (if c.AttachPlan? && !c.plan.requiresApproval then Planning else Aim(c))
            && Replay(log + [Entry(e, at)]).version == |log| + 1
  {
    var entry := Entry(Decide(Replay(log), c).event, at);
    ToldInState(Replay(log), c);
    ReachableStep(log, c, entry);
    StatusTellsLastEvent(log + [entry]);
    VersionCountsEvents(log + [entry]);
  }

  /** An example of each move in the table. */
  lemma MoveExample(from: Status, next: Status) returns (s: State, e: Event)
    requires Transition(from, next)
    ensures s.status == from && Records(s, e) && Apply(s, Entry(e, "")).status == next
  {
    var binding := Binding("p", 1, "f");
    var attempt := Attempt("a", "r", 1, Initial, binding, ["s"], AttemptRunning, "", None);
    s := State("r", from, 1, Some("a"), Some(Plan(binding, false)), Some(Approval(binding, "u")), 1, [attempt]);
    e :=
      match next
      case IdentityVerificationPending => VerificationRequested("u")
      case IdentityVerified => SubjectVerified("u")
      case Planning =>
        if from == IdentityVerified then PlanningRequested("g")
        else if from == AwaitingApproval then PlanWasRejected("u", ChangesRequested)
        else ReplanRequested("u", "r")
      case AwaitingApproval =>
        if from == Planning then PlanCreated(Plan(Binding("q", 2, "f"), true))
        else AuthorizationInvalidated("u", "r", Some("a"))
      case ExecutionAuthorized =>
        if from in {Planning, AwaitingApproval} then Authorized(binding, Some("g"), "b", Initial, ["s"])
        else Authorized(binding, None, "b", Retry, ["s"])
      case Executing => ExecutionStarted("g", "a")
      case Completed => if from == Executing then RequestCompleted(0, "a") else OutcomeAccepted("u", "r", Some("a"))
      case PartiallyCompleted => RequestPartial(0, 0, Some("a"))
      case Failed => RequestFailed(Some("a"))
      case NeedsReview => ReviewNeeded(Some("a"))
      case _ => RequestCancelled("u", "r", Some("a"));
    assert ValidScope(["s"]) && ValidReason("r") && AttemptIdFree(s.attempts, "b");
  }

  /** The table holds exactly the moves that recording an event can make. */
  lemma TableIsExact(from: Status, next: Status)
    ensures Transition(from, next) <==>
            from != next && exists s: State, e: Event :: s.status == from && Records(s, e) && Apply(s, Entry(e, "")).status == next
  {
    if Transition(from, next) {
      var s, e := MoveExample(from, next);
    }
    forall s: State, e: Event | s.status == from && Records(s, e) && Apply(s, Entry(e, "")).status == next
      ensures from == next || Transition(from, next)
    {
      StepsFollowTable(s, Entry(e, ""));
    }
  }
}
