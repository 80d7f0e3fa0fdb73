/** Theorems about every log the aggregate can record. */
module PrivacyRequestTraces {
  import opened Wrappers
  import opened PrivacyRequest

  /** The states in which an event can be recorded. RecordsExactly ties it to the commands. */
  ghost predicate Records(s: State, e: Event) {
    match e
    case RequestCreated(_, _) => false
    case VerificationRequested(_) => s.status == Created
    case SubjectVerified(_) => s.status in {Created, IdentityVerificationPending}
    case PlanningRequested(_) => s.status == IdentityVerified
    case PlanCreated(plan) => s.status == Planning && plan.binding.planVersion > s.latestPlanVersion
    case PlanApproved(approval) =>
      s.status == AwaitingApproval && s.plan.Some? && s.plan.value.binding == approval.binding
    case PlanWasRejected(_, _) => s.status == AwaitingApproval
    case Authorized(binding, agent, id, kind, steps) =>
      && s.plan.Some? && s.plan.value.binding == binding
      && ValidScope(steps) && AttemptIdFree(s.attempts, id)
      && (agent.Some? <==> kind == Initial)
      && if kind == Initial
         then
           || (s.status == Planning && !s.plan.value.requiresApproval)
           || (s.status == AwaitingApproval && s.approval.Some?)
         else Retryable(s.status)
    case ExecutionStarted(_, id) => s.status == ExecutionAuthorized && EndsCurrent(s, ExecutionAuthorized, Some(id))
    case RequestCompleted(_, id) => s.status == Executing && EndsCurrent(s, Executing, Some(id))
    case RequestPartial(_, _, id) => s.status in {Executing, NeedsReview} && EndsCurrent(s, Executing, id)
    case RequestFailed(id) =>
      s.status in {IdentityVerificationPending, Planning, Executing} && EndsCurrent(s, Executing, id)
    case ReviewNeeded(id) => s.status in {Executing, PartiallyCompleted, Failed} && EndsCurrent(s, Executing, id)
    case ReplanRequested(_, reason) => Retryable(s.status) && ValidReason(reason)
    case AuthorizationInvalidated(_, reason, id) =>
      s.status == ExecutionAuthorized && ValidReason(reason) && EndsCurrent(s, ExecutionAuthorized, id)
    case OutcomeAccepted(_, reason, id) =>
      s.status in {PartiallyCompleted, NeedsReview} && ValidReason(reason) && id == s.currentAttemptId
    case RequestCancelled(_, reason, id) =>
      s.status !in {Executing, Completed, PartiallyCompleted, Cancelled} && ValidReason(reason)
      && EndsCurrent(s, ExecutionAuthorized, id)
  }

  ghost predicate EndsCurrent(s: State, when: Status, id: Option<string>) {
    id == s.currentAttemptId && (s.status == when ==> HasCurrentAttempt(s))
  }

  lemma DecisionsRecord(s: State, c: Command)
    ensures Decide(s, c).Accept? ==> Records(s, Decide(s, c).event)
  {
  }

  /** An event can be recorded exactly when some command records it. */
  lemma RecordsExactly(s: State, e: Event)
    ensures Records(s, e) <==> exists c :: Decide(s, c) == Accept(e)
  {
    forall c ensures Decide(s, c) == Accept(e) ==> Records(s, e) {
      DecisionsRecord(s, c);
    }
    if Records(s, e) {
      var c :=
        match e
        case VerificationRequested(actor) => BeginIdentityVerification(actor)
        case SubjectVerified(actor) => MarkIdentityVerified(actor)
        case PlanningRequested(agent) => BeginPlanning(agent)
        case PlanCreated(plan) => AttachPlan(plan)
        case PlanApproved(approval) => ApprovePlan(approval)
        case PlanWasRejected(decider, disposition) => RejectPlan(decider, disposition)
        case Authorized(binding, agent, id, kind, steps) =>
          if kind == Initial then AuthorizeExecution(binding, agent.value, id, steps)
          else BeginRetry(id, steps, s.version)
        case ExecutionStarted(agent, _) => MarkExecuting(agent)
        case RequestCompleted(affected, _) => Complete(affected)
        case RequestPartial(affected, failed, _) => MarkPartial(affected, failed)
        case RequestFailed(_) => Command.Fail
        case ReviewNeeded(_) => MarkNeedsReview
        case ReplanRequested(actor, reason) => RequestReplan(actor, reason)
        case AuthorizationInvalidated(actor, reason, _) => InvalidateAuthorization(actor, reason)
        case OutcomeAccepted(actor, reason, _) => AcceptRetainedOutcome(actor, reason)
        case RequestCancelled(actor, reason, _) => Cancel(actor, reason);
      assert Decide(s, c) == Accept(e);
    }
  }

  ghost predicate StepAt(log: seq<Entry>, i: nat)
    requires Started(log)
    requires 1 <= i < |log|
  {
    Records(Replay(log[..i]), log[i].event)
  }

  /** The logs some sequence of commands records; commands that throw leave no entry. */
  ghost predicate Reachable(log: seq<Entry>)
    ensures Reachable(log) ==> Started(log)
  {
    Started(log) && forall i | 1 <= i < |log| :: StepAt(log, i)
  }

  lemma ReachableStep(log: seq<Entry>, c: Command, entry: Entry)
    requires Reachable(log)
    requires Decide(Replay(log), c) == Accept(entry.event)
    ensures Reachable(log + [entry])
    ensures Replay(log + [entry]) == Apply(Replay(log), entry)
  {
    DecisionsRecord(Replay(log), c);
    var longer := log + [entry];
    assert Init(longer) == log;
    forall i | 1 <= i < |longer| ensures StepAt(longer, i) {
      if i < |log| {
        assert StepAt(log, i);
        assert longer[..i] == log[..i];
      } else {
        assert longer[..i] == log;
      }
    }
  }

  lemma ReachablePrefix(log: seq<Entry>, n: nat)
    requires Reachable(log)
    requires 1 <= n <= |log|
    ensures Reachable(log[..n])
  {
    forall i | 1 <= i < n ensures StepAt(log[..n], i) {
      assert StepAt(log, i);
      assert log[..n][..i] == log[..i];
    }
  }

  lemma ReplayStep(log: seq<Entry>, n: nat)
    requires Started(log)
    requires 1 <= n < |log|
    ensures Replay(log[..n + 1]) == Apply(Replay(log[..n]), log[n])
  {
    assert Init(log[..n + 1]) == log[..n];
  }

  // ----- versions and statuses -----

  /** The version counts the recorded events: the optimistic lock of the database rests on it. */
  lemma {:induction false} VersionCountsEvents(log: seq<Entry>)
    requires Reachable(log)
    ensures Replay(log).version == |log|
    ensures Replay(log).id == log[0].event.requestId
  {
    if |log| > 1 {
      ReachablePrefix(log, |log| - 1);
      VersionCountsEvents(Init(log));
      assert StepAt(log, |log| - 1);
    }
  }

  /** Every recorded step stays in its status or follows the table, also where attachPlan writes the
    * status without consulting it. So completed and cancelled requests record nothing more. */
  lemma StepsFollowTable(s: State, entry: Entry)
    requires Records(s, entry.event)
    ensures Apply(s, entry).status == s.status || Transition(s.status, Apply(s, entry).status)
    ensures s.status !in {Completed, Cancelled}
  {
  }

  // ----- the clock -----

  function EraseClock(a: Attempt): Attempt {
    a.(createdAt := "", completedAt := if a.completedAt.Some? then Some("") else None)
  }

  function EraseAll(attempts: seq<Attempt>): (r: seq<Attempt>)
    ensures |r| == |attempts|
  {
    seq(|attempts|, i requires 0 <= i < |attempts| => EraseClock(attempts[i]))
  }

  function EraseState(s: State): State {
    s.(attempts := EraseAll(s.attempts))
  }

  lemma {:induction false} FindErased(attempts: seq<Attempt>, id: Option<string>)
    ensures FindAttempt(EraseAll(attempts), id) ==
            match FindAttempt(attempts, id) case None => None case Some(a) => Some(EraseClock(a))
  {
    if attempts != [] {
      FindErased(attempts[1..], id);
      assert EraseAll(attempts)[1..] == EraseAll(attempts[1..]);
    }
  }

  lemma UpdateErased(attempts: seq<Attempt>, id: Option<string>, status: AttemptStatus, done: bool, at: string)
    ensures EraseAll(UpdateAttempt(attempts, id, status, if done then Some(at) else None)) ==
            UpdateAttempt(EraseAll(attempts), id, status, if done then Some("") else None)
  {
    FindErased(attempts, id);
  }

  lemma ApplyErased(s: State, e: Event, at: string)
    ensures EraseState(Apply(s, Entry(e, at))) == Apply(EraseState(s), Entry(e, ""))
  {
    match e
    case ExecutionStarted(_, id) => UpdateErased(s.attempts, Some(id), AttemptRunning, false, at);
    case RequestCompleted(_, id) => UpdateErased(s.attempts, Some(id), AttemptSucceeded, true, at);
    case RequestPartial(_, _, id) => UpdateErased(s.attempts, id, AttemptPartiallySucceeded, true, at);
    case RequestFailed(id) => UpdateErased(s.attempts, id, AttemptFailed, true, at);
    case ReviewNeeded(id) => UpdateErased(s.attempts, id, AttemptNeedsReview, true, at);
    case AuthorizationInvalidated(_, _, id) => UpdateErased(s.attempts, id, AttemptCancelled, true, at);
    case RequestCancelled(_, _, id) => UpdateErased(s.attempts, id, AttemptCancelled, true, at);
    case _ => assert EraseAll(s.attempts) == EraseState(s).attempts;
  }

  ghost predicate SameEvents(a: seq<Entry>, b: seq<Entry>) {
    |a| == |b| && forall i | 0 <= i < |a| :: a[i].event == b[i].event
  }

  /** The events alone rebuild the state: two logs with the same events differ in timestamps only. */
  lemma {:induction false} EventsRebuildState(a: seq<Entry>, b: seq<Entry>)
    requires Started(a) && SameEvents(a, b)
    ensures EraseState(Replay(a)) == EraseState(Replay(b))
  {
    if |a| > 1 {
      EventsRebuildState(Init(a), Init(b));
      ApplyErased(Replay(Init(a)), Last(a).event, Last(a).at);
      ApplyErased(Replay(Init(b)), Last(b).event, Last(b).at);
    }
  }

  // ----- attempts -----

  predicate Open(s: Status) {
    s in {ExecutionAuthorized, Executing}
  }

  /** What the attempts table demands of the row with this number, and the authorised scope. */
  ghost predicate RowOk(a: Attempt, requestId: string, number: nat) {
    && a.number == number
    && a.requestId == requestId
    && a.id != ""
    && ValidScope(a.allowedStepIds)
    && a.binding.planVersion > 0
    && (a.completedAt.Some? <==> TerminalAttempt(a.status))
  }

  ghost predicate RowsOk(attempts: seq<Attempt>, requestId: string) {
    && (forall i | 0 <= i < |attempts| :: RowOk(attempts[i], requestId, i + 1))
    && (forall i, j | 0 <= i < j < |attempts| :: attempts[i].id != attempts[j].id)
    && (forall i, j | 0 <= i < j < |attempts| ::
          attempts[i].binding.planVersion <= attempts[j].binding.planVersion)
    && (forall i | 0 <= i < |attempts| - 1 :: attempts[i].completedAt.Some?)
  }

  /** Later attempts extend earlier ones: no row is lost or reordered, its authorisation never
    * changes, and a completed row never changes at all. */
  ghost predicate Evolves(before: seq<Attempt>, after: seq<Attempt>) {
    && |before| <= |after|
    && forall i | 0 <= i < |before| ::
         && after[i] == before[i].(status := after[i].status, completedAt := after[i].completedAt)
         && (before[i].completedAt.Some? ==> after[i] == before[i])
  }

  /** The last attempt is open exactly while the request is, and no version exceeds the latest plan's. */
  ghost predicate AttemptsTracked(s: State) {
    var n := |s.attempts|;
    && s.currentAttemptId == (if n == 0 then None else Some(s.attempts[n - 1].id))
    && (Open(s.status) ==> n > 0)
    && (n > 0 ==>
          && s.attempts[n - 1].binding.planVersion <= s.latestPlanVersion
          && if Open(s.status)
             then s.attempts[n - 1].status == if s.status == Executing then AttemptRunning else AttemptAuthorized
             else s.attempts[n - 1].completedAt.Some?)
    && (s.plan.Some? ==> s.plan.value.binding.planVersion == s.latestPlanVersion > 0)
    && s.latestPlanVersion >= 0
  }

  ghost predicate AttemptsWellFormed(s: State) {
    RowsOk(s.attempts, s.id) && AttemptsTracked(s)
  }

  lemma {:induction false} FindAt(attempts: seq<Attempt>, k: nat)
    requires k < |attempts|
    requires forall i | 0 <= i < k :: attempts[i].id != attempts[k].id
    ensures FindAttempt(attempts, Some(attempts[k].id)) == Some(attempts[k])
  {
    if k > 0 {
      FindAt(attempts[1..], k - 1);
    }
  }

  lemma FindLast(s: State)
    requires AttemptsWellFormed(s) && s.attempts != []
    ensures FindAttempt(s.attempts, s.currentAttemptId) == Some(s.attempts[|s.attempts| - 1])
  {
    FindAt(s.attempts, |s.attempts| - 1);
  }

  lemma OpenHasAttempt(s: State)
    requires AttemptsWellFormed(s)
    ensures Open(s.status) ==> HasCurrentAttempt(s)
  {
    if Open(s.status) {
      FindLast(s);
    }
  }

  lemma RowsAppended(attempts: seq<Attempt>, requestId: string, a: Attempt)
    requires RowsOk(attempts, requestId) && RowOk(a, requestId, |attempts| + 1)
    requires AttemptIdFree(attempts, a.id)
    requires attempts != [] ==>
               && attempts[|attempts| - 1].completedAt.Some?
               && attempts[|attempts| - 1].binding.planVersion <= a.binding.planVersion
    ensures RowsOk(attempts + [a], requestId) && Evolves(attempts, attempts + [a])
  {
  }

  /** Starting or closing the current attempt rewrites the last row, which is still open. */
  lemma RowsUpdated(s: State, status: AttemptStatus, at: Option<string>)
    requires AttemptsWellFormed(s) && Open(s.status)
    requires TerminalAttempt(status) <==> at.Some?
    ensures var last := |s.attempts| - 1;
            var rows := UpdateAttempt(s.attempts, s.currentAttemptId, status, at);
            && rows == s.attempts[last := s.attempts[last].(status := status, completedAt := at)]
            && RowsOk(rows, s.id) && Evolves(s.attempts, rows)
  {
    FindLast(s);
  }

  function NewAttempt(s: State, e: Event, at: string): Attempt
    requires e.Authorized?
  {
    Attempt(e.attemptId, s.id, |s.attempts| + 1, e.kind, e.binding, e.allowedStepIds, AttemptAuthorized, at, None)
  }

  /** The rows after one step: as they were, one more, or the current one rewritten while open. */
  lemma RowsChange(s: State, entry: Entry) returns (status: AttemptStatus, done: Option<string>)
    requires Records(s, entry.event)
    ensures TerminalAttempt(status) <==> done.Some?
    ensures Apply(s, entry).id == s.id
    ensures var rows := Apply(s, entry).attempts;
            if entry.event.Authorized? then rows == s.attempts + [NewAttempt(s, entry.event, entry.at)]
            else rows == s.attempts ||
                 (Open(s.status) && rows == UpdateAttempt(s.attempts, s.currentAttemptId, status, done))
  {
    status, done := AttemptRunning, None;
    match entry.event
    case RequestCompleted(_, _) => status, done := AttemptSucceeded, Some(entry.at);
    case RequestPartial(_, _, _) => status, done := AttemptPartiallySucceeded, Some(entry.at);
    case RequestFailed(_) => status, done := AttemptFailed, Some(entry.at);
    case ReviewNeeded(_) => status, done := AttemptNeedsReview, Some(entry.at);
    case AuthorizationInvalidated(_, _, _) => status, done := AttemptCancelled, Some(entry.at);
    case RequestCancelled(_, _, _) => status, done := AttemptCancelled, Some(entry.at);
    case _ =>
  }

  lemma RowsStep(s: State, entry: Entry)
    requires AttemptsWellFormed(s)
    requires Records(s, entry.event)
    ensures RowsOk(Apply(s, entry).attempts, s.id)
    ensures Evolves(s.attempts, Apply(s, entry).attempts)
    ensures Apply(s, entry).id == s.id
  {
    var status, done := RowsChange(s, entry);
    if entry.event.Authorized? {
      RowsAppended(s.attempts, s.id, NewAttempt(s, entry.event, entry.at));
    } else if Open(s.status) {
      RowsUpdated(s, status, done);
    }
  }

  lemma TrackedStep(s: State, entry: Entry)
    requires AttemptsTracked(s)
    requires Open(s.status) ==> FindAttempt(s.attempts, s.currentAttemptId) == Some(s.attempts[|s.attempts| - 1])
    requires Records(s, entry.event)
    ensures AttemptsTracked(Apply(s, entry))
  {
    var after := Apply(s, entry);
    if Open(s.status) {
      assert |after.attempts| == |s.attempts|;
    } else if entry.event.Authorized? {
      assert |after.attempts| == |s.attempts| + 1;
    } else {
      assert after.attempts == s.attempts;
    }
  }

  lemma AttemptsStep(s: State, entry: Entry)
    requires AttemptsWellFormed(s)
    requires Records(s, entry.event)
    ensures AttemptsWellFormed(Apply(s, entry))
    ensures Evolves(s.attempts, Apply(s, entry).attempts)
  {
    RowsStep(s, entry);
    if Open(s.status) {
      FindLast(s);
    }
    TrackedStep(s, entry);
  }

  /** For every run: attempts are numbered 1..n with distinct ids, completed exactly in a terminal
    * status, all but possibly the last completed, and their plan versions never decrease. */
  lemma {:induction false} AttemptHistory(log: seq<Entry>)
    requires Reachable(log)
    ensures AttemptsWellFormed(Replay(log))
  {
    if |log| > 1 {
      ReachablePrefix(log, |log| - 1);
      AttemptHistory(Init(log));
      assert StepAt(log, |log| - 1);
      AttemptsStep(Replay(Init(log)), Last(log));
    }
  }

  lemma {:induction false} CompletedAttemptsAreFinal(log: seq<Entry>, n: nat)
    requires Reachable(log)
    requires 1 <= n <= |log|
    ensures Reachable(log[..n])
    ensures Evolves(Replay(log[..n]).attempts, Replay(log).attempts)
  {
    ReachablePrefix(log, n);
    if n == |log| {
      assert log[..n] == log;
    } else {
      ReachablePrefix(log, |log| - 1);
      CompletedAttemptsAreFinal(Init(log), n);
      assert Init(log)[..n] == log[..n];
      AttemptHistory(Init(log));
      assert StepAt(log, |log| - 1);
      AttemptsStep(Replay(Init(log)), Last(log));
    }
  }

  lemma FoundWhileOpen(s: State, c: Command)
    requires Open(s.status) ==> HasCurrentAttempt(s)
    ensures Decide(s, c) != Throw(AttemptNotFound)
  {
  }

  /** The missing-attempt error of the source can never be thrown. */
  lemma AttemptAlwaysFound(log: seq<Entry>, c: Command)
    requires Reachable(log)
    ensures Decide(Replay(log), c) != Throw(AttemptNotFound)
  {
    AttemptHistory(log);
    OpenHasAttempt(Replay(log));
    FoundWhileOpen(Replay(log), c);
  }

  // ----- approval -----

  predicate WithdrawsPlan(e: Event) {
    e.PlanCreated? || e.PlanWasRejected? || e.ReplanRequested?
  }

  predicate EndsApproval(e: Event) {
    WithdrawsPlan(e) || e.AuthorizationInvalidated?
  }

  /** Where the plan in force was created, read off the log. */
  function PlanIndex(log: seq<Entry>): (r: Option<nat>)
    ensures r.Some? ==> r.value < |log| && log[r.value].event.PlanCreated?
  {
    if log == [] then None
    else if Last(log).event.PlanCreated? then Some(|log| - 1)
    else if WithdrawsPlan(Last(log).event) then None
    else PlanIndex(Init(log))
  }

  /** Where the approval that still stands was given, read off the log. */
  function ApprovalIndex(log: seq<Entry>): (r: Option<nat>)
    ensures r.Some? ==> r.value < |log| && log[r.value].event.PlanApproved?
  {
    if log == [] then None
    else if Last(log).event.PlanApproved? then Some(|log| - 1)
    else if EndsApproval(Last(log).event) then None
    else ApprovalIndex(Init(log))
  }

  function NextNeed(need: bool, e: Event): bool {
    if e.PlanCreated? then e.plan.requiresApproval else e.AuthorizationInvalidated? || need
  }

  /** Whether the plan in force needs an approval: it asks for one, or an authorisation under it was
    * invalidated. */
  function NeedsApproval(log: seq<Entry>): bool {
    if log == [] then false else NextNeed(NeedsApproval(Init(log)), Last(log).event)
  }

  /** The indices and the flag mean what their names say. */
  lemma {:induction false} IndicesMeaning(log: seq<Entry>)
    ensures PlanIndex(log).Some? ==>
              forall k | PlanIndex(log).value < k < |log| :: !WithdrawsPlan(log[k].event)
    ensures ApprovalIndex(log).Some? ==>
              forall k | ApprovalIndex(log).value < k < |log| :: !EndsApproval(log[k].event)
    ensures PlanIndex(log).Some? ==>
              (NeedsApproval(log) <==>
               || log[PlanIndex(log).value].event.plan.requiresApproval
               || exists k :: PlanIndex(log).value < k < |log| && log[k].event.AuthorizationInvalidated?)
  {
    if log != [] {
      IndicesMeaning(Init(log));
      assert log == Init(log) + [Last(log)];
    }
  }

  /** The state knows exactly what the log says about the plan in force and its approval. */
  ghost predicate ApprovalTracked(log: seq<Entry>, s: State) {
    s.status != Cancelled ==>
      && s.plan.Some? == PlanIndex(log).Some?
      && s.approval.Some? == ApprovalIndex(log).Some?
      && (s.plan.Some? ==> log[PlanIndex(log).value].event == PlanCreated(s.plan.value))
      && (s.approval.Some? ==>
            && s.plan.Some? && s.plan.value.binding == s.approval.value.binding
            && PlanIndex(log).value < ApprovalIndex(log).value
            && log[ApprovalIndex(log).value].event == PlanApproved(s.approval.value))
  }

  /** Past the approval gate a plan that needs an approval has one; a plan kept in planning needs none. */
  ghost predicate Gated(s: State, need: bool) {
    && (s.status in {Created, IdentityVerificationPending, IdentityVerified} ==> s.plan.None?)
    && (s.plan.Some? && need ==>
          && s.status != Planning
          && (s.status !in {AwaitingApproval, Cancelled} ==> s.approval.Some?))
  }

  lemma GatedStep(s: State, entry: Entry, need: bool)
    requires Gated(s, need)
    requires Records(s, entry.event)
    ensures Gated(Apply(s, entry), NextNeed(need, entry.event))
  {
  }

  lemma ApprovalStep(log: seq<Entry>, s: State)
    requires Started(log) && |log| > 1
    requires ApprovalTracked(Init(log), s)
    requires Records(s, Last(log).event)
    ensures ApprovalTracked(log, Apply(s, Last(log)))
  {
  }

  lemma {:induction false} ApprovalHistory(log: seq<Entry>)
    requires Reachable(log)
    ensures ApprovalTracked(log, Replay(log))
    ensures Gated(Replay(log), NeedsApproval(log))
  {
    if |log| == 1 {
      assert Init(log) == [];
    } else {
      ReachablePrefix(log, |log| - 1);
      ApprovalHistory(Init(log));
      assert StepAt(log, |log| - 1);
      ApprovalStep(log, Replay(Init(log)));
      GatedStep(Replay(Init(log)), Last(log), NeedsApproval(Init(log)));
    }
  }

  /** An approval of exactly `binding` stands when entry i is recorded, given after entry c. */
  ghost predicate LiveApproval(log: seq<Entry>, c: nat, j: nat, i: nat, binding: Binding) {
    && c < j < i < |log|
    && log[j].event.PlanApproved?
    && log[j].event.approval.binding == binding
    && forall k | j < k < i :: !EndsApproval(log[k].event)
  }

  /** The safety theorem. Whenever execution is authorised, at first or as a retry, the plan
    * authorised is the one in force, and if that plan requires approval, or an earlier authorisation
    * under it was invalidated, an approval of that exact plan stands. */
  lemma AuthorizationNeedsLiveApproval(log: seq<Entry>, i: nat) returns (c: nat)
    requires Reachable(log)
    requires i < |log| && log[i].event.Authorized?
    ensures c < i && log[c].event.PlanCreated?
    ensures log[c].event.plan.binding == log[i].event.binding
    ensures forall k | c < k < i :: !WithdrawsPlan(log[k].event)
    ensures log[c].event.plan.requiresApproval || (exists k :: c < k < i && log[k].event.AuthorizationInvalidated?)
            ==> exists j :: LiveApproval(log, c, j, i, log[i].event.binding)
  {
    assert StepAt(log, i);
    ReachablePrefix(log, i);
    var before := log[..i];
    ApprovalHistory(before);
    IndicesMeaning(before);
    assert forall k | 0 <= k < i :: before[k] == log[k];
    c := PlanIndex(before).value;
    if NeedsApproval(before) {
      var j := ApprovalIndex(before).value;
      assert LiveApproval(log, c, j, i, log[i].event.binding);
    }
  }

  lemma LastAttemptAuthorized(log: seq<Entry>, i: nat)
    requires Reachable(log)
    requires i < |log| && log[i].event.Authorized?
    ensures Reachable(log[..i + 1])
    ensures var attempts := Replay(log[..i + 1]).attempts;
            attempts != [] && attempts[|attempts| - 1].binding == log[i].event.binding
  {
    assert StepAt(log, i);
    ReachablePrefix(log, i + 1);
    ReplayStep(log, i);
  }

  /** Authorised plan versions never decrease along a run. */
  lemma AuthorizedVersionsNeverDecrease(log: seq<Entry>, i: nat, j: nat)
    requires Reachable(log)
    requires i < j < |log| && log[i].event.Authorized? && log[j].event.Authorized?
    ensures log[i].event.binding.planVersion <= log[j].event.binding.planVersion
  {
    LastAttemptAuthorized(log, i);
    LastAttemptAuthorized(log, j);
    ReachablePrefix(log, j + 1);
    assert log[..j + 1][..i + 1] == log[..i + 1];
    CompletedAttemptsAreFinal(log[..j + 1], i + 1);
    AttemptHistory(log[..j + 1]);
  }
}
