/** The crash-restartable step runner against a store and a connector that may fail at any await. */
module StepRunner {
  import opened Wrappers
  import opened ExecutionSteps

  const U32_MAX := 0xFFFF_FFFF

  /** How one save ends: the write happens or not, and the caller learns of it, of an error, or dies. */
  datatype SaveOutcome = Written | FailedBefore | FailedAfter | CrashBefore | CrashAfter

  /** How one connector call ends; a crash falls before or after the call reached the connector. */
  datatype CallOutcome = CallOk | CallFailed(uncertain: bool) | CrashUnsent | CrashSent

  datatype VerifyOutcome = Verified(satisfied: bool) | VerifyFailed(uncertain: bool) | VerifyCrash

  datatype LoadOutcome = Loaded | LoadFailed | LoadCrash

  /** What the environment does to one call of run_step. */
  datatype Behaviour = Behaviour(
    load: LoadOutcome, savePrepared: SaveOutcome, saveInFlight: SaveOutcome, execute: CallOutcome,
    reconcile: CallOutcome, saveFailed: SaveOutcome, saveVerifying: SaveOutcome, verify: VerifyOutcome,
    saveFinal: SaveOutcome)

  datatype ExecutionResult = ResultSucceeded | ResultFailed | ResultNeedsReview

  datatype Reply =
    | Returned(result: ExecutionResult) | StepNotFound | InvalidStepState | StoreError | ConnectorError(uncertain: bool)
    | Crashed

  /** What reached the connector, or came back from it. */
  datatype Contact = ExecuteCall(how: CallOutcome) | ReconcileCall(how: CallOutcome) | VerifyCall(answer: VerifyOutcome)

  /** One contact, and the status stored while it was made. */
  datatype Note = Note(contact: Contact, during: Option<StepStatus>)

  /** The persisted step, and all contacts with the connector about it. */
  datatype World = World(stored: Option<ExecutionStep>, notes: seq<Note>)

  // ----- the specification -----

  predicate Persists(o: SaveOutcome) {
    o in {Written, FailedAfter, CrashAfter}
  }

  function AfterSave(w: World, s: ExecutionStep, o: SaveOutcome): World {
    if Persists(o) then w.(stored := Some(s)) else w
  }

  function StatusOf(w: World): Option<StepStatus> {
    if w.stored.Some? then Some(w.stored.value.status) else None
  }

  /** A contact leaves a note, unless the process dies before it is made or answered. */
  function Noted(w: World, c: Contact): World {
    if c == ExecuteCall(CrashUnsent) || c == ReconcileCall(CrashUnsent) || c == VerifyCall(VerifyCrash) then w
    else w.(notes := w.notes + [Note(c, StatusOf(w))])
  }

  function SaveError(o: SaveOutcome): Reply {
    if o in {FailedBefore, FailedAfter} then StoreError else Crashed
  }

  function FromVerifying(w: World, s: ExecutionStep, b: Behaviour): (World, Reply) {
    var w1 := Noted(w, VerifyCall(b.verify));
    match b.verify
    case VerifyCrash => (w1, Crashed)
    case Verified(satisfied) =>
      (AfterSave(w1, s.(status := if satisfied then Succeeded else NeedsReview), b.saveFinal),
       if b.saveFinal != Written then SaveError(b.saveFinal)
       else Returned(if satisfied then ResultSucceeded else ResultNeedsReview))
    case VerifyFailed(uncertain) =>
      (AfterSave(w1, s.(status := if uncertain then NeedsReview else Failed), b.saveFinal),
       if b.saveFinal != Written then SaveError(b.saveFinal) else ConnectorError(uncertain))
  }

  function ToVerifying(w: World, s: ExecutionStep, b: Behaviour): (World, Reply) {
    var s1 := s.(status := Verifying);
    var w1 := AfterSave(w, s1, b.saveVerifying);
    if b.saveVerifying != Written then (w1, SaveError(b.saveVerifying)) else FromVerifying(w1, s1, b)
  }

  function FromInFlight(w: World, s: ExecutionStep, b: Behaviour): (World, Reply) {
    var w1 := Noted(w, ReconcileCall(b.reconcile));
    match b.reconcile
    case CallOk => ToVerifying(w1, s, b)
    case CallFailed(uncertain) => (w1, ConnectorError(uncertain))
    case _ => (w1, Crashed)
  }

  function FromPrepared(w: World, s: ExecutionStep, b: Behaviour): (World, Reply) {
    var s1 := s.(status := InFlight);
    var w1 := AfterSave(w, s1, b.saveInFlight);
    if b.saveInFlight != Written then (w1, SaveError(b.saveInFlight))
    else
      var w2 := Noted(w1, ExecuteCall(b.execute));
      match b.execute
      case CallOk => ToVerifying(w2, s1, b)
      case CallFailed(true) => FromInFlight(w2, s1, b)
      case CallFailed(false) =>
        (AfterSave(w2, s1.(status := Failed), b.saveFailed),
         if b.saveFailed != Written then SaveError(b.saveFailed) else ConnectorError(false))
      case _ => (w2, Crashed)
  }

  function SaturatingNext(attempts: nat): nat {
    if attempts >= U32_MAX then U32_MAX else attempts + 1
  }

  /** The world after one call of run_step, and its answer. */
  function Step(w: World, b: Behaviour): (World, Reply) {
    if b.load != Loaded then (w, if b.load == LoadFailed then StoreError else Crashed)
    else if w.stored.None? then (w, StepNotFound)
    else
      var s := w.stored.value;
      match s.status
      case Succeeded => (w, Returned(ResultSucceeded))
      case Failed => (w, Returned(ResultFailed))
      case Blocked => (w, Returned(ResultFailed))
      case NeedsReview => (w, Returned(ResultNeedsReview))
      case Pending =>
        var s1 := s.(status := Prepared, attempts := SaturatingNext(s.attempts));
        var w1 := AfterSave(w, s1, b.savePrepared);
        if b.savePrepared != Written then (w1, SaveError(b.savePrepared)) else FromPrepared(w1, s1, b)
      case Prepared => FromPrepared(w, s, b)
      case InFlight => FromInFlight(w, s, b)
      case Verifying => FromVerifying(w, s, b)
  }

  // ----- the runner -----

  /** One await sequence as the source writes it, over a local copy of the step. */
  class Runner {
    var stored: Option<ExecutionStep>
    var notes: seq<Note>

    function View(): World
      reads this
    {
      World(stored, notes)
    }

    constructor (stored: Option<ExecutionStep>)
      ensures View() == World(stored, [])
    {
      this.stored, notes := stored, [];
    }

    method SaveStep(step: ExecutionStep, o: SaveOutcome) returns (ok: bool)
      modifies this`stored
      ensures View() == AfterSave(old(View()), step, o)
      ensures ok <==> o == Written
    {
      if o == Written || o == FailedAfter || o == CrashAfter {
        stored := Some(step);
      }
      ok := o == Written;
    }

    method Contact(c: Contact)
      modifies this`notes
      ensures View() == Noted(old(View()), c)
    {
      if c != ExecuteCall(CrashUnsent) && c != ReconcileCall(CrashUnsent) && c != VerifyCall(VerifyCrash) {
        notes := notes + [Note(c, if stored.Some? then Some(stored.value.status) else None)];
      }
    }

    method RunStep(b: Behaviour) returns (reply: Reply)
      modifies this
      ensures (View(), reply) == Step(old(View()), b)
    {
      if b.load != Loaded {
        return if b.load == LoadFailed then StoreError else Crashed;
      }
      if stored.None? {
        return StepNotFound;
      }
      var step := stored.value;
      match step.status {
        case Succeeded => return Returned(ResultSucceeded);
        case Failed => return Returned(ResultFailed);
        case Blocked => return Returned(ResultFailed);
        case NeedsReview => return Returned(ResultNeedsReview);
        case Pending =>
          step := step.(status := Prepared, attempts := SaturatingNext(step.attempts));
          var saved := SaveStep(step, b.savePrepared);
          if !saved {
            return SaveError(b.savePrepared);
          }
        case _ =>
      }
      if step.status == Prepared {
        step := step.(status := InFlight);
        var saved := SaveStep(step, b.saveInFlight);
        if !saved {
          return SaveError(b.saveInFlight);
        }
        Contact(ExecuteCall(b.execute));
        match b.execute {
          case CallOk =>
          case CallFailed(true) =>
            Contact(ReconcileCall(b.reconcile));
            if b.reconcile != CallOk {
              return if b.reconcile.CallFailed? then ConnectorError(b.reconcile.uncertain) else Crashed;
            }
          case CallFailed(false) =>
            step := step.(status := Failed);
            saved := SaveStep(step, b.saveFailed);
            return if saved then ConnectorError(false) else SaveError(b.saveFailed);
          case _ =>
            return Crashed;
        }
        step := step.(status := Verifying);
        saved := SaveStep(step, b.saveVerifying);
        if !saved {
          return SaveError(b.saveVerifying);
        }
      } else if step.status == InFlight {
        Contact(ReconcileCall(b.reconcile));
        if b.reconcile != CallOk {
          return if b.reconcile.CallFailed? then ConnectorError(b.reconcile.uncertain) else Crashed;
        }
        step := step.(status := Verifying);
        var saved := SaveStep(step, b.saveVerifying);
        if !saved {
          return SaveError(b.saveVerifying);
        }
      }
      if step.status != Verifying {
        return InvalidStepState;
      }
      Contact(VerifyCall(b.verify));
      match b.verify {
        case VerifyCrash =>
          return Crashed;
        case Verified(satisfied) =>
          step := step.(status := if satisfied then Succeeded else NeedsReview);
          var saved := SaveStep(step, b.saveFinal);
          if !saved {
            return SaveError(b.saveFinal);
          }
          return Returned(if satisfied then ResultSucceeded else ResultNeedsReview);
        case VerifyFailed(uncertain) =>
          step := step.(status := if uncertain then NeedsReview else Failed);
          var saved := SaveStep(step, b.saveFinal);
          return if saved then ConnectorError(uncertain) else SaveError(b.saveFinal);
      }
    }
  }

  // ----- whole runs -----

  function Run(w: World, bs: seq<Behaviour>): World
    decreases |bs|
  {
    if bs == [] then w else Run(Step(w, bs[0]).0, bs[1..])
  }

  function Rank(s: StepStatus): nat {
    match s
    case Pending => 0
    case Prepared => 1
    case InFlight => 2
    case Verifying => 3
    case _ => 4
  }

  /** One world can follow another: the step moves forward only and keeps its identity, a terminal
    * status stays, an attempt is counted when it leaves Pending, and no contact is forgotten. */
  ghost predicate Forward(w: World, next: World) {
    && (w.stored.Some? <==> next.stored.Some?)
    && (w.stored.Some? ==>
          var s, t := w.stored.value, next.stored.value;
          && Rank(s.status) <= Rank(t.status)
          && (Rank(s.status) == 4 ==> next == w)
          && t == s.(status := t.status, attempts := t.attempts)
          && (s.status == Pending && t.status != Pending && s.attempts < U32_MAX ==> t.attempts == s.attempts + 1)
          && (s.status != Pending || t.status == Pending || s.attempts == U32_MAX ==> t.attempts == s.attempts))
    && w.notes <= next.notes
  }

  predicate Acknowledges(c: Contact) {
    c == ExecuteCall(CallOk) || c == ReconcileCall(CallOk)
  }

  /** The order of contacts: at most one execute, before all else; then reconciles; then verifies, the first of
    * them right after an execute or a reconcile that returned Ok. And the status stored meanwhile: InFlight
    * for execute and reconcile, Verifying for verify. */
  ghost predicate Proper(notes: seq<Note>) {
    && (forall i | 0 <= i < |notes| && notes[i].contact.ExecuteCall? :: i == 0)
    && (forall i | 0 <= i < |notes| :: notes[i].during == Some(if notes[i].contact.VerifyCall? then Verifying else InFlight))
    && (forall i | 0 < i < |notes| && notes[i - 1].contact.VerifyCall? :: notes[i].contact.VerifyCall?)
    && (forall i | 0 <= i < |notes| && notes[i].contact.VerifyCall? :: i > 0)
    && (forall i | 0 < i < |notes| && notes[i].contact.VerifyCall? ::
          notes[i - 1].contact.VerifyCall? || Acknowledges(notes[i - 1].contact))
  }

  /** What the stored status says of the contacts so far. */
  ghost predicate StatusTold(status: StepStatus, notes: seq<Note>) {
    match status
    case Pending => notes == []
    case Prepared => notes == []
    case Blocked => notes == []
    case InFlight => notes == [] || !notes[|notes| - 1].contact.VerifyCall?
    case Verifying =>
      notes != [] && var last := notes[|notes| - 1].contact; Acknowledges(last) || last.VerifyCall?
    case Succeeded => notes != [] && notes[|notes| - 1].contact == VerifyCall(Verified(true))
    case NeedsReview =>
      && notes != []
      && notes[|notes| - 1].contact in {VerifyCall(Verified(false)), VerifyCall(VerifyFailed(true))}
    case Failed =>
      && notes != []
      && notes[|notes| - 1].contact in {VerifyCall(VerifyFailed(false)), ExecuteCall(CallFailed(false))}
  }

  ghost predicate Safe(w: World) {
    && Proper(w.notes)
    && if w.stored.Some? then StatusTold(w.stored.value.status, w.notes) else w.notes == []
  }

  lemma ForwardTransitive(u: World, v: World, w: World)
    requires Forward(u, v) && Forward(v, w)
    ensures Forward(u, w)
  {
  }

  /** Saving s over the stored step: safe when s only moves the status on, as the contacts say. */
  lemma SaveKeeps(w: World, s: ExecutionStep, o: SaveOutcome)
    requires Safe(w) && Forward(w, w.(stored := Some(s)))
    requires StatusTold(s.status, w.notes)
    ensures Safe(AfterSave(w, s, o)) && Forward(w, AfterSave(w, s, o))
  {
  }

  lemma VerifyingKeeps(w: World, s: ExecutionStep, b: Behaviour)
    requires Safe(w) && w.stored == Some(s) && s.status == Verifying
    ensures var (w1, reply) := FromVerifying(w, s, b);
            Safe(w1) && Forward(w, w1) && reply != InvalidStepState
  {
    var w1 := Noted(w, VerifyCall(b.verify));
    match b.verify
    case VerifyCrash =>
    case Verified(satisfied) =>
      SaveVerified(w, w1, s, s.(status := if satisfied then Succeeded else NeedsReview), b.saveFinal);
    case VerifyFailed(uncertain) =>
      SaveVerified(w, w1, s, s.(status := if uncertain then NeedsReview else Failed), b.saveFinal);
  }

  lemma SaveVerified(w: World, w1: World, s: ExecutionStep, s1: ExecutionStep, o: SaveOutcome)
    requires Safe(w) && w.stored == Some(s) && s.status == Verifying
    requires w1 == w.(notes := w1.notes) && |w1.notes| == |w.notes| + 1 && w.notes <= w1.notes
    requires var last := w1.notes[|w.notes|]; last.contact.VerifyCall? && last.during == Some(Verifying)
    requires s1 == s.(status := s1.status) && Rank(s1.status) == 4 && StatusTold(s1.status, w1.notes)
    ensures Safe(AfterSave(w1, s1, o)) && Forward(w, AfterSave(w1, s1, o))
  {
    assert Safe(w1) && Forward(w, w1);
    SaveKeeps(w1, s1, o);
    ForwardTransitive(w, w1, AfterSave(w1, s1, o));
  }

  lemma ToVerifyingKeeps(w: World, s: ExecutionStep, b: Behaviour)
    requires Safe(w) && w.stored == Some(s) && s.status == InFlight
    requires w.notes != [] && Acknowledges(w.notes[|w.notes| - 1].contact)
    ensures var (w1, reply) := ToVerifying(w, s, b);
            Safe(w1) && Forward(w, w1) && reply != InvalidStepState
  {
    var s1 := s.(status := Verifying);
    SaveKeeps(w, s1, b.saveVerifying);
    if b.saveVerifying == Written {
      var w1 := AfterSave(w, s1, b.saveVerifying);
      VerifyingKeeps(w1, s1, b);
      ForwardTransitive(w, w1, FromVerifying(w1, s1, b).0);
    }
  }

  /** One more execute or reconcile while the step is in flight. */
  lemma ContactKeeps(w: World, c: Contact)
    requires Safe(w) && w.stored.Some? && w.stored.value.status == InFlight
    requires !c.VerifyCall? && (c.ExecuteCall? ==> w.notes == [])
    ensures Safe(Noted(w, c)) && Forward(w, Noted(w, c))
  {
  }

  lemma InFlightKeeps(w: World, s: ExecutionStep, b: Behaviour)
    requires Safe(w) && w.stored == Some(s) && s.status == InFlight
    ensures var (w1, reply) := FromInFlight(w, s, b);
            Safe(w1) && Forward(w, w1) && reply != InvalidStepState
  {
    var w1 := Noted(w, ReconcileCall(b.reconcile));
    ContactKeeps(w, ReconcileCall(b.reconcile));
    if b.reconcile == CallOk {
      ToVerifyingKeeps(w1, s, b);
      ForwardTransitive(w, w1, ToVerifying(w1, s, b).0);
    }
  }

  /** After the execute, whatever it answered. */
  lemma ExecutedKeeps(w: World, s: ExecutionStep, b: Behaviour)
    requires Safe(w) && w.stored == Some(s) && s.status == Prepared && b.saveInFlight == Written
    ensures var (w1, reply) := FromPrepared(w, s, b);
            Safe(w1) && Forward(w.(stored := Some(s.(status := InFlight))), w1) && reply != InvalidStepState
  {
    var s1 := s.(status := InFlight);
    var w1 := w.(stored := Some(s1));
    var w2 := Noted(w1, ExecuteCall(b.execute));
    ContactKeeps(w1, ExecuteCall(b.execute));
    match b.execute
    case CallOk =>
      ToVerifyingKeeps(w2, s1, b);
      ForwardTransitive(w1, w2, ToVerifying(w2, s1, b).0);
    case CallFailed(true) =>
      InFlightKeeps(w2, s1, b);
      ForwardTransitive(w1, w2, FromInFlight(w2, s1, b).0);
    case CallFailed(false) =>
      SaveKeeps(w2, s1.(status := Failed), b.saveFailed);
      ForwardTransitive(w1, w2, AfterSave(w2, s1.(status := Failed), b.saveFailed));
    case _ =>
  }

  lemma PreparedKeeps(w: World, s: ExecutionStep, b: Behaviour)
    requires Safe(w) && w.stored == Some(s) && s.status == Prepared
    ensures var (w1, reply) := FromPrepared(w, s, b);
            Safe(w1) && Forward(w, w1) && reply != InvalidStepState
  {
    var s1 := s.(status := InFlight);
    SaveKeeps(w, s1, b.saveInFlight);
    if b.saveInFlight == Written {
      ExecutedKeeps(w, s, b);
      ForwardTransitive(w, w.(stored := Some(s1)), FromPrepared(w, s, b).0);
    }
  }

  lemma StepIsSafe(w: World, b: Behaviour)
    requires Safe(w)
    ensures Forward(w, Step(w, b).0)
    ensures Safe(Step(w, b).0)
    ensures Step(w, b).1 != InvalidStepState
  {
    if b.load == Loaded && w.stored.Some? {
      var s := w.stored.value;
      match s.status
      case Pending =>
        var s1 := s.(status := Prepared, attempts := SaturatingNext(s.attempts));
        var w1 := AfterSave(w, s1, b.savePrepared);
        SaveKeeps(w, s1, b.savePrepared);
        if b.savePrepared == Written {
          PreparedKeeps(w1, s1, b);
          ForwardTransitive(w, w1, FromPrepared(w1, s1, b).0);
        }
      case Prepared => PreparedKeeps(w, s, b);
      case InFlight => InFlightKeeps(w, s, b);
      case Verifying => VerifyingKeeps(w, s, b);
      case _ =>
    }
  }

  /** Over any sequence of calls with crashes and save failures anywhere: the contacts stay in order, with at
    * most one execute, the persisted status only moves forward and says what the last contact was, and a
    * terminal status absorbs. */
  lemma {:induction false} EveryRunIsSafe(w: World, bs: seq<Behaviour>)
    requires Safe(w)
    ensures Safe(Run(w, bs))
    ensures Forward(w, Run(w, bs))
    decreases |bs|
  {
    if bs != [] {
      var w1 := Step(w, bs[0]).0;
      StepIsSafe(w, bs[0]);
      EveryRunIsSafe(w1, bs[1..]);
      ForwardTransitive(w, w1, Run(w1, bs[1..]));
    }
  }

  /** A new step starts safe. */
  lemma NewStepIsSafe(stored: Option<ExecutionStep>)
    requires stored.Some? ==> stored.value.status in {Pending, Prepared, InFlight, Blocked}
    ensures Safe(World(stored, []))
  {
  }

  /** Once InFlight is persisted, no later call executes: whatever it contacts, it reconciles or verifies. */
  lemma {:induction false} NoExecutionAfterInFlight(w: World, bs: seq<Behaviour>)
    requires Safe(w) && w.stored.Some? && Rank(w.stored.value.status) >= 2
    ensures w.notes <= Run(w, bs).notes
    ensures forall i | |w.notes| <= i < |Run(w, bs).notes| :: !Run(w, bs).notes[i].contact.ExecuteCall?
    decreases |bs|
  {
    if bs != [] {
      var w1 := Step(w, bs[0]).0;
      StepIsSafe(w, bs[0]);
      NoExecutionAfterInFlight(w1, bs[1..]);
    }
  }

  /** A step passes InFlight only after an execute or a reconcile that returned Ok, and is done well or in
    * review only after a verify that said so. */
  lemma PassesInFlightAcknowledged(w: World, bs: seq<Behaviour>)
    requires Safe(w)
    ensures var after := Run(w, bs);
            after.stored.Some? && after.stored.value.status in {Verifying, Succeeded, NeedsReview} ==>
              exists i :: 0 <= i < |after.notes| && Acknowledges(after.notes[i].contact)
  {
    EveryRunIsSafe(w, bs);
    var notes := Run(w, bs).notes;
    if notes != [] && notes[|notes| - 1].contact.VerifyCall? {
      var i := BeforeVerifies(notes, |notes| - 1);
    }
  }

  lemma {:induction false} BeforeVerifies(notes: seq<Note>, n: nat) returns (i: nat)
    requires Proper(notes) && n < |notes| && notes[n].contact.VerifyCall?
    ensures i < n && Acknowledges(notes[i].contact)
    decreases n
  {
    i := n - 1;
    if notes[n - 1].contact.VerifyCall? {
      i := BeforeVerifies(notes, n - 1);
    }
  }

  // ----- one call -----

  /** An answer is never ahead of the store: a returned result is the stored status, a connector error
    * leaves the step in flight, failed or in review, and an unknown step is the only one not found. */
  lemma ReplyTellsStored(w: World, b: Behaviour)
    ensures var (w1, reply) := Step(w, b);
            && (reply == StepNotFound <==> b.load == Loaded && w.stored.None?)
            && (reply.Returned? || reply.ConnectorError? ==> w1.stored.Some?)
            && (reply.Returned? ==>
                  match reply.result
                  case ResultSucceeded => w1.stored.value.status == Succeeded
                  case ResultFailed => w1.stored.value.status in {Failed, Blocked}
                  case ResultNeedsReview => w1.stored.value.status == NeedsReview)
            && (reply.ConnectorError? ==> w1.stored.value.status in {InFlight, Failed, NeedsReview})
            && (reply == ConnectorError(true) ==> w1.stored.value.status != Failed)
  {
    if b.load == Loaded && w.stored.Some? {
      var s := w.stored.value;
      match s.status
      case Pending =>
      case Prepared =>
      case InFlight =>
      case Verifying =>
      case _ =>
    }
  }

  /** A step in flight whose reconcile does not return Ok stays in flight, and the caller is told why. */
  lemma UnresolvedStaysInFlight(w: World, b: Behaviour)
    requires w.stored.Some? && w.stored.value.status == InFlight && b.load == Loaded && b.reconcile != CallOk
    ensures var (w1, reply) := Step(w, b);
            && w1.stored == w.stored
            && reply == (if b.reconcile.CallFailed? then ConnectorError(b.reconcile.uncertain) else Crashed)
            && w1.notes == w.notes + if b.reconcile == CrashUnsent then []
                                     else [Note(ReconcileCall(b.reconcile), Some(InFlight))]
  {
  }

  /** What a verify makes of a step, if it is answered and saved. */
  predicate VerdictOf(answer: VerifyOutcome, status: StepStatus, reply: Reply) {
    match answer
    case Verified(true) => status == Succeeded && reply == Returned(ResultSucceeded)
    case Verified(false) => status == NeedsReview && reply == Returned(ResultNeedsReview)
    case VerifyFailed(true) => status == NeedsReview && reply == ConnectorError(true)
    case VerifyFailed(false) => status == Failed && reply == ConnectorError(false)
    case VerifyCrash => status == Verifying && reply == Crashed
  }

  /** What the reconcile of a step in flight makes of it, and the verify after it. */
  predicate ReconciledTo(b: Behaviour, status: StepStatus, reply: Reply) {
    match b.reconcile
    case CallOk => VerdictOf(b.verify, status, reply)
    case CallFailed(uncertain) => status == InFlight && reply == ConnectorError(uncertain)
    case _ => status == InFlight && reply == Crashed
  }

  /** What a call makes of a step when every save is written. */
  predicate SavedTo(s: ExecutionStep, b: Behaviour, status: StepStatus, reply: Reply) {
    match s.status
    case Verifying => VerdictOf(b.verify, status, reply)
    case InFlight => ReconciledTo(b, status, reply)
    case Succeeded => status == s.status && reply == Returned(ResultSucceeded)
    case NeedsReview => status == s.status && reply == Returned(ResultNeedsReview)
    case Failed => status == s.status && reply == Returned(ResultFailed)
    case Blocked => status == s.status && reply == Returned(ResultFailed)
    case _ =>
      match b.execute
      case CallOk => VerdictOf(b.verify, status, reply)
      case CallFailed(true) => ReconciledTo(b, status, reply)
      case CallFailed(false) => status == Failed && reply == ConnectorError(false)
      case _ => status == InFlight && reply == Crashed
  }

  /** With every save written, the connector's answers alone decide where a call ends: an uncertain execute is
    * reconciled, a certain failure is final, and nothing is verified before an Ok. */
  lemma SavedCallMoves(w: World, b: Behaviour)
    requires w.stored.Some? && b.load == Loaded
    requires b.savePrepared == b.saveInFlight == b.saveFailed == b.saveVerifying == b.saveFinal == Written
    ensures var (w1, reply) := Step(w, b);
            w1.stored.Some? && SavedTo(w.stored.value, b, w1.stored.value.status, reply)
  {
  }

  /** A save that is not written ends the call: with a store error or a crash, and with the new status stored
    * or the old one. */
  predicate Stops(o: SaveOutcome, before: StepStatus, next: StepStatus, status: StepStatus, reply: Reply) {
    match o
    case Written => false
    case FailedBefore => status == before && reply == StoreError
    case FailedAfter => status == next && reply == StoreError
    case CrashBefore => status == before && reply == Crashed
    case CrashAfter => status == next && reply == Crashed
  }

  /** Each save before its effect: the step is prepared and in flight in the store before it is executed, and
    * verifying before it is verified; when one of these saves is not written, the call ends there. */
  lemma SavesComeFirst(w: World, b: Behaviour)
    requires w.stored.Some? && b.load == Loaded
    ensures var (w1, reply) := Step(w, b);
            var status := w.stored.value.status;
            && w1.stored.Some?
            && (status == Pending && b.savePrepared != Written ==>
                  w1.notes == w.notes && Stops(b.savePrepared, Pending, Prepared, w1.stored.value.status, reply))
            && (b.saveInFlight != Written && (status == Prepared || (status == Pending && b.savePrepared == Written)) ==>
                  w1.notes == w.notes && Stops(b.saveInFlight, Prepared, InFlight, w1.stored.value.status, reply))
            && (status == InFlight && b.reconcile == CallOk && b.saveVerifying != Written ==>
                  && w1.notes == w.notes + [Note(ReconcileCall(CallOk), Some(InFlight))]
                  && Stops(b.saveVerifying, InFlight, Verifying, w1.stored.value.status, reply))
            && (status == Prepared && b.saveInFlight == Written && b.execute == CallOk && b.saveVerifying != Written ==>
                  && w1.notes == w.notes + [Note(ExecuteCall(CallOk), Some(InFlight))]
                  && Stops(b.saveVerifying, InFlight, Verifying, w1.stored.value.status, reply))
            && (status == Prepared && b.saveInFlight == Written && b.execute == CallFailed(false) && b.saveFailed != Written ==>
                  && w1.notes == w.notes + [Note(ExecuteCall(CallFailed(false)), Some(InFlight))]
                  && Stops(b.saveFailed, InFlight, Failed, w1.stored.value.status, reply))
  {
  }

  /** A verdict that is not saved leaves the step verifying, or with the verdict stored and the caller not told. */
  lemma LostVerdict(w: World, b: Behaviour)
    requires w.stored.Some? && w.stored.value.status == Verifying && b.load == Loaded
    requires b.saveFinal != Written && b.verify != VerifyCrash
    ensures var (w1, reply) := Step(w, b);
            && w1.notes == w.notes + [Note(VerifyCall(b.verify), Some(Verifying))]
            && w1.stored.Some?
            && exists verdict, told :: VerdictOf(b.verify, verdict, told)
                                       && Stops(b.saveFinal, Verifying, verdict, w1.stored.value.status, reply)
  {
    match b.verify
    case Verified(true) => assert VerdictOf(b.verify, Succeeded, Returned(ResultSucceeded));
    case Verified(false) => assert VerdictOf(b.verify, NeedsReview, Returned(ResultNeedsReview));
    case VerifyFailed(true) => assert VerdictOf(b.verify, NeedsReview, ConnectorError(true));
    case VerifyFailed(false) => assert VerdictOf(b.verify, Failed, ConnectorError(false));
  }

  /** A step that cannot be loaded is left alone. */
  lemma LoadFails(w: World, b: Behaviour)
    requires b.load != Loaded || w.stored.None?
    ensures Step(w, b).0 == w
    ensures Step(w, b).1 == if b.load == LoadFailed then StoreError else if b.load == LoadCrash then Crashed else StepNotFound
  {
  }
}
