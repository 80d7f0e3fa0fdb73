/** Blocking everything downstream of a failure: an in-place fixpoint, and what it blocks. */
module BlockDownstream {
  import opened Wrappers
  import opened ExecutionSteps

  const REASON_PREFIX := "dependency_failed:"

  // ----- one pass, and the fixpoint -----

  function FailedIds(steps: seq<ExecutionStep>): set<string> {
    set s | s in steps && Bad(s.status) :: s.id
  }

  /** The first dependency that failed. */
  function FirstFailed(dependencies: seq<string>, failed: set<string>): (r: Option<string>)
    ensures r.Some? ==> r.value in dependencies && r.value in failed
    ensures r.None? ==> forall d | d in dependencies :: d !in failed
  {
    if dependencies == [] then None
    else if dependencies[0] in failed then Some(dependencies[0])
    else FirstFailed(dependencies[1..], failed)
  }

  function BlockOne(s: ExecutionStep, failed: set<string>): ExecutionStep {
    var cause := FirstFailed(s.dependencies, failed);
    if s.status == Pending && cause.Some?
    then s.(status := Blocked, blockReason := Some(REASON_PREFIX + cause.value))
    else s
  }

  function Pass(steps: seq<ExecutionStep>): (r: seq<ExecutionStep>)
    ensures |r| == |steps|
  {
    seq(|steps|, i requires 0 <= i < |steps| => BlockOne(steps[i], FailedIds(steps)))
  }

  function PendingCount(steps: seq<ExecutionStep>): nat {
    if steps == [] then 0
    else PendingCount(steps[..|steps| - 1]) + if steps[|steps| - 1].status == Pending then 1 else 0
  }

  lemma {:induction false} FewerPending(steps: seq<ExecutionStep>, failed: set<string>, next: seq<ExecutionStep>)
    requires |next| == |steps| && forall i | 0 <= i < |steps| :: next[i] == BlockOne(steps[i], failed)
    ensures PendingCount(next) <= PendingCount(steps)
    ensures next != steps ==> PendingCount(next) < PendingCount(steps)
  {
    if steps != [] {
      var n := |steps| - 1;
      FewerPending(steps[..n], failed, next[..n]);
      if next != steps && next[..n] == steps[..n] {
        assert next == next[..n] + [next[n]] && steps == steps[..n] + [steps[n]];
      }
    }
  }

  function Fixpoint(steps: seq<ExecutionStep>): (r: seq<ExecutionStep>)
    ensures |r| == |steps|
    decreases PendingCount(steps)
  {
    var next := Pass(steps);
    if next == steps then steps
    else
      FewerPending(steps, FailedIds(steps), next);
      Fixpoint(next)
  }

  method CollectFailed(steps: array<ExecutionStep>) returns (failed: set<string>)
    ensures failed == FailedIds(steps[..])
  {
    failed := {};
    for i := 0 to steps.Length
      invariant failed == FailedIds(steps[..i])
    {
      if Bad(steps[i].status) {
        failed := failed + {steps[i].id};
      }
      assert steps[..i + 1] == steps[..i] + [steps[i]];
    }
    assert steps[..steps.Length] == steps[..];
  }

  method BlockPass(steps: array<ExecutionStep>, failed: set<string>) returns (changed: bool)
    modifies steps
    ensures forall i | 0 <= i < steps.Length :: steps[i] == BlockOne(old(steps[i]), failed)
    ensures changed <==> steps[..] != old(steps[..])
  {
    changed := false;
    for i := 0 to steps.Length
      invariant forall k | 0 <= k < i :: steps[k] == BlockOne(old(steps[k]), failed)
      invariant forall k | i <= k < steps.Length :: steps[k] == old(steps[k])
      invariant changed <==> exists k :: 0 <= k < i && steps[k] != old(steps[k])
    {
      if steps[i].status == Pending {
        var cause := FirstFailed(steps[i].dependencies, failed);
        if cause.Some? {
          steps[i] := steps[i].(status := Blocked, blockReason := Some(REASON_PREFIX + cause.value));
          changed := true;
        }
      }
    }
    if changed {
      ghost var k :| 0 <= k < steps.Length && steps[k] != old(steps[k]);
      assert steps[..][k] != old(steps[..])[k];
    }
  }

  method BlockAll(steps: array<ExecutionStep>)
    modifies steps
    ensures steps[..] == Fixpoint(old(steps[..]))
  {
    var changed := true;
    while changed
      invariant !changed ==> Pass(steps[..]) == steps[..]
      invariant Fixpoint(steps[..]) == Fixpoint(old(steps[..]))
      decreases changed, PendingCount(steps[..])
    {
      ghost var before := steps[..];
      var failed := CollectFailed(steps);
      changed := BlockPass(steps, failed);
      assert steps[..] == Pass(before);
      FewerPending(before, failed, steps[..]);
    }
  }

  // ----- what the fixpoint blocks -----

  /** Step i depends on step j. */
  predicate Edge(steps: seq<ExecutionStep>, i: nat, j: nat) {
    i < |steps| && j < |steps| && steps[j].id in steps[i].dependencies
  }

  /** A path of pending steps that ends at a step that is already bad. */
  ghost predicate CausePath(steps: seq<ExecutionStep>, path: seq<nat>) {
    && |path| >= 2
    && (forall k | 0 <= k < |path| :: path[k] < |steps|)
    && (forall k | 0 <= k < |path| - 1 :: steps[path[k]].status == Pending)
    && (forall k | 0 <= k < |path| - 1 :: Edge(steps, path[k], path[k + 1]))
    && steps[path[|path| - 1]].status in {Failed, NeedsReview, Blocked}
  }

  /** Each blocked step's reason names the next step of the path. */
  ghost predicate ReasonsFollow(steps: seq<ExecutionStep>, path: seq<nat>) {
    && (forall k | 0 <= k < |path| :: path[k] < |steps|)
    && forall k | 0 <= k < |path| - 1 :: steps[path[k]].blockReason == Some("dependency_failed:" + steps[path[k + 1]].id)
  }

  lemma FailedIdsOf(steps: seq<ExecutionStep>, id: string) returns (j: nat)
    requires id in FailedIds(steps)
    ensures j < |steps| && steps[j].id == id && Bad(steps[j].status)
  {
    j :| j < |steps| && steps[j].id == id && Bad(steps[j].status);
  }

  /** A step changes only from pending to blocked, and nothing else of it but the reason. */
  lemma {:induction false} OnlyPendingChange(steps: seq<ExecutionStep>, i: nat)
    requires i < |steps|
    ensures var t := Fixpoint(steps)[i];
            t == steps[i] ||
            (steps[i].status == Pending && t == steps[i].(status := Blocked, blockReason := t.blockReason))
    decreases PendingCount(steps)
  {
    var next := Pass(steps);
    if next != steps {
      FewerPending(steps, FailedIds(steps), next);
      OnlyPendingChange(next, i);
    }
  }

  lemma {:induction false} FixpointIsStable(steps: seq<ExecutionStep>)
    ensures Pass(Fixpoint(steps)) == Fixpoint(steps)
    decreases PendingCount(steps)
  {
    var next := Pass(steps);
    if next != steps {
      FewerPending(steps, FailedIds(steps), next);
      FixpointIsStable(next);
    }
  }

  lemma Idempotent(steps: seq<ExecutionStep>)
    ensures Fixpoint(Fixpoint(steps)) == Fixpoint(steps)
  {
    FixpointIsStable(steps);
  }

  /** No pending step depends on a bad one any more. */
  lemma NoPendingBelowBad(steps: seq<ExecutionStep>, i: nat, j: nat)
    requires var t := Fixpoint(steps); Edge(t, i, j) && t[i].status == Pending
    ensures !Bad(Fixpoint(steps)[j].status)
  {
    FixpointIsStable(steps);
    var t := Fixpoint(steps);
    assert Pass(t)[i] == t[i];
    var dependency, failed := t[j], FailedIds(t);
    assert dependency in t;
    assert Bad(dependency.status) ==> dependency.id in failed;
  }

  lemma PassCause(steps: seq<ExecutionStep>, i: nat) returns (j: nat)
    requires i < |steps| && Pass(steps)[i] != steps[i]
    ensures Edge(steps, i, j) && Bad(steps[j].status) && steps[i].status == Pending
    ensures Fixpoint(steps)[i].blockReason == Some(REASON_PREFIX + Fixpoint(steps)[j].id)
  {
    j := FailedIdsOf(steps, FirstFailed(steps[i].dependencies, FailedIds(steps)).value);
    FewerPending(steps, FailedIds(steps), Pass(steps));
    OnlyPendingChange(Pass(steps), i);
    OnlyPendingChange(steps, j);
  }

  /** A path found after one pass is a path before it, up to its last step. */
  lemma PathBeforePass(steps: seq<ExecutionStep>, path: seq<nat>)
    requires CausePath(Pass(steps), path)
    ensures forall k | 0 <= k < |path| :: path[k] < |steps|
    ensures forall k | 0 <= k < |path| - 1 :: steps[path[k]].status == Pending && Edge(steps, path[k], path[k + 1])
    ensures Pass(steps)[path[|path| - 1]] == steps[path[|path| - 1]] ==> CausePath(steps, path)
  {
    var next := Pass(steps);
    forall k | 0 <= k < |path| - 1 ensures steps[path[k]].status == Pending && Edge(steps, path[k], path[k + 1]) {
      assert Edge(next, path[k], path[k + 1]);
    }
  }

  lemma PathExtended(steps: seq<ExecutionStep>, path: seq<nat>, j: nat)
    requires |path| >= 2
    requires forall k | 0 <= k < |path| :: path[k] < |steps|
    requires forall k | 0 <= k < |path| - 1 :: steps[path[k]].status == Pending && Edge(steps, path[k], path[k + 1])
    requires var last := path[|path| - 1]; steps[last].status == Pending && Edge(steps, last, j)
    requires Bad(steps[j].status)
    ensures CausePath(steps, path + [j])
  {
  }

  lemma ReasonsExtended(t: seq<ExecutionStep>, path: seq<nat>, j: nat)
    requires path != [] && ReasonsFollow(t, path) && j < |t|
    requires t[path[|path| - 1]].blockReason == Some(REASON_PREFIX + t[j].id)
    ensures ReasonsFollow(t, path + [j])
  {
  }

  /** A path found after one pass, continued by the cause that pass found if it blocked the last step. */
  lemma PathContinued(steps: seq<ExecutionStep>, path: seq<nat>) returns (longer: seq<nat>)
    requires CausePath(Pass(steps), path) && ReasonsFollow(Fixpoint(steps), path)
    ensures CausePath(steps, longer) && longer[0] == path[0] && ReasonsFollow(Fixpoint(steps), longer)
  {
    PathBeforePass(steps, path);
    var last := path[|path| - 1];
    longer := path;
    if Pass(steps)[last] != steps[last] {
      var j := PassCause(steps, last);
      PathExtended(steps, path, j);
      ReasonsExtended(Fixpoint(steps), path, j);
      longer := path + [j];
    }
  }

  /** A blocked step has a path of pending steps down to an initial cause, and the block reasons name
    * that very path. */
  lemma {:induction false} BlockedHasCause(steps: seq<ExecutionStep>, i: nat) returns (path: seq<nat>)
    requires i < |steps|
    requires Fixpoint(steps)[i] != steps[i]
    ensures CausePath(steps, path) && path[0] == i
    ensures ReasonsFollow(Fixpoint(steps), path)
    decreases PendingCount(steps)
  {
    var next := Pass(steps);
    if next[i] != steps[i] {
      var j := PassCause(steps, i);
      path := [i, j];
    } else {
      StillMoves(steps, i);
      FixpointStep(steps, next);
      var later := BlockedHasCause(next, i);
      path := PathContinued(steps, later);
    }
  }

  lemma {:induction false} CauseBlocks(steps: seq<ExecutionStep>, path: seq<nat>)
    requires CausePath(steps, path)
    ensures Fixpoint(steps)[path[0]].status == Blocked
    decreases |path|
  {
    var t := Fixpoint(steps);
    OnlyPendingChange(steps, path[0]);
    OnlyPendingChange(steps, path[1]);
    if |path| > 2 {
      CauseBlocks(steps, path[1..]);
    }
    assert Edge(steps, path[0], path[1]);
    if t[path[0]].status == Pending {
      NoPendingBelowBad(steps, path[0], path[1]);
    }
  }

  /** Exactly the pending steps that reach a failed, reviewed or blocked step through pending steps
    * are blocked; every other step is untouched. */
  lemma BlocksExactly(steps: seq<ExecutionStep>, i: nat)
    requires i < |steps|
    ensures Fixpoint(steps)[i] != steps[i] <==> exists path :: CausePath(steps, path) && path[0] == i
    ensures Fixpoint(steps)[i] != steps[i] ==> steps[i].status == Pending && Fixpoint(steps)[i].status == Blocked
  {
    OnlyPendingChange(steps, i);
    if Fixpoint(steps)[i] != steps[i] {
      var path := BlockedHasCause(steps, i);
    }
    forall path | CausePath(steps, path) && path[0] == i ensures Fixpoint(steps)[i] != steps[i] {
      CauseBlocks(steps, path);
    }
  }

  ghost predicate UniqueIds(steps: seq<ExecutionStep>) {
    forall i, j | 0 <= i < j < |steps| :: steps[i].id != steps[j].id
  }

  /** With unique ids there is one way to follow the reasons: every other path along them is a part
    * of the one that ends at the initial cause. */
  lemma {:induction false} ReasonsEndAtCause(steps: seq<ExecutionStep>, path: seq<nat>, other: seq<nat>)
    requires UniqueIds(steps)
    requires CausePath(steps, path) && ReasonsFollow(Fixpoint(steps), path)
    requires other != [] && other[0] == path[0] && ReasonsFollow(Fixpoint(steps), other)
    requires forall k | 0 <= k < |other| - 1 :: steps[other[k]].status == Pending
    ensures other <= path
    decreases |other|
  {
    if |other| > 1 {
      var t := Fixpoint(steps);
      var front := other[..|other| - 1];
      ReasonsEndAtCause(steps, path, front);
      var k := |front| - 1;
      assert other[k] == path[k];
      assert k < |path| - 1;
      assert t[other[k]].blockReason == Some(REASON_PREFIX + t[other[k + 1]].id);
      assert t[path[k]].blockReason == Some(REASON_PREFIX + t[path[k + 1]].id);
      SamePrefix(REASON_PREFIX, t[other[k + 1]].id, t[path[k + 1]].id);
      OnlyPendingChange(steps, other[k + 1]);
      OnlyPendingChange(steps, path[k + 1]);
      assert other[k + 1] == path[k + 1];
    }
  }

  lemma SamePrefix(prefix: string, a: string, b: string)
    requires prefix + a == prefix + b
    ensures a == b
  {
    assert (prefix + a)[|prefix|..] == a;
    assert (prefix + b)[|prefix|..] == b;
  }

  // ----- which dependency is named -----

  function Passes(steps: seq<ExecutionStep>, n: nat): (r: seq<ExecutionStep>)
    ensures |r| == |steps|
    decreases n
  {
    if n == 0 then steps else Passes(Pass(steps), n - 1)
  }

  ghost predicate FailedIn(steps: seq<ExecutionStep>, id: string) {
    exists j :: 0 <= j < |steps| && steps[j].id == id && steps[j].status in {Failed, NeedsReview, Blocked}
  }

  lemma {:induction false} FirstFailedIs(dependencies: seq<string>, failed: set<string>) returns (k: nat)
    requires FirstFailed(dependencies, failed).Some?
    ensures k < |dependencies| && FirstFailed(dependencies, failed) == Some(dependencies[k]) && dependencies[k] in failed
    ensures forall l | 0 <= l < k :: dependencies[l] !in failed
  {
    k := 0;
    if dependencies[0] !in failed {
      var rest := FirstFailedIs(dependencies[1..], failed);
      k := rest + 1;
    }
  }

  lemma FailedIdsExactly(steps: seq<ExecutionStep>, id: string)
    ensures id in FailedIds(steps) <==> FailedIn(steps, id)
  {
    if id in FailedIds(steps) {
      var j := FailedIdsOf(steps, id);
    }
    forall j | 0 <= j < |steps| && steps[j].id == id && steps[j].status in {Failed, NeedsReview, Blocked}
      ensures id in FailedIds(steps)
    {
      assert steps[j] in steps;
    }
  }

  /** After n passes a step is as it was, and its k-th dependency is the first that has failed; that one is
    * the reason in the end. */
  ghost predicate Explained(steps: seq<ExecutionStep>, i: nat, end: ExecutionStep, n: nat, k: nat)
    requires i < |steps|
  {
    var sofar, dependencies := Passes(steps, n), steps[i].dependencies;
    && sofar[i] == steps[i]
    && k < |dependencies| && FailedIn(sofar, dependencies[k])
    && (forall l | 0 <= l < k :: !FailedIn(sofar, dependencies[l]))
    && end.blockReason == Some("dependency_failed:" + dependencies[k])
  }

  /** The step is blocked in this very pass. */
  lemma BlockedNow(steps: seq<ExecutionStep>, i: nat) returns (k: nat)
    requires i < |steps| && Pass(steps)[i] != steps[i]
    ensures Explained(steps, i, Fixpoint(steps)[i], 0, k)
  {
    var next, failed := Pass(steps), FailedIds(steps);
    FewerPending(steps, failed, next);
    k := FirstFailedIs(steps[i].dependencies, failed);
    OnlyPendingChange(next, i);
    forall l | 0 <= l <= k
      ensures steps[i].dependencies[l] in failed <==> FailedIn(steps, steps[i].dependencies[l])
    {
      FailedIdsExactly(steps, steps[i].dependencies[l]);
    }
  }

  lemma ExplainedLater(steps: seq<ExecutionStep>, next: seq<ExecutionStep>, i: nat, end: ExecutionStep, n: nat, k: nat)
    requires next == Pass(steps) && i < |steps| && next[i] == steps[i] && Explained(next, i, end, n, k)
    ensures Explained(steps, i, end, n + 1, k)
  {
    assert Passes(steps, n + 1) == Passes(next, n);
  }

  /** A blocked step was left alone for some passes, and then the reason names the first of its
    * dependencies, in the order of the plan, that had failed by then. */
  lemma {:induction false} BlockedInPass(steps: seq<ExecutionStep>, i: nat) returns (n: nat, k: nat)
    requires i < |steps| && Fixpoint(steps)[i] != steps[i]
    ensures Explained(steps, i, Fixpoint(steps)[i], n, k)
    decreases PendingCount(steps)
  {
    var next := Pass(steps);
    if next[i] != steps[i] {
      k := BlockedNow(steps, i);
      n := 0;
    } else {
      StillMoves(steps, i);
      FixpointStep(steps, next);
      var later;
      later, k := BlockedInPass(next, i);
      ExplainedLater(steps, next, i, Fixpoint(steps)[i], later, k);
      n := later + 1;
    }
  }

  lemma StillMoves(steps: seq<ExecutionStep>, i: nat)
    requires i < |steps| && Fixpoint(steps)[i] != steps[i]
    ensures Pass(steps) != steps
  {
  }

  lemma FixpointStep(steps: seq<ExecutionStep>, next: seq<ExecutionStep>)
    requires next == Pass(steps) && next != steps
    ensures Fixpoint(steps) == Fixpoint(next) && PendingCount(next) < PendingCount(steps)
  {
    FewerPending(steps, FailedIds(steps), next);
  }
}
