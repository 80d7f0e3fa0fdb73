/** Validating the step graph by depth-first search, and the runnable set of the scheduler. */
module ExecutionDag {
  import opened Wrappers
  import opened ExecutionSteps
  import opened BlockDownstream

  type Graph = map<string, ExecutionStep>

  datatype DagError = DagInvalid | DagCycle

  // ----- walks -----

  /** Every dependency names a step. */
  ghost predicate Closed(g: Graph) {
    forall id | id in g :: forall d | d in g[id].dependencies :: d in g
  }

  ghost predicate Walk(g: Graph, p: seq<string>) {
    && p != []
    && (forall k | 0 <= k < |p| :: p[k] in g)
    && (forall k | 0 <= k < |p| - 1 :: p[k + 1] in g[p[k]].dependencies)
  }

  /** A walk from id whose last step was met before, on the walk or among the visited ids. */
  ghost predicate Closes(g: Graph, p: seq<string>, id: string, visited: set<string>) {
    && Walk(g, p) && p[0] == id
    && (p[|p| - 1] in visited || p[|p| - 1] in p[..|p| - 1])
  }

  ghost predicate MeetsAgain(g: Graph, id: string, visited: set<string>) {
    exists p :: Closes(g, p, id, visited)
  }

  lemma MeetsAgainUnfold(g: Graph, id: string, visited: set<string>)
    requires Closed(g) && id in g && id !in visited
    ensures MeetsAgain(g, id, visited) <==>
            exists d :: d in g[id].dependencies && MeetsAgain(g, d, visited + {id})
  {
    if p :| Closes(g, p, id, visited) {
      var q := p[1..];
      assert p == [id] + q;
      assert p[..|p| - 1] == [id] + q[..|q| - 1];
      assert Closes(g, q, p[1], visited + {id});
    }
    if d, q :| d in g[id].dependencies && Closes(g, q, d, visited + {id}) {
      var p := [id] + q;
      assert p[..|p| - 1] == [id] + q[..|q| - 1];
      assert Walk(g, p) by {
        assert forall k | 1 <= k < |p| :: p[k] == q[k - 1];
      }
      assert Closes(g, p, id, visited);
    }
  }

  lemma MeetsAgainAtOnce(g: Graph, id: string, visited: set<string>)
    requires id in g && id in visited
    ensures MeetsAgain(g, id, visited)
  {
    assert Closes(g, [id], id, visited);
  }

  ghost predicate Cycle(g: Graph, p: seq<string>) {
    Walk(g, p) && |p| >= 2 && p[0] == p[|p| - 1]
  }

  ghost predicate Acyclic(g: Graph) {
    forall p :: !Cycle(g, p)
  }

  /** A depth-first search from every step finds a cycle exactly when there is one. */
  lemma AcyclicBySearch(g: Graph)
    ensures Acyclic(g) <==> forall id | id in g :: !MeetsAgain(g, id, {})
  {
    forall p | Cycle(g, p) ensures MeetsAgain(g, p[0], {}) {
      assert p[..|p| - 1][0] == p[0];
      assert Closes(g, p, p[0], {});
    }
    forall id, p | Closes(g, p, id, {}) ensures exists q :: Cycle(g, q) {
      var n := |p| - 1;
      var k :| 0 <= k < n && p[..n][k] == p[n];
      assert Cycle(g, p[k..]);
    }
  }

  // ----- the search -----

  /** The in-out set of the search. */
  class IdSet {
    var ids: set<string>

    constructor ()
      ensures ids == {}
    {
      ids := {};
    }

    /** True when the id was new. */
    method Insert(id: string) returns (added: bool)
      modifies this
      ensures added == (id !in old(ids)) && ids == old(ids) + {id}
    {
      added := id !in ids;
      ids := ids + {id};
    }

    method Remove(id: string)
      modifies this
      ensures ids == old(ids) - {id}
    {
      ids := ids - {id};
    }
  }

  /** Reports whether the search meets a visited step again, and leaves the visited set as it was. */
  method HasCycle(id: string, g: Graph, visiting: IdSet) returns (cycle: bool)
    requires Closed(g) && id in g
    modifies visiting
    ensures visiting.ids == old(visiting.ids)
    ensures cycle <==> MeetsAgain(g, id, old(visiting.ids))
    decreases |g.Keys - visiting.ids|
  {
    ghost var before := visiting.ids;
    var added := visiting.Insert(id);
    if !added {
      MeetsAgainAtOnce(g, id, before);
      return true;
    }
    assert g.Keys - visiting.ids < g.Keys - before;
    SubsetSmaller(g.Keys - visiting.ids, g.Keys - before);
    MeetsAgainUnfold(g, id, before);
    var dependencies := g[id].dependencies;
    cycle := false;
    var i := 0;
    while i < |dependencies| && !cycle
      invariant 0 <= i <= |dependencies|
      invariant visiting.ids == before + {id}
      invariant !cycle ==> forall k | 0 <= k < i :: !MeetsAgain(g, dependencies[k], before + {id})
      invariant cycle ==> exists d :: d in dependencies && MeetsAgain(g, d, before + {id})
    {
      cycle := HasCycle(dependencies[i], g, visiting);
      i := i + 1;
    }
    visiting.Remove(id);
  }

  lemma SubsetSmaller<T>(a: set<T>, b: set<T>)
    requires a < b
    ensures |a| < |b|
  {
    assert b == a + (b - a);
    assert |b| == |a| + |b - a|;
    assert b - a != {};
  }

  // ----- validation -----

  ghost predicate Names(steps: seq<ExecutionStep>, id: string) {
    exists i :: 0 <= i < |steps| && steps[i].id == id
  }

  /** Unique ids, non-empty fields, and dependencies that name another step. */
  ghost predicate WellFormed(steps: seq<ExecutionStep>) {
    && UniqueIds(steps)
    && forall i | 0 <= i < |steps| ::
         && steps[i].id != "" && steps[i].operationKey != ""
         && forall d | d in steps[i].dependencies :: d != steps[i].id && Names(steps, d)
  }

  function ById(steps: seq<ExecutionStep>): Graph {
    if steps == [] then map[] else ById(steps[..|steps| - 1])[steps[|steps| - 1].id := steps[|steps| - 1]]
  }

  lemma {:induction false} ByIdDomain(steps: seq<ExecutionStep>, id: string)
    ensures id in ById(steps) <==> Names(steps, id)
    ensures id in ById(steps) ==> ById(steps)[id] in steps && ById(steps)[id].id == id
  {
    if steps != [] {
      var n := |steps| - 1;
      ByIdDomain(steps[..n], id);
      if Names(steps[..n], id) {
        var i :| 0 <= i < n && steps[..n][i].id == id;
        assert steps[i].id == id;
      }
      if Names(steps, id) && steps[n].id != id {
        var i :| 0 <= i < n && steps[i].id == id;
        assert steps[..n][i].id == id;
      }
      assert steps[n].id == id ==> Names(steps, id);
    }
  }

  lemma {:induction false} ByIdSize(steps: seq<ExecutionStep>)
    ensures |ById(steps)| <= |steps|
    ensures |ById(steps)| == |steps| <==> UniqueIds(steps)
  {
    if steps != [] {
      var n := |steps| - 1;
      var id := steps[n].id;
      var before := ById(steps[..n]);
      ByIdSize(steps[..n]);
      ByIdDomain(steps[..n], id);
      assert ById(steps).Keys == before.Keys + {id};
      assert |before| == |before.Keys| && |ById(steps)| == |ById(steps).Keys|;
      LastIsNew(steps);
    }
  }

  lemma LastIsNew(steps: seq<ExecutionStep>)
    requires steps != []
    ensures var n := |steps| - 1;
            UniqueIds(steps) <==> UniqueIds(steps[..n]) && !Names(steps[..n], steps[n].id)
  {
    var n := |steps| - 1;
    if UniqueIds(steps[..n]) && !Names(steps[..n], steps[n].id) {
      forall i, j | 0 <= i < j < |steps| ensures steps[i].id != steps[j].id {
        assert steps[..n][i].id == steps[i].id;
      }
    }
    if Names(steps[..n], steps[n].id) {
      var i :| 0 <= i < n && steps[..n][i].id == steps[n].id;
      assert steps[i].id == steps[n].id;
    }
  }

  lemma ByIdAt(steps: seq<ExecutionStep>, i: nat)
    requires UniqueIds(steps) && i < |steps|
    ensures steps[i].id in ById(steps) && ById(steps)[steps[i].id] == steps[i]
  {
    ByIdDomain(steps, steps[i].id);
    var j :| 0 <= j < |steps| && steps[j] == ById(steps)[steps[i].id];
  }

  lemma ByIdIndex(steps: seq<ExecutionStep>, id: string) returns (i: nat)
    requires id in ById(steps)
    ensures i < |steps| && steps[i] == ById(steps)[id] && steps[i].id == id
  {
    ByIdDomain(steps, id);
    i :| i < |steps| && steps[i] == ById(steps)[id];
  }

  predicate EntryOk(s: ExecutionStep, g: Graph) {
    && s.id != "" && s.operationKey != ""
    && forall d | d in s.dependencies :: d != s.id && d in g
  }

  method IndexById(steps: seq<ExecutionStep>) returns (byId: Graph)
    ensures byId == ById(steps)
  {
    byId := map[];
    for i := 0 to |steps|
      invariant byId == ById(steps[..i])
    {
      assert steps[..i + 1][..i] == steps[..i];
      byId := byId[steps[i].id := steps[i]];
    }
    assert steps[..|steps|] == steps;
  }

  method SearchAll(steps: seq<ExecutionStep>, byId: Graph) returns (cycle: bool)
    requires byId == ById(steps) && UniqueIds(steps) && Closed(byId)
    ensures cycle <==> !Acyclic(byId)
  {
    AcyclicBySearch(byId);
    for i := 0 to |steps|
      invariant forall k | 0 <= k < i :: !MeetsAgain(byId, steps[k].id, {})
    {
      ByIdAt(steps, i);
      var visiting := new IdSet();
      cycle := HasCycle(steps[i].id, byId, visiting);
      if cycle {
        return true;
      }
    }
    forall id | id in byId ensures !MeetsAgain(byId, id, {}) {
      var i := ByIdIndex(steps, id);
    }
    return false;
  }

  /** Accepts exactly the well-formed acyclic graphs, and says which of the two fails. */
  method Validate(steps: seq<ExecutionStep>) returns (r: Result<(), DagError>)
    ensures r == Err(DagInvalid) <==> !WellFormed(steps)
    ensures r == Err(DagCycle) <==> WellFormed(steps) && !Acyclic(ById(steps))
    ensures r.Ok? <==> WellFormed(steps) && Acyclic(ById(steps))
  {
    var byId := IndexById(steps);
    ByIdSize(steps);
    if |byId| != |steps| {
      return Err(DagInvalid);
    }
    EntriesOk(steps);
    for i := 0 to |steps|
      invariant forall k | 0 <= k < i :: EntryOk(steps[k], byId)
    {
      if !EntryOk(steps[i], byId) {
        return Err(DagInvalid);
      }
    }
    ClosedById(steps);
    var cycle := SearchAll(steps, byId);
    if cycle {
      return Err(DagCycle);
    }
    return Ok(());
  }

  lemma EntriesOk(steps: seq<ExecutionStep>)
    requires UniqueIds(steps)
    ensures WellFormed(steps) <==> forall k | 0 <= k < |steps| :: EntryOk(steps[k], ById(steps))
  {
    forall d ensures d in ById(steps) <==> Names(steps, d) {
      ByIdDomain(steps, d);
    }
  }

  lemma ClosedById(steps: seq<ExecutionStep>)
    requires forall k | 0 <= k < |steps| :: EntryOk(steps[k], ById(steps))
    ensures Closed(ById(steps))
  {
    var g := ById(steps);
    forall id | id in g ensures forall d | d in g[id].dependencies :: d in g {
      var i := ByIdIndex(steps, id);
      assert EntryOk(steps[i], g);
    }
  }

  // ----- the runnable set -----

  function StatusOf(steps: seq<ExecutionStep>, id: string): Option<StepStatus> {
    var g := ById(steps);
    if id in g then Some(g[id].status) else None
  }

  predicate CanRun(steps: seq<ExecutionStep>, s: ExecutionStep) {
    s.status == Pending && forall d | d in s.dependencies :: StatusOf(steps, d) == Some(Succeeded)
  }

  function Filter(all: seq<ExecutionStep>, steps: seq<ExecutionStep>): seq<ExecutionStep> {
    if steps == [] then []
    else if CanRun(all, steps[0]) then [steps[0]] + Filter(all, steps[1..])
    else Filter(all, steps[1..])
  }

  function Runnable(steps: seq<ExecutionStep>): seq<ExecutionStep> {
    Filter(steps, steps)
  }

  lemma {:induction false} FilterMembers(all: seq<ExecutionStep>, steps: seq<ExecutionStep>, s: ExecutionStep)
    ensures s in Filter(all, steps) <==> s in steps && CanRun(all, s)
  {
    if steps != [] {
      FilterMembers(all, steps[1..], s);
      assert s in steps <==> s == steps[0] || s in steps[1..];
    }
  }

  /** Some step of this id succeeded; with unique ids, the step. */
  ghost predicate DoneIn(steps: seq<ExecutionStep>, id: string) {
    exists j :: 0 <= j < |steps| && steps[j].id == id && steps[j].status == Succeeded
  }

  lemma StatusExactly(steps: seq<ExecutionStep>, id: string)
    requires UniqueIds(steps)
    ensures StatusOf(steps, id) == Some(Succeeded) <==> DoneIn(steps, id)
  {
    ByIdDomain(steps, id);
    if id in ById(steps) {
      var i := ByIdIndex(steps, id);
    }
    forall j | 0 <= j < |steps| && steps[j].id == id
      ensures id in ById(steps) && ById(steps)[id] == steps[j]
    {
      ByIdAt(steps, j);
    }
  }

  /** The positions, in order, of the steps a filter keeps. */
  ghost predicate Keeps(all: seq<ExecutionStep>, steps: seq<ExecutionStep>, at: seq<nat>) {
    && |at| == |Filter(all, steps)|
    && (forall k | 0 <= k < |at| :: at[k] < |steps| && Filter(all, steps)[k] == steps[at[k]])
    && (forall k, l | 0 <= k < l < |at| :: at[k] < at[l])
  }

  lemma {:induction false} FilterKeepsOrder(all: seq<ExecutionStep>, steps: seq<ExecutionStep>) returns (at: seq<nat>)
    ensures Keeps(all, steps, at)
  {
    at := [];
    if steps != [] {
      var rest := FilterKeepsOrder(all, steps[1..]);
      var shifted := seq(|rest|, k requires 0 <= k < |rest| => rest[k] + 1);
      at := if CanRun(all, steps[0]) then [0] + shifted else shifted;
    }
  }

  /** The runnable steps are, in the order of the plan, exactly the pending ones all of whose dependencies
    * succeeded. */
  lemma RunnableExactly(steps: seq<ExecutionStep>) returns (at: seq<nat>)
    requires UniqueIds(steps)
    ensures |at| == |Runnable(steps)| && forall k | 0 <= k < |at| :: at[k] < |steps| && Runnable(steps)[k] == steps[at[k]]
    ensures forall k, l | 0 <= k < l < |at| :: at[k] < at[l]
    ensures forall s :: s in Runnable(steps) <==>
                          s in steps && s.status == Pending && forall d | d in s.dependencies :: DoneIn(steps, d)
  {
    at := FilterKeepsOrder(steps, steps);
    forall s
      ensures s in Runnable(steps) <==>
                s in steps && s.status == Pending && forall d | d in s.dependencies :: DoneIn(steps, d)
    {
      FilterMembers(steps, steps, s);
      forall d | d in s.dependencies ensures StatusOf(steps, d) == Some(Succeeded) <==> DoneIn(steps, d) {
        StatusExactly(steps, d);
      }
    }
  }

  // ----- no deadlock -----

  lemma {:induction false} DistinctFits(p: seq<string>, ids: set<string>)
    requires forall i | 0 <= i < |p| :: p[i] in ids
    requires forall i, j | 0 <= i < j < |p| :: p[i] != p[j]
    ensures |p| <= |ids|
  {
    if p != [] {
      var n := |p| - 1;
      DistinctFits(p[..n], ids - {p[n]});
    }
  }

  /** On an acyclic graph no walk is longer than the number of steps. */
  lemma WalksAreShort(g: Graph, p: seq<string>)
    requires Acyclic(g) && Walk(g, p)
    ensures |p| <= |g.Keys|
  {
    forall i, j | 0 <= i < j < |p| ensures p[i] != p[j] {
      if p[i] == p[j] {
        assert Cycle(g, p[i..j + 1]);
      }
    }
    DistinctFits(p, g.Keys);
  }

  ghost predicate WaitsIn(g: Graph, stuck: set<string>, id: string)
    requires id in g
  {
    exists d :: d in g[id].dependencies && d in stuck
  }

  /** Some dependency of every step in `stuck` is in `stuck` again. */
  ghost predicate Stuck(g: Graph, stuck: set<string>) {
    stuck <= g.Keys && forall id | id in stuck :: WaitsIn(g, stuck, id)
  }

  lemma {:induction false} StuckWalk(g: Graph, stuck: set<string>, id: string, n: nat) returns (p: seq<string>)
    requires Stuck(g, stuck) && id in stuck
    ensures Walk(g, p) && |p| == n + 1 && p[0] == id
    decreases n
  {
    if n == 0 {
      p := [id];
    } else {
      assert WaitsIn(g, stuck, id);
      var d :| d in g[id].dependencies && d in stuck;
      var rest := StuckWalk(g, stuck, d, n - 1);
      p := [id] + rest;
    }
  }

  lemma NothingStuck(g: Graph, stuck: set<string>)
    requires Acyclic(g) && Stuck(g, stuck)
    ensures stuck == {}
  {
    if id :| id in stuck {
      var p := StuckWalk(g, stuck, id, |g.Keys|);
      WalksAreShort(g, p);
    }
  }

  /** Blocking changes statuses and reasons only, so it keeps the graph. */
  lemma BlockingKeepsGraph(steps: seq<ExecutionStep>)
    requires WellFormed(steps) && Acyclic(ById(steps))
    ensures WellFormed(Fixpoint(steps)) && Acyclic(ById(Fixpoint(steps)))
  {
    var t := Fixpoint(steps);
    forall i | 0 <= i < |steps|
      ensures t[i].id == steps[i].id && t[i].dependencies == steps[i].dependencies
      ensures t[i].operationKey == steps[i].operationKey
    {
      OnlyPendingChange(steps, i);
    }
    assert WellFormed(t);
    forall p ensures !Cycle(ById(t), p) {
      if Cycle(ById(t), p) {
        SameDependencies(steps, t, p);
        assert Cycle(ById(steps), p);
      }
    }
  }

  lemma SameDependencies(steps: seq<ExecutionStep>, t: seq<ExecutionStep>, p: seq<string>)
    requires UniqueIds(steps) && |t| == |steps|
    requires forall i | 0 <= i < |steps| :: t[i].id == steps[i].id && t[i].dependencies == steps[i].dependencies
    requires Walk(ById(t), p)
    ensures Walk(ById(steps), p)
  {
    var g, f := ById(steps), ById(t);
    forall id | id in f ensures id in g && g[id].dependencies == f[id].dependencies {
      var i := ByIdIndex(t, id);
      ByIdAt(steps, i);
      ByIdAt(t, i);
    }
  }

  function PendingIds(g: Graph): set<string> {
    set id | id in g && g[id].status == Pending
  }

  /** Nothing is in progress and no pending step is left below a failure. */
  ghost predicate Quiet(t: seq<ExecutionStep>) {
    && (forall i | 0 <= i < |t| :: t[i].status !in {Prepared, InFlight, Verifying})
    && (forall i: nat, j: nat | Edge(t, i, j) && t[i].status == Pending :: t[j].status !in {Failed, NeedsReview, Blocked})
  }

  /** A pending step that cannot run waits for another pending step. */
  lemma PendingWaits(t: seq<ExecutionStep>, id: string) returns (d: string)
    requires WellFormed(t) && Quiet(t)
    requires id in ById(t) && ById(t)[id].status == Pending && !CanRun(t, ById(t)[id])
    ensures d in ById(t)[id].dependencies && d in ById(t) && ById(t)[d].status == Pending
  {
    var i := ByIdIndex(t, id);
    d :| d in t[i].dependencies && StatusOf(t, d) != Some(Succeeded);
    assert Names(t, d);
    ByIdDomain(t, d);
    var j := ByIdIndex(t, d);
    assert Edge(t, i, j);
  }

  lemma NothingPending(t: seq<ExecutionStep>)
    requires WellFormed(t) && Acyclic(ById(t)) && Quiet(t)
    requires Runnable(t) == []
    ensures PendingIds(ById(t)) == {}
  {
    var g := ById(t);
    var stuck := PendingIds(g);
    forall id | id in stuck ensures WaitsIn(g, stuck, id) {
      FilterMembers(t, t, g[id]);
      ByIdDomain(t, id);
      var d := PendingWaits(t, id);
      assert d in stuck;
    }
    NothingStuck(g, stuck);
  }

  lemma BlockedIsQuiet(steps: seq<ExecutionStep>)
    requires forall i | 0 <= i < |steps| :: steps[i].status !in {Prepared, InFlight, Verifying}
    ensures Quiet(Fixpoint(steps))
  {
    var t := Fixpoint(steps);
    forall i | 0 <= i < |t| ensures t[i].status !in {Prepared, InFlight, Verifying} {
      OnlyPendingChange(steps, i);
    }
    forall i: nat, j: nat | Edge(t, i, j) && t[i].status == Pending ensures !Bad(t[j].status) {
      NoPendingBelowBad(steps, i, j);
    }
  }

  /** No deadlock: on a validated graph, once failures are blocked downstream and nothing is in
    * progress, either some step can run or no step is pending. */
  lemma NoDeadlock(steps: seq<ExecutionStep>)
    requires WellFormed(steps) && Acyclic(ById(steps))
    requires forall i | 0 <= i < |steps| :: steps[i].status !in {Prepared, InFlight, Verifying}
    requires Runnable(Fixpoint(steps)) == []
    ensures forall i | 0 <= i < |steps| :: Fixpoint(steps)[i].status != Pending
  {
    var t := Fixpoint(steps);
    BlockingKeepsGraph(steps);
    BlockedIsQuiet(steps);
    NothingPending(t);
    forall i | 0 <= i < |steps| ensures t[i].status != Pending {
      ByIdAt(t, i);
      assert t[i].id !in PendingIds(ById(t));
    }
  }
}
