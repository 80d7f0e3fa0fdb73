/** Binds of the same subject settle on one surviving request, whatever their order. */
module Deduplication {
  import opened Wrappers
  import opened PrivacyRequest
  import opened HashChain
  import opened StringOrder
  import opened Store
  import opened AuditInvariants

  /** The requests one subject can have at most one active of. */
  datatype Subject = Subject(environmentId: string, subjectHash: string, requestType: RequestType)

  predicate InGroup(row: RequestRow, g: Subject) {
    && row.environmentId == g.environmentId && row.subjectHash == Some(g.subjectHash)
    && row.requestType == g.requestType && !row.duplicateOverride
  }

  function BoundIds(rows: map<string, RequestRow>, g: Subject): (r: set<string>)
    ensures r <= rows.Keys
  {
    set id | id in rows && InGroup(rows[id], g)
  }

  /** One survivor, the earliest; every other request is cancelled as a duplicate of an earlier one. */
  ghost predicate Settled(rows: map<string, RequestRow>, g: Subject, winner: string) {
    var ids := BoundIds(rows, g);
    && IsLeast(rows, ids, winner)
    && Cancellable(rows[winner].status) && rows[winner].duplicateOf.None?
    && forall id | id in ids && id != winner ::
         && rows[id].status == Cancelled && rows[id].duplicateOf.Some?
         && rows[id].duplicateOf.value in ids
         && id in rows && rows[id].duplicateOf.value in rows
         && Before(rows, rows[id].duplicateOf.value, id)
  }

  ghost predicate GroupSettled(rows: map<string, RequestRow>, g: Subject) {
    BoundIds(rows, g) == {} || exists winner :: Settled(rows, g, winner)
  }

  /** What BindCheck has made sure of when the rows are written. */
  predicate Bindable(rows: map<string, RequestRow>, input: BindInput) {
    && input.requestId in rows
    && rows[input.requestId].environmentId == input.environmentId
    && rows[input.requestId].subjectHash.None?
    && Cancellable(rows[input.requestId].status)
  }

  lemma CheckedIsBindable(db: Db, input: BindInput)
    requires BindCheck(db, input).None?
    ensures Bindable(db.requests, input)
  {
  }

  function SubjectOf(rows: map<string, RequestRow>, input: BindInput): Subject
    requires input.requestId in rows
  {
    Subject(input.environmentId, input.subjectHash, rows[input.requestId].requestType)
  }

  lemma CandidatesAreActive(rows: map<string, RequestRow>, input: BindInput)
    requires Bindable(rows, input)
    ensures var g := SubjectOf(rows, input);
            Candidates(rows, input, g.requestType) == set id | id in BoundIds(rows, g) && Active(rows[id])
  {
  }

  /** A bind leaves the rows of every other subject, and of an override, as they are. */
  lemma OtherGroupUntouched(rows: map<string, RequestRow>, input: BindInput, g: Subject)
    requires Bindable(rows, input)
    requires g != SubjectOf(rows, input) || input.override.Some?
    ensures var next := BoundRows(rows, input, Judge(rows, input));
            && BoundIds(next, g) == BoundIds(rows, g)
            && (forall id | id in BoundIds(rows, g) :: next[id] == rows[id])
            && next.Keys == rows.Keys
            && (forall id | id in rows :: next[id].createdAt == rows[id].createdAt)
  {
  }

  lemma SameRowsSettled(rows: map<string, RequestRow>, next: map<string, RequestRow>, g: Subject, winner: string)
    requires BoundIds(next, g) == BoundIds(rows, g)
    requires forall id | id in BoundIds(rows, g) :: next[id] == rows[id]
    requires Settled(rows, g, winner)
    ensures Settled(next, g, winner)
  {
  }

  /** The judgement in a settled group: the earlier of the newcomer and the survivor stays. */
  lemma JudgeSettled(rows: map<string, RequestRow>, input: BindInput, winner: string)
    requires Bindable(rows, input) && input.override.None?
    requires Settled(rows, SubjectOf(rows, input), winner)
    ensures Judge(rows, input) ==
            if Before(rows, winner, input.requestId) then CancelCurrent(winner) else CancelCandidate(winner)
  {
    var g := SubjectOf(rows, input);
    CandidatesAreActive(rows, input);
    assert Candidates(rows, input, g.requestType) == {winner};
    assert FirstCandidate(rows, input, g.requestType) == Some(winner);
  }

  lemma BindSettlesGroup(rows: map<string, RequestRow>, input: BindInput, winner: string)
    requires Bindable(rows, input) && input.override.None?
    requires Settled(rows, SubjectOf(rows, input), winner)
    ensures var g := SubjectOf(rows, input);
            var next := BoundRows(rows, input, Judge(rows, input));
            Settled(next, g, if Before(rows, winner, input.requestId) then winner else input.requestId)
  {
    var g := SubjectOf(rows, input);
    var id := input.requestId;
    JudgeSettled(rows, input, winner);
    var next := BoundRows(rows, input, Judge(rows, input));
    assert BoundIds(next, g) == BoundIds(rows, g) + {id};
    BeforeTotal(rows, winner, id);
    if Before(rows, id, winner) {
      forall x | x in BoundIds(rows, g) && x != winner ensures Before(rows, id, x) {
        BeforeTransitive(rows, id, winner, x);
      }
    }
    assert forall a, b | a in rows && b in rows :: Before(next, a, b) == Before(rows, a, b);
  }

  lemma FirstBindSettles(rows: map<string, RequestRow>, input: BindInput)
    requires Bindable(rows, input) && input.override.None?
    requires BoundIds(rows, SubjectOf(rows, input)) == {}
    ensures Settled(BoundRows(rows, input, Judge(rows, input)), SubjectOf(rows, input), input.requestId)
  {
    var g := SubjectOf(rows, input);
    CandidatesAreActive(rows, input);
    assert Candidates(rows, input, g.requestType) == {};
    assert FirstCandidate(rows, input, g.requestType).None?;
    assert BoundIds(BoundRows(rows, input, Judge(rows, input)), g) == {input.requestId};
  }

  lemma BindKeepsGroup(rows: map<string, RequestRow>, input: BindInput, g: Subject)
    requires Bindable(rows, input)
    requires GroupSettled(rows, g)
    ensures GroupSettled(BoundRows(rows, input, Judge(rows, input)), g)
  {
    if g != SubjectOf(rows, input) || input.override.Some? {
      OtherGroupUntouched(rows, input, g);
      if winner :| Settled(rows, g, winner) {
        SameRowsSettled(rows, BoundRows(rows, input, Judge(rows, input)), g, winner);
      }
    } else if BoundIds(rows, g) == {} {
      FirstBindSettles(rows, input);
    } else {
      var winner :| Settled(rows, g, winner);
      BindSettlesGroup(rows, input, winner);
    }
  }

  /** The convergence theorem. Start with no request bound, and run any binds in any order: other
    * subjects, overrides, retries and failing binds among them. Then every subject has no bound
    * request, or exactly one that is not cancelled, and that one is the earliest of all. */
  lemma {:induction false} BindsConverge(h: Hasher, db: Db, ts: seq<Transaction>, g: Subject)
    requires forall id | id in db.requests :: db.requests[id].subjectHash.None?
    requires forall t | t in ts :: Stamped(t) && t.BindTx?
    ensures GroupSettled(CommitAll(h, db, ts).requests, g)
  {
    if ts != [] {
      var before := CommitAll(h, db, ts[..|ts| - 1]);
      var t := ts[|ts| - 1];
      BindsConverge(h, db, ts[..|ts| - 1], g);
      if Bind(h, before, t.input, t.bindStamps).Ok? && !IsRetry(before, t.input) {
        CheckedIsBindable(before, t.input);
        BindKeepsGroup(before.requests, t.input, g);
      }
    }
  }

  /** A bind without override adds its request to its subject's group, and nothing else does. */
  lemma BindJoinsGroup(rows: map<string, RequestRow>, input: BindInput, g: Subject)
    requires Bindable(rows, input)
    ensures BoundIds(BoundRows(rows, input, Judge(rows, input)), g) ==
            BoundIds(rows, g)
            + if g == SubjectOf(rows, input) && input.override.None? then {input.requestId} else {}
  {
  }

  /** Creation times and request types never change. */
  predicate SameOrigins(rows: map<string, RequestRow>, next: map<string, RequestRow>) {
    && next.Keys == rows.Keys
    && forall id | id in rows :: next[id].createdAt == rows[id].createdAt && next[id].requestType == rows[id].requestType
  }

  lemma BindKeepsOrigins(rows: map<string, RequestRow>, input: BindInput)
    requires Bindable(rows, input)
    ensures SameOrigins(rows, BoundRows(rows, input, Judge(rows, input)))
  {
  }

  lemma {:induction false} OriginsFixed(h: Hasher, db: Db, ts: seq<Transaction>)
    requires forall t | t in ts :: Stamped(t) && t.BindTx?
    ensures SameOrigins(db.requests, CommitAll(h, db, ts).requests)
  {
    if ts != [] {
      OriginsFixed(h, db, ts[..|ts| - 1]);
      var before := CommitAll(h, db, ts[..|ts| - 1]);
      var t := ts[|ts| - 1];
      if Bind(h, before, t.input, t.bindStamps).Ok? && !IsRetry(before, t.input) {
        CheckedIsBindable(before, t.input);
        BindKeepsOrigins(before.requests, t.input);
      }
    }
  }

  /** A bind that names a request of the group's type and the group's subject, without override. */
  predicate Joins(rows: map<string, RequestRow>, t: Transaction, g: Subject) {
    t.BindTx? && t.input.requestId in rows && t.input.override.None? && SubjectOf(rows, t.input) == g
  }

  /** The requests a run's binds name for a group. */
  function Named(rows: map<string, RequestRow>, ts: seq<Transaction>, g: Subject): set<string> {
    set t | t in ts && Joins(rows, t, g) :: t.input.requestId
  }

  /** A bind that goes through, as the first bind of its request. */
  predicate FirstBind(h: Hasher, before: Db, t: Transaction)
    requires Stamped(t) && t.BindTx?
  {
    !IsRetry(before, t.input) && Bind(h, before, t.input, t.bindStamps).Ok?
  }

  /** Every bind of the run does. */
  predicate AllGoThrough(h: Hasher, db: Db, ts: seq<Transaction>)
    requires forall t | t in ts :: Stamped(t) && t.BindTx?
  {
    ts == []
    || var front, t := ts[..|ts| - 1], ts[|ts| - 1];
       assert t in ts;
       AllGoThrough(h, db, front) && FirstBind(h, CommitAll(h, db, front), t)
  }

  lemma NamedNext(rows: map<string, RequestRow>, ts: seq<Transaction>, g: Subject)
    requires ts != []
    ensures var n := |ts| - 1;
            Named(rows, ts, g) == Named(rows, ts[..n], g)
                                  + if Joins(rows, ts[n], g) then {ts[n].input.requestId} else {}
  {
    assert ts == ts[..|ts| - 1] + [ts[|ts| - 1]];
  }

  /** A group's bound requests are then exactly those the run named for it. */
  lemma {:induction false} BoundAreNamed(h: Hasher, db: Db, ts: seq<Transaction>, g: Subject)
    requires forall id | id in db.requests :: db.requests[id].subjectHash.None?
    requires forall t | t in ts :: Stamped(t) && t.BindTx?
    requires AllGoThrough(h, db, ts)
    ensures BoundIds(CommitAll(h, db, ts).requests, g) == Named(db.requests, ts, g)
  {
    if ts != [] {
      var front, t := ts[..|ts| - 1], ts[|ts| - 1];
      var before := CommitAll(h, db, front);
      BoundAreNamed(h, db, front, g);
      OriginsFixed(h, db, front);
      CheckedIsBindable(before, t.input);
      BindJoinsGroup(before.requests, t.input, g);
      NamedNext(db.requests, ts, g);
    }
  }

  lemma LeastCarries(rows: map<string, RequestRow>, next: map<string, RequestRow>, ids: set<string>, m: string)
    requires SameOrigins(rows, next) && ids <= rows.Keys && IsLeast(next, ids, m)
    ensures IsLeast(rows, ids, m)
  {
  }

  /** The survivor of a run is the least of its group's bound requests by their original creation times. */
  lemma SurvivorIsLeast(h: Hasher, db: Db, ts: seq<Transaction>, g: Subject)
    returns (winner: string)
    requires forall id | id in db.requests :: db.requests[id].subjectHash.None?
    requires forall t | t in ts :: Stamped(t) && t.BindTx?
    requires BoundIds(CommitAll(h, db, ts).requests, g) != {}
    ensures Settled(CommitAll(h, db, ts).requests, g, winner)
    ensures BoundIds(CommitAll(h, db, ts).requests, g) <= db.requests.Keys
    ensures IsLeast(db.requests, BoundIds(CommitAll(h, db, ts).requests, g), winner)
  {
    var end := CommitAll(h, db, ts).requests;
    BindsConverge(h, db, ts, g);
    winner :| Settled(end, g, winner);
    OriginsFixed(h, db, ts);
    LeastCarries(db.requests, end, BoundIds(end, g), winner);
  }

  /** The two ends have the same bound requests in the group and, if any, the same survivor. */
  ghost predicate SameSurvivor(one: map<string, RequestRow>, other: map<string, RequestRow>, g: Subject) {
    && BoundIds(one, g) == BoundIds(other, g)
    && (BoundIds(one, g) != {} ==> exists winner :: Settled(one, g, winner) && Settled(other, g, winner))
  }

  lemma SameBoundSameSurvivor(h: Hasher, db: Db, ts: seq<Transaction>, us: seq<Transaction>, g: Subject)
    requires forall id | id in db.requests :: db.requests[id].subjectHash.None?
    requires forall t | t in ts :: Stamped(t) && t.BindTx?
    requires forall t | t in us :: Stamped(t) && t.BindTx?
    requires BoundIds(CommitAll(h, db, ts).requests, g) == BoundIds(CommitAll(h, db, us).requests, g)
    ensures SameSurvivor(CommitAll(h, db, ts).requests, CommitAll(h, db, us).requests, g)
  {
    var ids := BoundIds(CommitAll(h, db, ts).requests, g);
    if ids != {} {
      var first := SurvivorIsLeast(h, db, ts, g);
      var second := SurvivorIsLeast(h, db, us, g);
      LeastUnique(db.requests, ids, first, second);
    }
  }

  /** Arrival order does not matter: two runs of binds that all go through and name the same requests for
    * a subject, in whatever orders, keep the same survivor, the least of those requests. */
  lemma SurvivorIsOrderIndependent(h: Hasher, db: Db, ts: seq<Transaction>, us: seq<Transaction>, g: Subject)
    requires forall id | id in db.requests :: db.requests[id].subjectHash.None?
    requires forall t | t in ts :: Stamped(t) && t.BindTx?
    requires forall t | t in us :: Stamped(t) && t.BindTx?
    requires AllGoThrough(h, db, ts) && AllGoThrough(h, db, us)
    requires Named(db.requests, ts, g) == Named(db.requests, us, g)
    ensures BoundIds(CommitAll(h, db, ts).requests, g) == Named(db.requests, ts, g)
    ensures SameSurvivor(CommitAll(h, db, ts).requests, CommitAll(h, db, us).requests, g)
  {
    BoundAreNamed(h, db, ts, g);
    BoundAreNamed(h, db, us, g);
    SameBoundSameSurvivor(h, db, ts, us, g);
  }

  /** In a settled group the survivor is the only active request and the least by creation time and id. */
  lemma SurvivorIsUnique(rows: map<string, RequestRow>, g: Subject, winner: string)
    requires Settled(rows, g, winner)
    ensures forall id | id in BoundIds(rows, g) :: Active(rows[id]) <==> id == winner
    ensures forall id | id in BoundIds(rows, g) && id != winner :: Before(rows, winner, id)
  {
  }

  /** Following duplicate_of from any request of the group visits no request twice and ends at the
    * survivor. */
  lemma {:induction false} DuplicateChain(rows: map<string, RequestRow>, g: Subject, winner: string, id: string)
    returns (path: seq<string>)
    requires Settled(rows, g, winner)
    requires id in BoundIds(rows, g)
    ensures path != [] && path[0] == id && path[|path| - 1] == winner
    ensures forall i | 0 <= i < |path| :: path[i] in BoundIds(rows, g)
    ensures forall i | 0 <= i < |path| - 1 :: rows[path[i]].duplicateOf == Some(path[i + 1])
    ensures forall i, k | 0 <= i < k < |path| :: Before(rows, path[k], path[i])
    ensures forall i, k | 0 <= i < k < |path| :: path[i] != path[k]
    decreases set x | x in BoundIds(rows, g) && Before(rows, x, id)
  {
    if id == winner {
      path := [winner];
    } else {
      var next := rows[id].duplicateOf.value;
      forall x | x in BoundIds(rows, g) && Before(rows, x, next) ensures Before(rows, x, id) {
        BeforeTransitive(rows, x, next, id);
      }
      BeforeTotal(rows, next, next);
      assert (set x | x in BoundIds(rows, g) && Before(rows, x, next)) <=
             (set x | x in BoundIds(rows, g) && Before(rows, x, id)) - {next};
      assert next in (set x | x in BoundIds(rows, g) && Before(rows, x, id));
      var rest := DuplicateChain(rows, g, winner, next);
      path := [id] + rest;
      forall k | 1 <= k < |path| ensures Before(rows, path[k], id) && path[k] != id {
        if k > 1 {
          assert Before(rows, rest[k - 1], rest[0]);
          BeforeTransitive(rows, path[k], next, id);
        }
        BeforeTotal(rows, path[k], id);
      }
    }
  }

  /** Whatever the database holds, a bind cancels only requests in a cancellable status, changes no
    * third request, and never re-opens one. */
  lemma BindCancelsOnlyCancellable(h: Hasher, db: Db, input: BindInput, stamps: seq<Stamp>, id: string)
    requires |stamps| >= 2
    requires Bind(h, db, input, stamps).Ok?
    requires id in db.requests
    ensures var rows := Bind(h, db, input, stamps).value.0.requests;
            && id in rows
            && (rows[id] != db.requests[id] ==> Cancellable(db.requests[id].status))
            && (rows[id] != db.requests[id] && id != input.requestId ==> rows[id].status == Cancelled)
  {
    if !IsRetry(db, input) {
      CheckedIsBindable(db, input);
    }
  }

  // ----- the unique index -----

  ghost predicate OneActivePerSubject(rows: map<string, RequestRow>) {
    forall a, b | a in rows && b in rows && a != b ::
      !(Indexed(rows[a]) && Indexed(rows[b]) && SameGroup(rows[a], rows[b]))
  }

  /** The bind's own choice keeps the partial unique index satisfied, so the index never aborts it,
    * also when the survivor has meanwhile moved on to a status that can no longer be cancelled. */
  lemma IndexNeverAborts(rows: map<string, RequestRow>, input: BindInput)
    requires OneActivePerSubject(rows)
    requires Bindable(rows, input)
    ensures var next := BoundRows(rows, input, Judge(rows, input));
            && OneActivePerSubject(next)
            && IndexFree(next, input.requestId, next[input.requestId])
  {
    CandidatesAreActive(rows, input);
    var v := Judge(rows, input);
    var next := BoundRows(rows, input, v);
    var id := input.requestId;
    var candidates := Candidates(rows, input, rows[id].requestType);
    forall x | x in rows && x != id && Indexed(next[x]) ensures Indexed(rows[x]) && next[x] == rows[x] {
    }
    if Indexed(next[id]) {
      forall x | x in rows && x != id && Indexed(next[x]) ensures !SameGroup(next[id], next[x]) {
        assert SameGroup(next[id], next[x]) ==> x in candidates;
      }
    }
  }

  /** Where every group is settled, the index is satisfied. */
  lemma SettledSatisfiesIndex(rows: map<string, RequestRow>)
    requires forall g :: GroupSettled(rows, g)
    ensures OneActivePerSubject(rows)
  {
    forall a, b | a in rows && b in rows && a != b
      ensures !(Indexed(rows[a]) && Indexed(rows[b]) && SameGroup(rows[a], rows[b]))
    {
      if Indexed(rows[a]) && Indexed(rows[b]) {
        var g := Subject(rows[a].environmentId, rows[a].subjectHash.value, rows[a].requestType);
        assert GroupSettled(rows, g);
        if winner :| Settled(rows, g, winner) {
          SurvivorIsUnique(rows, g, winner);
        }
        assert a in BoundIds(rows, g);
      }
    }
  }

  /** When a bind goes through: exactly when it repeats a committed one, or passes every check and its one
    * or two event ids are new. No index ever aborts it. */
  lemma BindSucceedsExactly(h: Hasher, db: Db, input: BindInput, stamps: seq<Stamp>)
    requires CollisionFree(h) && JournalIntact(h, db.journal) && OneActivePerSubject(db.requests)
    requires |stamps| >= 2
    ensures Bind(h, db, input, stamps).Ok? <==>
              || IsRetry(db, input)
              || (BindCheck(db, input).None?
                  && StampsFree(db.journal.audit, stamps, |BindNotes(input, Judge(db.requests, input))|))
    ensures StampsFree(db.journal.audit, stamps, 2) ==>
              (Bind(h, db, input, stamps).Ok? <==> IsRetry(db, input) || BindCheck(db, input).None?)
  {
    if BindCheck(db, input).None? {
      CheckedIsBindable(db, input);
      IndexNeverAborts(db.requests, input);
      AppendAllSucceeds(h, db.journal, BindNotes(input, Judge(db.requests, input)), Timed(stamps, input.now));
    }
  }
}
