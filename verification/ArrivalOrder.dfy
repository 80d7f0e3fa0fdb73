/** Binds that compete for the same subjects end the same way in whatever order they arrive. */
module ArrivalOrder {
  import opened Wrappers
  import opened PrivacyRequest
  import opened HashChain
  import opened Store
  import opened AuditInvariants
  import opened Deduplication
  import B = BindEffects

  // ----- runs of binds with one input a request -----

  predicate Unbound(db: Db) {
    forall id | id in db.requests :: db.requests[id].subjectHash.None?
  }

  predicate Binds(ts: seq<Transaction>) {
    forall t | t in ts :: Stamped(t) && t.BindTx?
  }

  function Inputs(ts: seq<Transaction>): set<BindInput>
    requires Binds(ts)
  {
    set t | t in ts :: t.input
  }

  /** A request is named by one input only; sending it again is allowed. */
  predicate OneInputPerRequest(inputs: set<BindInput>) {
    forall a, b | a in inputs && b in inputs :: a.requestId == b.requestId ==> a == b
  }

  /** The run's event ids are new, each transaction's own. */
  predicate NewStamps(audit: seq<Link>, ts: seq<Transaction>)
    requires Binds(ts)
  {
    && (forall t | t in ts :: StampsFree(audit, t.bindStamps, 2))
    && (forall i, k | 0 <= i < k < |ts| :: StampsApart(ts[i].bindStamps, ts[k].bindStamps))
  }

  predicate StampsApart(a: seq<Stamp>, b: seq<Stamp>)
    requires |a| >= 2 && |b| >= 2
  {
    forall i, k | 0 <= i < 2 && 0 <= k < 2 :: a[i].id != b[k].id
  }

  lemma Front(ts: seq<Transaction>)
    requires Binds(ts) && ts != []
    ensures Binds(ts[..|ts| - 1])
    ensures Inputs(ts) == Inputs(ts[..|ts| - 1]) + {ts[|ts| - 1].input}
  {
    assert ts == ts[..|ts| - 1] + [ts[|ts| - 1]];
  }

  // ----- requests no bind takes -----

  /** Everything a bind of a request reads besides its candidates is as it was. */
  predicate Untouched(db: Db, now: Db, id: string) {
    && now.environments == db.environments && now.agents == db.agents
    && (id in now.requests <==> id in db.requests)
    && (id in db.requests ==> now.requests[id] == db.requests[id])
    && (id in now.envelopes <==> id in db.envelopes)
    && (id in db.envelopes ==> now.envelopes[id] == db.envelopes[id])
  }

  lemma BindSparesUnbound(h: Hasher, db: Db, input: BindInput, stamps: seq<Stamp>, id: string)
    requires |stamps| >= 2 && id != input.requestId
    requires id in db.requests ==> db.requests[id].subjectHash.None?
    requires Bind(h, db, input, stamps).Ok?
    ensures Untouched(db, Bind(h, db, input, stamps).value.0, id)
  {
  }

  lemma SameCheck(db: Db, now: Db, input: BindInput)
    requires Untouched(db, now, input.requestId)
    requires input.requestId in db.requests ==> db.requests[input.requestId].subjectHash.None?
    ensures BindCheck(now, input) == BindCheck(db, input) && !IsRetry(now, input)
  {
  }

  /** One more transaction, which does not take the request. */
  lemma CommitSpares(h: Hasher, db: Db, now: Db, t: Transaction, id: string)
    requires Stamped(t) && t.BindTx? && Untouched(db, now, id)
    requires id in db.requests ==> db.requests[id].subjectHash.None?
    requires t.input.requestId == id ==> BindCheck(db, t.input).Some?
    ensures Untouched(db, Commit(h, now, t), id)
  {
    if t.input.requestId == id {
      SameCheck(db, now, t.input);
    } else if Bind(h, now, t.input, t.bindStamps).Ok? {
      BindSparesUnbound(h, now, t.input, t.bindStamps, id);
    }
  }

  /** Some input names the request and asks for nothing that is missing. */
  predicate Takes(db: Db, inputs: set<BindInput>, id: string) {
    exists x | x in inputs :: x.requestId == id && B.Admitted(db, x)
  }

  lemma {:induction false} RunSpares(h: Hasher, db: Db, ts: seq<Transaction>, id: string)
    requires Binds(ts) && Unbound(db) && !Takes(db, Inputs(ts), id)
    ensures Untouched(db, CommitAll(h, db, ts), id)
  {
    if ts != [] {
      var front, t := ts[..|ts| - 1], ts[|ts| - 1];
      var before := CommitAll(h, db, front);
      Front(ts);
      RunSpares(h, db, front, id);
      assert t.input in Inputs(ts);
      B.ChecksExactly(db, t.input);
      CommitSpares(h, db, before, t, id);
    }
  }

  // ----- requests a bind takes -----

  /** A row carries an input's binding, and has been touched by nothing but binds since. */
  predicate Carries(db: Db, input: BindInput) {
    && B.Repeats(db, input)
    && db.requests[input.requestId].duplicateOverride == input.override.Some?
    && db.requests[input.requestId].status in {IdentityVerified, Cancelled}
    && (input.override.Some? ==> db.requests[input.requestId].status == IdentityVerified)
  }

  lemma BindCarries(h: Hasher, db: Db, input: BindInput, stamps: seq<Stamp>)
    requires |stamps| >= 2 && Bind(h, db, input, stamps).Ok? && BindCheck(db, input).None?
    ensures Carries(Bind(h, db, input, stamps).value.0, input)
  {
    B.ChecksExactly(db, input);
    CheckedIsBindable(db, input);
  }

  lemma CarriedStays(h: Hasher, db: Db, input: BindInput, stamps: seq<Stamp>, carried: BindInput)
    requires |stamps| >= 2 && Bind(h, db, input, stamps).Ok? && Carries(db, carried)
    requires input.requestId == carried.requestId ==> input == carried
    ensures Carries(Bind(h, db, input, stamps).value.0, carried)
  {
  }

  lemma BindKeepsJournal(h: Hasher, db: Db, input: BindInput, stamps: seq<Stamp>, id: string)
    requires |stamps| >= 2 && Bind(h, db, input, stamps).Ok? && JournalIntact(h, db.journal)
    ensures var next := Bind(h, db, input, stamps).value.0;
            && JournalIntact(h, next.journal)
            && (IdFree(db.journal.audit, id) && NotAmong(stamps, 2, id) ==> IdFree(next.journal.audit, id))
  {
    if !IsRetry(db, input) {
      CheckedIsBindable(db, input);
      var notes := BindNotes(input, Judge(db.requests, input));
      AppendAllKeepsJournal(h, db.journal, notes, Timed(stamps, input.now));
      AppendAllIds(h, db.journal, notes, Timed(stamps, input.now), id);
    }
  }

  /** What is left for a next transaction after a run: an intact journal and its own ids still new. */
  lemma {:induction false} RunKeepsJournal(h: Hasher, db: Db, ts: seq<Transaction>, id: string)
    requires Binds(ts) && JournalIntact(h, db.journal)
    requires IdFree(db.journal.audit, id) && forall t | t in ts :: NotAmong(t.bindStamps, 2, id)
    ensures JournalIntact(h, CommitAll(h, db, ts).journal)
    ensures IdFree(CommitAll(h, db, ts).journal.audit, id)
  {
    if ts != [] {
      var front, t := ts[..|ts| - 1], ts[|ts| - 1];
      var before := CommitAll(h, db, front);
      RunKeepsJournal(h, db, front, id);
      if Bind(h, before, t.input, t.bindStamps).Ok? {
        BindKeepsJournal(h, before, t.input, t.bindStamps, id);
      }
    }
  }

  lemma LastStampsFree(h: Hasher, db: Db, ts: seq<Transaction>)
    requires Binds(ts) && ts != [] && JournalIntact(h, db.journal) && NewStamps(db.journal.audit, ts)
    ensures var before := CommitAll(h, db, ts[..|ts| - 1]).journal;
            JournalIntact(h, before) && StampsFree(before.audit, ts[|ts| - 1].bindStamps, 2)
  {
    var n := |ts| - 1;
    var last := ts[n].bindStamps;
    forall i | 0 <= i < 2
      ensures JournalIntact(h, CommitAll(h, db, ts[..n]).journal)
      ensures IdFree(CommitAll(h, db, ts[..n]).journal.audit, last[i].id)
    {
      forall t | t in ts[..n] ensures NotAmong(t.bindStamps, 2, last[i].id) {
        var k :| 0 <= k < n && ts[k] == t;
        assert StampsApart(ts[k].bindStamps, last);
      }
      RunKeepsJournal(h, db, ts[..n], last[i].id);
    }
    assert JournalIntact(h, CommitAll(h, db, ts[..n]).journal) by {
      assert IdFree(CommitAll(h, db, ts[..n]).journal.audit, last[0].id);
    }
  }

  lemma RunIndexed(h: Hasher, db: Db, ts: seq<Transaction>)
    requires Binds(ts) && Unbound(db)
    ensures OneActivePerSubject(CommitAll(h, db, ts).requests)
  {
    forall g
      ensures GroupSettled(CommitAll(h, db, ts).requests, g)
    {
      BindsConverge(h, db, ts, g);
    }
    SettledSatisfiesIndex(CommitAll(h, db, ts).requests);
  }

  /** A bind whose input no earlier one has carried finds everything it reads as it was at the start. */
  lemma FirstOfItsRequest(h: Hasher, db: Db, ts: seq<Transaction>)
    requires Binds(ts) && ts != [] && Unbound(db) && OneInputPerRequest(Inputs(ts))
    requires ts[|ts| - 1].input !in Inputs(ts[..|ts| - 1])
    ensures BindCheck(CommitAll(h, db, ts[..|ts| - 1]), ts[|ts| - 1].input) == BindCheck(db, ts[|ts| - 1].input)
  {
    Front(ts);
    var x := ts[|ts| - 1].input;
    RunSpares(h, db, ts[..|ts| - 1], x.requestId);
    SameCheck(db, CommitAll(h, db, ts[..|ts| - 1]), x);
  }

  /** Every input that asks for nothing missing at the start is carried at the end, whatever came between. */
  lemma {:induction false} RunCarries(h: Hasher, db: Db, ts: seq<Transaction>, x: BindInput)
    requires CollisionFree(h) && JournalIntact(h, db.journal) && Unbound(db)
    requires Binds(ts) && OneInputPerRequest(Inputs(ts)) && NewStamps(db.journal.audit, ts)
    requires x in Inputs(ts) && B.Admitted(db, x)
    ensures Carries(CommitAll(h, db, ts), x)
  {
    B.ChecksExactly(db, x);
    var front, t := ts[..|ts| - 1], ts[|ts| - 1];
    var before := CommitAll(h, db, front);
    Front(ts);
    if x in Inputs(front) {
      RunCarries(h, db, front, x);
      if Bind(h, before, t.input, t.bindStamps).Ok? {
        CarriedStays(h, before, t.input, t.bindStamps, x);
      }
    } else {
      FirstOfItsRequest(h, db, ts);
      LastStampsFree(h, db, ts);
      RunIndexed(h, db, front);
      BindSucceedsExactly(h, before, x, t.bindStamps);
      BindCarries(h, before, x, t.bindStamps);
    }
  }

  // ----- where a run ends -----

  /** Some input binds the request to the group: it names it and asks for nothing missing at the start. */
  ghost predicate Admits(db: Db, inputs: set<BindInput>, g: Subject, id: string) {
    exists x | x in inputs ::
      && x.requestId == id && B.Admitted(db, x) && x.override.None? && SubjectOf(db.requests, x) == g
  }

  /** The starting database decides which requests end up in a group; the order of the run does not. */
  lemma BoundAreAdmitted(h: Hasher, db: Db, ts: seq<Transaction>, g: Subject, id: string)
    requires CollisionFree(h) && JournalIntact(h, db.journal) && Unbound(db)
    requires Binds(ts) && OneInputPerRequest(Inputs(ts)) && NewStamps(db.journal.audit, ts)
    ensures id in BoundIds(CommitAll(h, db, ts).requests, g) <==> Admits(db, Inputs(ts), g, id)
  {
    OriginsFixed(h, db, ts);
    if Takes(db, Inputs(ts), id) {
      var x :| x in Inputs(ts) && x.requestId == id && B.Admitted(db, x);
      RunCarries(h, db, ts, x);
    } else {
      RunSpares(h, db, ts, id);
    }
  }

  lemma SameAdmitted(h: Hasher, db: Db, ts: seq<Transaction>, us: seq<Transaction>, g: Subject)
    requires CollisionFree(h) && JournalIntact(h, db.journal) && Unbound(db)
    requires Binds(ts) && OneInputPerRequest(Inputs(ts)) && NewStamps(db.journal.audit, ts)
    requires Binds(us) && Inputs(us) == Inputs(ts) && NewStamps(db.journal.audit, us)
    ensures SameSurvivor(CommitAll(h, db, ts).requests, CommitAll(h, db, us).requests, g)
  {
    forall id
      ensures id in BoundIds(CommitAll(h, db, ts).requests, g) <==> id in BoundIds(CommitAll(h, db, us).requests, g)
    {
      BoundAreAdmitted(h, db, ts, g, id);
      BoundAreAdmitted(h, db, us, g, id);
    }
    SameBoundSameSurvivor(h, db, ts, us, g);
  }

  lemma SameStatus(one: Db, other: Db, x: BindInput, g: Subject)
    requires Carries(one, x) && Carries(other, x)
    requires SameSurvivor(one.requests, other.requests, g)
    requires x.override.None? ==> x.requestId in BoundIds(one.requests, g)
    ensures one.requests[x.requestId].status == other.requests[x.requestId].status
  {
    if x.override.None? {
      var winner :| Settled(one.requests, g, winner) && Settled(other.requests, g, winner);
      SurvivorIsUnique(one.requests, g, winner);
      SurvivorIsUnique(other.requests, g, winner);
    }
  }

  /** Arrival order does not matter. Send the same binds, one input a request, in any two orders, some of
    * them failing and some sent again: every subject keeps the same survivor, and every request ends in
    * the same status, bound to the same subject or to none. */
  lemma ArrivalOrderDoesNotMatter(h: Hasher, db: Db, ts: seq<Transaction>, us: seq<Transaction>)
    requires CollisionFree(h) && JournalIntact(h, db.journal) && Unbound(db)
    requires Binds(ts) && OneInputPerRequest(Inputs(ts)) && NewStamps(db.journal.audit, ts)
    requires Binds(us) && Inputs(us) == Inputs(ts) && NewStamps(db.journal.audit, us)
    ensures var one, other := CommitAll(h, db, ts).requests, CommitAll(h, db, us).requests;
            && (forall g :: SameSurvivor(one, other, g))
            && one.Keys == other.Keys == db.requests.Keys
            && forall id | id in db.requests ::
                 one[id].status == other[id].status && one[id].subjectHash == other[id].subjectHash
  {
    var one, other := CommitAll(h, db, ts), CommitAll(h, db, us);
    OriginsFixed(h, db, ts);
    OriginsFixed(h, db, us);
    forall g
      ensures SameSurvivor(one.requests, other.requests, g)
    {
      SameAdmitted(h, db, ts, us, g);
    }
    forall id | id in db.requests
      ensures one.requests[id].status == other.requests[id].status
      ensures one.requests[id].subjectHash == other.requests[id].subjectHash
    {
      if Takes(db, Inputs(ts), id) {
        var x :| x in Inputs(ts) && x.requestId == id && B.Admitted(db, x);
        RunCarries(h, db, ts, x);
        RunCarries(h, db, us, x);
        var g := SubjectOf(one.requests, x);
        assert SameSurvivor(one.requests, other.requests, g);
        SameStatus(one, other, x, g);
      } else {
        RunSpares(h, db, ts, id);
        RunSpares(h, db, us, id);
      }
    }
  }

  lemma FirstInputCounts(h: Hasher, db: Db, first: Transaction, second: Transaction)
    requires Stamped(first) && first.BindTx? && Stamped(second) && second.BindTx?
    requires first.input.requestId == second.input.requestId
    requires first.input.subjectHash != second.input.subjectHash
    requires Bind(h, db, first.input, first.bindStamps).Ok?
    ensures first.input.requestId in db.requests
    ensures var next := Commit(h, db, first);
            && next.requests[first.input.requestId].subjectHash == Some(first.input.subjectHash)
            && Commit(h, next, second) == next
  {
  }

  /** With two inputs for one request, each good on its own, it does matter: the first to come counts. */
  lemma TwoInputsRace(h: Hasher, db: Db, a: Transaction, b: Transaction)
    requires Stamped(a) && a.BindTx? && Stamped(b) && b.BindTx?
    requires a.input.requestId == b.input.requestId && a.input.subjectHash != b.input.subjectHash
    requires Bind(h, db, a.input, a.bindStamps).Ok? && Bind(h, db, b.input, b.bindStamps).Ok?
    ensures CommitAll(h, db, [a, b]).requests != CommitAll(h, db, [b, a]).requests
  {
    FirstInputCounts(h, db, a, b);
    FirstInputCounts(h, db, b, a);
    CommitTwo(h, db, a, b);
    CommitTwo(h, db, b, a);
  }

  lemma CommitTwo(h: Hasher, db: Db, first: Transaction, second: Transaction)
    requires Stamped(first) && Stamped(second)
    ensures CommitAll(h, db, [first, second]) == Commit(h, Commit(h, db, first), second)
  {
    assert [first, second][..1] == [first] && [first][..0] == [];
    assert CommitAll(h, db, [first]) == Commit(h, db, first);
  }
}
