/** What every interleaving of save and bind transactions keeps about versions, audit and outbox. */
module AuditInvariants {
  import opened Wrappers
  import opened PrivacyRequest
  import opened HashChain
  import opened Store

  datatype Transaction =
    | SaveTx(info: RequestInfo, snapshot: State, pending: seq<Event>, expectedVersion: int, saveStamps: seq<Stamp>,
             persistedAt: int)
    | BindTx(input: BindInput, bindStamps: seq<Stamp>)

  predicate Stamped(t: Transaction) {
    match t
    case SaveTx(_, _, pending, _, stamps, _) => |stamps| >= |pending|
    case BindTx(_, stamps) => |stamps| >= 2
  }

  /** The committed database after one transaction: the next one, or the same one when it aborts. */
  function Commit(h: Hasher, db: Db, t: Transaction): Db
    requires Stamped(t)
  {
    match t
    case SaveTx(info, s, pending, expected, stamps, at) =>
      (match Save(h, db, info, s, pending, expected, stamps, at)
       case Ok(next) => next
       case Err(_) => db)
    case BindTx(input, stamps) =>
      match Bind(h, db, input, stamps)
      case Ok(next) => next.0
      case Err(_) => db
  }

  function CommitAll(h: Hasher, db: Db, ts: seq<Transaction>): Db
    requires forall t | t in ts :: Stamped(t)
  {
    if ts == [] then db else Commit(h, CommitAll(h, db, ts[..|ts| - 1]), ts[|ts| - 1])
  }

  // ----- reading the journal -----

  /** The rows of one environment in the order they were written. */
  function ChainOf(audit: seq<Link>, environmentId: string): seq<Link> {
    if audit == [] then []
    else
      var before := ChainOf(audit[..|audit| - 1], environmentId);
      var last := audit[|audit| - 1];
      if last.event.environmentId == environmentId then before + [last] else before
  }

  function RowsFor(audit: seq<Link>, requestId: string): nat {
    if audit == [] then 0
    else RowsFor(audit[..|audit| - 1], requestId) + if audit[|audit| - 1].event.requestId == requestId then 1 else 0
  }

  /** The sequences run 1..n, every link continues the chain, and the head row is the last link. */
  ghost predicate ChainIntact(h: Hasher, j: Journal, environmentId: string) {
    var chain := ChainOf(j.audit, environmentId);
    && Linked(h, chain)
    && (forall k | 0 <= k < |chain| :: chain[k].event.sequence == k + 1)
    && HeadOf(j, environmentId) == Head(|chain|, PreviousHash(chain, |chain|))
  }

  ghost predicate OutboxMatches(j: Journal) {
    && |j.outbox| == |j.audit|
    && forall i | 0 <= i < |j.audit| :: j.outbox[i] == OutboxOf(j.audit[i])
  }

  ghost predicate IdsDistinct(audit: seq<Link>) {
    forall i, k | 0 <= i < k < |audit| :: audit[i].event.id != audit[k].event.id
  }

  ghost predicate JournalIntact(h: Hasher, j: Journal) {
    OutboxMatches(j) && IdsDistinct(j.audit) && forall env :: ChainIntact(h, j, env)
  }

  function StoredVersion(db: Db, requestId: string): int {
    if requestId in db.requests then db.requests[requestId].version else 0
  }

  ghost predicate VersionsCounted(db: Db) {
    forall id :: StoredVersion(db, id) == RowsFor(db.journal.audit, id)
  }

  ghost predicate Audited(h: Hasher, db: Db) {
    JournalIntact(h, db.journal) && VersionsCounted(db)
  }

  // ----- appending -----

  lemma AppendKeepsChain(h: Hasher, j: Journal, note: Note, stamp: Stamp, env: string)
    requires ChainIntact(h, j, env)
    requires Append(h, j, note, stamp).Ok?
    ensures ChainIntact(h, Append(h, j, note, stamp).value, env)
  {
    var link := NextLink(h, HeadOf(j, note.environmentId), note, stamp);
    var next := Append(h, j, note, stamp).value;
    assert next.audit[..|next.audit| - 1] == j.audit;
    var chain := ChainOf(j.audit, env);
    if note.environmentId == env {
      var longer := chain + [link];
      assert ChainOf(next.audit, env) == longer;
      assert forall k | 0 <= k < |chain| :: GoodLink(h, chain, k) ==> GoodLink(h, longer, k);
      assert GoodLink(h, longer, |chain|);
    }
  }

  lemma AppendKeepsJournal(h: Hasher, j: Journal, note: Note, stamp: Stamp)
    requires JournalIntact(h, j)
    requires Append(h, j, note, stamp).Ok?
    ensures var next := Append(h, j, note, stamp).value;
            && JournalIntact(h, next)
            && (forall id :: RowsFor(next.audit, id) == RowsFor(j.audit, id) + if id == note.requestId then 1 else 0)
  {
    var next := Append(h, j, note, stamp).value;
    forall env ensures ChainIntact(h, next, env) {
      AppendKeepsChain(h, j, note, stamp, env);
    }
    assert next.audit[..|next.audit| - 1] == j.audit;
  }

  function NotesFor(notes: seq<Note>, requestId: string): nat {
    if notes == [] then 0
    else NotesFor(notes[..|notes| - 1], requestId) + if notes[|notes| - 1].requestId == requestId then 1 else 0
  }

  lemma {:induction false} AppendAllKeepsJournal(h: Hasher, j: Journal, notes: seq<Note>, stamps: seq<Stamp>)
    requires JournalIntact(h, j)
    requires |stamps| >= |notes|
    requires AppendAll(h, j, notes, stamps).Ok?
    ensures var next := AppendAll(h, j, notes, stamps).value;
            && JournalIntact(h, next)
            && (forall id :: RowsFor(next.audit, id) == RowsFor(j.audit, id) + NotesFor(notes, id))
  {
    if notes != [] {
      var n := |notes| - 1;
      AppendAllKeepsJournal(h, j, notes[..n], stamps[..n]);
      AppendKeepsJournal(h, AppendAll(h, j, notes[..n], stamps[..n]).value, notes[n], stamps[n]);
    }
  }

  lemma {:induction false} EventNotesCount(environmentId: string, requestId: string, events: seq<Event>, id: string)
    ensures NotesFor(EventNotes(environmentId, requestId, events), id) == if id == requestId then |events| else 0
  {
    if events != [] {
      var n := |events| - 1;
      assert EventNotes(environmentId, requestId, events)[..n] == EventNotes(environmentId, requestId, events[..n]);
      EventNotesCount(environmentId, requestId, events[..n], id);
    }
  }

  lemma BindNotesCount(input: BindInput, v: Judgement, id: string)
    ensures NotesFor(BindNotes(input, v), id) ==
            (if id == input.requestId then 1 else 0) + (if v.CancelCandidate? && id == v.second then 1 else 0)
  {
    var notes := BindNotes(input, v);
    if v.CancelCandidate? {
      NotesForOne(notes[0], id);
      assert notes[..1] == [notes[0]];
    } else {
      NotesForOne(notes[0], id);
      assert notes == [notes[0]];
    }
  }

  lemma NotesForOne(note: Note, id: string)
    ensures NotesFor([note], id) == if note.requestId == id then 1 else 0
  {
    assert [note][..0] == [];
  }

  // ----- when an append goes through -----

  predicate IdFree(audit: seq<Link>, id: string) {
    forall l | l in audit :: l.event.id != id
  }

  /** The first n stamps are new ids. */
  predicate StampsFree(audit: seq<Link>, stamps: seq<Stamp>, n: nat)
    requires n <= |stamps|
  {
    && (forall i | 0 <= i < n :: IdFree(audit, stamps[i].id))
    && (forall i, k | 0 <= i < k < n :: stamps[i].id != stamps[k].id)
  }

  lemma {:induction false} InChain(audit: seq<Link>, link: Link)
    requires link in audit
    ensures link in ChainOf(audit, link.event.environmentId)
  {
    var n := |audit| - 1;
    if link != audit[n] {
      assert link in audit[..n];
      InChain(audit[..n], link);
    }
  }

  lemma ChainLinksDiffer(h: Hasher, j: Journal, env: string, k: nat, next: Link)
    requires CollisionFree(h) && ChainIntact(h, j, env) && k < |ChainOf(j.audit, env)|
    requires next.event.sequence == HeadOf(j, env).sequence + 1
    requires next.eventHash == h(HeadOf(j, env).eventHash, next.event)
    ensures var l := ChainOf(j.audit, env)[k];
            l.event.sequence != next.event.sequence && l.eventHash != next.eventHash
  {
    var chain := ChainOf(j.audit, env);
    assert GoodLink(h, chain, k);
    assert chain[k].eventHash == h(PreviousHash(chain, k), chain[k].event);
  }

  /** What the primary key and the unique indices ask of an append. */
  lemma AppendChecks(h: Hasher, j: Journal, note: Note, stamp: Stamp)
    ensures var head := HeadOf(j, note.environmentId);
            var link := NextLink(h, head, note, stamp);
            Append(h, j, note, stamp).Ok? <==>
              forall l | l in j.audit ::
                && l.event.id != stamp.id
                && (l.event.environmentId == note.environmentId ==> l.event.sequence != head.sequence + 1)
                && (l.event.environmentId == note.environmentId ==> l.eventHash != link.eventHash)
  {
  }

  /** On an intact journal and with a collision-free hash, an append goes through exactly when its event
    * id is new: the unique indices on sequence and hash never decide. */
  lemma AppendSucceeds(h: Hasher, j: Journal, note: Note, stamp: Stamp)
    requires CollisionFree(h) && JournalIntact(h, j)
    ensures Append(h, j, note, stamp).Ok? <==> IdFree(j.audit, stamp.id)
  {
    var env := note.environmentId;
    var next := NextLink(h, HeadOf(j, env), note, stamp);
    assert ChainIntact(h, j, env);
    forall l | l in j.audit && l.event.environmentId == env
      ensures l.event.sequence != next.event.sequence && l.eventHash != next.eventHash
    {
      InChain(j.audit, l);
      var k :| 0 <= k < |ChainOf(j.audit, env)| && ChainOf(j.audit, env)[k] == l;
      ChainLinksDiffer(h, j, env, k, next);
    }
  }

  lemma AppendedIds(h: Hasher, j: Journal, note: Note, stamp: Stamp, id: string)
    requires Append(h, j, note, stamp).Ok?
    ensures IdFree(Append(h, j, note, stamp).value.audit, id) <==> IdFree(j.audit, id) && id != stamp.id
  {
    var next := Append(h, j, note, stamp).value;
    var link := next.audit[|next.audit| - 1];
    assert next.audit == j.audit + [link];
    assert link in next.audit && forall l | l in j.audit :: l in next.audit;
  }

  predicate NotAmong(stamps: seq<Stamp>, n: nat, id: string)
    requires n <= |stamps|
  {
    forall i | 0 <= i < n :: stamps[i].id != id
  }

  lemma StampsFreeNext(audit: seq<Link>, stamps: seq<Stamp>, n: nat)
    requires n < |stamps|
    ensures StampsFree(audit, stamps, n + 1) <==>
              && StampsFree(audit, stamps[..n], n)
              && IdFree(audit, stamps[n].id) && NotAmong(stamps, n, stamps[n].id)
  {
    assert forall i | 0 <= i < n :: stamps[..n][i] == stamps[i];
  }

  lemma {:induction false} AppendAllIds(h: Hasher, j: Journal, notes: seq<Note>, stamps: seq<Stamp>, id: string)
    requires |notes| <= |stamps| && AppendAll(h, j, notes, stamps).Ok?
    ensures IdFree(AppendAll(h, j, notes, stamps).value.audit, id) <==>
              IdFree(j.audit, id) && NotAmong(stamps, |notes|, id)
  {
    if notes != [] {
      var n := |notes| - 1;
      AppendAllIds(h, j, notes[..n], stamps[..n], id);
      AppendedIds(h, AppendAll(h, j, notes[..n], stamps[..n]).value, notes[n], stamps[n], id);
      assert NotAmong(stamps, n + 1, id) <==> NotAmong(stamps[..n], n, id) && stamps[n].id != id;
    }
  }

  /** The same for a run of notes: exactly when all their ids are new. */
  lemma {:induction false} AppendAllSucceeds(h: Hasher, j: Journal, notes: seq<Note>, stamps: seq<Stamp>)
    requires CollisionFree(h) && JournalIntact(h, j) && |notes| <= |stamps|
    ensures AppendAll(h, j, notes, stamps).Ok? <==> StampsFree(j.audit, stamps, |notes|)
  {
    if notes != [] {
      var n := |notes| - 1;
      AppendAllSucceeds(h, j, notes[..n], stamps[..n]);
      StampsFreeNext(j.audit, stamps, n);
      var before := AppendAll(h, j, notes[..n], stamps[..n]);
      if before.Ok? {
        AppendAllKeepsJournal(h, j, notes[..n], stamps[..n]);
        AppendAllIds(h, j, notes[..n], stamps[..n], stamps[n].id);
        AppendSucceeds(h, before.value, notes[n], stamps[n]);
        assert NotAmong(stamps[..n], n, stamps[n].id) <==> NotAmong(stamps, n, stamps[n].id);
      }
    }
  }

  // ----- the transactions -----

  lemma SaveKeepsAudited(h: Hasher, db: Db, info: RequestInfo, s: State, pending: seq<Event>, expected: int,
                         stamps: seq<Stamp>, at: int)
    requires Audited(h, db)
    requires |stamps| >= |pending|
    requires Save(h, db, info, s, pending, expected, stamps, at).Ok?
    ensures Audited(h, Save(h, db, info, s, pending, expected, stamps, at).value)
  {
    var next := Save(h, db, info, s, pending, expected, stamps, at).value;
    AppendAllKeepsJournal(h, db.journal, EventNotes(info.environmentId, info.id, pending), stamps);
    VersionsSaved(db, next, info, s, pending, expected);
  }

  lemma VersionsSaved(db: Db, next: Db, info: RequestInfo, s: State, pending: seq<Event>, expected: int)
    requires VersionsCounted(db) && StoredVersion(db, info.id) == expected && s.version == expected + |pending|
    requires info.id in next.requests && next.requests[info.id].version == s.version
    requires next.requests == db.requests[info.id := next.requests[info.id]]
    requires forall id :: RowsFor(next.journal.audit, id) ==
                          RowsFor(db.journal.audit, id)
                          + NotesFor(EventNotes(info.environmentId, info.id, pending), id)
    ensures VersionsCounted(next)
  {
    forall id ensures StoredVersion(next, id) == RowsFor(next.journal.audit, id) {
      EventNotesCount(info.environmentId, info.id, pending, id);
      assert StoredVersion(db, id) == RowsFor(db.journal.audit, id);
    }
  }

  /** A bind raises the version of its request by one, and of the candidate it cancels by one. */
  lemma BindRaisesVersions(requests: map<string, RequestRow>, input: BindInput, id: string)
    requires input.requestId in requests
    ensures var v := Judge(requests, input);
            var rows := BoundRows(requests, input, v);
            && (id in rows <==> id in requests)
            && (id in requests ==>
                  rows[id].version == requests[id].version + (if id == input.requestId then 1 else 0)
                                      + (if v.CancelCandidate? && id == v.second then 1 else 0))
  {
  }

  lemma BindKeepsAudited(h: Hasher, db: Db, input: BindInput, stamps: seq<Stamp>)
    requires Audited(h, db)
    requires |stamps| >= 2
    requires Bind(h, db, input, stamps).Ok?
    ensures Audited(h, Bind(h, db, input, stamps).value.0)
  {
    var next := Bind(h, db, input, stamps).value.0;
    if IsRetry(db, input) {
      assert forall id :: StoredVersion(next, id) == StoredVersion(db, id);
    } else {
      var v := Judge(db.requests, input);
      AppendAllKeepsJournal(h, db.journal, BindNotes(input, v), Timed(stamps, input.now));
      VersionsRaised(db, next, input, v);
    }
  }

  lemma VersionsRaised(db: Db, next: Db, input: BindInput, v: Judgement)
    requires VersionsCounted(db)
    requires input.requestId in db.requests && v == Judge(db.requests, input)
    requires next.requests == BoundRows(db.requests, input, v)
    requires forall id :: RowsFor(next.journal.audit, id) ==
                          RowsFor(db.journal.audit, id) + NotesFor(BindNotes(input, v), id)
    ensures VersionsCounted(next)
  {
    forall id ensures StoredVersion(next, id) == RowsFor(next.journal.audit, id) {
      BindNotesCount(input, v, id);
      BindRaisesVersions(db.requests, input, id);
      assert StoredVersion(db, id) == RowsFor(db.journal.audit, id);
    }
  }

  lemma CommitKeepsAudited(h: Hasher, db: Db, t: Transaction)
    requires Audited(h, db)
    requires Stamped(t)
    ensures Audited(h, Commit(h, db, t))
  {
    match t
    case SaveTx(info, s, pending, expected, stamps, at) =>
      if Save(h, db, info, s, pending, expected, stamps, at).Ok? {
        SaveKeepsAudited(h, db, info, s, pending, expected, stamps, at);
      }
    case BindTx(input, stamps) =>
      if Bind(h, db, input, stamps).Ok? {
        BindKeepsAudited(h, db, input, stamps);
      }
  }

  /** No request and no journal entry yet. */
  ghost predicate Fresh(db: Db) {
    db.requests == map[] && db.journal == Journal(map[], [], [])
  }

  /** Over every interleaving: versions count audit rows, audit and outbox match one to one, and each
    * environment's chain is numbered 1..n, is what buildChain makes, and ends at its head row. */
  lemma {:induction false} EveryRunAudited(h: Hasher, db: Db, ts: seq<Transaction>)
    requires Fresh(db)
    requires forall t | t in ts :: Stamped(t)
    ensures Audited(h, CommitAll(h, db, ts))
    ensures forall env ::
              var chain := ChainOf(CommitAll(h, db, ts).journal.audit, env);
              chain == Chain(h, None, Strip(chain))
  {
    if ts == [] {
      assert forall env :: ChainIntact(h, db.journal, env);
    } else {
      EveryRunAudited(h, db, ts[..|ts| - 1]);
      CommitKeepsAudited(h, CommitAll(h, db, ts[..|ts| - 1]), ts[|ts| - 1]);
    }
    var audit := CommitAll(h, db, ts).journal.audit;
    forall env ensures ChainOf(audit, env) == Chain(h, None, Strip(ChainOf(audit, env))) {
      assert ChainIntact(h, CommitAll(h, db, ts).journal, env);
      LinkedIsBuilt(h, ChainOf(audit, env));
    }
  }
}
