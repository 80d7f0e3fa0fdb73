/** The two transactions statement by statement. A transaction works on its own copy of the tables
 *  and commits it whole or throws it away. */
module Repository {
  import opened Wrappers
  import opened PrivacyRequest
  import opened PrivacyRequestAggregate
  import opened HashChain
  import opened Store

  datatype SaveReply = Saved | SaveFailed(error: StoreError)

  datatype BindReply = BindDone(result: BindResult) | BindFailed(error: StoreError)

  lemma {:induction false} AppendAllFails(h: Hasher, j: Journal, notes: seq<Note>, stamps: seq<Stamp>, n: nat)
    requires n <= |notes| <= |stamps|
    requires AppendAll(h, j, notes[..n], stamps[..n]).Err?
    ensures AppendAll(h, j, notes, stamps) == AppendAll(h, j, notes[..n], stamps[..n])
  {
    if n < |notes| {
      var m := |notes| - 1;
      assert notes[..m][..n] == notes[..n] && stamps[..m][..n] == stamps[..n];
      AppendAllFails(h, j, notes[..m], stamps[..m], n);
    } else {
      assert notes[..n] == notes;
      AppendAllStamps(h, j, notes, stamps);
    }
  }

  /** Only the first |notes| stamps are used. */
  lemma {:induction false} AppendAllStamps(h: Hasher, j: Journal, notes: seq<Note>, stamps: seq<Stamp>)
    requires |notes| <= |stamps|
    ensures AppendAll(h, j, notes, stamps[..|notes|]) == AppendAll(h, j, notes, stamps)
  {
    if notes != [] {
      var n := |notes| - 1;
      assert stamps[..|notes|][..n] == stamps[..n];
    }
  }

  lemma AppendAllStep(h: Hasher, j: Journal, notes: seq<Note>, stamps: seq<Stamp>, n: nat)
    requires n < |notes| <= |stamps|
    ensures AppendAll(h, j, notes[..n + 1], stamps[..n + 1]) ==
            match AppendAll(h, j, notes[..n], stamps[..n])
            case Err(e) => Err(e)
            case Ok(before) => Append(h, before, notes[n], stamps[n])
  {
    assert notes[..n + 1][..n] == notes[..n] && stamps[..n + 1][..n] == stamps[..n];
  }

  /** Creating a missing head row first makes no difference to an append. */
  function WithHead(j: Journal, environmentId: string): Journal {
    if environmentId in j.heads then j else j.(heads := j.heads[environmentId := Head(0, None)])
  }

  lemma AppendWithHead(h: Hasher, j: Journal, note: Note, stamp: Stamp)
    ensures Append(h, WithHead(j, note.environmentId), note, stamp) == Append(h, j, note, stamp)
  {
    if note.environmentId !in j.heads {
      var head := Head(1, Some(NextLink(h, Head(0, None), note, stamp).eventHash));
      assert j.heads[note.environmentId := Head(0, None)][note.environmentId := head] == j.heads[note.environmentId := head];
    }
  }

  lemma {:induction false} AppendAllWithHead(h: Hasher, j: Journal, notes: seq<Note>, stamps: seq<Stamp>)
    requires 0 < |notes| <= |stamps|
    ensures AppendAll(h, WithHead(j, notes[0].environmentId), notes, stamps) == AppendAll(h, j, notes, stamps)
  {
    var n := |notes| - 1;
    if n == 0 {
      assert notes[..n] == [];
      AppendWithHead(h, j, notes[0], stamps[0]);
    } else {
      AppendAllWithHead(h, j, notes[..n], stamps[..n]);
    }
  }

  lemma {:induction false} PutAttemptsFails(table: map<string, Attempt>, attempts: seq<Attempt>, n: nat)
    requires n <= |attempts|
    requires PutAttempts(table, attempts[..n]).Err?
    ensures PutAttempts(table, attempts) == PutAttempts(table, attempts[..n])
  {
    if n < |attempts| {
      assert attempts[..|attempts| - 1][..n] == attempts[..n];
      PutAttemptsFails(table, attempts[..|attempts| - 1], n);
    } else {
      assert attempts[..n] == attempts;
    }
  }

  class Repository {
    const h: Hasher
    var db: Db

    constructor (h: Hasher, db: Db)
      ensures this.h == h && this.db == db
    {
      this.h := h;
      this.db := db;
    }

    /** One upsert an attempt, in order; a constraint that fires aborts the transaction. */
    method PersistAttempts(table: map<string, Attempt>, attempts: seq<Attempt>)
      returns (r: Result<map<string, Attempt>, StoreError>)
      ensures r == PutAttempts(table, attempts)
    {
      var rows := table;
      for i := 0 to |attempts|
        invariant PutAttempts(table, attempts[..i]) == Ok(rows)
      {
        assert attempts[..i + 1][..i] == attempts[..i];
        var put := PutAttempt(rows, attempts[i]);
        if put.Err? {
          PutAttemptsFails(table, attempts, i + 1);
          return Err(put.error);
        }
        rows := put.value;
      }
      assert attempts[..|attempts|] == attempts;
      return Ok(rows);
    }

    /** One event's audit and outbox rows, behind the head given by sequence and previous hash. */
    method AppendEvent(j: Journal, environmentId: string, requestId: string, e: Event, stamp: Stamp, sequence: nat,
                       previousHash: Option<string>)
      returns (r: Result<Journal, StoreError>, eventHash: string)
      requires HeadOf(j, environmentId) == Head(sequence, previousHash)
      ensures r == Append(h, j, Note(environmentId, requestId, ActorOf(e), ActionOf(e), Payload(e)), stamp)
      ensures r.Ok? ==> HeadOf(r.value, environmentId) == Head(sequence + 1, Some(eventHash))
    {
      var event := AuditEvent(stamp.id, environmentId, sequence + 1, requestId, ActorOf(e), ActionOf(e), Payload(e),
                              stamp.at);
      eventHash := h(previousHash, event);
      var link := Link(event, previousHash, eventHash);
      if !KeysFree(j.audit, link) {
        return Err(UniqueViolation), eventHash;
      }
      r := Ok(Journal(j.heads[environmentId := Head(sequence + 1, Some(eventHash))], j.audit + [link],
                      j.outbox + [OutboxOf(link)]));
    }

    /** Extends one environment's chain by the events, carrying sequence and previous hash along. */
    method PersistEvents(journal: Journal, environmentId: string, requestId: string, events: seq<Event>,
                         stamps: seq<Stamp>)
      returns (r: Result<Journal, StoreError>)
      requires |stamps| >= |events| > 0
      ensures r == AppendAll(h, journal, EventNotes(environmentId, requestId, events), stamps)
    {
      ghost var notes := EventNotes(environmentId, requestId, events);
      var j := WithHead(journal, environmentId);
      ghost var start := j;
      AppendAllWithHead(h, journal, notes, stamps);
      var sequence := j.heads[environmentId].sequence;
      var previousHash := j.heads[environmentId].eventHash;
      for i := 0 to |events|
        invariant HeadOf(j, environmentId) == Head(sequence, previousHash)
        invariant AppendAll(h, start, notes[..i], stamps[..i]) == Ok(j)
      {
        AppendAllStep(h, start, notes, stamps, i);
        var next, eventHash := AppendEvent(j, environmentId, requestId, events[i], stamps[i], sequence, previousHash);
        if next.Err? {
          AppendAllFails(h, start, notes, stamps, i + 1);
          return next;
        }
        j := next.value;
        sequence := sequence + 1;
        previousHash := Some(eventHash);
      }
      assert notes[..|events|] == notes;
      AppendAllStamps(h, start, notes, stamps);
      return Ok(j);
    }

    /** Saves the aggregate's snapshot, attempts and pending events; the events are marked committed
      * only after the commit. */
    method SaveAggregate(aggregate: Aggregate, expectedVersion: int, stamps: seq<Stamp>, persistedAt: int)
      returns (reply: SaveReply)
      requires aggregate.Valid()
      requires |stamps| >= |aggregate.events|
      modifies this`db, aggregate`events
      ensures aggregate.Valid()
      ensures match Save(h, old(db), aggregate.info, old(aggregate.View()), old(aggregate.events), expectedVersion,
                         stamps, persistedAt)
              case Ok(next) => reply == Saved && db == next && aggregate.events == []
              case Err(e) => reply == SaveFailed(e) && db == old(db) && aggregate.events == old(aggregate.events)
    {
      var snapshot := aggregate.View();
      var pending := aggregate.events;
      var info := aggregate.info;
      if expectedVersion < 0 || |pending| == 0 || snapshot.version != expectedVersion + |pending| {
        return SaveFailed(ConcurrencyConflict(info.id));
      }
      if info.environmentId !in db.environments {
        return SaveFailed(TenantScopeViolation);
      }
      var tx := db;
      var row := SavedRow(tx.requests, info, snapshot, expectedVersion, persistedAt);
      if row.Err? {
        return SaveFailed(row.error);
      }
      tx := tx.(requests := tx.requests[info.id := row.value]);
      var attempts := PersistAttempts(tx.attempts, snapshot.attempts);
      if attempts.Err? {
        return SaveFailed(attempts.error);
      }
      tx := tx.(attempts := attempts.value);
      var journal := PersistEvents(tx.journal, info.environmentId, info.id, pending, stamps);
      if journal.Err? {
        return SaveFailed(journal.error);
      }
      tx := tx.(journal := journal.value);
      if snapshot.currentAttemptId.Some? {
        var current := snapshot.currentAttemptId.value;
        if current !in tx.attempts || tx.attempts[current].requestId != info.id {
          return SaveFailed(ForeignKeyViolation);
        }
      }
      db := tx;
      var committed := aggregate.MarkEventsCommitted(|pending|);
      return Saved;
    }

    /** Appends one audit event behind the environment's head, which is created when missing. */
    method AppendAuditEvent(journal: Journal, note: Note, stamp: Stamp) returns (r: Result<Journal, StoreError>)
      ensures r == Append(h, journal, note, stamp)
    {
      AppendWithHead(h, journal, note, stamp);
      var j := WithHead(journal, note.environmentId);
      var head := j.heads[note.environmentId];
      var sequence := head.sequence + 1;
      var event := AuditEvent(stamp.id, note.environmentId, sequence, note.requestId, note.actor, note.action,
                              note.metadata, stamp.at);
      var link := Link(event, head.eventHash, h(head.eventHash, event));
      if !KeysFree(j.audit, link) {
        return Err(UniqueViolation);
      }
      return Ok(Journal(j.heads[note.environmentId := Head(sequence, Some(link.eventHash))], j.audit + [link],
                        j.outbox + [OutboxOf(link)]));
    }

    method InsertAliases(table: map<(string, string, string), Alias>, requestId: string, aliases: seq<Alias>)
      returns (r: map<(string, string, string), Alias>)
      ensures r == PutAliases(table, requestId, aliases)
    {
      r := table;
      for i := 0 to |aliases|
        invariant r == PutAliases(table, requestId, aliases[..i])
      {
        assert aliases[..i + 1][..i] == aliases[..i];
        var key := (requestId, aliases[i].kind, aliases[i].subjectHash);
        if key !in r {
          r := r[key := aliases[i]];
        }
      }
      assert aliases[..|aliases|] == aliases;
    }

    /** Settles which duplicate survives and writes both request rows. */
    method WriteRequests(requests: map<string, RequestRow>, input: BindInput)
      returns (rows: map<string, RequestRow>, cancelled: Option<string>, duplicateOf: Option<string>,
               outcome: BindOutcome)
      requires input.requestId in requests
      ensures var v := Judge(requests, input);
              && rows == BoundRows(requests, input, v)
              && cancelled == (if v.CancelCandidate? then Some(v.second) else None)
              && duplicateOf == DuplicateOf(v)
              && outcome == OutcomeOf(input, v)
    {
      rows := requests;
      var request := rows[input.requestId];
      var candidate: Option<string> := None;
      if input.override.None? {
        candidate := FirstCandidate(rows, input, request.requestType);
      }
      cancelled, duplicateOf := None, None;
      outcome := if input.override.Some? then DuplicateOverridden else Bound;
      if candidate.Some? {
        var c := candidate.value;
        if Before(rows, c, input.requestId) || !Cancellable(rows[c].status) {
          duplicateOf, outcome := Some(c), DuplicateCancelled;
        } else {
          cancelled := Some(c);
          rows := rows[c := CancelledRow(rows[c], input.requestId, input.now)];
        }
      }
      rows := rows[input.requestId := BoundRow(request, input, duplicateOf)];
    }

    /** The audit events of a bind: the cancelled candidate's first, then the request's own. */
    method RecordBind(journal: Journal, input: BindInput, cancelled: Option<string>, duplicateOf: Option<string>,
                      outcome: BindOutcome, ids: seq<Stamp>, ghost v: Judgement)
      returns (r: Result<Journal, StoreError>)
      requires |ids| >= 2
      requires cancelled == (if v.CancelCandidate? then Some(v.second) else None)
      requires duplicateOf == DuplicateOf(v) && outcome == OutcomeOf(input, v)
      ensures r == AppendAll(h, journal, BindNotes(input, v), Timed(ids, input.now))
    {
      var stamps := Timed(ids, input.now);
      ghost var notes := BindNotes(input, v);
      var own := Note(
        input.environmentId, input.requestId,
        if input.override.Some? then Actor(User, input.override.value.ownerActorId) else Actor(Agent, input.agentId),
        if input.override.Some? then "SubjectDuplicateOverrideApplied"
        else if outcome == DuplicateCancelled then "PrivacyRequestDuplicateCancelled" else "SubjectIdentityBound",
        BindNote(duplicateOf, input.keyVersion, input.canonicalizationVersion,
                 if input.override.Some? then Some(input.override.value.reason) else None));
      assert own == notes[|notes| - 1];
      assert notes[..|notes|] == notes;
      AppendAllStamps(h, journal, notes, stamps);
      AppendAllStep(h, journal, notes, stamps, 0);
      var j := journal;
      if cancelled.Some? {
        var note := Note(input.environmentId, cancelled.value, Actor(Agent, input.agentId),
                         "PrivacyRequestDuplicateCancelled", DuplicateNote(input.requestId));
        AppendAllStep(h, journal, notes, stamps, 1);
        r := AppendAuditEvent(j, note, stamps[0]);
        if r.Err? {
          return;
        }
        j := r.value;
      }
      r := AppendAuditEvent(j, own, stamps[if cancelled.Some? then 1 else 0]);
    }

    method BindSubject(input: BindInput, stamps: seq<Stamp>) returns (reply: BindReply)
      requires |stamps| >= 2
      modifies this`db
      ensures match Bind(h, old(db), input, stamps)
              case Ok((next, result)) => reply == BindDone(result) && db == next
              case Err(e) => reply == BindFailed(e) && db == old(db)
    {
      if IsRetry(db, input) {
        var row := db.requests[input.requestId];
        db := db.(envelopes := db.envelopes - {input.requestId});
        return BindDone(BindResult(input.requestId, row.duplicateOf, ExistingOutcome(row)));
      }
      var check := BindCheck(db, input);
      if check.Some? {
        return BindFailed(check.value);
      }
      var tx := db;
      var rows, cancelled, duplicateOf, outcome := WriteRequests(tx.requests, input);
      if !IndexFree(rows, input.requestId, rows[input.requestId]) {
        return BindFailed(UniqueViolation);
      }
      tx := tx.(requests := rows);
      var aliases := InsertAliases(tx.aliases, input.requestId, input.aliases);
      tx := tx.(aliases := aliases, envelopes := tx.envelopes - {input.requestId});
      var journal := RecordBind(tx.journal, input, cancelled, duplicateOf, outcome, stamps, Judge(db.requests, input));
      if journal.Err? {
        return BindFailed(journal.error);
      }
      db := tx.(journal := journal.value);
      return BindDone(BindResult(input.requestId, duplicateOf, outcome));
    }
  }
}
