/** What a bind of a subject accepts, writes and answers, on the fields of the tables. */
module BindEffects {
  import opened Wrappers
  import opened PrivacyRequest
  import opened HashChain
  import opened StringOrder
  import opened Store
  import opened AuditInvariants
  import opened Deduplication

  // ----- when a bind goes through -----

  /** The request is there, in its environment, and that is known. */
  predicate Found(db: Db, input: BindInput) {
    && input.requestId in db.requests && input.environmentId in db.environments
    && db.requests[input.requestId].environmentId == input.environmentId
  }

  /** The request already carries the very subject and versions. */
  predicate Repeats(db: Db, input: BindInput) {
    && Found(db, input)
    && var row := db.requests[input.requestId];
       && row.subjectHash == Some(input.subjectHash) && row.keyVersion == Some(input.keyVersion)
       && row.canonicalizationVersion == Some(input.canonicalizationVersion)
  }

  predicate Unbound(row: RequestRow) {
    row.subjectHash.None? && row.keyVersion.None? && row.canonicalizationVersion.None?
  }

  /** The statuses before an authorisation. */
  predicate Early(status: Status) {
    || status == Created || status == IdentityVerificationPending || status == IdentityVerified
    || status == Planning || status == AwaitingApproval
  }

  predicate Ready(row: RequestRow, input: BindInput) {
    Unbound(row) && row.version == input.expectedVersion && Early(row.status)
  }

  predicate VersionsMatch(env: Environment, input: BindInput) {
    env.keyVersion == input.keyVersion && env.canonicalizationVersion == input.canonicalizationVersion
  }

  predicate AgentServes(db: Db, input: BindInput) {
    && input.agentId in db.agents && db.agents[input.agentId].environmentId == input.environmentId
    && db.agents[input.agentId].status != AgentRevoked
  }

  predicate EnvelopeThere(db: Db, input: BindInput) {
    input.requestId in db.envelopes && db.envelopes[input.requestId].environmentId == input.environmentId
  }

  /** The envelope was sealed for the agent's key. */
  predicate SealedFor(agent: AgentRow, envelope: Envelope) {
    envelope.encryptionKeyId != "" && agent.encryptionKeyId == Some(envelope.encryptionKeyId)
  }

  /** Everything a first bind asks of the tables. */
  predicate Admitted(db: Db, input: BindInput) {
    && Found(db, input) && Ready(db.requests[input.requestId], input)
    && VersionsMatch(db.environments[input.environmentId], input)
    && AgentServes(db, input)
    && EnvelopeThere(db, input)
    && input.now < db.envelopes[input.requestId].expiresAt
    && SealedFor(db.agents[input.agentId], db.envelopes[input.requestId])
  }

  /** When a bind that is not a repeat is refused, with each error; earlier checks come first. */
  predicate Refused(db: Db, input: BindInput, e: StoreError) {
    if !Found(db, input) then e == RequestNotFound
    else
      var row := db.requests[input.requestId];
      match e
      case AlreadyBound => !Unbound(row)
      case VersionConflict => Unbound(row) && row.version != input.expectedVersion
      case BindingStateInvalid => Unbound(row) && row.version == input.expectedVersion && !Early(row.status)
      case KeyVersionMismatch => Ready(row, input) && !VersionsMatch(db.environments[input.environmentId], input)
      case AgentNotActive =>
        Ready(row, input) && VersionsMatch(db.environments[input.environmentId], input) && !AgentServes(db, input)
      case EnvelopeNotFound =>
        && Ready(row, input) && VersionsMatch(db.environments[input.environmentId], input) && AgentServes(db, input)
        && !EnvelopeThere(db, input)
      case EnvelopeExpired =>
        && Ready(row, input) && VersionsMatch(db.environments[input.environmentId], input) && AgentServes(db, input)
        && EnvelopeThere(db, input) && db.envelopes[input.requestId].expiresAt <= input.now
      case EnvelopeKeyMismatch =>
        && Ready(row, input) && VersionsMatch(db.environments[input.environmentId], input) && AgentServes(db, input)
        && EnvelopeThere(db, input) && input.now < db.envelopes[input.requestId].expiresAt
        && !SealedFor(db.agents[input.agentId], db.envelopes[input.requestId])
      case _ => false
  }

  lemma ChecksExactly(db: Db, input: BindInput)
    ensures IsRetry(db, input) <==> Repeats(db, input)
    ensures BindCheck(db, input).None? <==> Admitted(db, input)
    ensures forall e :: BindCheck(db, input) == Some(e) <==> Refused(db, input, e)
  {
  }

  // ----- the rivals of a request -----

  /** Another request that is active for the same subject and kind, not overridden. */
  predicate Rival(rows: map<string, RequestRow>, input: BindInput, c: string)
    requires input.requestId in rows
  {
    && c in rows && c != input.requestId
    && rows[c].environmentId == input.environmentId && rows[c].subjectHash == Some(input.subjectHash)
    && rows[c].requestType == rows[input.requestId].requestType && !rows[c].duplicateOverride
    && rows[c].status != Completed && rows[c].status != Cancelled
  }

  predicate Earlier(rows: map<string, RequestRow>, a: string, b: string)
    requires a in rows && b in rows
  {
    || rows[a].createdAt < rows[b].createdAt
    || (rows[a].createdAt == rows[b].createdAt && Less(a, b))
  }

  /** The earliest rival, against a bind without override. */
  ghost predicate FirstRival(rows: map<string, RequestRow>, input: BindInput, c: string)
    requires input.requestId in rows
  {
    && input.override.None? && Rival(rows, input, c)
    && forall other | other in rows && other != c && Rival(rows, input, other) :: Earlier(rows, c, other)
  }

  /** The new request gives way: its first rival is earlier, or can no longer be cancelled. */
  ghost predicate Yields(rows: map<string, RequestRow>, input: BindInput, c: string)
    requires input.requestId in rows
  {
    FirstRival(rows, input, c) && (Earlier(rows, c, input.requestId) || !Early(rows[c].status))
  }

  /** The first rival gives way. */
  ghost predicate Displaces(rows: map<string, RequestRow>, input: BindInput, c: string)
    requires input.requestId in rows
  {
    FirstRival(rows, input, c) && !Earlier(rows, c, input.requestId) && Early(rows[c].status)
  }

  lemma JudgeExactly(rows: map<string, RequestRow>, input: BindInput, c: string)
    requires Bindable(rows, input)
    ensures Judge(rows, input) == CancelCurrent(c) <==> Yields(rows, input, c)
    ensures Judge(rows, input) == CancelCandidate(c) <==> Displaces(rows, input, c)
  {
    if input.override.None? {
      var ids := Candidates(rows, input, rows[input.requestId].requestType);
      assert forall x | x in rows :: x in ids <==> Rival(rows, input, x);
      var first := FirstCandidate(rows, input, rows[input.requestId].requestType);
      if first.Some? {
        assert FirstRival(rows, input, first.value);
        if FirstRival(rows, input, c) && c != first.value {
          BeforeTotal(rows, c, first.value);
        }
      }
    }
  }

  // ----- what a bind writes -----

  /** The own row after a bind: bound, with the override noted, one version on. */
  predicate BoundAs(row: RequestRow, after: RequestRow, input: BindInput, duplicateOf: Option<string>) {
    && after.environmentId == row.environmentId && after.requestType == row.requestType
    && after.createdAt == row.createdAt && after.currentAttemptId == row.currentAttemptId
    && after.subjectHash == Some(input.subjectHash) && after.keyVersion == Some(input.keyVersion)
    && after.canonicalizationVersion == Some(input.canonicalizationVersion)
    && after.duplicateOverride == input.override.Some? && after.duplicateOf == duplicateOf
    && after.version == row.version + 1
    && if duplicateOf.Some? then after.status == Cancelled && after.completedAt == Some(input.now)
       else after.status == IdentityVerified && after.completedAt == None
  }

  /** The row of a rival that gave way: cancelled in favour of the new request, one version on. */
  predicate CancelledFor(row: RequestRow, after: RequestRow, input: BindInput) {
    after == row.(status := Cancelled, duplicateOf := Some(input.requestId), completedAt := Some(input.now),
                  version := row.version + 1)
  }

  /** The request rows and the answer of a bind that is not a repeat. */
  lemma BindWrites(h: Hasher, db: Db, input: BindInput, stamps: seq<Stamp>)
    requires |stamps| >= 2 && Bind(h, db, input, stamps).Ok? && !Repeats(db, input)
    ensures Admitted(db, input)
    ensures var (next, result) := Bind(h, db, input, stamps).value;
            var rows, after, id := db.requests, next.requests, input.requestId;
            && after.Keys == rows.Keys && result.requestId == id
            && BoundAs(rows[id], after[id], input, result.duplicateOf)
            && (forall c :: result.duplicateOf == Some(c) <==> Yields(rows, input, c))
            && result.outcome == (if result.duplicateOf.Some? then DuplicateCancelled
                                  else if input.override.Some? then DuplicateOverridden else Bound)
            && forall other | other in rows && other != id ::
                 if Displaces(rows, input, other) then CancelledFor(rows[other], after[other], input)
                 else after[other] == rows[other]
  {
    ChecksExactly(db, input);
    CheckedIsBindable(db, input);
    forall c
      ensures Judge(db.requests, input) == CancelCurrent(c) <==> Yields(db.requests, input, c)
      ensures Judge(db.requests, input) == CancelCandidate(c) <==> Displaces(db.requests, input, c)
    {
      JudgeExactly(db.requests, input, c);
    }
  }

  /** The first alias of a kind and hash. */
  function FirstAlias(aliases: seq<Alias>, kind: string, subjectHash: string): Option<Alias>
    decreases |aliases|
  {
    if aliases == [] then None
    else if aliases[0].kind == kind && aliases[0].subjectHash == subjectHash then Some(aliases[0])
    else FirstAlias(aliases[1..], kind, subjectHash)
  }

  lemma {:induction false} FirstAliasSnoc(aliases: seq<Alias>, last: Alias, kind: string, subjectHash: string)
    ensures FirstAlias(aliases + [last], kind, subjectHash) ==
            if FirstAlias(aliases, kind, subjectHash).Some? then FirstAlias(aliases, kind, subjectHash)
            else FirstAlias([last], kind, subjectHash)
    decreases |aliases|
  {
    if aliases == [] {
      assert aliases + [last] == [last];
    } else {
      assert (aliases + [last])[1..] == aliases[1..] + [last];
      FirstAliasSnoc(aliases[1..], last, kind, subjectHash);
    }
  }

  /** An alias that was there stays; of the new ones each kind and hash gets its first. */
  lemma {:induction false} AliasesWritten(
      table: map<(string, string, string), Alias>, requestId: string, aliases: seq<Alias>, owner: string, kind: string,
      subjectHash: string)
    ensures var after, key := PutAliases(table, requestId, aliases), (owner, kind, subjectHash);
            var added := if owner == requestId then FirstAlias(aliases, kind, subjectHash) else None;
            if key in table then key in after && after[key] == table[key]
            else (key in after <==> added.Some?) && (key in after ==> after[key] == added.value)
  {
    if aliases != [] {
      var n := |aliases| - 1;
      AliasesWritten(table, requestId, aliases[..n], owner, kind, subjectHash);
      FirstAliasSnoc(aliases[..n], aliases[n], kind, subjectHash);
      assert aliases == aliases[..n] + [aliases[n]];
    }
  }

  /** The other tables: the request's envelope is gone, its aliases are in, nothing else changes. */
  lemma BindSpares(h: Hasher, db: Db, input: BindInput, stamps: seq<Stamp>)
    requires |stamps| >= 2 && Bind(h, db, input, stamps).Ok?
    ensures var next := Bind(h, db, input, stamps).value.0;
            && next.environments == db.environments && next.agents == db.agents && next.attempts == db.attempts
            && input.requestId !in next.envelopes
            && (forall id | id != input.requestId ::
                  && (id in next.envelopes <==> id in db.envelopes)
                  && (id in db.envelopes ==> next.envelopes[id] == db.envelopes[id]))
            && (Repeats(db, input) ==>
                  next.requests == db.requests && next.journal == db.journal && next.aliases == db.aliases)
            && (!Repeats(db, input) ==> next.aliases == PutAliases(db.aliases, input.requestId, input.aliases))
  {
    ChecksExactly(db, input);
  }

  /** Sending a bind again answers as the first time and changes nothing more. */
  lemma BindTwice(h: Hasher, db: Db, input: BindInput, stamps: seq<Stamp>, again: seq<Stamp>)
    requires |stamps| >= 2 && |again| >= 2 && Bind(h, db, input, stamps).Ok?
    ensures var first := Bind(h, db, input, stamps).value;
            Bind(h, first.0, input, again) == Ok(first)
  {
    var (next, result) := Bind(h, db, input, stamps).value;
    ChecksExactly(db, input);
    ChecksExactly(next, input);
    assert next.envelopes - {input.requestId} == next.envelopes;
  }

  // ----- what a bind records -----

  /** An audit link and its outbox row hold what a note and a stamp say. */
  predicate LinkTells(link: Link, row: OutboxRow, note: Note, stamp: Stamp) {
    && link.event.id == stamp.id && link.event.environmentId == note.environmentId
    && link.event.requestId == note.requestId && link.event.actor == note.actor && link.event.action == note.action
    && link.event.metadata == note.metadata && link.event.createdAt == stamp.at
    && row.id == stamp.id && row.environmentId == note.environmentId && row.aggregateId == note.requestId
    && row.action == note.action && row.payload == note.metadata && row.occurredAt == stamp.at
  }

  /** A journal continues another by the notes, one link and one outbox row each, in order. */
  ghost predicate Extends(j: Journal, next: Journal, notes: seq<Note>, stamps: seq<Stamp>)
    requires |notes| <= |stamps|
  {
    && |next.audit| == |j.audit| + |notes| && |next.outbox| == |j.outbox| + |notes|
    && j.audit <= next.audit && j.outbox <= next.outbox
    && forall i | 0 <= i < |notes| ::
         LinkTells(next.audit[|j.audit| + i], next.outbox[|j.outbox| + i], notes[i], stamps[i])
  }

  lemma {:induction false} AppendAllExtends(h: Hasher, j: Journal, notes: seq<Note>, stamps: seq<Stamp>)
    requires |notes| <= |stamps| && AppendAll(h, j, notes, stamps).Ok?
    ensures Extends(j, AppendAll(h, j, notes, stamps).value, notes, stamps)
  {
    if notes != [] {
      var n := |notes| - 1;
      AppendAllExtends(h, j, notes[..n], stamps[..n]);
      var before, next := AppendAll(h, j, notes[..n], stamps[..n]).value, AppendAll(h, j, notes, stamps).value;
      assert Append(h, before, notes[n], stamps[n]) == Ok(next);
      forall i | 0 <= i < |notes|
        ensures LinkTells(next.audit[|j.audit| + i], next.outbox[|j.outbox| + i], notes[i], stamps[i])
      {
        if i < n {
          assert LinkTells(before.audit[|j.audit| + i], before.outbox[|j.outbox| + i], notes[..n][i], stamps[..n][i]);
        }
      }
    }
  }

  /** The note of a rival that gave way, by the agent. */
  predicate TellsDisplaced(note: Note, input: BindInput, c: string) {
    && note.environmentId == input.environmentId && note.requestId == c
    && note.actor == Actor(Agent, input.agentId) && note.action == "PrivacyRequestDuplicateCancelled"
    && note.metadata == DuplicateNote(input.requestId)
  }

  /** The note of the bind itself: by the owner who overrides, with the reason, or by the agent. */
  predicate TellsBound(note: Note, input: BindInput, duplicateOf: Option<string>) {
    && note.environmentId == input.environmentId && note.requestId == input.requestId
    && note.metadata.BindNote? && note.metadata.bindDuplicateOf == duplicateOf
    && note.metadata.keyVersion == input.keyVersion
    && note.metadata.canonicalizationVersion == input.canonicalizationVersion
    && match input.override
       case Some(override) =>
         && note.actor == Actor(User, override.ownerActorId) && note.action == "SubjectDuplicateOverrideApplied"
         && note.metadata.reason == Some(override.reason)
       case None =>
         && note.actor == Actor(Agent, input.agentId) && note.metadata.reason == None
         && note.action == if duplicateOf.Some? then "PrivacyRequestDuplicateCancelled" else "SubjectIdentityBound"
  }

  /** The journal after a bind: a rival that gave way first, then the request, at the time of the bind. */
  lemma BindRecords(h: Hasher, db: Db, input: BindInput, stamps: seq<Stamp>) returns (notes: seq<Note>)
    requires |stamps| >= 2 && Bind(h, db, input, stamps).Ok? && !Repeats(db, input)
    ensures input.requestId in db.requests
    ensures 1 <= |notes| <= 2
    ensures Extends(db.journal, Bind(h, db, input, stamps).value.0.journal, notes, Timed(stamps, input.now))
    ensures TellsBound(notes[|notes| - 1], input, Bind(h, db, input, stamps).value.1.duplicateOf)
    ensures |notes| == 2 ==> Displaces(db.requests, input, notes[0].requestId)
                             && TellsDisplaced(notes[0], input, notes[0].requestId)
    ensures |notes| == 1 ==> forall c :: !Displaces(db.requests, input, c)
  {
    ChecksExactly(db, input);
    CheckedIsBindable(db, input);
    var v := Judge(db.requests, input);
    notes := BindNotes(input, v);
    AppendAllExtends(h, db.journal, notes, Timed(stamps, input.now));
    forall c
      ensures v == CancelCurrent(c) <==> Yields(db.requests, input, c)
      ensures v == CancelCandidate(c) <==> Displaces(db.requests, input, c)
    {
      JudgeExactly(db.requests, input, c);
    }
  }

  ghost predicate DisplacesOne(rows: map<string, RequestRow>, input: BindInput)
    requires input.requestId in rows
  {
    exists c :: Displaces(rows, input, c)
  }

  lemma NotesCounted(rows: map<string, RequestRow>, input: BindInput)
    requires Bindable(rows, input)
    ensures |BindNotes(input, Judge(rows, input))| == if DisplacesOne(rows, input) then 2 else 1
  {
    var v := Judge(rows, input);
    forall c
      ensures v == CancelCandidate(c) <==> Displaces(rows, input, c)
    {
      JudgeExactly(rows, input, c);
    }
  }

  /** The event ids a bind needs are new: one, or two when it displaces a rival. */
  ghost predicate IdsNew(db: Db, input: BindInput, stamps: seq<Stamp>)
    requires |stamps| >= 2 && input.requestId in db.requests
  {
    StampsFree(db.journal.audit, stamps, if DisplacesOne(db.requests, input) then 2 else 1)
  }

  /** What a bind answers, given an intact journal and index: it goes through exactly when it repeats a
    * committed one or everything it asks for holds and its event ids are new; else the first thing missing
    * is the error. */
  lemma BindAnswers(h: Hasher, db: Db, input: BindInput, stamps: seq<Stamp>)
    requires CollisionFree(h) && JournalIntact(h, db.journal) && OneActivePerSubject(db.requests)
    requires |stamps| >= 2
    ensures Bind(h, db, input, stamps).Ok? <==> Repeats(db, input) || (Admitted(db, input) && IdsNew(db, input, stamps))
    ensures Bind(h, db, input, stamps) == Err(UniqueViolation) <==>
              !Repeats(db, input) && Admitted(db, input) && !IdsNew(db, input, stamps)
    ensures forall e | e != UniqueViolation ::
              Bind(h, db, input, stamps) == Err(e) <==> !Repeats(db, input) && Refused(db, input, e)
  {
    ChecksExactly(db, input);
    BindSucceedsExactly(h, db, input, stamps);
    if Admitted(db, input) {
      CheckedIsBindable(db, input);
      NotesCounted(db.requests, input);
      IndexNeverAborts(db.requests, input);
      OnlyIdsMissing(h, db.journal, BindNotes(input, Judge(db.requests, input)), Timed(stamps, input.now));
    }
  }

  /** Whatever the tables hold, a bind that fails answers what it asks for that is missing, or a violated
    * unique index. */
  lemma BindErrs(h: Hasher, db: Db, input: BindInput, stamps: seq<Stamp>)
    requires |stamps| >= 2 && Bind(h, db, input, stamps).Err?
    ensures !Repeats(db, input)
    ensures var e := Bind(h, db, input, stamps).error;
            if Admitted(db, input) then e == UniqueViolation else Refused(db, input, e)
  {
    ChecksExactly(db, input);
    if Admitted(db, input) {
      OnlyIdsMissing(h, db.journal, BindNotes(input, Judge(db.requests, input)), Timed(stamps, input.now));
    }
  }

  lemma OnlyIdsMissing(h: Hasher, j: Journal, notes: seq<Note>, stamps: seq<Stamp>)
    requires |notes| <= |stamps| && notes != []
    ensures AppendAll(h, j, notes, stamps).Err? ==> AppendAll(h, j, notes, stamps) == Err(UniqueViolation)
  {
  }
}
