/** Aggregates in memory, their saves and the binds of the other writer, in any interleaving: the
 *  attempts table always holds exactly what was last committed, and its constraints never fire. */
module AttemptPersistence {
  import opened Wrappers
  import opened PrivacyRequest
  import opened PrivacyRequestTraces
  import opened HashChain
  import opened Store

  // ----- one request's rows -----

  /** The table's rows of this request are exactly these attempts. */
  ghost predicate StoredFor(table: map<string, Attempt>, requestId: string, attempts: seq<Attempt>) {
    && (forall i | 0 <= i < |attempts| :: attempts[i].id in table && table[attempts[i].id] == attempts[i])
    && (forall k | k in table && table[k].requestId == requestId :: HasId(attempts, k))
  }

  ghost predicate HasId(attempts: seq<Attempt>, id: string) {
    exists i :: 0 <= i < |attempts| && attempts[i].id == id
  }

  /** The rows of every other request are untouched, and new rows belong to this one. */
  ghost predicate OthersKept(table: map<string, Attempt>, next: map<string, Attempt>, requestId: string) {
    && (forall k | k in table :: k in next && next[k].requestId == table[k].requestId)
    && (forall k | k in next && next[k].requestId != requestId :: k in table && next[k] == table[k])
  }

  /** No id of these attempts is taken by another request. */
  ghost predicate NoClash(table: map<string, Attempt>, requestId: string, attempts: seq<Attempt>) {
    forall i | 0 <= i < |attempts| && attempts[i].id in table :: table[attempts[i].id].requestId == requestId
  }

  /** Half way through the upserts: the first n rows are new, the rest as last committed. */
  ghost predicate Upserted(table: map<string, Attempt>, t: map<string, Attempt>, requestId: string,
                           before: seq<Attempt>, after: seq<Attempt>, n: nat)
    requires n <= |after| && |before| <= |after|
  {
    && (forall i | 0 <= i < n :: after[i].id in t && t[after[i].id] == after[i])
    && (forall i | n <= i < |before| :: before[i].id in t && t[before[i].id] == before[i])
    && (forall k | k in t && t[k].requestId == requestId :: HasId(after[..n], k) || HasId(before, k))
    && OthersKept(table, t, requestId)
  }

  lemma PrefixIds(attempts: seq<Attempt>, n: nat, k: string)
    requires n < |attempts|
    ensures HasId(attempts[..n + 1], k) <==> HasId(attempts[..n], k) || k == attempts[n].id
  {
    assert attempts[..n + 1] == attempts[..n] + [attempts[n]];
    if HasId(attempts[..n], k) {
      var i :| 0 <= i < n && attempts[..n][i].id == k;
      assert attempts[..n + 1][i].id == k;
    }
    assert attempts[..n + 1][n] == attempts[n];
  }

  /** A row number that is not stored yet: the insert branch, past every unique index. */
  lemma NewRowIsFree(table: map<string, Attempt>, t: map<string, Attempt>, requestId: string, before: seq<Attempt>,
                     after: seq<Attempt>, n: nat)
    requires Evolves(before, after) && RowsOk(after, requestId)
    requires NoClash(table, requestId, after)
    requires |before| <= n < |after| && Upserted(table, t, requestId, before, after, n)
    ensures after[n].id !in t
    ensures forall k | k in t && t[k].requestId == requestId :: t[k].number != after[n].number
  {
    assert RowOk(after[n], requestId, n + 1);
    forall k | k in t && t[k].requestId == requestId ensures t[k].number != after[n].number && k != after[n].id {
      var i: int;
      if HasId(after[..n], k) {
        i :| 0 <= i < n && after[..n][i].id == k;
      } else {
        i :| 0 <= i < |before| && before[i].id == k;
      }
      assert after[i].id == k && t[k] == after[i];
      assert RowOk(after[i], requestId, i + 1);
    }
  }

  lemma PutStores(table: map<string, Attempt>, t: map<string, Attempt>, requestId: string, before: seq<Attempt>,
                  after: seq<Attempt>, n: nat)
    requires Evolves(before, after) && RowsOk(after, requestId)
    requires NoClash(table, requestId, after)
    requires n < |after| && Upserted(table, t, requestId, before, after, n)
    ensures PutAttempt(t, after[n]) == Ok(t[after[n].id := after[n]])
    ensures after[n].id in t ==> t[after[n].id].requestId == requestId
  {
    assert RowOk(after[n], requestId, n + 1);
    if n < |before| {
      assert t[after[n].id] == before[n];
      assert t[after[n].id].completedAt.Some? ==> t == t[after[n].id := after[n]];
    } else {
      NewRowIsFree(table, t, requestId, before, after, n);
    }
  }

  lemma StoredMoves(table: map<string, Attempt>, t: map<string, Attempt>, requestId: string, before: seq<Attempt>,
                    after: seq<Attempt>, n: nat)
    requires |before| <= |after| && n < |after| && Upserted(table, t, requestId, before, after, n)
    requires forall i | 0 <= i < |after| && i != n :: after[i].id != after[n].id
    requires forall i | 0 <= i < |before| :: before[i].id == after[i].id
    requires after[n].requestId == requestId
    requires after[n].id in t ==> t[after[n].id].requestId == requestId
    ensures Upserted(table, t[after[n].id := after[n]], requestId, before, after, n + 1)
  {
    var next := t[after[n].id := after[n]];
    forall k | k in next && next[k].requestId == requestId ensures HasId(after[..n + 1], k) || HasId(before, k) {
      PrefixIds(after, n, k);
    }
  }

  lemma UpsertStep(table: map<string, Attempt>, t: map<string, Attempt>, requestId: string, before: seq<Attempt>,
                   after: seq<Attempt>, n: nat)
    requires Evolves(before, after) && RowsOk(after, requestId)
    requires NoClash(table, requestId, after)
    requires n < |after| && Upserted(table, t, requestId, before, after, n)
    ensures PutAttempt(t, after[n]).Ok?
    ensures Upserted(table, PutAttempt(t, after[n]).value, requestId, before, after, n + 1)
  {
    PutStores(table, t, requestId, before, after, n);
    assert RowOk(after[n], requestId, n + 1);
    assert forall i | 0 <= i < |after| && i != n :: after[i].id != after[n].id;
    StoredMoves(table, t, requestId, before, after, n);
  }

  lemma {:induction false} UpsertPrefix(table: map<string, Attempt>, requestId: string, before: seq<Attempt>,
                                        after: seq<Attempt>, n: nat)
    requires StoredFor(table, requestId, before)
    requires Evolves(before, after) && RowsOk(after, requestId)
    requires NoClash(table, requestId, after)
    requires n <= |after|
    ensures PutAttempts(table, after[..n]).Ok?
    ensures Upserted(table, PutAttempts(table, after[..n]).value, requestId, before, after, n)
  {
    if n > 0 {
      UpsertPrefix(table, requestId, before, after, n - 1);
      assert after[..n][..n - 1] == after[..n - 1];
      UpsertStep(table, PutAttempts(table, after[..n - 1]).value, requestId, before, after, n - 1);
    }
  }

  /** Upserting a later state of the attempts succeeds, stores exactly that state, and touches no
    * other request: neither the column checks nor the trigger nor the unique index can fire. */
  lemma UpsertStoresEvolved(table: map<string, Attempt>, requestId: string, before: seq<Attempt>,
                            after: seq<Attempt>)
    requires StoredFor(table, requestId, before)
    requires Evolves(before, after) && RowsOk(after, requestId)
    requires NoClash(table, requestId, after)
    ensures PutAttempts(table, after).Ok?
    ensures StoredFor(PutAttempts(table, after).value, requestId, after)
    ensures OthersKept(table, PutAttempts(table, after).value, requestId)
  {
    UpsertPrefix(table, requestId, before, after, |after|);
    assert after[..|after|] == after;
    assert forall k | HasId(before, k) :: HasId(after, k) by {
      assert forall i | 0 <= i < |before| :: after[i].id == before[i].id;
    }
  }

  // ----- the world -----

  /** An aggregate in memory: all it recorded, and how many of its events are committed. */
  datatype Live = Live(info: RequestInfo, log: seq<Entry>, committed: nat)

  datatype World = World(db: Db, live: map<string, Live>)

  datatype Step =
    | Create(info: RequestInfo)
    | Call(id: string, command: Command, at: string)
    | SaveLive(id: string, expectedVersion: int, stamps: seq<Stamp>, persistedAt: int)
    | BindSubject(input: BindInput, bindStamps: seq<Stamp>)

  function CreatedEntry(info: RequestInfo): Entry {
    Entry(RequestCreated(info.id, info.environmentId), "")
  }

  function PendingOf(l: Live): seq<Event>
    requires l.committed <= |l.log|
  {
    seq(|l.log| - l.committed, i requires 0 <= i < |l.log| - l.committed => l.log[l.committed + i].event)
  }

  function SaveOf(h: Hasher, db: Db, l: Live, step: Step): Result<Db, StoreError>
    requires step.SaveLive?
    requires Started(l.log) && l.committed <= |l.log| && |step.stamps| >= |l.log|
  {
    Save(h, db, l.info, Replay(l.log), PendingOf(l), step.expectedVersion, step.stamps, step.persistedAt)
  }

  /** What the environment guarantees: request ids are fresh, and an attempt id is not one that another
    * request uses. */
  ghost predicate Allowed(world: World, step: Step) {
    match step
    case Create(info) => info.id !in world.live
    case Call(id, command, _) =>
      && id in world.live && Started(world.live[id].log)
      && var d := Decide(Replay(world.live[id].log), command);
         d.Accept? && d.event.Authorized? ==>
           forall other | other in world.live && other != id ::
             !HasId(AttemptsOf(world.live[other]), d.event.attemptId)
    case SaveLive(id, _, stamps, _) =>
      && id in world.live && Started(world.live[id].log) && world.live[id].committed <= |world.live[id].log| <= |stamps|
    case BindSubject(_, stamps) => |stamps| >= 2
  }

  ghost function Next(h: Hasher, world: World, step: Step): World
    requires Allowed(world, step)
  {
    match step
    case Create(info) => world.(live := world.live[info.id := Live(info, [CreatedEntry(info)], 0)])
    case Call(id, command, at) =>
      var l := world.live[id];
      (match Decide(Replay(l.log), command)
       case Accept(e) => world.(live := world.live[id := l.(log := l.log + [Entry(e, at)])])
       case Throw(_) => world)
    case SaveLive(id, _, _, _) =>
      var l := world.live[id];
      (match SaveOf(h, world.db, l, step)
       case Ok(db) => World(db, world.live[id := l.(committed := |l.log|)])
       case Err(_) => world)
    case BindSubject(input, stamps) =>
      match Bind(h, world.db, input, stamps)
      case Ok(next) => world.(db := next.0)
      case Err(_) => world
  }

  function AttemptsOf(l: Live): seq<Attempt> {
    if Started(l.log) then Replay(l.log).attempts else []
  }

  /** The attempts at the last commit. */
  function CommittedAttempts(l: Live): seq<Attempt>
    requires Started(l.log) && l.committed <= |l.log|
  {
    if l.committed == 0 then [] else Replay(l.log[..l.committed]).attempts
  }

  ghost predicate LogOk(l: Live, id: string) {
    && l.info.id == id
    && Reachable(l.log)
    && l.log[0] == CreatedEntry(l.info)
    && l.committed <= |l.log|
  }

  /** The stored row against the aggregate: the lock version never falls behind, and while it is equal
    * nobody else has written the row. */
  ghost predicate RowOkFor(db: Db, l: Live)
    requires Reachable(l.log) && l.committed <= |l.log|
  {
    && (l.info.id in db.requests <==> l.committed > 0)
    && (l.committed > 0 ==>
          var row := db.requests[l.info.id];
          && row.environmentId == l.info.environmentId
          && row.version >= l.committed
          && (row.version == l.committed ==>
                row.subjectHash.None? && row.status == Replay(l.log[..l.committed]).status))
  }

  ghost predicate LiveOk(db: Db, l: Live, id: string) {
    LogOk(l, id) && RowOkFor(db, l) && StoredFor(db.attempts, id, CommittedAttempts(l))
  }

  ghost predicate IdsDisjoint(live: map<string, Live>) {
    forall a, b, k | a in live && b in live && a != b ::
      !(HasId(AttemptsOf(live[a]), k) && HasId(AttemptsOf(live[b]), k))
  }

  ghost predicate Consistent(world: World) {
    && (forall id | id in world.live :: LiveOk(world.db, world.live[id], id))
    && IdsDisjoint(world.live)
    && (forall id | id in world.db.requests :: id in world.live)
    && (forall k | k in world.db.attempts :: world.db.attempts[k].requestId in world.live)
  }

  lemma CommittedEvolves(l: Live, id: string)
    requires LogOk(l, id)
    ensures Evolves(CommittedAttempts(l), AttemptsOf(l))
    ensures RowsOk(AttemptsOf(l), id)
  {
    AttemptHistory(l.log);
    VersionCountsEvents(l.log);
    if l.committed > 0 {
      CompletedAttemptsAreFinal(l.log, l.committed);
    }
  }

  lemma StoredIdIsLive(world: World, k: string)
    requires Consistent(world) && k in world.db.attempts
    ensures var owner := world.db.attempts[k].requestId;
            owner in world.live && HasId(AttemptsOf(world.live[owner]), k)
  {
    var owner := world.db.attempts[k].requestId;
    var l := world.live[owner];
    assert LiveOk(world.db, l, owner);
    CommittedEvolves(l, owner);
    var n :| 0 <= n < |CommittedAttempts(l)| && CommittedAttempts(l)[n].id == k;
    assert AttemptsOf(l)[n].id == k;
  }

  lemma NoClashFor(world: World, id: string)
    requires Consistent(world) && id in world.live
    ensures NoClash(world.db.attempts, id, AttemptsOf(world.live[id]))
  {
    var mine := AttemptsOf(world.live[id]);
    forall i | 0 <= i < |mine| && mine[i].id in world.db.attempts
      ensures world.db.attempts[mine[i].id].requestId == id
    {
      StoredIdIsLive(world, mine[i].id);
      assert HasId(mine, mine[i].id);
    }
  }

  /** In every consistent world a save's upserts succeed and leave the table equal to the aggregate's
    * attempts; no constraint of the attempts table can fire. */
  lemma SaveStoresAttempts(world: World, id: string)
    requires Consistent(world) && id in world.live
    ensures var put := PutAttempts(world.db.attempts, AttemptsOf(world.live[id]));
            && put.Ok?
            && StoredFor(put.value, id, AttemptsOf(world.live[id]))
            && OthersKept(world.db.attempts, put.value, id)
  {
    var l := world.live[id];
    assert LiveOk(world.db, l, id);
    CommittedEvolves(l, id);
    NoClashFor(world, id);
    UpsertStoresEvolved(world.db.attempts, id, CommittedAttempts(l), AttemptsOf(l));
  }

  // ----- every step keeps the world consistent -----

  lemma PendingCount(l: Live)
    requires l.committed <= |l.log|
    ensures |PendingOf(l)| == |l.log| - l.committed
  {
  }

  lemma CreateKeeps(h: Hasher, world: World, step: Step)
    requires Consistent(world) && step.Create? && Allowed(world, step)
    ensures Consistent(Next(h, world, step))
  {
    var next := Next(h, world, step);
    var l := next.live[step.info.id];
    assert l.log[0] == CreatedEntry(step.info);
    assert AttemptsOf(l) == [];
    forall id | id in next.live ensures LiveOk(next.db, next.live[id], id) {
      if id != step.info.id {
        assert LiveOk(world.db, world.live[id], id);
      }
    }
  }

  /** A longer log with nothing more committed still agrees with the stored rows. */
  lemma LongerLogOk(db: Db, l: Live, id: string, c: Command, at: string)
    requires LiveOk(db, l, id) && Decide(Replay(l.log), c).Accept?
    ensures LiveOk(db, l.(log := l.log + [Entry(Decide(Replay(l.log), c).event, at)]), id)
  {
    var entry := Entry(Decide(Replay(l.log), c).event, at);
    ReachableStep(l.log, c, entry);
    assert (l.log + [entry])[..l.committed] == l.log[..l.committed];
  }

  lemma CallKeeps(h: Hasher, world: World, step: Step)
    requires Consistent(world) && step.Call? && Allowed(world, step)
    ensures Consistent(Next(h, world, step))
  {
    var l := world.live[step.id];
    assert LiveOk(world.db, l, step.id);
    if Decide(Replay(l.log), step.command).Accept? {
      LongerLogOk(world.db, l, step.id, step.command, step.at);
      CallIds(l, step.id, step.command, step.at);
      var next := Next(h, world, step);
      forall id | id in next.live ensures LiveOk(next.db, next.live[id], id) {
        assert LiveOk(world.db, world.live[id], id);
      }
    }
  }

  /** A command adds the id of the attempt it authorises to those in use, and no other. */
  lemma CallIds(l: Live, id: string, c: Command, at: string)
    requires LogOk(l, id)
    requires Decide(Replay(l.log), c).Accept?
    ensures var e := Decide(Replay(l.log), c).event;
            var longer := l.(log := l.log + [Entry(e, at)]);
            forall k :: HasId(AttemptsOf(longer), k) ==>
                          HasId(AttemptsOf(l), k) || (e.Authorized? && k == e.attemptId)
  {
    var s := Replay(l.log);
    var e := Decide(s, c).event;
    var entry := Entry(e, at);
    ReachableStep(l.log, c, entry);
    DecisionsRecord(s, c);
    AttemptHistory(l.log);
    AttemptsStep(s, entry);
    var status, done := RowsChange(s, entry);
    var rows := Apply(s, entry).attempts;
    forall k | HasId(rows, k) ensures HasId(s.attempts, k) || (e.Authorized? && k == e.attemptId) {
      var i :| 0 <= i < |rows| && rows[i].id == k;
      if i < |s.attempts| {
        assert s.attempts[i].id == k;
      }
    }
  }

  /** A bind rewrites rows only together with their version, and no attempt. */
  lemma BindMovesVersions(h: Hasher, db: Db, input: BindInput, stamps: seq<Stamp>)
    requires |stamps| >= 2 && Bind(h, db, input, stamps).Ok?
    ensures var next := Bind(h, db, input, stamps).value.0;
            && next.attempts == db.attempts
            && next.requests.Keys == db.requests.Keys
            && forall id | id in db.requests ::
                 && next.requests[id].environmentId == db.requests[id].environmentId
                 && (next.requests[id] == db.requests[id] || next.requests[id].version > db.requests[id].version)
  {
  }

  lemma BindKeeps(h: Hasher, world: World, step: Step)
    requires Consistent(world) && step.BindSubject? && Allowed(world, step)
    ensures Consistent(Next(h, world, step))
  {
    if Bind(h, world.db, step.input, step.bindStamps).Ok? {
      var db := Bind(h, world.db, step.input, step.bindStamps).value.0;
      BindMovesVersions(h, world.db, step.input, step.bindStamps);
      forall id | id in world.live ensures LiveOk(db, world.live[id], id) {
        assert LiveOk(world.db, world.live[id], id);
      }
    }
  }

  /** What a successful save of a live aggregate writes; it can only succeed on a row nobody else has
    * written since the aggregate's last commit. */
  lemma SaveWrites(h: Hasher, db: Db, l: Live, id: string, step: Step)
    requires LiveOk(db, l, id) && step.SaveLive? && |l.log| <= |step.stamps|
    requires SaveOf(h, db, l, step).Ok?
    ensures step.expectedVersion == l.committed < |l.log|
    ensures l.committed > 0 ==> db.requests[id].version == l.committed
    ensures var next := SaveOf(h, db, l, step).value;
            && PutAttempts(db.attempts, AttemptsOf(l)) == Ok(next.attempts)
            && next.requests.Keys == db.requests.Keys + {id}
            && (forall other | other in db.requests && other != id :: next.requests[other] == db.requests[other])
            && next.requests[id].environmentId == l.info.environmentId
            && next.requests[id].version == |l.log|
            && next.requests[id].subjectHash.None?
            && next.requests[id].status == Replay(l.log).status
  {
    PendingCount(l);
    VersionCountsEvents(l.log);
  }

  lemma OthersStored(table: map<string, Attempt>, next: map<string, Attempt>, id: string, other: string,
                     rows: seq<Attempt>)
    requires StoredFor(table, other, rows) && other != id
    requires OthersKept(table, next, id)
    requires forall i | 0 <= i < |rows| :: rows[i].requestId == other
    ensures StoredFor(next, other, rows)
  {
  }

  lemma OtherStaysOk(db: Db, next: Db, id: string, other: string, l: Live)
    requires LiveOk(db, l, other) && other != id
    requires OthersKept(db.attempts, next.attempts, id)
    requires next.requests.Keys == db.requests.Keys + {id}
    requires other in db.requests ==> next.requests[other] == db.requests[other]
    ensures LiveOk(next, l, other)
  {
    CommittedEvolves(l, other);
    var rows := CommittedAttempts(l);
    forall i | 0 <= i < |rows| ensures rows[i].requestId == other {
      assert RowOk(AttemptsOf(l)[i], other, i + 1);
    }
    OthersStored(db.attempts, next.attempts, id, other, rows);
  }

  lemma SaverStaysOk(h: Hasher, world: World, step: Step)
    requires Consistent(world) && step.SaveLive? && Allowed(world, step)
    requires SaveOf(h, world.db, world.live[step.id], step).Ok?
    ensures var l := world.live[step.id];
            var next := SaveOf(h, world.db, l, step).value;
            && LiveOk(next, l.(committed := |l.log|), step.id)
            && OthersKept(world.db.attempts, next.attempts, step.id)
            && next.requests.Keys == world.db.requests.Keys + {step.id}
            && forall id | id in world.db.requests && id != step.id :: next.requests[id] == world.db.requests[id]
  {
    var l := world.live[step.id];
    assert LiveOk(world.db, l, step.id);
    SaveStoresAttempts(world, step.id);
    SaveWrites(h, world.db, l, step.id, step);
    assert l.log[..|l.log|] == l.log;
  }

  lemma SavedWorld(world: World, id: string, db: Db, saver: Live)
    requires Consistent(world) && id in world.live
    requires LiveOk(db, saver, id) && saver.log == world.live[id].log
    requires OthersKept(world.db.attempts, db.attempts, id)
    requires db.requests.Keys == world.db.requests.Keys + {id}
    requires forall other | other in world.db.requests && other != id ::
               db.requests[other] == world.db.requests[other]
    ensures Consistent(World(db, world.live[id := saver]))
  {
    var live := world.live[id := saver];
    forall other | other in live ensures LiveOk(db, live[other], other) {
      if other != id {
        assert LiveOk(world.db, world.live[other], other);
        OtherStaysOk(world.db, db, id, other, world.live[other]);
      }
    }
    assert forall other | other in live :: AttemptsOf(live[other]) == AttemptsOf(world.live[other]);
    assert IdsDisjoint(live);
  }

  lemma SaveKeeps(h: Hasher, world: World, step: Step)
    requires Consistent(world) && step.SaveLive? && Allowed(world, step)
    ensures Consistent(Next(h, world, step))
  {
    var l := world.live[step.id];
    if SaveOf(h, world.db, l, step).Ok? {
      SaverStaysOk(h, world, step);
      SavedWorld(world, step.id, SaveOf(h, world.db, l, step).value, l.(committed := |l.log|));
    }
  }

  lemma StepKeepsConsistent(h: Hasher, world: World, step: Step)
    requires Consistent(world) && Allowed(world, step)
    ensures Consistent(Next(h, world, step))
  {
    match step
    case Create(_) => CreateKeeps(h, world, step);
    case Call(_, _, _) => CallKeeps(h, world, step);
    case SaveLive(_, _, _, _) => SaveKeeps(h, world, step);
    case BindSubject(_, _) => BindKeeps(h, world, step);
  }

  // ----- whole runs -----

  ghost predicate AllowedRun(h: Hasher, world: World, steps: seq<Step>)
    decreases |steps|
  {
    steps == [] || (Allowed(world, steps[0]) && AllowedRun(h, Next(h, world, steps[0]), steps[1..]))
  }

  ghost function Run(h: Hasher, world: World, steps: seq<Step>): World
    requires AllowedRun(h, world, steps)
    decreases |steps|
  {
    if steps == [] then world else Run(h, Next(h, world, steps[0]), steps[1..])
  }

  /** Rows only ever evolve: none disappears, its authorisation stays, and once completed it is final. */
  ghost predicate TableEvolves(before: map<string, Attempt>, after: map<string, Attempt>) {
    forall k | k in before ::
      && k in after
      && after[k] == before[k].(status := after[k].status, completedAt := after[k].completedAt)
      && (before[k].completedAt.Some? ==> after[k] == before[k])
  }

  lemma UpsertEvolvesTable(table: map<string, Attempt>, next: map<string, Attempt>, id: string,
                           before: seq<Attempt>, after: seq<Attempt>)
    requires StoredFor(table, id, before) && StoredFor(next, id, after)
    requires Evolves(before, after) && OthersKept(table, next, id)
    ensures TableEvolves(table, next)
  {
    forall k | k in table
      ensures k in next
      ensures next[k] == table[k].(status := next[k].status, completedAt := next[k].completedAt)
      ensures table[k].completedAt.Some? ==> next[k] == table[k]
    {
      if table[k].requestId == id {
        var i :| 0 <= i < |before| && before[i].id == k;
        assert after[i].id == k;
      }
    }
  }

  lemma StepEvolvesTable(h: Hasher, world: World, step: Step)
    requires Consistent(world) && Allowed(world, step)
    ensures TableEvolves(world.db.attempts, Next(h, world, step).db.attempts)
  {
    if step.SaveLive? && SaveOf(h, world.db, world.live[step.id], step).Ok? {
      var l := world.live[step.id];
      assert LiveOk(world.db, l, step.id);
      SaveStoresAttempts(world, step.id);
      SaveWrites(h, world.db, l, step.id, step);
      CommittedEvolves(l, step.id);
      UpsertEvolvesTable(world.db.attempts, Next(h, world, step).db.attempts, step.id, CommittedAttempts(l),
                         AttemptsOf(l));
    } else if step.BindSubject? && Bind(h, world.db, step.input, step.bindStamps).Ok? {
      BindMovesVersions(h, world.db, step.input, step.bindStamps);
    }
  }

  /** Over every run of creations, commands, saves and binds: the world stays consistent, so the table
    * holds each request's attempts as last committed, and completed attempts are final. */
  lemma {:induction false} EveryRunPersists(h: Hasher, world: World, steps: seq<Step>)
    requires Consistent(world)
    requires AllowedRun(h, world, steps)
    ensures Consistent(Run(h, world, steps))
    ensures TableEvolves(world.db.attempts, Run(h, world, steps).db.attempts)
    decreases |steps|
  {
    if steps != [] {
      StepKeepsConsistent(h, world, steps[0]);
      StepEvolvesTable(h, world, steps[0]);
      EveryRunPersists(h, Next(h, world, steps[0]), steps[1..]);
    }
  }

  lemma EmptyWorldConsistent(world: World)
    requires world.live == map[] && world.db.requests == map[] && world.db.attempts == map[]
    ensures Consistent(world)
  {
  }

  lemma CurrentAttemptStored(l: Live, id: string, table: map<string, Attempt>)
    requires LogOk(l, id)
    requires StoredFor(table, id, AttemptsOf(l))
    ensures var current := Replay(l.log).currentAttemptId;
            current.Some? ==> current.value in table && table[current.value].requestId == id
  {
    AttemptHistory(l.log);
    VersionCountsEvents(l.log);
    var rows := AttemptsOf(l);
    if rows != [] {
      assert RowOk(rows[|rows| - 1], id, |rows|);
    }
  }

  /** The row a save of a live aggregate writes is not bound, so the partial unique index ignores it. */
  lemma NeverIndexed(db: Db, l: Live, id: string, step: Step)
    requires LogOk(l, id) && RowOkFor(db, l)
    requires step.SaveLive? && step.expectedVersion == l.committed
    requires l.committed > 0 ==> db.requests[id].version == l.committed
    ensures SavedRow(db.requests, l.info, Replay(l.log), step.expectedVersion, step.persistedAt).Ok?
  {
  }

  lemma SaveDecided(h: Hasher, db: Db, l: Live, id: string, step: Step)
    requires LogOk(l, id) && RowOkFor(db, l)
    requires step.SaveLive? && |l.log| <= |step.stamps|
    requires var put := PutAttempts(db.attempts, AttemptsOf(l)); put.Ok? && StoredFor(put.value, id, AttemptsOf(l))
    ensures SaveOf(h, db, l, step).Ok? <==>
            && step.expectedVersion == l.committed < |l.log|
            && l.info.environmentId in db.environments
            && (l.committed > 0 ==> db.requests[id].version == l.committed)
            && AppendAll(h, db.journal, EventNotes(l.info.environmentId, id, PendingOf(l)), step.stamps).Ok?
  {
    if step.expectedVersion == l.committed && (l.committed > 0 ==> db.requests[id].version == l.committed) {
      NeverIndexed(db, l, id, step);
    }
    PendingCount(l);
    VersionCountsEvents(l.log);
    CurrentAttemptStored(l, id, PutAttempts(db.attempts, AttemptsOf(l)).value);
  }

  /** Another writer has raised the stored version past the aggregate's last commit. */
  ghost predicate Stale(world: World, id: string) {
    id in world.live && id in world.db.requests && world.db.requests[id].version > world.live[id].committed
  }

  lemma StaleStep(h: Hasher, world: World, step: Step, id: string)
    requires Consistent(world) && Allowed(world, step) && Stale(world, id)
    ensures Stale(Next(h, world, step), id)
    ensures Next(h, world, step).live[id].committed == world.live[id].committed
  {
    if step.SaveLive? && SaveOf(h, world.db, world.live[step.id], step).Ok? {
      assert LiveOk(world.db, world.live[step.id], step.id);
      SaveWrites(h, world.db, world.live[step.id], step.id, step);
    } else if step.BindSubject? && Bind(h, world.db, step.input, step.bindStamps).Ok? {
      BindMovesVersions(h, world.db, step.input, step.bindStamps);
    }
  }

  /** Once a bind has raised the stored version, the aggregate's saves conflict for good: a bound or
    * cancelled row is never overwritten by a stale aggregate. */
  lemma {:induction false} StaleAggregateNeverSaves(h: Hasher, world: World, steps: seq<Step>, id: string)
    requires Consistent(world) && AllowedRun(h, world, steps) && Stale(world, id)
    ensures Stale(Run(h, world, steps), id)
    ensures Run(h, world, steps).live[id].committed == world.live[id].committed
    decreases |steps|
  {
    if steps != [] {
      StepKeepsConsistent(h, world, steps[0]);
      StaleStep(h, world, steps[0], id);
      StaleAggregateNeverSaves(h, Next(h, world, steps[0]), steps[1..], id);
    }
  }
}
