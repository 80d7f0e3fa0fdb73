/** Creations, commands, saves and binds together: what every interleaving of them keeps, and exactly
 *  when a transaction goes through. */
module Interleavings {
  import opened Wrappers
  import opened PrivacyRequest
  import opened PrivacyRequestTraces
  import opened HashChain
  import opened Store
  import opened AuditInvariants
  import opened Deduplication
  import B = BindEffects
  import P = AttemptPersistence

  ghost predicate AllSettled(rows: map<string, RequestRow>) {
    forall g :: GroupSettled(rows, g)
  }

  /** Attempts are stored as last committed, versions and chains are audited, and every subject has no
    * bound request or exactly one active, the earliest. */
  ghost predicate Sound(h: Hasher, world: P.World) {
    P.Consistent(world) && Audited(h, world.db) && AllSettled(world.db.requests)
  }

  // ----- every step -----

  /** Writing a row that is bound to nobody moves no group. */
  lemma UnboundRowKeepsGroup(rows: map<string, RequestRow>, next: map<string, RequestRow>, id: string, g: Subject)
    requires next.Keys == rows.Keys + {id} && next[id].subjectHash.None?
    requires id in rows ==> rows[id].subjectHash.None?
    requires forall other | other in rows && other != id :: next[other] == rows[other]
    requires GroupSettled(rows, g)
    ensures GroupSettled(next, g)
  {
    assert BoundIds(next, g) == BoundIds(rows, g);
    if winner :| Settled(rows, g, winner) {
      SameRowsSettled(rows, next, g, winner);
    }
  }

  /** A save goes through only for a row that is bound to nobody. */
  lemma SaveKeepsSettled(h: Hasher, db: Db, l: P.Live, id: string, step: P.Step)
    requires P.LiveOk(db, l, id) && step.SaveLive? && |l.log| <= |step.stamps|
    requires P.SaveOf(h, db, l, step).Ok? && AllSettled(db.requests)
    ensures AllSettled(P.SaveOf(h, db, l, step).value.requests)
  {
    var next := P.SaveOf(h, db, l, step).value.requests;
    P.SaveWrites(h, db, l, id, step);
    assert id in db.requests ==> db.requests[id].subjectHash.None?;
    forall g
      ensures GroupSettled(next, g)
    {
      assert GroupSettled(db.requests, g);
      UnboundRowKeepsGroup(db.requests, next, id, g);
    }
  }

  lemma BindKeepsSettled(h: Hasher, db: Db, input: BindInput, stamps: seq<Stamp>, g: Subject)
    requires |stamps| >= 2 && Bind(h, db, input, stamps).Ok? && GroupSettled(db.requests, g)
    ensures GroupSettled(Bind(h, db, input, stamps).value.0.requests, g)
  {
    if !IsRetry(db, input) {
      CheckedIsBindable(db, input);
      BindKeepsGroup(db.requests, input, g);
    }
  }

  lemma StepKeepsSettled(h: Hasher, world: P.World, step: P.Step)
    requires P.Consistent(world) && P.Allowed(world, step) && AllSettled(world.db.requests)
    ensures AllSettled(P.Next(h, world, step).db.requests)
  {
    match step
    case SaveLive(id, _, _, _) =>
      var l := world.live[id];
      assert P.LiveOk(world.db, l, id);
      if P.SaveOf(h, world.db, l, step).Ok? {
        SaveKeepsSettled(h, world.db, l, id, step);
      }
    case BindSubject(input, stamps) =>
      if Bind(h, world.db, input, stamps).Ok? {
        forall g
          ensures GroupSettled(Bind(h, world.db, input, stamps).value.0.requests, g)
        {
          assert GroupSettled(world.db.requests, g);
          BindKeepsSettled(h, world.db, input, stamps, g);
        }
      }
    case _ =>
  }

  lemma StepKeepsAudited(h: Hasher, world: P.World, step: P.Step)
    requires Audited(h, world.db) && P.Allowed(world, step)
    ensures Audited(h, P.Next(h, world, step).db)
  {
    match step
    case SaveLive(id, expected, stamps, at) =>
      var l := world.live[id];
      if P.SaveOf(h, world.db, l, step).Ok? {
        SaveKeepsAudited(h, world.db, l.info, Replay(l.log), P.PendingOf(l), expected, stamps, at);
      }
    case BindSubject(input, stamps) =>
      if Bind(h, world.db, input, stamps).Ok? {
        BindKeepsAudited(h, world.db, input, stamps);
      }
    case _ =>
  }

  /** Over every interleaving of creations, commands, saves and binds, attempts, audit and groups stay in
    * order together: in particular each subject keeps at most one active request, also past the saves. */
  lemma {:induction false} EveryInterleavingIsSound(h: Hasher, world: P.World, steps: seq<P.Step>)
    requires Sound(h, world) && P.AllowedRun(h, world, steps)
    ensures Sound(h, P.Run(h, world, steps))
    ensures OneActivePerSubject(P.Run(h, world, steps).db.requests)
    decreases |steps|
  {
    if steps == [] {
      SettledSatisfiesIndex(world.db.requests);
    } else {
      P.StepKeepsConsistent(h, world, steps[0]);
      StepKeepsAudited(h, world, steps[0]);
      StepKeepsSettled(h, world, steps[0]);
      EveryInterleavingIsSound(h, P.Next(h, world, steps[0]), steps[1..]);
    }
  }

  lemma EmptyWorldIsSound(h: Hasher, world: P.World)
    requires world.live == map[] && world.db.attempts == map[] && Fresh(world.db)
    ensures Sound(h, world)
  {
    P.EmptyWorldConsistent(world);
    assert forall env :: ChainIntact(h, world.db.journal, env);
    assert forall g :: BoundIds(world.db.requests, g) == {};
  }

  // ----- when a save goes through -----

  /** Exactly when something is pending, the caller names the committed version, the environment is known,
    * nobody has written the row since, and the new audit rows get new ids. Foreign keys, checks, triggers
    * and the unique indices on requests, attempts, sequences and hashes never decide. */
  lemma SaveSucceedsExactly(h: Hasher, world: P.World, step: P.Step)
    requires CollisionFree(h) && P.Consistent(world) && JournalIntact(h, world.db.journal)
    requires step.SaveLive? && P.Allowed(world, step)
    ensures var l := world.live[step.id];
            && P.LiveOk(world.db, l, step.id)
            && (P.SaveOf(h, world.db, l, step).Ok? <==>
                  && step.expectedVersion == l.committed < |l.log|
                  && l.info.environmentId in world.db.environments
                  && (l.committed > 0 ==> world.db.requests[step.id].version == l.committed)
                  && StampsFree(world.db.journal.audit, step.stamps, |l.log| - l.committed))
  {
    var l := world.live[step.id];
    assert P.LiveOk(world.db, l, step.id);
    P.SaveStoresAttempts(world, step.id);
    P.SaveDecided(h, world.db, l, step.id, step);
    P.PendingCount(l);
    AppendAllSucceeds(h, world.db.journal, EventNotes(l.info.environmentId, step.id, P.PendingOf(l)), step.stamps);
  }

  /** And a bind, in every sound world and given new event ids, exactly when it repeats a committed one or
    * nothing it asks for is missing; else the first thing missing is the error. */
  lemma BindAnswersInWorld(h: Hasher, world: P.World, step: P.Step)
    requires CollisionFree(h) && Sound(h, world) && step.BindSubject? && P.Allowed(world, step)
    requires StampsFree(world.db.journal.audit, step.bindStamps, 2)
    ensures var r := Bind(h, world.db, step.input, step.bindStamps);
            && (r.Ok? <==> B.Repeats(world.db, step.input) || B.Admitted(world.db, step.input))
            && forall e | e != UniqueViolation ::
                 r == Err(e) <==> !B.Repeats(world.db, step.input) && B.Refused(world.db, step.input, e)
  {
    SettledSatisfiesIndex(world.db.requests);
    B.BindAnswers(h, world.db, step.input, step.bindStamps);
  }
}
