/** The audit hash chain: building it, verifying it, and what a valid chain rules out. */
module HashChain {
  import opened Wrappers
  import opened PrivacyRequest

  datatype ActorType = User | Agent | System

  datatype Actor = Actor(actorType: ActorType, id: string)

  /** The metadata of the two writers: a domain event's payload, or what a subject bind notes. */
  datatype Metadata =
    | Payload(event: Event)
    | DuplicateNote(duplicateOf: string)
    | BindNote(bindDuplicateOf: Option<string>, keyVersion: int, canonicalizationVersion: int, reason: Option<string>)

  /** An audit event without its hashes: the whole of it enters the hash. */
  datatype AuditEvent = AuditEvent(
    id: string, environmentId: string, sequence: nat, requestId: string, actor: Actor, action: string,
    metadata: Metadata, createdAt: int)

  datatype Link = Link(event: AuditEvent, previousEventHash: Option<string>, eventHash: string)

  /** auditEventHash as a function of the previous hash and the event. */
  type Hasher = (Option<string>, AuditEvent) -> string

  datatype Verdict = Valid | BrokenAt(eventId: string)

  function Strip(chain: seq<Link>): (r: seq<AuditEvent>)
    ensures |r| == |chain|
  {
    seq(|chain|, i requires 0 <= i < |chain| => chain[i].event)
  }

  function PreviousHash(chain: seq<Link>, k: nat): Option<string>
    requires k <= |chain|
  {
    if k == 0 then None else Some(chain[k - 1].eventHash)
  }

  /** Link k continues the chain before it. */
  predicate GoodLink(h: Hasher, chain: seq<Link>, k: nat)
    requires k < |chain|
  {
    && chain[k].previousEventHash == PreviousHash(chain, k)
    && chain[k].eventHash == h(PreviousHash(chain, k), chain[k].event)
  }

  predicate Linked(h: Hasher, chain: seq<Link>) {
    forall k | 0 <= k < |chain| :: GoodLink(h, chain, k)
  }

  /** The chain over a list of events, from the hash that precedes it. */
  function Chain(h: Hasher, previous: Option<string>, events: seq<AuditEvent>): (r: seq<Link>)
    ensures |r| == |events|
    decreases events
  {
    if events == [] then []
    else
      var hash := h(previous, events[0]);
      [Link(events[0], previous, hash)] + Chain(h, Some(hash), events[1..])
  }

  lemma {:induction false} ChainSnoc(h: Hasher, previous: Option<string>, events: seq<AuditEvent>, e: AuditEvent)
    ensures var c := Chain(h, previous, events);
            var p := if c == [] then previous else Some(c[|c| - 1].eventHash);
            Chain(h, previous, events + [e]) == c + [Link(e, p, h(p, e))]
    decreases events
  {
    if events == [] {
      assert events + [e] == [e];
    } else {
      ChainSnoc(h, Some(h(previous, events[0])), events[1..], e);
      assert (events + [e])[1..] == events[1..] + [e];
    }
  }

  method BuildChain(h: Hasher, events: seq<AuditEvent>) returns (chain: seq<Link>)
    ensures chain == Chain(h, None, events)
  {
    var previous: Option<string> := None;
    chain := [];
    for i := 0 to |events|
      invariant chain == Chain(h, None, events[..i])
      invariant previous == if chain == [] then None else Some(chain[|chain| - 1].eventHash)
    {
      ChainSnoc(h, None, events[..i], events[i]);
      assert events[..i + 1] == events[..i] + [events[i]];
      var eventHash := h(previous, events[i]);
      chain := chain + [Link(events[i], previous, eventHash)];
      previous := Some(eventHash);
    }
    assert events[..|events|] == events;
  }

  /** Accepts exactly the chains whose links all continue; otherwise names the first that does not. */
  method VerifyChain(h: Hasher, chain: seq<Link>) returns (verdict: Verdict)
    ensures verdict == Valid <==> chain == Chain(h, None, Strip(chain))
    ensures verdict.BrokenAt? ==>
              exists k :: 0 <= k < |chain| && Linked(h, chain[..k]) && !GoodLink(h, chain, k)
                          && verdict.eventId == chain[k].event.id
  {
    LinkedIsBuilt(h, chain);
    var previous: Option<string> := None;
    for i := 0 to |chain|
      invariant previous == PreviousHash(chain, i)
      invariant forall k | 0 <= k < i :: GoodLink(h, chain, k)
    {
      var expected := h(previous, chain[i].event);
      if chain[i].previousEventHash != previous || chain[i].eventHash != expected {
        assert !GoodLink(h, chain, i);
        assert forall k | 0 <= k < i :: GoodLink(h, chain, k) ==> GoodLink(h, chain[..i], k);
        return BrokenAt(chain[i].event.id);
      }
      previous := Some(chain[i].eventHash);
    }
    return Valid;
  }

  /** A chain is linked exactly when it is what buildChain makes of its stripped events. */
  lemma {:induction false} LinkedIsBuilt(h: Hasher, chain: seq<Link>)
    ensures Linked(h, chain) <==> chain == Chain(h, None, Strip(chain))
  {
    if chain != [] {
      var n := |chain| - 1;
      var front := chain[..n];
      LinkedIsBuilt(h, front);
      ChainSnoc(h, None, Strip(front), chain[n].event);
      assert Strip(chain) == Strip(front) + [chain[n].event];
      assert chain == front + [chain[n]];
      assert forall k | 0 <= k < n :: GoodLink(h, front, k) == GoodLink(h, chain, k);
      var built := Chain(h, None, Strip(front));
      if Linked(h, chain) {
        assert GoodLink(h, chain, n);
        assert front == built;
      }
      if chain == Chain(h, None, Strip(chain)) {
        assert front == built;
        assert GoodLink(h, chain, n);
        assert forall k | 0 <= k < n :: GoodLink(h, front, k);
      }
    }
  }

  /** The hash is collision-free in the previous hash and the event. */
  ghost predicate CollisionFree(h: Hasher) {
    forall p, q, e, f :: h(p, e) == h(q, f) ==> p == q && e == f
  }

  /** Two valid chains with the same last hash are the same chain: no edit keeps the head. */
  lemma {:induction false} SameHeadSameChain(h: Hasher, a: seq<Link>, b: seq<Link>)
    requires CollisionFree(h)
    requires Linked(h, a) && Linked(h, b)
    requires a != [] && b != []
    requires a[|a| - 1].eventHash == b[|b| - 1].eventHash
    ensures a == b
  {
    var m, n := |a| - 1, |b| - 1;
    assert GoodLink(h, a, m) && GoodLink(h, b, n);
    assert a[m] == b[n];
    if m > 0 {
      assert Linked(h, a[..m]) by {
        assert forall k | 0 <= k < m :: GoodLink(h, a, k) ==> GoodLink(h, a[..m], k);
      }
      assert Linked(h, b[..n]) by {
        assert forall k | 0 <= k < n :: GoodLink(h, b, k) ==> GoodLink(h, b[..n], k);
      }
      SameHeadSameChain(h, a[..m], b[..n]);
    }
    assert a == a[..m] + [a[m]] && b == b[..n] + [b[n]];
  }
}
