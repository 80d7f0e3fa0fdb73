/** Pairing tokens, agents and their replacement, in the in-memory repository. */
module Pairing {
  import opened Wrappers

  datatype Mode = NoReplacement | Drain | Force

  datatype Token = Token(tenantId: string, environmentId: string, mode: Mode, expiresAt: int, consumedAt: Option<int>)

  datatype Status = Paired | Revoked

  datatype Agent = Agent(environmentId: string, publicSigningKey: string, status: Status, createdAt: int)

  datatype Ciphertext = Ciphertext(agentId: string, text: string)

  /** The repository's maps. */
  datatype State = State(
    tokens: map<string, Token>, agents: map<string, Agent>, tenants: map<string, string>,
    envelopes: map<string, set<string>>, attempts: map<string, set<string>>, statuses: map<string, string>,
    ciphertexts: map<string, Ciphertext>)

  datatype PairingError =
    | TokenInvalid | InvalidAgentKey | AlreadyActive | ReplacementRequiresOwner | BlockedActiveWork | AgentNotFound
    | EnvironmentNotFound

  datatype Registration = Registration(environmentId: string, publicSigningKey: string, subjectHmacKeyVersion: nat)

  /** The environments that exist, by tenant and id, with their key version; none if the repository was
    * built without them. */
  type Hierarchy = Option<map<(string, string), nat>>

  const NEEDS_REVIEW := "needs_review"

  function RequestsOf(m: map<string, set<string>>, environmentId: string): set<string> {
    if environmentId in m then m[environmentId] else {}
  }

  /** The requests with an active envelope or a running attempt in an environment. */
  function Affected(st: State, environmentId: string): set<string> {
    RequestsOf(st.envelopes, environmentId) + RequestsOf(st.attempts, environmentId)
  }

  predicate IsActive(st: State, environmentId: string, id: string) {
    id in st.agents && st.agents[id].environmentId == environmentId && st.agents[id].status != Revoked
  }

  predicate KeyVersionValid(h: Hierarchy, token: Token, r: Registration) {
    h.None? || ((token.tenantId, token.environmentId) in h.value
                && h.value[(token.tenantId, token.environmentId)] == r.subjectHmacKeyVersion)
  }

  function Review(statuses: map<string, string>, requests: set<string>): map<string, string> {
    statuses + map r | r in requests :: NEEDS_REVIEW
  }

  /** Why a consume is refused, given the environment's active agent if it has one. */
  function Refusal(h: Hierarchy, st: State, active: Option<string>, hash: string, r: Registration, now: int)
    : Option<PairingError>
    requires active.Some? ==> active.value in st.agents
  {
    if hash !in st.tokens || st.tokens[hash].consumedAt.Some? || st.tokens[hash].expiresAt <= now
       || st.tokens[hash].environmentId != r.environmentId then Some(TokenInvalid)
    else if !KeyVersionValid(h, st.tokens[hash], r) then Some(InvalidAgentKey)
    else if active.None? then None
    else if st.agents[active.value].publicSigningKey == r.publicSigningKey then Some(AlreadyActive)
    else if st.tokens[hash].mode == NoReplacement then Some(ReplacementRequiresOwner)
    else if st.tokens[hash].mode == Drain && Affected(st, r.environmentId) != {} then Some(BlockedActiveWork)
    else None
  }

  lemma ReviewOne(statuses: map<string, string>, requests: set<string>, r: string)
    ensures Review(statuses, requests)[r := NEEDS_REVIEW] == Review(statuses, requests + {r})
  {
  }

  function WithoutAgent(ciphertexts: map<string, Ciphertext>, agentId: string): map<string, Ciphertext> {
    map j | j in ciphertexts && ciphertexts[j].agentId != agentId :: ciphertexts[j]
  }

  /** What a forced replacement does beside replacing. */
  function Cleaned(st: State, environmentId: string, oldAgent: string): State {
    st.(statuses := Review(st.statuses, Affected(st, environmentId)),
        envelopes := st.envelopes - {environmentId}, attempts := st.attempts - {environmentId},
        ciphertexts := WithoutAgent(st.ciphertexts, oldAgent))
  }

  function AgentsAfter(agents: map<string, Agent>, active: Option<string>, newId: string, agent: Agent): map<string, Agent>
    requires active.Some? ==> active.value in agents
  {
    (if active.Some? then agents[active.value := agents[active.value].(status := Revoked)] else agents)[newId := agent]
  }

  /** The repository after a consume that is not refused. */
  function Replaced(st: State, active: Option<string>, hash: string, r: Registration, now: int, newId: string): State
    requires (active.Some? ==> active.value in st.agents) && hash in st.tokens
  {
    var token := st.tokens[hash];
    var base := if active.Some? && token.mode == Force then Cleaned(st, r.environmentId, active.value) else st;
    base.(tokens := st.tokens[hash := token.(consumedAt := Some(now))],
          agents := AgentsAfter(st.agents, active, newId, Agent(r.environmentId, r.publicSigningKey, Paired, now)),
          tenants := st.tenants[newId := token.tenantId])
  }

  /** The repository after a consume, and its answer. */
  function Consume(
    h: Hierarchy, st: State, active: Option<string>, hash: string, r: Registration, now: int, newId: string
  ): (State, Result<string, PairingError>)
    requires active.Some? ==> active.value in st.agents
  {
    var refusal := Refusal(h, st, active, hash, r, now);
    if refusal.Some? then (st, Err(refusal.value)) else (Replaced(st, active, hash, r, now, newId), Ok(newId))
  }

  function Issue(h: Hierarchy, st: State, hash: string, token: Token): (State, Result<(), PairingError>) {
    if h.Some? && (token.tenantId, token.environmentId) !in h.value then (st, Err(EnvironmentNotFound))
    else (st.(tokens := st.tokens[hash := token.(consumedAt := None)]), Ok(()))
  }

  function Revoke(st: State, tenantId: string, id: string): (State, Result<(), PairingError>) {
    if id !in st.tenants || st.tenants[id] != tenantId || id !in st.agents then (st, Err(AgentNotFound))
    else (st.(agents := st.agents[id := st.agents[id].(status := Revoked)]), Ok(()))
  }

  predicate OneActive(agents: map<string, Agent>) {
    forall a <- agents.Keys, b <- agents.Keys ::
      agents[a].status != Revoked && agents[b].status != Revoked && agents[a].environmentId == agents[b].environmentId
      ==> a == b
  }

  /** At most one agent per environment is not revoked, and every agent has a tenant. */
  predicate Inv(st: State) {
    && st.agents.Keys == st.tenants.Keys
    && OneActive(st.agents)
  }

  predicate ActiveIs(st: State, environmentId: string, active: Option<string>) {
    if active.Some? then IsActive(st, environmentId, active.value)
    else forall id <- st.agents.Keys :: !IsActive(st, environmentId, id)
  }

  class InMemoryPairingRepository {
    const hierarchy: Hierarchy
    var tokens: map<string, Token>
    var agents: map<string, Agent>
    var tenants: map<string, string>
    var envelopes: map<string, set<string>>
    var attempts: map<string, set<string>>
    var statuses: map<string, string>
    var ciphertexts: map<string, Ciphertext>

    function View(): State
      reads this
    {
      State(tokens, agents, tenants, envelopes, attempts, statuses, ciphertexts)
    }

    constructor (hierarchy: Hierarchy)
      ensures Inv(View()) && this.hierarchy == hierarchy
      ensures View() == State(map[], map[], map[], map[], map[], map[], map[])
    {
      this.hierarchy := hierarchy;
      tokens, agents, tenants := map[], map[], map[];
      envelopes, attempts, statuses, ciphertexts := map[], map[], map[], map[];
    }

    method FindActive(environmentId: string) returns (active: Option<string>)
      ensures ActiveIs(View(), environmentId, active)
    {
      var todo := agents.Keys;
      while todo != {}
        invariant todo <= agents.Keys
        invariant forall id <- agents.Keys - todo :: !IsActive(View(), environmentId, id)
        decreases |todo|
      {
        var id :| id in todo;
        if agents[id].environmentId == environmentId && agents[id].status != Revoked {
          return Some(id);
        }
        todo := todo - {id};
      }
      active := None;
    }

    method MarkForReview(requests: set<string>)
      modifies this`statuses
      ensures statuses == Review(old(statuses), requests)
    {
      var todo := requests;
      while todo != {}
        invariant todo <= requests
        invariant statuses == Review(old(statuses), requests - todo)
        decreases |todo|
      {
        var r :| r in todo;
        ReviewOne(old(statuses), requests - todo, r);
        assert requests - (todo - {r}) == requests - todo + {r};
        todo := todo - {r};
        statuses := statuses[r := NEEDS_REVIEW];
      }
      assert requests - todo == requests;
    }

    method DropCiphertexts(agentId: string)
      modifies this`ciphertexts
      ensures ciphertexts == WithoutAgent(old(ciphertexts), agentId)
    {
      var todo := ciphertexts.Keys;
      while todo != {}
        invariant todo <= old(ciphertexts).Keys
        invariant ciphertexts == map j | j in old(ciphertexts) && (j in todo || old(ciphertexts)[j].agentId != agentId)
                                     :: old(ciphertexts)[j]
        decreases |todo|
      {
        var j :| j in todo;
        todo := todo - {j};
        if ciphertexts[j].agentId == agentId {
          ciphertexts := ciphertexts - {j};
        }
      }
    }

    method IssueToken(hash: string, token: Token) returns (r: Result<(), PairingError>)
      modifies this`tokens
      ensures (View(), r) == Issue(hierarchy, old(View()), hash, token)
    {
      if hierarchy.Some? && (token.tenantId, token.environmentId) !in hierarchy.value {
        return Err(EnvironmentNotFound);
      }
      tokens := tokens[hash := token.(consumedAt := None)];
      r := Ok(());
    }

    /** newId is a fresh random id. */
    method ConsumeAndPair(hash: string, registration: Registration, now: int, newId: string)
      returns (r: Result<string, PairingError>, ghost active: Option<string>)
      requires newId !in agents
      modifies this
      ensures ActiveIs(old(View()), registration.environmentId, active)
      ensures (View(), r) == Consume(hierarchy, old(View()), active, hash, registration, now, newId)
    {
      var found := FindActive(registration.environmentId);
      active := found;
      if hash !in tokens || tokens[hash].consumedAt.Some? || tokens[hash].expiresAt <= now {
        return Err(TokenInvalid), active;
      }
      var token := tokens[hash];
      if token.environmentId != registration.environmentId {
        return Err(TokenInvalid), active;
      }
      if !KeyVersionValid(hierarchy, token, registration) {
        return Err(InvalidAgentKey), active;
      }
      if found.Some? {
        var current := agents[found.value];
        if current.publicSigningKey == registration.publicSigningKey {
          return Err(AlreadyActive), active;
        }
        if token.mode == NoReplacement {
          return Err(ReplacementRequiresOwner), active;
        }
        var affected := RequestsOf(envelopes, token.environmentId) + RequestsOf(attempts, token.environmentId);
        if token.mode == Drain && affected != {} {
          return Err(BlockedActiveWork), active;
        }
        if token.mode == Force {
          MarkForReview(affected);
          envelopes := envelopes - {token.environmentId};
          attempts := attempts - {token.environmentId};
          DropCiphertexts(found.value);
        }
        agents := agents[found.value := current.(status := Revoked)];
      }
      tokens := tokens[hash := token.(consumedAt := Some(now))];
      agents := agents[newId := Agent(token.environmentId, registration.publicSigningKey, Paired, now)];
      tenants := tenants[newId := token.tenantId];
      r := Ok(newId);
    }

    method RevokeAgent(tenantId: string, id: string) returns (r: Result<(), PairingError>)
      modifies this`agents
      ensures (View(), r) == Revoke(old(View()), tenantId, id)
    {
      if id !in tenants || tenants[id] != tenantId || id !in agents {
        return Err(AgentNotFound);
      }
      if agents[id].status != Revoked {
        agents := agents[id := agents[id].(status := Revoked)];
      } else {
        assert agents[id := agents[id].(status := Revoked)] == agents;
      }
      r := Ok(());
    }
  }

  // ----- one consume -----

  /** The token can be used for this registration now. */
  predicate TokenGood(st: State, hash: string, r: Registration, now: int) {
    && hash in st.tokens && st.tokens[hash].consumedAt == None && now < st.tokens[hash].expiresAt
    && st.tokens[hash].environmentId == r.environmentId
  }

  /** The registration names the key version of the token's environment, where environments are known. */
  predicate VersionGood(h: Hierarchy, token: Token, r: Registration) {
    h.Some? ==> (token.tenantId, token.environmentId) in h.value
                && h.value[(token.tenantId, token.environmentId)] == r.subjectHmacKeyVersion
  }

  /** Requests with work under way in the environment. */
  predicate Busy(st: State, environmentId: string) {
    || (environmentId in st.envelopes && st.envelopes[environmentId] != {})
    || (environmentId in st.attempts && st.attempts[environmentId] != {})
  }

  /** What a consume answers: the first of these refusals, or the new agent, registered under the token's
    * tenant with the key it came with. */
  lemma ConsumeAnswers(
      h: Hierarchy, st: State, active: Option<string>, hash: string, r: Registration, now: int, newId: string)
    requires active.Some? ==> active.value in st.agents
    ensures var (after, answer) := Consume(h, st, active, hash, r, now, newId);
            var good := TokenGood(st, hash, r, now);
            var fits := good && VersionGood(h, st.tokens[hash], r);
            var another := fits && active.Some? && st.agents[active.value].publicSigningKey != r.publicSigningKey;
            && (answer == Err(TokenInvalid) <==> !good)
            && (answer == Err(InvalidAgentKey) <==> good && !VersionGood(h, st.tokens[hash], r))
            && (answer == Err(AlreadyActive) <==> fits && active.Some? && !another)
            && (answer == Err(ReplacementRequiresOwner) <==> another && st.tokens[hash].mode == NoReplacement)
            && (answer == Err(BlockedActiveWork) <==>
                  another && st.tokens[hash].mode == Drain && Busy(st, r.environmentId))
            && (answer.Ok? <==>
                  && fits
                  && (active.None?
                      || (another && (st.tokens[hash].mode == Force
                                      || (st.tokens[hash].mode == Drain && !Busy(st, r.environmentId))))))
            && (answer.Ok? ==>
                  && answer.value == newId && newId in after.agents && newId in after.tenants
                  && after.agents[newId].environmentId == r.environmentId
                  && after.agents[newId].publicSigningKey == r.publicSigningKey
                  && after.agents[newId].status == Paired && after.agents[newId].createdAt == now
                  && after.tenants[newId] == st.tokens[hash].tenantId
                  && forall id | id in st.tenants && id != newId :: id in after.tenants && after.tenants[id] == st.tenants[id])
  {
    assert Affected(st, r.environmentId) == {} <==> !Busy(st, r.environmentId);
  }

  /** Issuing stores the token unused, over any token of that hash, if its environment exists or none are
    * known; and changes nothing else. */
  lemma IssueStores(h: Hierarchy, st: State, hash: string, token: Token)
    ensures var (after, answer) := Issue(h, st, hash, token);
            && (answer == Err(EnvironmentNotFound) <==>
                  h.Some? && (token.tenantId, token.environmentId) !in h.value)
            && (answer.Err? ==> after == st && answer.error == EnvironmentNotFound)
            && (answer.Ok? ==>
                  && after == st.(tokens := after.tokens)
                  && after.tokens.Keys == st.tokens.Keys + {hash}
                  && (forall other | other in st.tokens && other != hash :: after.tokens[other] == st.tokens[other])
                  && var stored := after.tokens[hash];
                     && stored.tenantId == token.tenantId && stored.environmentId == token.environmentId
                     && stored.mode == token.mode && stored.expiresAt == token.expiresAt && stored.consumedAt == None)
  {
  }

  /** Revoking is for the agent's own tenant; it ends that agent and nothing else. */
  lemma RevokeEnds(st: State, tenantId: string, id: string)
    ensures var (after, answer) := Revoke(st, tenantId, id);
            && (answer.Ok? <==> id in st.tenants && st.tenants[id] == tenantId && id in st.agents)
            && (answer.Err? ==> after == st && answer.error == AgentNotFound)
            && (answer.Ok? ==>
                  && after == st.(agents := after.agents)
                  && after.agents.Keys == st.agents.Keys
                  && (forall other | other in st.agents && other != id :: after.agents[other] == st.agents[other])
                  && after.agents[id].status == Revoked && after.agents[id].environmentId == st.agents[id].environmentId
                  && after.agents[id].publicSigningKey == st.agents[id].publicSigningKey
                  && after.agents[id].createdAt == st.agents[id].createdAt)
  {
  }

  lemma AgentsReplaced(agents: map<string, Agent>, environmentId: string, active: Option<string>, newId: string, agent: Agent)
    requires OneActive(agents) && newId !in agents && agent.environmentId == environmentId && agent.status != Revoked
    requires active.Some? ==> active.value in agents && agents[active.value].environmentId == environmentId
    requires forall id <- agents.Keys ::
               agents[id].environmentId == environmentId && agents[id].status != Revoked ==> active == Some(id)
    ensures var after := AgentsAfter(agents, active, newId, agent);
            && OneActive(after)
            && after.Keys == agents.Keys + {newId}
            && after[newId] == agent
            && (forall id <- after.Keys ::
                  after[id].environmentId == environmentId && after[id].status != Revoked <==> id == newId)
            && (forall id <- agents.Keys ::
                  after[id] == if active == Some(id) then agents[id].(status := Revoked) else agents[id])
  {
  }

  lemma ActiveAmong(st: State, environmentId: string, active: Option<string>)
    requires ActiveIs(st, environmentId, active)
    ensures forall id <- st.agents.Keys | st.agents[id].environmentId == environmentId && st.agents[id].status != Revoked ::
              IsActive(st, environmentId, id)
    ensures Inv(st) ==> forall id <- st.agents.Keys ::
              st.agents[id].environmentId == environmentId && st.agents[id].status != Revoked ==> active == Some(id)
  {
    forall id <- st.agents.Keys | st.agents[id].environmentId == environmentId && st.agents[id].status != Revoked
      ensures IsActive(st, environmentId, id)
    {
    }
  }

  /** A consume that fails changes nothing. One that succeeds leaves the new agent as the environment's
    * only active one, revokes the old one and no other, and uses the token up. */
  lemma ConsumeReplaces(
      h: Hierarchy, st: State, active: Option<string>, hash: string, r: Registration, now: int, newId: string)
    requires Inv(st) && ActiveIs(st, r.environmentId, active) && newId !in st.agents
    ensures var (after, result) := Consume(h, st, active, hash, r, now, newId);
            && Inv(after)
            && (result.Err? ==> after == st)
            && (result.Ok? ==>
                  && (forall id :: IsActive(after, r.environmentId, id) <==> id == newId)
                  && (forall id <- st.agents.Keys :: id in after.agents
                        && after.agents[id] == if active == Some(id) then st.agents[id].(status := Revoked) else st.agents[id])
                  && hash in st.tokens && after.tokens == st.tokens[hash := st.tokens[hash].(consumedAt := Some(now))])
  {
    if Refusal(h, st, active, hash, r, now).None? {
      ActiveAmong(st, r.environmentId, active);
      AgentsReplaced(st.agents, r.environmentId, active, newId, Agent(r.environmentId, r.publicSigningKey, Paired, now));
      assert OneActive(Replaced(st, active, hash, r, now, newId).agents);
    }
  }

  /** Without force, no agent is replaced while its environment has an active envelope or a running attempt,
    * and no work is touched. */
  lemma DrainWaitsForWork(
      h: Hierarchy, st: State, active: Option<string>, hash: string, r: Registration, now: int, newId: string)
    requires active.Some? ==> active.value in st.agents
    requires hash in st.tokens && st.tokens[hash].mode != Force
    ensures var (after, result) := Consume(h, st, active, hash, r, now, newId);
            && (result.Ok? && active.Some? ==> !Busy(st, r.environmentId))
            && after.envelopes == st.envelopes && after.attempts == st.attempts && after.statuses == st.statuses
            && after.ciphertexts == st.ciphertexts
  {
  }

  /** The exact effect of a forced pairing on other work: exactly when it replaces an active agent, every
    * affected request needs review, the environment has no envelope or attempt left, and no ciphertext of
    * the old agent remains; other environments, requests and agents keep theirs. */
  lemma ForceCleansUp(
      h: Hierarchy, st: State, active: Option<string>, hash: string, r: Registration, now: int, newId: string)
    requires active.Some? ==> active.value in st.agents
    requires hash in st.tokens && st.tokens[hash].mode == Force
    requires Consume(h, st, active, hash, r, now, newId).1.Ok?
    ensures var after := Consume(h, st, active, hash, r, now, newId).0;
            var env := r.environmentId;
            && (active.Some? ==>
                  && Affected(after, env) == {}
                  && (forall q <- Affected(st, env) :: q in after.statuses && after.statuses[q] == "needs_review")
                  && (forall j <- after.ciphertexts.Keys :: after.ciphertexts[j].agentId != active.value))
            && (active.None? ==>
                  && Affected(after, env) == Affected(st, env) && after.statuses == st.statuses
                  && after.ciphertexts == st.ciphertexts)
            && (forall e :: e != env ==>
                  && RequestsOf(after.envelopes, e) == RequestsOf(st.envelopes, e)
                  && RequestsOf(after.attempts, e) == RequestsOf(st.attempts, e))
            && (forall q <- after.statuses.Keys :: q in st.statuses || q in Affected(st, env))
            && after.ciphertexts.Keys <= st.ciphertexts.Keys
            && (forall q <- st.statuses.Keys :: q !in Affected(st, env) ==>
                  q in after.statuses && after.statuses[q] == st.statuses[q])
            && (forall j <- st.ciphertexts.Keys :: active != Some(st.ciphertexts[j].agentId) ==>
                  j in after.ciphertexts && after.ciphertexts[j] == st.ciphertexts[j])
  {
  }

  // ----- whole runs -----

  datatype Step =
    | IssueStep(hash: string, token: Token)
    | ConsumeStep(hash: string, registration: Registration, now: int, newId: string, active: Option<string>)
    | RevokeStep(tenantId: string, id: string)
    | MarkEnvelope(environmentId: string, requestId: string)
    | MarkAttempt(environmentId: string, requestId: string)
    | AddCiphertext(jobId: string, agentId: string, text: string)

  datatype Event = Issued(hash: string) | PairedBy(hash: string, agentId: string)

  datatype World = World(st: State, log: seq<Event>)

  function AddRequest(m: map<string, set<string>>, environmentId: string, requestId: string): map<string, set<string>> {
    m[environmentId := RequestsOf(m, environmentId) + {requestId}]
  }

  /** A consume step names the active agent it found, and a new id. */
  predicate Possible(w: World, s: Step) {
    s.ConsumeStep? ==> s.newId !in w.st.agents && ActiveIs(w.st, s.registration.environmentId, s.active)
  }

  function Next(h: Hierarchy, w: World, s: Step): World
    requires Possible(w, s)
  {
    match s
    case IssueStep(hash, token) =>
      var (st, r) := Issue(h, w.st, hash, token);
      World(st, if r.Ok? then w.log + [Issued(hash)] else w.log)
    case ConsumeStep(hash, registration, now, newId, active) =>
      var (st, r) := Consume(h, w.st, active, hash, registration, now, newId);
      World(st, if r.Ok? then w.log + [PairedBy(hash, newId)] else w.log)
    case RevokeStep(tenantId, id) => w.(st := Revoke(w.st, tenantId, id).0)
    case MarkEnvelope(env, request) => w.(st := w.st.(envelopes := AddRequest(w.st.envelopes, env, request)))
    case MarkAttempt(env, request) => w.(st := w.st.(attempts := AddRequest(w.st.attempts, env, request)))
    case AddCiphertext(job, agent, text) =>
      w.(st := w.st.(ciphertexts := w.st.ciphertexts[job := Ciphertext(agent, text)]))
  }

  predicate PossibleRun(h: Hierarchy, w: World, steps: seq<Step>)
    decreases |steps|
  {
    steps == [] || (Possible(w, steps[0]) && PossibleRun(h, Next(h, w, steps[0]), steps[1..]))
  }

  function Run(h: Hierarchy, w: World, steps: seq<Step>): World
    requires PossibleRun(h, w, steps)
    decreases |steps|
  {
    if steps == [] then w else Run(h, Next(h, w, steps[0]), steps[1..])
  }

  function Issues(log: seq<Event>, hash: string): nat {
    if log == [] then 0 else Issues(log[..|log| - 1], hash) + if log[|log| - 1] == Issued(hash) then 1 else 0
  }

  function Pairs(log: seq<Event>, hash: string): nat {
    if log == [] then 0
    else Pairs(log[..|log| - 1], hash) + if log[|log| - 1].PairedBy? && log[|log| - 1].hash == hash then 1 else 0
  }

  /** Tokens still usable count as issued and not yet paired. */
  predicate Paid(tokens: map<string, Token>, log: seq<Event>, hash: string) {
    Pairs(log, hash) + (if hash in tokens && tokens[hash].consumedAt.None? then 1 else 0) <= Issues(log, hash)
  }

  ghost predicate Safe(w: World) {
    Inv(w.st) && forall hash :: Paid(w.st.tokens, w.log, hash)
  }

  lemma CountsSnoc(log: seq<Event>, e: Event, hash: string)
    ensures Issues(log + [e], hash) == Issues(log, hash) + (if e == Issued(hash) then 1 else 0)
    ensures Pairs(log + [e], hash) == Pairs(log, hash) + (if e.PairedBy? && e.hash == hash then 1 else 0)
  {
    assert (log + [e])[..|log|] == log;
  }

  lemma IssueStaysPaid(tokens: map<string, Token>, log: seq<Event>, issued: string, token: Token, hash: string)
    requires Paid(tokens, log, hash)
    ensures Paid(tokens[issued := token], log + [Issued(issued)], hash)
  {
    CountsSnoc(log, Issued(issued), hash);
  }

  lemma PairingStaysPaid(tokens: map<string, Token>, log: seq<Event>, used: string, now: int, newId: string, hash: string)
    requires Paid(tokens, log, hash) && used in tokens && tokens[used].consumedAt.None?
    ensures Paid(tokens[used := tokens[used].(consumedAt := Some(now))], log + [PairedBy(used, newId)], hash)
  {
    CountsSnoc(log, PairedBy(used, newId), hash);
  }

  lemma ConsumeStaysPaid(h: Hierarchy, w: World, s: Step, hash: string)
    requires Paid(w.st.tokens, w.log, hash) && s.ConsumeStep? && Possible(w, s)
    ensures Paid(Next(h, w, s).st.tokens, Next(h, w, s).log, hash)
  {
    if Refusal(h, w.st, s.active, s.hash, s.registration, s.now).None? {
      PairingStaysPaid(w.st.tokens, w.log, s.hash, s.now, s.newId, hash);
    }
  }

  lemma StepStaysPaid(h: Hierarchy, w: World, s: Step, hash: string)
    requires Paid(w.st.tokens, w.log, hash) && Possible(w, s)
    ensures Paid(Next(h, w, s).st.tokens, Next(h, w, s).log, hash)
  {
    match s
    case IssueStep(issued, token) =>
      IssueStaysPaid(w.st.tokens, w.log, issued, token.(consumedAt := None), hash);
    case ConsumeStep(_, _, _, _, _) => ConsumeStaysPaid(h, w, s, hash);
    case _ =>
  }

  lemma StepIsSafe(h: Hierarchy, w: World, s: Step)
    requires Safe(w) && Possible(w, s)
    ensures Safe(Next(h, w, s))
  {
    var after := Next(h, w, s);
    forall hash
      ensures Paid(after.st.tokens, after.log, hash)
    {
      StepStaysPaid(h, w, s, hash);
    }
    if s.ConsumeStep? {
      ConsumeReplaces(h, w.st, s.active, s.hash, s.registration, s.now, s.newId);
    }
  }

  /** Over any run, an environment has at most one active agent, and a token hash pairs at most as often
    * as it was issued; so a token issued once pairs at most once. */
  lemma {:induction false} EveryRunIsSafe(h: Hierarchy, w: World, steps: seq<Step>)
    requires Safe(w) && PossibleRun(h, w, steps)
    ensures Safe(Run(h, w, steps))
    decreases |steps|
  {
    if steps != [] {
      StepIsSafe(h, w, steps[0]);
      EveryRunIsSafe(h, Next(h, w, steps[0]), steps[1..]);
    }
  }

  predicate NoIssue(steps: seq<Step>, hash: string) {
    forall s <- steps :: !(s.IssueStep? && s.hash == hash)
  }

  predicate Usable(st: State, hash: string) {
    hash in st.tokens && st.tokens[hash].consumedAt.None?
  }

  lemma StepKeepsUsed(h: Hierarchy, w: World, s: Step, hash: string)
    requires Possible(w, s) && !Usable(w.st, hash) && !(s.IssueStep? && s.hash == hash)
    ensures !Usable(Next(h, w, s).st, hash) && Pairs(Next(h, w, s).log, hash) == Pairs(w.log, hash)
  {
    match s
    case IssueStep(issued, _) => CountsSnoc(w.log, Issued(issued), hash);
    case ConsumeStep(used, _, _, newId, _) => CountsSnoc(w.log, PairedBy(used, newId), hash);
    case _ =>
  }

  /** Once a hash is used, or as long as it was never issued, no run pairs with it again unless the hash
    * is issued in that run. */
  lemma {:induction false} UsedPairsNoMore(h: Hierarchy, w: World, steps: seq<Step>, hash: string)
    requires PossibleRun(h, w, steps) && !Usable(w.st, hash) && NoIssue(steps, hash)
    ensures Pairs(Run(h, w, steps).log, hash) == Pairs(w.log, hash)
    decreases |steps|
  {
    if steps != [] {
      assert steps[0] in steps;
      StepKeepsUsed(h, w, steps[0], hash);
      UsedPairsNoMore(h, Next(h, w, steps[0]), steps[1..], hash);
    }
  }

  const EMPTY := World(State(map[], map[], map[], map[], map[], map[], map[]), [])

  lemma {:induction false} RunAppend(h: Hierarchy, w: World, a: seq<Step>, b: seq<Step>)
    requires PossibleRun(h, w, a) && PossibleRun(h, Run(h, w, a), b)
    ensures PossibleRun(h, w, a + b) && Run(h, w, a + b) == Run(h, Run(h, w, a), b)
    decreases |a|
  {
    if a == [] {
      assert a + b == b;
    } else {
      assert (a + b)[1..] == a[1..] + b;
      RunAppend(h, Next(h, w, a[0]), a[1..], b);
    }
  }

  lemma RunTwo(h: Hierarchy, w: World, s: Step, t: Step)
    requires Possible(w, s) && Possible(Next(h, w, s), t)
    ensures PossibleRun(h, w, [s, t]) && Run(h, w, [s, t]) == Next(h, Next(h, w, s), t)
  {
    var w1 := Next(h, w, s);
    assert [s, t][1..] == [t] && [t][1..] == [];
    assert PossibleRun(h, w1, [t]) && Run(h, w1, [t]) == Next(h, w1, t);
  }

  /** What an issue and a consume with a new key do in an environment without active work. */
  lemma IssueThenPair(w: World, hash: string, token: Token, key: string, now: int, newId: string, active: Option<string>)
    returns (steps: seq<Step>)
    requires Inv(w.st) && newId !in w.st.agents && ActiveIs(w.st, token.environmentId, active)
    requires Affected(w.st, token.environmentId) == {} && token.mode == Drain && now < token.expiresAt
    requires active.Some? ==> w.st.agents[active.value].publicSigningKey != key
    ensures PossibleRun(None, w, steps)
    ensures var after := Run(None, w, steps);
            && after.log == w.log + [Issued(hash)] + [PairedBy(hash, newId)]
            && Inv(after.st) && ActiveIs(after.st, token.environmentId, Some(newId))
            && after.st.agents.Keys == w.st.agents.Keys + {newId}
            && after.st.agents[newId].publicSigningKey == key
            && Affected(after.st, token.environmentId) == {}
  {
    var r := Registration(token.environmentId, key, 1);
    var issue, consume := IssueStep(hash, token), ConsumeStep(hash, r, now, newId, active);
    var w1 := Next(None, w, issue);
    steps := [issue, consume];
    assert Refusal(None, w1.st, active, hash, r, now).None?;
    ConsumeReplaces(None, w1.st, active, hash, r, now, newId);
    RunTwo(None, w, issue, consume);
  }

  /** And when it is, the hash can pair a second time: issue, consume, issue again, consume again. */
  lemma ReissuedHashPairsTwice(hash: string, token: Token, now: int)
    returns (steps: seq<Step>)
    requires token.mode == Drain && now < token.expiresAt
    ensures PossibleRun(None, EMPTY, steps)
    ensures Pairs(Run(None, EMPTY, steps).log, hash) == 2
  {
    var first := IssueThenPair(EMPTY, hash, token, "k1", now, "a1", None);
    var w := Run(None, EMPTY, first);
    var second := IssueThenPair(w, hash, token, "k2", now, "a2", Some("a1"));
    steps := first + second;
    RunAppend(None, EMPTY, first, second);
    CountsSnoc([], Issued(hash), hash);
    CountsSnoc([] + [Issued(hash)], PairedBy(hash, "a1"), hash);
    CountsSnoc(w.log, Issued(hash), hash);
    CountsSnoc(w.log + [Issued(hash)], PairedBy(hash, "a2"), hash);
  }

  // ----- active work -----

  /** A pairing that ends the environment's active work by force. */
  predicate Forces(h: Hierarchy, w: World, s: Step, environmentId: string)
    requires Possible(w, s)
  {
    && s.ConsumeStep? && s.registration.environmentId == environmentId && s.active.Some?
    && Refusal(h, w.st, s.active, s.hash, s.registration, s.now).None? && w.st.tokens[s.hash].mode == Force
  }

  /** No forced pairing in an environment, and no revocation of an agent, anywhere in a run. */
  predicate LeavesAlone(h: Hierarchy, w: World, steps: seq<Step>, environmentId: string, id: string)
    requires PossibleRun(h, w, steps)
    decreases |steps|
  {
    steps == []
    || (!Forces(h, w, steps[0], environmentId) && !(steps[0].RevokeStep? && steps[0].id == id)
        && LeavesAlone(h, Next(h, w, steps[0]), steps[1..], environmentId, id))
  }

  lemma ConsumeKeepsWork(
      h: Hierarchy, st: State, active: Option<string>, hash: string, r: Registration, now: int, newId: string,
      environmentId: string, id: string)
    requires Inv(st) && ActiveIs(st, r.environmentId, active) && newId !in st.agents
    requires IsActive(st, environmentId, id) && Affected(st, environmentId) != {}
    requires r.environmentId == environmentId && Refusal(h, st, active, hash, r, now).None? ==> st.tokens[hash].mode != Force
    ensures var after := Consume(h, st, active, hash, r, now, newId).0;
            IsActive(after, environmentId, id) && Affected(st, environmentId) <= Affected(after, environmentId)
  {
    ConsumeReplaces(h, st, active, hash, r, now, newId);
    if r.environmentId == environmentId {
      ActiveAmong(st, environmentId, active);
      assert active == Some(id);
      assert Refusal(h, st, active, hash, r, now).Some?;
    } else {
      assert active != Some(id);
    }
  }

  lemma StepKeepsWork(h: Hierarchy, w: World, s: Step, environmentId: string, id: string)
    requires Inv(w.st) && Possible(w, s) && IsActive(w.st, environmentId, id) && Affected(w.st, environmentId) != {}
    requires !Forces(h, w, s, environmentId) && !(s.RevokeStep? && s.id == id)
    ensures IsActive(Next(h, w, s).st, environmentId, id)
    ensures Affected(w.st, environmentId) <= Affected(Next(h, w, s).st, environmentId)
  {
    match s
    case ConsumeStep(hash, r, now, newId, active) =>
      if r.environmentId == environmentId {
        ActiveAmong(w.st, environmentId, active);
      }
      ConsumeKeepsWork(h, w.st, active, hash, r, now, newId, environmentId, id);
    case _ =>
  }

  /** While an environment has an active envelope or a running attempt, its active agent stays active and
    * the work stays, over every run without a forced pairing there and without revoking that agent. */
  lemma {:induction false} WorkKeepsItsAgent(h: Hierarchy, w: World, steps: seq<Step>, environmentId: string, id: string)
    requires Safe(w) && PossibleRun(h, w, steps) && LeavesAlone(h, w, steps, environmentId, id)
    requires IsActive(w.st, environmentId, id) && Affected(w.st, environmentId) != {}
    ensures IsActive(Run(h, w, steps).st, environmentId, id)
    ensures Affected(w.st, environmentId) <= Affected(Run(h, w, steps).st, environmentId)
    decreases |steps|
  {
    if steps != [] {
      StepIsSafe(h, w, steps[0]);
      StepKeepsWork(h, w, steps[0], environmentId, id);
      WorkKeepsItsAgent(h, Next(h, w, steps[0]), steps[1..], environmentId, id);
    }
  }

  /** A revoked agent stays revoked. */
  lemma StepKeepsRevoked(h: Hierarchy, w: World, s: Step, id: string)
    requires Possible(w, s) && id in w.st.agents && w.st.agents[id].status == Revoked
    ensures id in Next(h, w, s).st.agents && Next(h, w, s).st.agents[id].status == Revoked
  {
    match s
    case ConsumeStep(hash, registration, now, newId, active) =>
      if Refusal(h, w.st, active, hash, registration, now).None? {
        var agent := Agent(registration.environmentId, registration.publicSigningKey, Paired, now);
        var after := AgentsAfter(w.st.agents, active, newId, agent);
        assert id != newId && after[id].status == Revoked;
      }
    case _ =>
  }

  lemma {:induction false} RevokedForever(h: Hierarchy, w: World, steps: seq<Step>, id: string)
    requires PossibleRun(h, w, steps) && id in w.st.agents && w.st.agents[id].status == Revoked
    ensures id in Run(h, w, steps).st.agents && Run(h, w, steps).st.agents[id].status == Revoked
    decreases |steps|
  {
    if steps != [] {
      StepKeepsRevoked(h, w, steps[0], id);
      RevokedForever(h, Next(h, w, steps[0]), steps[1..], id);
    }
  }
}
