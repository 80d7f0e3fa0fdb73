/** Job leases of the agent gateway: polling, leasing and heartbeats against stored rows. */
module JobLeases {
  import opened Wrappers
  import opened StringOrder

  const JOB_LEASE_MS := 60_000

  datatype AgentStatus = Pairing | Online | Outdated | Offline | Revoked

  datatype Agent = Agent(environmentId: string, status: AgentStatus)

  datatype Job = Job(
    environmentId: string, availableAt: int, expiresAt: int, leasedBy: Option<string>, leaseExpiresAt: Option<int>,
    attempt: nat, completedAt: Option<int>)

  datatype Tables = Tables(agents: map<string, Agent>, jobs: map<string, Job>)

  /** The agent, environment and job one call names, and its time. */
  datatype Call = Call(environmentId: string, agentId: string, jobId: string, now: int)

  predicate Working(t: Tables, environmentId: string, agentId: string) {
    && agentId in t.agents && t.agents[agentId].environmentId == environmentId
    && t.agents[agentId].status in {Online, Outdated}
  }

  predicate CanLease(job: Job, now: int) {
    job.completedAt.None? && job.availableAt <= now < job.expiresAt
  }

  predicate Live(job: Job, now: int) {
    job.leaseExpiresAt.Some? && job.leaseExpiresAt.value > now
  }

  function Leased(job: Job, agentId: string, now: int): Job {
    job.(leasedBy := Some(agentId), leaseExpiresAt := Some(now + JOB_LEASE_MS), attempt := job.attempt + 1)
  }

  datatype Answer = Refused | Again(job: Job) | Granted(job: Job)

  function Lease(t: Tables, c: Call): Answer {
    if !Working(t, c.environmentId, c.agentId) || c.jobId !in t.jobs then Refused
    else
      var job := t.jobs[c.jobId];
      if job.environmentId != c.environmentId || !CanLease(job, c.now) then Refused
      else if Live(job, c.now) then (if job.leasedBy == Some(c.agentId) then Again(job) else Refused)
      else Granted(Leased(job, c.agentId, c.now))
  }

  function Heartbeat(t: Tables, c: Call): Option<Job> {
    if !Working(t, c.environmentId, c.agentId) || c.jobId !in t.jobs then None
    else
      var job := t.jobs[c.jobId];
      if && job.environmentId == c.environmentId && job.leasedBy == Some(c.agentId) && Live(job, c.now)
         && job.expiresAt > c.now && job.completedAt.None?
      then Some(job.(leaseExpiresAt := Some(c.now + JOB_LEASE_MS)))
      else None
  }

  /** A job the poll may offer: leasable, and leased to nobody, not even to the asking agent. */
  predicate Offered(t: Tables, environmentId: string, agentId: string, now: int, jobId: string) {
    && Working(t, environmentId, agentId) && jobId in t.jobs && t.jobs[jobId].environmentId == environmentId
    && CanLease(t.jobs[jobId], now) && !Live(t.jobs[jobId], now)
  }

  predicate Sooner(t: Tables, a: string, b: string)
    requires a in t.jobs && b in t.jobs
  {
    || t.jobs[a].availableAt < t.jobs[b].availableAt
    || (t.jobs[a].availableAt == t.jobs[b].availableAt && Less(a, b))
  }

  /** A job of the environment that is due, not over and in nobody's lease, for an agent at work there. */
  predicate Waiting(t: Tables, environmentId: string, agentId: string, now: int, jobId: string) {
    && agentId in t.agents && t.agents[agentId].environmentId == environmentId
    && (t.agents[agentId].status == Online || t.agents[agentId].status == Outdated)
    && jobId in t.jobs
    && var job := t.jobs[jobId];
       && job.environmentId == environmentId && job.availableAt <= now && now < job.expiresAt && job.completedAt.None?
       && (job.leaseExpiresAt.None? || job.leaseExpiresAt.value <= now)
  }

  lemma OfferedExactly(t: Tables, environmentId: string, agentId: string, now: int, jobId: string)
    ensures Offered(t, environmentId, agentId, now, jobId) <==> Waiting(t, environmentId, agentId, now, jobId)
  {
  }

  class JobRepository {
    var agents: map<string, Agent>
    var jobs: map<string, Job>

    function View(): Tables
      reads this
    {
      Tables(agents, jobs)
    }

    constructor (agents: map<string, Agent>, jobs: map<string, Job>)
      ensures View() == Tables(agents, jobs)
    {
      this.agents, this.jobs := agents, jobs;
    }

    /** The first offered job by availability and id, or none exactly when none is offered. */
    method Poll(environmentId: string, agentId: string, now: int) returns (found: Option<string>)
      ensures found.None? <==> forall j :: !Waiting(View(), environmentId, agentId, now, j)
      ensures found.Some? ==>
                && Waiting(View(), environmentId, agentId, now, found.value)
                && forall j :: Waiting(View(), environmentId, agentId, now, j) && j != found.value ==>
                                 || jobs[found.value].availableAt < jobs[j].availableAt
                                 || (jobs[found.value].availableAt == jobs[j].availableAt && Less(found.value, j))
    {
      forall j
        ensures Offered(View(), environmentId, agentId, now, j) <==> Waiting(View(), environmentId, agentId, now, j)
      {
        OfferedExactly(View(), environmentId, agentId, now, j);
      }
      found := None;
      var todo := jobs.Keys;
      while todo != {}
        invariant todo <= jobs.Keys
        invariant found.None? ==> forall j <- jobs.Keys - todo :: !Offered(View(), environmentId, agentId, now, j)
        invariant found.Some? ==>
                    && found.value in jobs && Offered(View(), environmentId, agentId, now, found.value)
                    && forall j <- jobs.Keys - todo ::
                         Offered(View(), environmentId, agentId, now, j) && j != found.value ==>
                           Sooner(View(), found.value, j)
        decreases |todo|
      {
        var j :| j in todo;
        todo := todo - {j};
        if Offered(View(), environmentId, agentId, now, j) {
          if found.None? {
            found := Some(j);
          } else {
            LessTrichotomy(j, found.value);
            if Sooner(View(), j, found.value) {
              SoonerThanAll(View(), jobs.Keys - todo, environmentId, agentId, now, j, found.value);
              found := Some(j);
            }
          }
        }
      }
    }

    method LeaseJob(c: Call) returns (job: Option<Job>)
      modifies this`jobs
      ensures match Lease(old(View()), c)
              case Refused => job == None && jobs == old(jobs)
              case Again(held) => job == Some(held) && jobs == old(jobs)
              case Granted(row) => job == Some(row) && jobs == old(jobs)[c.jobId := row]
    {
      if c.agentId !in agents || agents[c.agentId].environmentId != c.environmentId
         || (agents[c.agentId].status != Online && agents[c.agentId].status != Outdated) {
        return None;
      }
      if c.jobId !in jobs || jobs[c.jobId].environmentId != c.environmentId || !CanLease(jobs[c.jobId], c.now) {
        return None;
      }
      var row := jobs[c.jobId];
      if row.leasedBy == Some(c.agentId) && row.leaseExpiresAt.Some? && row.leaseExpiresAt.value > c.now {
        return Some(row);
      }
      if row.leaseExpiresAt.Some? && row.leaseExpiresAt.value > c.now {
        return None;
      }
      row := row.(leasedBy := Some(c.agentId), leaseExpiresAt := Some(c.now + JOB_LEASE_MS), attempt := row.attempt + 1);
      jobs := jobs[c.jobId := row];
      job := Some(row);
    }

    method SendHeartbeat(c: Call) returns (job: Option<Job>)
      modifies this`jobs
      ensures job == Heartbeat(old(View()), c)
      ensures jobs == if job.Some? then old(jobs)[c.jobId := job.value] else old(jobs)
    {
      if c.jobId !in jobs {
        return None;
      }
      var row := jobs[c.jobId];
      if row.environmentId != c.environmentId || row.leasedBy != Some(c.agentId) || !Live(row, c.now)
         || row.expiresAt <= c.now || row.completedAt.Some? || !Working(View(), c.environmentId, c.agentId) {
        return None;
      }
      row := row.(leaseExpiresAt := Some(c.now + JOB_LEASE_MS));
      jobs := jobs[c.jobId := row];
      job := Some(row);
    }
  }

  lemma SoonerThanAll(
      t: Tables, ids: set<string>, environmentId: string, agentId: string, now: int, a: string, b: string)
    requires a in t.jobs && b in t.jobs && Sooner(t, a, b) && ids <= t.jobs.Keys
    requires forall j <- ids :: Offered(t, environmentId, agentId, now, j) && j != b && j != a ==> Sooner(t, b, j)
    ensures forall j <- ids :: Offered(t, environmentId, agentId, now, j) && j != a ==> Sooner(t, a, j)
  {
    forall j | j in ids && Offered(t, environmentId, agentId, now, j) && j != a && j != b
      ensures Sooner(t, a, j)
    {
      if Less(a, b) && Less(b, j) {
        LessTransitive(a, b, j);
      }
    }
  }

  // ----- what poll promises lease -----

  /** The agent's own lease of the job still runs. */
  predicate HeldNow(t: Tables, c: Call) {
    && c.agentId in t.agents && t.agents[c.agentId].environmentId == c.environmentId
    && (t.agents[c.agentId].status == Online || t.agents[c.agentId].status == Outdated)
    && c.jobId in t.jobs
    && var job := t.jobs[c.jobId];
       && job.environmentId == c.environmentId && c.now < job.expiresAt && job.completedAt.None?
       && job.leasedBy == Some(c.agentId) && job.leaseExpiresAt.Some? && c.now < job.leaseExpiresAt.value
  }

  /** What a poll offers can be leased at that instant, for sixty seconds and as one attempt more; what it
    * does not offer cannot be newly leased. An agent's own running lease is answered as it is. */
  lemma OfferedExactlyGranted(t: Tables, c: Call)
    ensures Lease(t, c).Granted? <==> Waiting(t, c.environmentId, c.agentId, c.now, c.jobId)
    ensures Lease(t, c).Again? <==> HeldNow(t, c) && t.jobs[c.jobId].availableAt <= c.now
    ensures Lease(t, c).Granted? ==>
              var before, job := t.jobs[c.jobId], Lease(t, c).job;
              && job.leasedBy == Some(c.agentId) && job.leaseExpiresAt == Some(c.now + 60_000)
              && job.attempt == before.attempt + 1
              && job.environmentId == before.environmentId && job.availableAt == before.availableAt
              && job.expiresAt == before.expiresAt && job.completedAt == before.completedAt
    ensures Lease(t, c).Again? ==> Lease(t, c).job == t.jobs[c.jobId]
  {
  }

  /** A heartbeat extends exactly the agent's own running lease, to sixty seconds from now. */
  lemma HeartbeatExtends(t: Tables, c: Call)
    ensures Heartbeat(t, c).Some? <==> HeldNow(t, c)
    ensures Heartbeat(t, c).Some? ==>
              var before, job := t.jobs[c.jobId], Heartbeat(t, c).value;
              && job.leaseExpiresAt == Some(c.now + 60_000) && job.leasedBy == before.leasedBy
              && job.attempt == before.attempt
              && job.environmentId == before.environmentId && job.availableAt == before.availableAt
              && job.expiresAt == before.expiresAt && job.completedAt == before.completedAt
  {
  }

  // ----- whole histories -----

  datatype Kind = Fresh | Held | Beat

  /** One successful answer to an agent about a job. */
  datatype Success = Success(agentId: string, at: int, kind: Kind)

  /** The repository's calls, and what else happens to its rows meanwhile. */
  datatype Step =
    | LeaseCall(c: Call)
    | HeartbeatCall(c: Call)
    | SetAgent(agentId: string, agent: Agent)
    | Enqueue(jobId: string, environmentId: string, availableAt: int, expiresAt: int)
    | Complete(jobId: string, at: int)

  /** The tables, the successful answers of each job so far, and the latest time seen. */
  datatype World = World(t: Tables, log: map<string, seq<Success>>, clock: int)

  function PutJob(w: World, jobId: string, job: Job): World {
    w.(t := w.t.(jobs := w.t.jobs[jobId := job]))
  }

  function Record(w: World, jobId: string, s: Success): World {
    if jobId in w.log then w.(log := w.log[jobId := w.log[jobId] + [s]]) else w
  }

  function Next(w: World, s: Step): World {
    match s
    case LeaseCall(c) =>
      var w := w.(clock := c.now);
      (match Lease(w.t, c)
       case Refused => w
       case Again(_) => Record(w, c.jobId, Success(c.agentId, c.now, Held))
       case Granted(job) => Record(PutJob(w, c.jobId, job), c.jobId, Success(c.agentId, c.now, Fresh)))
    case HeartbeatCall(c) =>
      var w := w.(clock := c.now);
      var r := Heartbeat(w.t, c);
      if r.None? then w else Record(PutJob(w, c.jobId, r.value), c.jobId, Success(c.agentId, c.now, Beat))
    case SetAgent(agentId, agent) => w.(t := w.t.(agents := w.t.agents[agentId := agent]))
    case Enqueue(jobId, environmentId, availableAt, expiresAt) =>
      if jobId in w.t.jobs then w
      else PutJob(w.(log := w.log[jobId := []]), jobId, Job(environmentId, availableAt, expiresAt, None, None, 0, None))
    case Complete(jobId, at) =>
      if jobId !in w.t.jobs then w else PutJob(w, jobId, w.t.jobs[jobId].(completedAt := Some(at)))
  }

  predicate Timely(w: World, s: Step) {
    (s.LeaseCall? || s.HeartbeatCall?) ==> s.c.now >= w.clock
  }

  predicate TimelyRun(w: World, steps: seq<Step>)
    decreases |steps|
  {
    steps == [] || (Timely(w, steps[0]) && TimelyRun(Next(w, steps[0]), steps[1..]))
  }

  function Run(w: World, steps: seq<Step>): World
    decreases |steps|
  {
    if steps == [] then w else Run(Next(w, steps[0]), steps[1..])
  }

  const EMPTY := World(Tables(map[], map[]), map[], 0)

  function Grants(log: seq<Success>): nat {
    if log == [] then 0 else Grants(log[..|log| - 1]) + if log[|log| - 1].kind == Fresh then 1 else 0
  }

  /** The time of the last fresh grant or heartbeat. */
  function LastRenewal(log: seq<Success>): Option<int> {
    if log == [] then None
    else if log[|log| - 1].kind != Held then Some(log[|log| - 1].at)
    else LastRenewal(log[..|log| - 1])
  }

  /** The agent answered last. */
  function Holder(log: seq<Success>): Option<string> {
    if log == [] then None else Some(log[|log| - 1].agentId)
  }

  /** Each fresh grant and heartbeat keeps every other agent out for the lease time. */
  predicate Exclusive(log: seq<Success>) {
    forall i, k :: 0 <= i < k < |log| && log[i].kind != Held && log[i].agentId != log[k].agentId ==>
                     log[k].at >= log[i].at + 60_000
  }

  predicate UpTo(log: seq<Success>, clock: int) {
    && (forall i :: 0 <= i < |log| ==> log[i].at <= clock)
    && (forall i :: 0 <= i < |log| && log[i].kind != Held ==> LastRenewal(log).Some? && log[i].at <= LastRenewal(log).value)
  }

  /** A job's row against the answers given about it. */
  predicate Matches(job: Job, log: seq<Success>, clock: int) {
    && job.attempt == Grants(log)
    && job.leasedBy == Holder(log)
    && job.leaseExpiresAt == (if LastRenewal(log).None? then None else Some(LastRenewal(log).value + 60_000))
    && Exclusive(log) && UpTo(log, clock)
  }

  predicate Consistent(w: World) {
    && w.log.Keys == w.t.jobs.Keys
    && forall j <- w.t.jobs.Keys :: Matches(w.t.jobs[j], w.log[j], w.clock)
  }

  lemma LogGrows(log: seq<Success>, s: Success, clock: int)
    requires UpTo(log, clock) && s.at >= clock
    requires LastRenewal(log).Some? || s.kind != Held
    ensures var after := log + [s];
            && Grants(after) == Grants(log) + (if s.kind == Fresh then 1 else 0)
            && Holder(after) == Some(s.agentId)
            && LastRenewal(after) == (if s.kind == Held then LastRenewal(log) else Some(s.at))
            && UpTo(after, s.at)
  {
    var after := log + [s];
    assert after[..|after| - 1] == log;
  }

  lemma StaysExclusive(log: seq<Success>, s: Success, clock: int)
    requires Exclusive(log) && UpTo(log, clock)
    requires LastRenewal(log).Some? && Holder(log) != Some(s.agentId) ==> LastRenewal(log).value + JOB_LEASE_MS <= s.at
    requires Holder(log) == Some(s.agentId) ==> OthersKeptOut(log, s)
    ensures Exclusive(log + [s])
  {
  }

  /** The windows of every agent but s's own have ended by s. */
  predicate OthersKeptOut(log: seq<Success>, s: Success) {
    forall i :: 0 <= i < |log| && log[i].kind != Held && log[i].agentId != s.agentId ==> log[i].at + JOB_LEASE_MS <= s.at
  }

  /** If the last answer went to the same agent, everyone else was out already then. */
  lemma SameHolderKeepsOut(log: seq<Success>, s: Success, clock: int)
    requires Exclusive(log) && UpTo(log, clock) && s.at >= clock && Holder(log) == Some(s.agentId)
    ensures OthersKeptOut(log, s)
  {
    var last := |log| - 1;
    forall i | 0 <= i < |log| && log[i].kind != Held && log[i].agentId != s.agentId
      ensures log[i].at + JOB_LEASE_MS <= s.at
    {
      assert i < last && log[last].at >= log[i].at + JOB_LEASE_MS;
    }
  }

  lemma AnswerKeepsMatch(job: Job, after: Job, log: seq<Success>, clock: int, s: Success)
    requires Matches(job, log, clock) && s.at >= clock
    requires s.kind == Fresh ==> !Live(job, s.at) && after == Leased(job, s.agentId, s.at)
    requires s.kind == Held ==> Live(job, s.at) && job.leasedBy == Some(s.agentId) && after == job
    requires s.kind == Beat ==> && Live(job, s.at) && job.leasedBy == Some(s.agentId)
                                && after == job.(leaseExpiresAt := Some(s.at + JOB_LEASE_MS))
    ensures Matches(after, log + [s], s.at)
  {
    LogGrows(log, s, clock);
    if Holder(log) == Some(s.agentId) {
      SameHolderKeepsOut(log, s, clock);
    }
    StaysExclusive(log, s, clock);
  }

  lemma TickKeepsConsistent(w: World, now: int)
    requires Consistent(w) && now >= w.clock
    ensures Consistent(w.(clock := now))
  {
    forall j | j in w.t.jobs
      ensures Matches(w.t.jobs[j], w.log[j], now)
    {
      assert Matches(w.t.jobs[j], w.log[j], w.clock);
    }
  }

  /** A write that touches one job keeps every other job's match. */
  lemma WriteKeepsConsistent(w: World, after: World, jobId: string)
    requires Consistent(w) && after.clock == w.clock
    requires jobId in after.t.jobs && jobId in after.log && Matches(after.t.jobs[jobId], after.log[jobId], w.clock)
    requires after.t.jobs == w.t.jobs[jobId := after.t.jobs[jobId]] && after.log == w.log[jobId := after.log[jobId]]
    ensures Consistent(after)
  {
    assert after.log.Keys == w.log.Keys + {jobId} == after.t.jobs.Keys;
    forall j | j in after.t.jobs
      ensures Matches(after.t.jobs[j], after.log[j], after.clock)
    {
      assert j != jobId ==> Matches(w.t.jobs[j], w.log[j], w.clock);
    }
  }

  lemma AnswerKeepsConsistent(w: World, jobId: string, job: Job, s: Success)
    requires Consistent(w) && w.clock == s.at && jobId in w.t.jobs && Matches(job, w.log[jobId] + [s], s.at)
    ensures Consistent(Record(PutJob(w, jobId, job), jobId, s))
  {
    WriteKeepsConsistent(w, Record(PutJob(w, jobId, job), jobId, s), jobId);
  }

  lemma PutSame(w: World, jobId: string)
    requires jobId in w.t.jobs
    ensures PutJob(w, jobId, w.t.jobs[jobId]) == w
  {
    assert w.t.jobs[jobId := w.t.jobs[jobId]] == w.t.jobs;
  }

  lemma LeaseKeepsConsistent(w: World, c: Call)
    requires Consistent(w) && c.now >= w.clock
    ensures Consistent(Next(w, LeaseCall(c)))
  {
    TickKeepsConsistent(w, c.now);
    var r := Lease(w.t, c);
    if !r.Refused? {
      var s := Success(c.agentId, c.now, if r.Granted? then Fresh else Held);
      AnswerKeepsMatch(w.t.jobs[c.jobId], r.job, w.log[c.jobId], w.clock, s);
      AnswerKeepsConsistent(w.(clock := c.now), c.jobId, r.job, s);
      PutSame(w.(clock := c.now), c.jobId);
    }
  }

  lemma HeartbeatKeepsConsistent(w: World, c: Call)
    requires Consistent(w) && c.now >= w.clock
    ensures Consistent(Next(w, HeartbeatCall(c)))
  {
    TickKeepsConsistent(w, c.now);
    var r := Heartbeat(w.t, c);
    if r.Some? {
      var s := Success(c.agentId, c.now, Beat);
      AnswerKeepsMatch(w.t.jobs[c.jobId], r.value, w.log[c.jobId], w.clock, s);
      AnswerKeepsConsistent(w.(clock := c.now), c.jobId, r.value, s);
    }
  }

  lemma StepKeepsConsistent(w: World, s: Step)
    requires Consistent(w) && Timely(w, s)
    ensures Consistent(Next(w, s))
  {
    match s
    case LeaseCall(c) => LeaseKeepsConsistent(w, c);
    case HeartbeatCall(c) => HeartbeatKeepsConsistent(w, c);
    case SetAgent(_, _) =>
    case Enqueue(jobId, _, _, _) =>
      if jobId !in w.t.jobs {
        WriteKeepsConsistent(w, Next(w, s), jobId);
      }
    case Complete(jobId, at) =>
      if jobId in w.t.jobs {
        assert Matches(w.t.jobs[jobId], w.log[jobId], w.clock);
        assert w.log[jobId := w.log[jobId]] == w.log;
        WriteKeepsConsistent(w, Next(w, s), jobId);
      }
  }

  /** Over any history with a clock that does not go back: `attempt` counts the fresh grants, the expiry
    * is the last fresh grant or heartbeat plus the lease time, and no agent is answered about a job
    * while a fresh grant or heartbeat of another still runs. */
  lemma {:induction false} EveryHistoryExcludes(w: World, steps: seq<Step>)
    requires Consistent(w) && TimelyRun(w, steps)
    ensures Consistent(Run(w, steps))
    decreases |steps|
  {
    if steps != [] {
      StepKeepsConsistent(w, steps[0]);
      EveryHistoryExcludes(Next(w, steps[0]), steps[1..]);
    }
  }

  lemma EmptyIsConsistent()
    ensures Consistent(EMPTY)
  {
  }
}
