/** The running router as a step system: any number of requests scan, sample, rank, walk, reserve,
    forward, commit and release, interleaved in any order with each other and with health probes.
    One step is one atomic access to shared state. */
module Fleet {
  import opened Words
  import opened Directory
  import opened Sorting
  import H = Health
  import S = Scorer

  // ---------------------------------------------------------------------------------------------
  // States
  // ---------------------------------------------------------------------------------------------

  datatype Server = Server(maxConcurrent: GoInt, depth: int, health: H.Status)

  datatype Job = Job(ns: string, blocks: Blocks)

  /** How the upstream exchange ended: no response at all; a streamed response with its upstream
      status, with or without a first byte, and possibly broken off; or a plain response, whose body
      may be cut short while it is copied. */
  datatype Outcome =
    | Unreachable
    | Streamed(status: int, firstByte: bool, failed: bool)
    | Responded(status: int, cut: bool)

  /** A stream answered with 400 or above is copied through and never counts as having a first byte. */
  predicate Possible(o: Outcome) {
    o.Streamed? && o.status >= 400 ==> !o.firstByte
  }

  /** The reply the client gets. */
  datatype Verdict =
    | NoHealthyBackend
    | NothingRanked
    | AllAtCapacity
    | Served(outcome: Outcome)

  /** What has been read so far about the backend being sampled. */
  datatype Draft =
    | Nothing
    | Matched(matched: GoInt)
    | Used(matched: GoInt, used: GoInt, capacity: GoInt)

  datatype Phase =
    | Scanning(left: set<string>, found: seq<string>)
    | Sampling(todo: seq<string>, draft: Draft, states: seq<S.BackendState>)
    | Walking(ranked: seq<S.BackendState>, at: nat)
    | Reserving(ranked: seq<S.BackendState>, at: nat)
    | Loaded(ranked: seq<S.BackendState>, at: nat, current: int)
    | Forwarding(id: string)
    | Answered(id: string, outcome: Outcome)
    | Settled(id: string, outcome: Outcome)
    | Done(verdict: Verdict)

  datatype Call = Call(job: Job, phase: Phase)

  datatype State = State(servers: map<string, Server>, directory: map<string, Shelf>, calls: map<nat, Call>)

  /** The steps. Events carry what the step chose, or what it is about. */
  datatype Event =
    | Arrive(r: nat, job: Job)
    | Scan(r: nat, id: string)
    | EndScan(r: nat)
    | ReadMatch(r: nat)
    | ReadUsage(r: nat)
    | ReadDepth(r: nat)
    | Rank(r: nat)
    | Check(r: nat)
    | GiveUp(r: nat)
    | Load(r: nat)
    | Refuse(r: nat)
    | Acquire(r: nat, id: string)
    | Retry(r: nat)
    | Answer(r: nat, outcome: Outcome)
    | Commit(r: nat, id: string, batch: Batch)
    | Skip(r: nat)
    | Release(r: nat, id: string)
    | Probe(id: string, ok: bool)

  /** Evidence that the backend ran the prompt: a first byte, or a plain response below 400. */
  predicate Evidence(o: Outcome) {
    (o.Streamed? && o.firstByte) || (o.Responded? && o.status < 400)
  }

  /** The three directory readings; a backend the directory does not know reads as zero. */
  function MatchOn(d: map<string, Shelf>, id: string, job: Job): nat {
    if id in d then Reach(Kept(d[id]), job.ns, job.blocks) else 0
  }

  function UsedOn(d: map<string, Shelf>, id: string): nat {
    if id in d then |Kept(d[id])| else 0
  }

  function CapacityOn(d: map<string, Shelf>, id: string): int {
    if id in d then d[id].capacity else 0
  }

  function RequestOf(job: Job): S.Request {
    S.Request(job.blocks, Wrap64(|job.blocks|))
  }

  predicate Healthy(s: State, id: string) {
    id in s.servers && s.servers[id].health.healthy
  }

  predicate Full(srv: Server, depth: int) {
    srv.maxConcurrent > 0 && depth >= srv.maxConcurrent
  }

  /** The backend a walking request is looking at. */
  function Candidate(p: Phase): string
    requires (p.Walking? || p.Reserving? || p.Loaded?) && p.at < |p.ranked|
  {
    p.ranked[p.at].id
  }

  predicate Enabled(s: State, e: Event) {
    match e
    case Arrive(r, job) => r !in s.calls && FitsInt(|job.blocks|)
    case Probe(id, ok) => id in s.servers
    case _ => e.r in s.calls && Ready(s, e, s.calls[e.r].job, s.calls[e.r].phase)
  }

  /** Whether a request in phase p may take step e. */
  predicate Ready(s: State, e: Event, job: Job, p: Phase)
    requires !e.Arrive? && !e.Probe?
  {
    match e
    case Scan(_, id) => p.Scanning? && id in p.left && id in s.servers
    case EndScan(_) => p.Scanning? && p.left == {}
    case ReadMatch(_) => p.Sampling? && p.todo != [] && p.draft.Nothing?
    case ReadUsage(_) => p.Sampling? && p.todo != [] && p.draft.Matched?
    case ReadDepth(_) => p.Sampling? && p.todo != [] && p.draft.Used? && p.todo[0] in s.servers
    case Rank(_) => p.Sampling? && p.todo == []
    case Check(_) => p.Walking? && p.at < |p.ranked|
    case GiveUp(_) => p.Walking? && p.at >= |p.ranked|
    case Load(_) => p.Reserving? && p.at < |p.ranked| && Candidate(p) in s.servers
    case Refuse(_) => p.Loaded? && p.at < |p.ranked| && Candidate(p) in s.servers &&
                           Full(s.servers[Candidate(p)], p.current)
    case Acquire(_, id) =>
      && p.Loaded? && p.at < |p.ranked| && Candidate(p) == id && id in s.servers
      && !Full(s.servers[id], p.current) && s.servers[id].depth == p.current
    case Retry(_) =>
      && p.Loaded? && p.at < |p.ranked| && Candidate(p) in s.servers
      && !Full(s.servers[Candidate(p)], p.current) && s.servers[Candidate(p)].depth != p.current
    case Answer(_, outcome) => p.Forwarding? && Possible(outcome)
    case Commit(_, id, batch) => p.Answered? && p.id == id && Evidence(p.outcome) && batch == Batch(job.ns, job.blocks)
    case Skip(_) => p.Answered? && !Evidence(p.outcome)
    case Release(_, id) => p.Settled? && p.id == id && id in s.servers
  }

  /** The phase a request moves to. */
  function NextPhase(w: S.Weights, s: State, e: Event, job: Job, p: Phase): Phase
    requires !e.Arrive? && !e.Probe? && Ready(s, e, job, p)
  {
    match e
    case Scan(_, id) => Scanning(p.left - {id}, if Healthy(s, id) then p.found + [id] else p.found)
    case EndScan(_) => if p.found == [] then Done(NoHealthyBackend) else Sampling(Sort(Less, p.found), Nothing, [])
    case ReadMatch(_) => p.(draft := Matched(Wrap64(MatchOn(s.directory, p.todo[0], job))))
    case ReadUsage(_) =>
      p.(draft := Used(p.draft.matched, Wrap64(UsedOn(s.directory, p.todo[0])),
                       Wrap64(CapacityOn(s.directory, p.todo[0]))))
    case ReadDepth(_) => Sampling(p.todo[1..], Nothing, p.states + [Sampled(p.todo[0], p.draft, s.servers[p.todo[0]])])
    case Rank(_) => Walking(S.Ranked(w, RequestOf(job), p.states), 0)
    case Check(_) => if Healthy(s, Candidate(p)) then Reserving(p.ranked, p.at) else Walking(p.ranked, p.at + 1)
    case GiveUp(_) => Done(if p.ranked == [] then NothingRanked else AllAtCapacity)
    case Load(_) => Loaded(p.ranked, p.at, s.servers[Candidate(p)].depth)
    case Refuse(_) => Walking(p.ranked, p.at + 1)
    case Acquire(_, id) => Forwarding(id)
    case Retry(_) => Reserving(p.ranked, p.at)
    case Answer(_, outcome) => Answered(p.id, outcome)
    case Commit(_, id, _) => Settled(id, p.outcome)
    case Skip(_) => Settled(p.id, p.outcome)
    case Release(_, _) => Done(Served(p.outcome))
  }

  function Sampled(id: string, d: Draft, srv: Server): S.BackendState
    requires d.Used?
  {
    S.BackendState(id, d.matched, Wrap64(srv.depth), srv.maxConcurrent, d.used, d.capacity, true)
  }

  /** What a step does to a backend: an acquisition or a release moves its counter by one, a probe
      its health; everything else leaves it alone. */
  function NextServer(srv: Server, id: string, e: Event): Server {
    match e
    case Acquire(_, at) => if at == id then srv.(depth := srv.depth + 1) else srv
    case Release(_, at) => if at == id then srv.(depth := srv.depth - 1) else srv
    case Probe(at, ok) => if at == id then srv.(health := H.Probed(srv.health, ok)) else srv
    case _ => srv
  }

  /** Only a commit changes the directory, and only one backend's part of it. */
  function NextDirectory(d: map<string, Shelf>, e: Event): map<string, Shelf> {
    match e
    case Commit(_, id, batch) => if id in d then d[id := Committed(d[id], batch)] else d
    case _ => d
  }

  /** The state after a step. */
  function Next(w: S.Weights, s: State, e: Event): State
    requires Enabled(s, e)
  {
    State(map id | id in s.servers :: NextServer(s.servers[id], id, e),
          NextDirectory(s.directory, e),
          match e
          case Probe(_, _) => s.calls
          case Arrive(r, job) => s.calls[r := Call(job, Scanning(s.servers.Keys, []))]
          case _ => s.calls[e.r := s.calls[e.r].(phase := NextPhase(w, s, e, s.calls[e.r].job, s.calls[e.r].phase))])
  }

  /** Before the first request: all counters zero, no call in progress, no backend without a name,
      capacities in range of Go's int. */
  predicate Initial(s: State) {
    && s.calls == map[] && "" !in s.servers
    && (forall id :: id in s.servers ==> s.servers[id].depth == 0 && s.servers[id].health == H.INITIAL)
    && (forall id :: id in s.directory ==> s.directory[id].history == [] && FitsInt(s.directory[id].capacity))
  }

  /** A run: states[k + 1] is states[k] after events[k]. */
  datatype Run = Run(weights: S.Weights, states: seq<State>, events: seq<Event>) {
    ghost predicate Valid() {
      && |states| == |events| + 1 && Initial(states[0])
      && forall k :: 0 <= k < |events| ==> StepAt(k)
    }

    ghost predicate StepAt(k: nat)
      requires |states| == |events| + 1 && k < |events|
    {
      Enabled(states[k], events[k]) && states[k + 1] == Next(weights, states[k], events[k])
    }
  }
}
