/** Theorems about whole runs of the router, under every interleaving. */
module FleetTheorems {
  import opened Words
  import opened Directory
  import opened Recency
  import opened Tokenizer
  import opened Fleet
  import opened FleetSafety
  import H = Health
  import S = Scorer

  // ---------------------------------------------------------------------------------------------
  // Reservations
  // ---------------------------------------------------------------------------------------------

  /** In every reachable state each backend's counter is the number of requests holding a slot on
      it and never above its limit, and no request holds two slots. */
  lemma AdmissionSafety(run: Run, k: nat, id: string)
    requires run.Valid() && k < |run.states| && id in run.states[k].servers
    ensures var s := run.states[k];
            && s.servers[id].depth == |Holders(s, id)|
            && (s.servers[id].maxConcurrent > 0 ==> 0 <= s.servers[id].depth <= s.servers[id].maxConcurrent)
            && (forall other :: other != id ==> Holders(s, id) !! Holders(s, other))
  {
    Reachable(run, k);
    assert Counted(run.states[k], id);
  }

  /** The requests holding a slot on any backend. */
  ghost function AllHolders(s: State): set<nat> {
    set r | r in s.calls && SlotOf(s.calls[r].phase).Some?
  }

  ghost function HoldersAmong(s: State, ids: set<string>): set<nat> {
    set r | r in s.calls && SlotOf(s.calls[r].phase).Some? && SlotOf(s.calls[r].phase).value in ids
  }

  /** The sum of the counters of some backends. */
  ghost function TotalDepth(s: State, ids: set<string>): int
    requires ids <= s.servers.Keys
  {
    if ids == {} then 0 else
      var id :| id in ids;
      s.servers[id].depth + TotalDepth(s, ids - {id})
  }

  lemma {:induction false} TotalCountsHolders(s: State, ids: set<string>)
    requires Inv(s) && ids <= s.servers.Keys
    ensures TotalDepth(s, ids) == |HoldersAmong(s, ids)|
  {
    if ids == {} {
      assert HoldersAmong(s, ids) == {};
    } else {
      var id :| id in ids && TotalDepth(s, ids) == s.servers[id].depth + TotalDepth(s, ids - {id});
      TotalCountsHolders(s, ids - {id});
      assert Counted(s, id);
      var here, rest := Holders(s, id), HoldersAmong(s, ids - {id});
      assert HoldersAmong(s, ids) == here + rest && here !! rest;
    }
  }

  /** In every reachable state the total queue depth is the number of requests holding slots. */
  lemma TotalDepthIsHolders(run: Run, k: nat)
    requires run.Valid() && k < |run.states|
    ensures TotalDepth(run.states[k], run.states[k].servers.Keys) == |AllHolders(run.states[k])|
  {
    var s := run.states[k];
    Reachable(run, k);
    TotalCountsHolders(s, s.servers.Keys);
    forall r | r in AllHolders(s)
      ensures r in HoldersAmong(s, s.servers.Keys)
    {
      assert CallFits(s, r);
    }
    assert AllHolders(s) == HoldersAmong(s, s.servers.Keys);
  }

  /** How often request r acquired a slot. */
  function Acquired(events: seq<Event>, r: nat): nat
    decreases |events|
  {
    if events == [] then 0
    else
      var last := events[|events| - 1];
      Acquired(events[..|events| - 1], r) + (if last.Acquire? && last.r == r then 1 else 0)
  }

  /** How often request r released one. */
  function Released(events: seq<Event>, r: nat): nat
    decreases |events|
  {
    if events == [] then 0
    else
      var last := events[|events| - 1];
      Released(events[..|events| - 1], r) + (if last.Release? && last.r == r then 1 else 0)
  }

  predicate IsHolding(s: State, r: nat) {
    r in s.calls && SlotOf(s.calls[r].phase).Some?
  }

  predicate WasServed(s: State, r: nat) {
    r in s.calls && s.calls[r].phase.Done? && s.calls[r].phase.verdict.Served?
  }

  /** A step changes what a request holds or has been served only by its own acquire or release. */
  lemma HoldingStep(run: Run, k: nat, r: nat)
    requires run.Valid() && k < |run.events|
    ensures var e, s, s' := run.events[k], run.states[k], run.states[k + 1];
            && IsHolding(s', r) == ((IsHolding(s, r) || (e.Acquire? && e.r == r)) && !(e.Release? && e.r == r))
            && WasServed(s', r) == (WasServed(s, r) || (e.Release? && e.r == r))
            && (e.Acquire? && e.r == r ==> !IsHolding(s, r) && !WasServed(s, r))
            && (e.Release? && e.r == r ==> IsHolding(s, r) && !WasServed(s, r))
  {
    assert run.StepAt(k);
  }

  /** Every request acquires at most one slot in its life, and releases it exactly once: it has
      acquired one exactly if it is holding one or has been served, and released one exactly if it
      has been served. */
  lemma {:induction false} ReleasedExactlyOnce(run: Run, k: nat, r: nat)
    requires run.Valid() && k < |run.states|
    ensures Acquired(run.events[..k], r) == if IsHolding(run.states[k], r) || WasServed(run.states[k], r) then 1 else 0
    ensures Released(run.events[..k], r) == if WasServed(run.states[k], r) then 1 else 0
  {
    if k > 0 {
      ReleasedExactlyOnce(run, k - 1, r);
      HoldingStep(run, k - 1, r);
      assert run.events[..k][..k - 1] == run.events[..k - 1];
    }
  }

  /** The directory changes only by a commit, on behalf of a request that holds a slot on the very
      backend before and after, and whose upstream exchange gave evidence that the prompt ran. */
  lemma CommitNeedsSlot(run: Run, k: nat)
    requires run.Valid() && k < |run.events| && run.states[k + 1].directory != run.states[k].directory
    ensures var e, s, s' := run.events[k], run.states[k], run.states[k + 1];
            && e.Commit? && e.r in Holders(s, e.id) && e.r in Holders(s', e.id)
            && s.calls[e.r].phase.Answered? && Evidence(s.calls[e.r].phase.outcome)
            && e.id in s.directory
            && var job := s.calls[e.r].job;
               s'.directory == s.directory[e.id := Committed(s.directory[e.id], Batch(job.ns, job.blocks))]
  {
    assert run.StepAt(k);
  }

  /** How often request r committed. */
  function CommitsBy(events: seq<Event>, r: nat): nat
    decreases |events|
  {
    if events == [] then 0
    else
      var last := events[|events| - 1];
      CommitsBy(events[..|events| - 1], r) + (if last.Commit? && last.r == r then 1 else 0)
  }

  /** The exchange has been dealt with, and a first byte of a stream had come or a plain response below
      400. */
  predicate HasLearnt(s: State, r: nat) {
    r in s.calls && var p := s.calls[r].phase;
    && (p.Settled? || (p.Done? && p.verdict.Served?))
    && var o := if p.Settled? then p.outcome else p.verdict.outcome;
       (o.Streamed? && o.firstByte) || (o.Responded? && o.status < 400)
  }

  lemma LearningStep(run: Run, k: nat, r: nat)
    requires run.Valid() && k < |run.events|
    ensures var e, s, s' := run.events[k], run.states[k], run.states[k + 1];
            && HasLearnt(s', r) == (HasLearnt(s, r) || (e.Commit? && e.r == r))
            && (e.Commit? && e.r == r ==> !HasLearnt(s, r))
  {
    assert run.StepAt(k);
  }

  /** A request commits exactly once if a first byte of its stream came or its plain response was below
      400, whether or not the exchange was carried to its end, and never otherwise. */
  lemma {:induction false} CommitsExactlyOnce(run: Run, k: nat, r: nat)
    requires run.Valid() && k < |run.states|
    ensures CommitsBy(run.events[..k], r) == if HasLearnt(run.states[k], r) then 1 else 0
  {
    if k > 0 {
      CommitsExactlyOnce(run, k - 1, r);
      LearningStep(run, k - 1, r);
      assert run.events[..k][..k - 1] == run.events[..k - 1];
    }
  }

  /** No request is ever stuck: until it is done, some step of its own is enabled. */
  lemma NeverStuck(run: Run, k: nat, r: nat) returns (e: Event)
    requires run.Valid() && k < |run.states|
    requires r in run.states[k].calls && !run.states[k].calls[r].phase.Done?
    ensures !e.Probe? && !e.Arrive? && e.r == r && Enabled(run.states[k], e)
  {
    Reachable(run, k);
    var s := run.states[k];
    assert CallFits(s, r);
    match s.calls[r].phase
    case Scanning(left, _) =>
      if id :| id in left {
        e := Scan(r, id);
      } else {
        e := EndScan(r);
      }
    case Sampling(todo, draft, _) =>
      if todo == [] {
        e := Rank(r);
      } else {
        e := if draft.Nothing? then ReadMatch(r) else if draft.Matched? then ReadUsage(r) else ReadDepth(r);
        assert todo[0] in todo;
      }
    case Walking(ranked, at) => e := if at < |ranked| then Check(r) else GiveUp(r);
    case Reserving(ranked, at) =>
      assert ranked[at] in ranked;
      e := Load(r);
    case Loaded(ranked, at, current) =>
      assert ranked[at] in ranked;
      var srv := s.servers[ranked[at].id];
      e := if Full(srv, current) then Refuse(r)
           else if srv.depth == current then Acquire(r, ranked[at].id) else Retry(r);
    case Forwarding(_) => e := Answer(r, Unreachable);
    case Answered(id, outcome) =>
      e := if Evidence(outcome) then Commit(r, id, Batch(s.calls[r].job.ns, s.calls[r].job.blocks)) else Skip(r);
    case Settled(id, _) => e := Release(r, id);
  }

  // ---------------------------------------------------------------------------------------------
  // Refusals
  // ---------------------------------------------------------------------------------------------

  /** Request r is somewhere in the walk over `ranked`, looking at candidate j. */
  ghost predicate Looking(s: State, r: nat, ranked: seq<S.BackendState>, j: nat) {
    && r in s.calls
    && var p := s.calls[r].phase;
       (p.Walking? || p.Reserving? || p.Loaded?) && p.ranked == ranked && p.at == j
  }

  /** At this moment r looks at candidate j and the candidate is unhealthy or full. */
  ghost predicate Turned(s: State, r: nat, ranked: seq<S.BackendState>, j: nat) {
    && Looking(s, r, ranked, j) && j < |ranked|
    && (!Healthy(s, ranked[j].id) || Full(s.servers[ranked[j].id], s.servers[ranked[j].id].depth))
  }

  /** Candidate j was seen unhealthy or full at some moment up to k. */
  ghost predicate SeenRefusing(run: Run, k: nat, r: nat, ranked: seq<S.BackendState>, j: nat)
    requires k < |run.states|
  {
    exists u :: 0 <= u <= k && Turned(run.states[u], r, ranked, j)
  }

  lemma SeenLater(run: Run, k: nat, m: nat, r: nat, ranked: seq<S.BackendState>, j: nat)
    requires k <= m < |run.states| && SeenRefusing(run, k, r, ranked, j)
    ensures SeenRefusing(run, m, r, ranked, j)
  {
  }

  /** The load that put r into its present phase: at step u, with nothing happening to r since. */
  ghost predicate LoadedAt(run: Run, u: nat, k: nat, r: nat)
    requires run.Valid() && u < k < |run.states| && r in run.states[k].calls
  {
    var p := run.states[k].calls[r].phase;
    && p.Loaded? && p.at < |p.ranked| && run.events[u] == Load(r)
    && Looking(run.states[u], r, p.ranked, p.at)
    && Candidate(p) in run.states[u].servers && run.states[u].servers[Candidate(p)].depth == p.current
    && forall m :: u < m <= k ==> r in run.states[m].calls && run.states[m].calls[r].phase == p
  }

  lemma {:induction false} LoadHappened(run: Run, k: nat, r: nat) returns (u: nat)
    requires run.Valid() && k < |run.states|
    requires r in run.states[k].calls && run.states[k].calls[r].phase.Loaded?
    ensures u < k && LoadedAt(run, u, k, r)
  {
    assert k > 0;
    assert run.StepAt(k - 1);
    if run.events[k - 1] == Load(r) {
      u := k - 1;
    } else {
      u := LoadHappened(run, k - 1, r);
    }
  }

  /** The backends and their limits are fixed for the whole run. */
  lemma {:induction false} LimitIsConstant(run: Run, k: nat, id: string)
    requires run.Valid() && k < |run.states|
    ensures id in run.states[k].servers <==> id in run.states[0].servers
    ensures id in run.states[k].servers ==>
              run.states[k].servers[id].maxConcurrent == run.states[0].servers[id].maxConcurrent
  {
    if k > 0 {
      LimitIsConstant(run, k - 1, id);
      assert run.StepAt(k - 1);
    }
  }

  /** All candidates a walking request has gone past were seen unhealthy or full. */
  lemma {:induction false} WalkIsTraced(run: Run, k: nat, r: nat, ranked: seq<S.BackendState>, at: nat, j: nat)
    requires run.Valid() && k < |run.states| && Looking(run.states[k], r, ranked, at) && j < at
    ensures SeenRefusing(run, k, r, ranked, j)
  {
    assert k > 0;
    assert run.StepAt(k - 1);
    var s := run.states[k - 1];
    if Looking(s, r, ranked, at) {
      WalkIsTraced(run, k - 1, r, ranked, at, j);
      SeenLater(run, k - 1, k, r, ranked, j);
    } else {
      assert Looking(s, r, ranked, at - 1);
      if j < at - 1 {
        WalkIsTraced(run, k - 1, r, ranked, at - 1, j);
        SeenLater(run, k - 1, k, r, ranked, j);
      } else if run.events[k - 1].Refuse? {
        var u := LoadHappened(run, k - 1, r);
        LimitIsConstant(run, u, ranked[j].id);
        LimitIsConstant(run, k - 1, ranked[j].id);
        assert Turned(run.states[u], r, ranked, j);
      } else {
        assert Turned(s, r, ranked, j);
      }
    }
  }

  /** Step u is r's reading of this backend's health flag, and it found the backend unhealthy. */
  ghost predicate ScannedUnhealthy(run: Run, u: nat, r: nat, id: string) {
    u < |run.events| && u < |run.states| && run.events[u] == Scan(r, id) && !Healthy(run.states[u], id)
  }

  /** While a scan has found nothing, every backend it has visited was unhealthy when visited. */
  lemma {:induction false} ScanIsTraced(run: Run, k: nat, r: nat, id: string)
    requires run.Valid() && k < |run.states| && r in run.states[k].calls
    requires var p := run.states[k].calls[r].phase; p.Scanning? && p.found == [] && id !in p.left
    requires id in run.states[0].servers
    ensures exists u :: 0 <= u < k && ScannedUnhealthy(run, u, r, id)
  {
    assert k > 0;
    assert run.StepAt(k - 1);
    LimitIsConstant(run, k - 1, id);
    if run.events[k - 1] == Scan(r, id) {
      assert ScannedUnhealthy(run, k - 1, r, id);
    } else {
      ScanIsTraced(run, k - 1, r, id);
    }
  }

  /** A request is told "no healthy backends available" only if every backend was unhealthy at the
      moment this request's scan visited it. */
  lemma {:induction false} NoHealthyMeansAllUnhealthy(run: Run, k: nat, r: nat, id: string)
    requires run.Valid() && k < |run.states|
    requires r in run.states[k].calls && run.states[k].calls[r].phase == Done(NoHealthyBackend)
    requires id in run.states[0].servers
    ensures exists u :: 0 <= u < k && ScannedUnhealthy(run, u, r, id)
  {
    assert k > 0;
    assert run.StepAt(k - 1);
    if run.events[k - 1] == EndScan(r) {
      ScanIsTraced(run, k - 1, r, id);
    } else {
      NoHealthyMeansAllUnhealthy(run, k - 1, r, id);
    }
  }

  /** When a request gave up: the moment it did, with its whole ranking behind it. */
  lemma {:induction false} GaveUp(run: Run, k: nat, r: nat) returns (u: nat)
    requires run.Valid() && k < |run.states|
    requires r in run.states[k].calls && run.states[k].calls[r].phase == Done(AllAtCapacity)
    ensures u < k && run.events[u] == GiveUp(r) && r in run.states[u].calls
    ensures var p := run.states[u].calls[r].phase; p.Walking? && p.ranked != [] && p.at >= |p.ranked|
  {
    assert k > 0;
    assert run.StepAt(k - 1);
    if run.events[k - 1] == GiveUp(r) {
      u := k - 1;
    } else {
      u := GaveUp(run, k - 1, r);
    }
  }

  /** A request is told "all backends are at capacity" only if every ranked candidate was unhealthy
      or full at some moment while the request was looking at it. */
  lemma AtCapacityMeansAllRefused(run: Run, k: nat, r: nat)
    requires run.Valid() && k < |run.states|
    requires r in run.states[k].calls && run.states[k].calls[r].phase == Done(AllAtCapacity)
    ensures exists u, ranked :: 0 <= u < k && ranked != [] && Looking(run.states[u], r, ranked, |ranked|) &&
              forall j :: 0 <= j < |ranked| ==> SeenRefusing(run, u, r, ranked, j)
  {
    var u := GaveUp(run, k, r);
    Reachable(run, u);
    assert CallFits(run.states[u], r);
    var ranked := run.states[u].calls[r].phase.ranked;
    forall j | 0 <= j < |ranked|
      ensures SeenRefusing(run, u, r, ranked, j)
    {
      WalkIsTraced(run, u, r, ranked, |ranked|, j);
    }
    assert Looking(run.states[u], r, ranked, |ranked|);
  }

  /** A quantity that differs at two moments changed at some step between them. */
  lemma {:induction false} ChangedBetween(run: Run, id: string, from: nat, to: nat) returns (v: nat)
    requires run.Valid() && from <= to < |run.states|
    requires id in run.states[from].servers && id in run.states[to].servers
    requires run.states[from].servers[id].depth != run.states[to].servers[id].depth
    ensures from <= v < to && id in run.states[v].servers && id in run.states[v + 1].servers
    ensures run.states[v].servers[id].depth != run.states[v + 1].servers[id].depth
    decreases |run.states| - from
  {
    assert run.StepAt(from);
    if run.states[from + 1].servers[id].depth != run.states[from].servers[id].depth {
      v := from;
    } else {
      v := ChangedBetween(run, id, from + 1, to);
    }
  }

  /** A compare-and-swap fails only because another request acquired or released a slot on the same
      backend since the load whose value it compares against. */
  lemma FailedSwapMeansInterference(run: Run, k: nat, r: nat)
    requires run.Valid() && k < |run.events| && run.events[k] == Retry(r)
    ensures r in run.states[k].calls
    ensures var p := run.states[k].calls[r].phase;
            && p.Loaded? && p.at < |p.ranked|
            && exists u, v :: 0 <= u < v < k && LoadedAt(run, u, k, r) && InterferesOn(run, v, r, Candidate(p))
  {
    assert run.StepAt(k);
    var p := run.states[k].calls[r].phase;
    var u := LoadHappened(run, k, r);
    assert run.StepAt(u);
    var v := ChangedBetween(run, Candidate(p), u + 1, k);
    assert run.StepAt(v);
    assert run.states[v].calls[r].phase == p && run.states[v + 1].calls[r].phase == p;
    assert InterferesOn(run, v, r, Candidate(p));
  }

  /** Step v is an acquire or a release on this backend by a request other than r. */
  ghost predicate InterferesOn(run: Run, v: nat, r: nat, id: string) {
    && v < |run.events| && (run.events[v].Acquire? || run.events[v].Release?)
    && run.events[v].r != r && run.events[v].id == id
  }

  // ---------------------------------------------------------------------------------------------
  // Scores and ranking
  // ---------------------------------------------------------------------------------------------

  /** Every snapshot that any request ever scores, in any reachable state, scores between minus the
      sum of the two penalty weights and the cache-hit weight. */
  lemma ScoresAreBounded(run: Run, k: nat, r: nat, b: S.BackendState)
    requires run.Valid() && k < |run.states| && r in run.states[k].calls
    requires var p := run.states[k].calls[r].phase;
             (p.Sampling? && b in p.states) || ((p.Walking? || p.Reserving? || p.Loaded?) && b in p.ranked)
    requires run.weights.cacheHit >= 0.0 && run.weights.queueDepth >= 0.0 && run.weights.evictionRisk >= 0.0
    ensures var v := S.Score(run.weights, RequestOf(run.states[k].calls[r].job), b);
            v.Fin? && -(run.weights.queueDepth + run.weights.evictionRisk) <= v.v <= run.weights.cacheHit
  {
    Reachable(run, k);
    assert CallFits(run.states[k], r);
    S.ScoreBounds(run.weights, RequestOf(run.states[k].calls[r].job), b);
  }

  /** The reply "scorer could not select a backend" is never given. */
  lemma SomethingIsAlwaysRanked(run: Run, k: nat, r: nat)
    requires run.Valid() && k < |run.states| && r in run.states[k].calls
    ensures run.states[k].calls[r].phase != Done(NothingRanked)
  {
    Reachable(run, k);
    assert CallFits(run.states[k], r);
  }

  /** What a request hands to the ranking is sorted by identifier and all healthy, so Route and Rank
      agree on it whenever some queue is below the largest integer. */
  lemma RankedInputIsSorted(run: Run, k: nat, r: nat)
    requires run.Valid() && k < |run.states| && r in run.states[k].calls
    requires run.states[k].calls[r].phase.Sampling? && run.states[k].calls[r].phase.todo == []
    ensures var p, req := run.states[k].calls[r].phase, RequestOf(run.states[k].calls[r].job);
            && S.SortedById(p.states) && p.states != []
            && (forall b :: b in p.states ==> b.healthy)
            && ((exists b :: b in p.states && b.queueDepth < S.MAX_INT) ==>
                  && S.Ranked(run.weights, req, p.states) != []
                  && S.Routed(run.weights, req, p.states) == S.Ranked(run.weights, req, p.states)[0].id)
  {
    Reachable(run, k);
    var s := run.states[k];
    assert CallFits(s, r);
    var states := s.calls[r].phase.states;
    var ids := Ids(states);
    assert ids + [] == ids;
    forall i, j | 0 <= i < j < |states|
      ensures Sorting.Less(states[i].id, states[j].id)
    {
      assert Sorting.Less(ids[i], ids[j]);
    }
    S.RankedMembers(run.weights, RequestOf(s.calls[r].job), states);
    S.RouteAgreesWithRank(run.weights, RequestOf(s.calls[r].job), states);
  }

  // ---------------------------------------------------------------------------------------------
  // Histories
  // ---------------------------------------------------------------------------------------------

  /** The probe outcomes of one backend, in order. */
  function ProbesOf(events: seq<Event>, id: string): seq<bool>
    decreases |events|
  {
    if events == [] then []
    else
      var last := events[|events| - 1];
      ProbesOf(events[..|events| - 1], id) + NewProbe(last, id)
  }

  /** The commits to one backend, in order. */
  function CommitsOf(events: seq<Event>, id: string): seq<Batch>
    decreases |events|
  {
    if events == [] then []
    else
      var last := events[|events| - 1];
      CommitsOf(events[..|events| - 1], id) + (if last.Commit? && last.id == id then [last.batch] else [])
  }

  lemma {:induction false} CommitsOfConcat(a: seq<Event>, b: seq<Event>, id: string)
    ensures CommitsOf(a + b, id) == CommitsOf(a, id) + CommitsOf(b, id)
    decreases |b|
  {
    if b == [] {
      assert a + b == a;
    } else {
      assert (a + b)[..|a + b| - 1] == a + b[..|b| - 1];
      CommitsOfConcat(a, b[..|b| - 1], id);
    }
  }

  /** In a concurrent run, too, a backend's health is the function of its own probe history that
      Health describes. */
  lemma {:induction false} HealthFollowsProbes(run: Run, k: nat, id: string)
    requires run.Valid() && k < |run.states| && id in run.states[0].servers
    ensures id in run.states[k].servers
    ensures run.states[k].servers[id].health == H.After(ProbesOf(run.events[..k], id))
  {
    if k == 0 {
      HealthAtStart(run, id);
    } else {
      HealthFollowsProbes(run, k - 1, id);
      NextHealth(run, k - 1, id);
    }
  }

  lemma HealthAtStart(run: Run, id: string)
    requires run.Valid() && id in run.states[0].servers
    ensures run.states[0].servers[id].health == H.After(ProbesOf(run.events[..0], id))
  {
    NoProbesYet(run.events, id);
    H.AtStart(ProbesOf(run.events[..0], id));
  }

  lemma NoProbesYet(events: seq<Event>, id: string)
    ensures ProbesOf(events[..0], id) == []
  {
  }

  lemma NextHealth(run: Run, k: nat, id: string)
    requires run.Valid() && k < |run.events| && id in run.states[k].servers
    requires run.states[k].servers[id].health == H.After(ProbesOf(run.events[..k], id))
    ensures id in run.states[k + 1].servers
    ensures run.states[k + 1].servers[id].health == H.After(ProbesOf(run.events[..k + 1], id))
  {
    ServerStep(run, k, id);
    MoreProbes(run.events, k, id);
    HealthStep(run.states[k].servers[id], id, run.events[k], ProbesOf(run.events[..k], id));
  }

  function NewProbe(e: Event, id: string): seq<bool> {
    if e.Probe? && e.id == id then [e.ok] else []
  }

  lemma MoreProbes(events: seq<Event>, k: nat, id: string)
    requires k < |events|
    ensures ProbesOf(events[..k + 1], id) == ProbesOf(events[..k], id) + NewProbe(events[k], id)
  {
    assert events[..k + 1][..k] == events[..k];
  }

  lemma ServerStep(run: Run, k: nat, id: string)
    requires run.Valid() && k < |run.events| && id in run.states[k].servers
    ensures id in run.states[k + 1].servers
    ensures run.states[k + 1].servers[id] == NextServer(run.states[k].servers[id], id, run.events[k])
  {
    assert run.StepAt(k);
  }

  lemma HealthStep(srv: Server, id: string, e: Event, probes: seq<bool>)
    requires srv.health == H.After(probes)
    ensures NextServer(srv, id, e).health == H.After(probes + NewProbe(e, id))
  {
    if e.Probe? && e.id == id {
      H.AfterOneMore(probes, e.ok);
    } else {
      assert probes + NewProbe(e, id) == probes;
    }
  }

  /** A backend's shelf is the history of the commits to it. */
  lemma {:induction false} DirectoryFollowsCommits(run: Run, k: nat, id: string)
    requires run.Valid() && k < |run.states| && id in run.states[0].directory
    requires run.states[0].directory[id].capacity > 0
    ensures id in run.states[k].directory
    ensures run.states[k].directory[id] ==
            Shelf(run.states[0].directory[id].capacity, CommitsOf(run.events[..k], id))
  {
    if k > 0 {
      DirectoryFollowsCommits(run, k - 1, id);
      assert run.StepAt(k - 1);
      assert run.events[..k][..k - 1] == run.events[..k - 1];
    }
  }

  /** Where commit c sits in the shelf at a later moment, and what follows it. */
  lemma HistorySince(run: Run, c: nat, k: nat, id: string)
    requires run.Valid() && c < k < |run.states|
    requires id in run.states[0].directory && run.states[0].directory[id].capacity > 0
    requires run.events[c].Commit? && run.events[c].id == id
    ensures id in run.states[k].directory
    ensures var shelf, at := run.states[k].directory[id], |CommitsOf(run.events[..c], id)|;
            && shelf.capacity == run.states[0].directory[id].capacity && at < |shelf.history|
            && shelf.history[at] == run.events[c].batch && shelf.history[at..] == CommitsOf(run.events[c..k], id)
  {
    DirectoryFollowsCommits(run, k, id);
    var e, before, since := run.events[c], run.events[..c], run.events[c..k];
    assert run.events[..k] == before + since;
    CommitsOfConcat(before, since, id);
    assert since == [e] + since[1..];
    CommitsOfConcat([e], since[1..], id);
    assert [e][..0] == [];
    assert CommitsOf([e], id) == [e.batch];
  }

  /** Homecoming in a concurrent run: a conversation was committed on a backend at step c, and since
      then at most `capacity` distinct keys were touched there, by whatever requests. Then at any
      later moment a request in the same namespace whose text extends the conversation finds at least
      all of its full blocks. */
  lemma FleetHomecoming(run: Run, c: nat, k: nat, id: string, h: BlockHasher, text: Text, longer: Text, job: Job)
    requires run.Valid() && c < k < |run.states| && h.Valid()
    requires id in run.states[0].directory && run.states[0].directory[id].capacity > 0
    requires run.events[c].Commit? && run.events[c].id == id
    requires run.events[c].batch == Batch(job.ns, h.HashText(text)) && job.blocks == h.HashText(longer)
    requires |Elements(Touches(CommitsOf(run.events[c..k], id)))| <= run.states[0].directory[id].capacity
    requires text <= longer
    ensures MatchOn(run.states[k].directory, id, job) >= |text| / h.blockSize
  {
    HistorySince(run, c, k, id);
    var shelf, at := run.states[k].directory[id], |CommitsOf(run.events[..c], id)|;
    Homecoming(h, shelf, at, job.ns, text, longer);
  }

  // ---------------------------------------------------------------------------------------------
  // The directory theorems in concurrent runs
  // ---------------------------------------------------------------------------------------------

  /** With collision-free keys no reading of the directory claims more than the best prefix match with
      what has been committed to that backend in that namespace, by whatever requests. */
  lemma FleetNeverOverclaims(run: Run, k: nat, id: string, job: Job)
    requires run.Valid() && k < |run.states|
    requires id in run.states[0].directory && run.states[0].directory[id].capacity > 0
    requires CollisionFree(Sequences(CommitsOf(run.events[..k], id)) + {job.blocks})
    ensures MatchOn(run.states[k].directory, id, job) <=
            BestMatch(CommitsOf(run.events[..k], id), job.ns, job.blocks)
  {
    DirectoryFollowsCommits(run, k, id);
    LookupNeverExceedsScan(run.states[k].directory[id], job.ns, job.blocks);
  }

  /** It claims exactly that as long as at most `capacity` distinct keys were touched there. */
  lemma FleetScan(run: Run, k: nat, id: string, job: Job)
    requires run.Valid() && k < |run.states|
    requires id in run.states[0].directory && run.states[0].directory[id].capacity > 0
    requires CollisionFree(Sequences(CommitsOf(run.events[..k], id)) + {job.blocks})
    requires |Elements(Touches(CommitsOf(run.events[..k], id)))| <= run.states[0].directory[id].capacity
    ensures MatchOn(run.states[k].directory, id, job) ==
            BestMatch(CommitsOf(run.events[..k], id), job.ns, job.blocks)
  {
    DirectoryFollowsCommits(run, k, id);
    var shelf := run.states[k].directory[id];
    RankingFacts(shelf.history);
    LookupEqualsScan(shelf, job.ns, job.blocks);
  }

  /** The step at which the i-th commit to a backend was made. */
  lemma {:induction false} CommitStep(events: seq<Event>, k: nat, id: string, i: nat) returns (c: nat)
    requires k <= |events| && i < |CommitsOf(events[..k], id)|
    ensures c < k && events[c].Commit? && events[c].id == id && |CommitsOf(events[..c], id)| == i
  {
    assert events[..k][..k - 1] == events[..k - 1];
    if i < |CommitsOf(events[..k - 1], id)| {
      c := CommitStep(events, k - 1, id, i);
    } else {
      c := k - 1;
    }
  }

  /** Once something was evicted from a backend's shelf, there is one step of the run, a commit to that
      backend, such that all orphans there were last touched at that step. */
  lemma FleetOrphanFrontier(run: Run, k: nat, id: string) returns (c: nat)
    requires run.Valid() && k < |run.states|
    requires id in run.states[0].directory && run.states[0].directory[id].capacity > 0
    requires id in run.states[k].directory && Evicted(run.states[k].directory[id])
    ensures c < k && run.events[c].Commit? && run.events[c].id == id
    ensures var history := CommitsOf(run.events[..k], id);
            forall ns, p :: Orphan(run.states[k].directory[id], ns, p) && CollisionFree(Sequences(history) + {p}) ==>
              Owner(history, SlotAt(ns, p, |p| - 1)) == |CommitsOf(run.events[..c], id)|
  {
    DirectoryFollowsCommits(run, k, id);
    var shelf := run.states[k].directory[id];
    var i := FrontierOwner(shelf);
    c := CommitStep(run.events, k, id, i);
    forall ns, p | Orphan(shelf, ns, p) && CollisionFree(Sequences(shelf.history) + {p})
      ensures Owner(shelf.history, SlotAt(ns, p, |p| - 1)) == i
    {
      SingleOrphanFrontier(shelf, ns, p);
    }
  }

  /** The commit that last touched the frontier slot. */
  lemma FrontierOwner(shelf: Shelf) returns (i: nat)
    requires Evicted(shelf)
    ensures i == Owner(shelf.history, Frontier(shelf)) && i < |shelf.history|
  {
    RankingFacts(shelf.history);
    assert Frontier(shelf) in Ranking(shelf.history);
    i := Owner(shelf.history, Frontier(shelf));
  }
}
