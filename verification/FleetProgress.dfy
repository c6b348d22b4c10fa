/** How long a request can take. The reservation loop is lock-free: an attempt fails only because
    another request got ahead, so every request is done after a bounded number of its own steps and two
    more for every slot that others take or give back meanwhile. */
module FleetProgress {
  import opened Words
  import opened Sorting
  import opened Fleet
  import opened FleetSafety
  import opened FleetTheorems
  import S = Scorer

  /** A step of request r after its arrival. */
  predicate IsOwn(e: Event, r: nat) {
    !e.Probe? && !e.Arrive? && e.r == r
  }

  /** A slot taken or given back by a request other than r. */
  predicate IsForeignMove(e: Event, r: nat) {
    (e.Acquire? || e.Release?) && e.r != r
  }

  function One(b: bool): nat {
    if b then 1 else 0
  }

  function OwnSteps(events: seq<Event>, r: nat): nat
    decreases |events|
  {
    if events == [] then 0
    else OwnSteps(events[..|events| - 1], r) + One(IsOwn(events[|events| - 1], r))
  }

  function ForeignMoves(events: seq<Event>, r: nat): nat
    decreases |events|
  {
    if events == [] then 0
    else ForeignMoves(events[..|events| - 1], r) + One(IsForeignMove(events[|events| - 1], r))
  }

  function Retries(events: seq<Event>, r: nat): nat
    decreases |events|
  {
    if events == [] then 0
    else Retries(events[..|events| - 1], r) + One(events[|events| - 1] == Retry(r))
  }

  lemma CountsStep(events: seq<Event>, k: nat, r: nat)
    requires k < |events|
    ensures OwnSteps(events[..k + 1], r) == OwnSteps(events[..k], r) + One(IsOwn(events[k], r))
    ensures ForeignMoves(events[..k + 1], r) == ForeignMoves(events[..k], r) + One(IsForeignMove(events[k], r))
    ensures Retries(events[..k + 1], r) == Retries(events[..k], r) + One(events[k] == Retry(r))
  {
    assert events[..k + 1][..k] == events[..k];
  }

  lemma {:induction false} MovesOnlyGrow(events: seq<Event>, j: nat, k: nat, r: nat)
    requires j <= k <= |events|
    ensures ForeignMoves(events[..j], r) <= ForeignMoves(events[..k], r)
  {
    if j < k {
      MovesOnlyGrow(events, j, k - 1, r);
      CountsStep(events, k - 1, r);
    }
  }

  lemma WaitingIsNoRetry(run: Run, m: nat, r: nat)
    requires run.Valid() && m < |run.events| && r in run.states[m].calls && r in run.states[m + 1].calls
    requires run.states[m + 1].calls[r].phase == run.states[m].calls[r].phase
    ensures run.events[m] != Retry(r)
  {
    assert run.StepAt(m);
  }

  /** While a loaded value waits for its swap, the request does not retry. */
  lemma {:induction false} NoRetrySince(run: Run, u: nat, m: nat, k: nat, r: nat)
    requires run.Valid() && u < m <= k < |run.states| && r in run.states[k].calls && LoadedAt(run, u, k, r)
    ensures Retries(run.events[..m], r) == Retries(run.events[..u], r)
  {
    CountsStep(run.events, m - 1, r);
    if m - 1 > u {
      NoRetrySince(run, u, m - 1, k, r);
      WaitingIsNoRetry(run, m - 1, r);
    }
  }

  // ---------------------------------------------------------------------------------------------
  // Lock-freedom
  // ---------------------------------------------------------------------------------------------

  /** When a failed swap had loaded its value: there has been no other retry since, but a foreign move. */
  lemma FailedSwapLoad(run: Run, k: nat, r: nat) returns (u: nat)
    requires run.Valid() && k < |run.events| && run.events[k] == Retry(r)
    ensures u < k && Retries(run.events[..k], r) == Retries(run.events[..u], r)
    ensures ForeignMoves(run.events[..k], r) > ForeignMoves(run.events[..u], r)
  {
    FailedSwapMeansInterference(run, k, r);
    var id := Candidate(run.states[k].calls[r].phase);
    var load, v :| 0 <= load < v < k && LoadedAt(run, load, k, r) && InterferesOn(run, v, r, id);
    u := load;
    NoRetrySince(run, u, k, k, r);
    MovesOnlyGrow(run.events, u, v, r);
    CountsStep(run.events, v, r);
    MovesOnlyGrow(run.events, v + 1, k, r);
  }

  /** A request retries at most as often as other requests take a slot or give one back. */
  lemma {:induction false} RetriesAreBounded(run: Run, k: nat, r: nat)
    requires run.Valid() && k < |run.states|
    ensures Retries(run.events[..k], r) <= ForeignMoves(run.events[..k], r)
  {
    if k > 0 {
      CountsStep(run.events, k - 1, r);
      if run.events[k - 1] == Retry(r) {
        var u := FailedSwapLoad(run, k - 1, r);
        RetriesAreBounded(run, u, r);
      } else {
        RetriesAreBounded(run, k - 1, r);
      }
    }
  }

  // ---------------------------------------------------------------------------------------------
  // A bound on a request's own steps
  // ---------------------------------------------------------------------------------------------

  /** How many steps a request in this phase still takes at most, if no swap fails. */
  function Ahead(p: Phase): nat {
    match p
    case Scanning(left, found) => 6 + 7 * |left| + 6 * |found|
    case Sampling(todo, draft, states) =>
      5 + 6 * |todo| + 3 * |states| - (if todo == [] || draft.Nothing? then 0 else if draft.Matched? then 1 else 2)
    case Walking(ranked, at) => 4 + 3 * Left(ranked, at)
    case Reserving(ranked, at) => 3 + 3 * Left(ranked, at)
    case Loaded(ranked, at, _) => 2 + 3 * Left(ranked, at)
    case Forwarding(_) => 3
    case Answered(_, _) => 2
    case Settled(_, _) => 1
    case Done(_) => 0
  }

  /** How many candidates are left to look at. */
  function Left(ranked: seq<S.BackendState>, at: nat): nat {
    if at < |ranked| then |ranked| - at else 0
  }

  lemma SortKeepsLength(ids: seq<string>)
    ensures |Sort(Less, ids)| == |ids|
  {
    SortMembers(Less, ids);
  }

  /** Every step brings the request closer to its end, except that a failed swap takes it back by one. */
  lemma AheadFalls(w: S.Weights, s: State, e: Event, job: Job, p: Phase)
    requires !e.Arrive? && !e.Probe? && Ready(s, e, job, p)
    ensures Ahead(NextPhase(w, s, e, job, p)) <= Ahead(p) - 1 + (if e.Retry? then 2 else 0)
  {
    if p.Scanning? {
      ScanningFalls(w, s, e, job, p);
    } else if p.Sampling? {
      SamplingFalls(w, s, e, job, p);
    }
  }

  lemma ScanningFalls(w: S.Weights, s: State, e: Event, job: Job, p: Phase)
    requires !e.Arrive? && !e.Probe? && Ready(s, e, job, p) && p.Scanning?
    ensures Ahead(NextPhase(w, s, e, job, p)) < Ahead(p)
  {
    if e.Scan? {
      assert |p.left - {e.id}| == |p.left| - 1;
    } else {
      SortKeepsLength(p.found);
    }
  }

  lemma SamplingFalls(w: S.Weights, s: State, e: Event, job: Job, p: Phase)
    requires !e.Arrive? && !e.Probe? && Ready(s, e, job, p) && p.Sampling?
    ensures Ahead(NextPhase(w, s, e, job, p)) < Ahead(p)
  {
    if e.Rank? {
      RankKeepsLength(w, RequestOf(job), p.states);
    } else if e.ReadDepth? {
      assert |p.todo[1..]| == |p.todo| - 1;
    }
  }

  lemma RankKeepsLength(w: S.Weights, req: S.Request, states: seq<S.BackendState>)
    ensures |S.Ranked(w, req, states)| <= |states|
  {
    S.RankedMembers(w, req, states);
  }

  ghost predicate Paced(run: Run, k: nat, r: nat)
    requires k < |run.states| && k <= |run.events|
  {
    if r in run.states[k].calls then
      OwnSteps(run.events[..k], r) + Ahead(run.states[k].calls[r].phase) <=
      6 + 7 * |run.states[0].servers| + 2 * Retries(run.events[..k], r)
    else OwnSteps(run.events[..k], r) == 0
  }

  lemma {:induction false} ServersAreFixed(run: Run, k: nat)
    requires run.Valid() && k < |run.states|
    ensures run.states[k].servers.Keys == run.states[0].servers.Keys
  {
    if k > 0 {
      ServersAreFixed(run, k - 1);
      assert run.StepAt(k - 1);
    }
  }

  lemma {:induction false} EveryRunIsPaced(run: Run, k: nat, r: nat)
    requires run.Valid() && k < |run.states|
    ensures Paced(run, k, r)
  {
    if k > 0 {
      EveryRunIsPaced(run, k - 1, r);
      PacedStep(run, k - 1, r);
    }
  }

  lemma PacedStep(run: Run, k: nat, r: nat)
    requires run.Valid() && k < |run.events| && Paced(run, k, r)
    ensures Paced(run, k + 1, r)
  {
    var s, e := run.states[k], run.events[k];
    assert run.StepAt(k);
    CountsStep(run.events, k, r);
    if IsOwn(e, r) {
      AheadFalls(run.weights, s, e, s.calls[r].job, s.calls[r].phase);
    } else if e.Arrive? && e.r == r {
      ServersAreFixed(run, k);
      assert |s.servers.Keys| == |s.servers| && |run.states[0].servers.Keys| == |run.states[0].servers|;
    }
  }

  /** A request takes at most seven steps of its own per backend and six more, plus two for every slot
      that other requests take or give back in the meantime. */
  lemma OwnStepsAreBounded(run: Run, k: nat, r: nat)
    requires run.Valid() && k < |run.states|
    ensures OwnSteps(run.events[..k], r) <=
            6 + 7 * |run.states[0].servers| + 2 * ForeignMoves(run.events[..k], r)
  {
    EveryRunIsPaced(run, k, r);
    RetriesAreBounded(run, k, r);
  }
}
