/** What holds in every reachable state of the running router. */
module FleetSafety {
  import opened Words
  import opened Directory
  import opened Sorting
  import opened Fleet
  import S = Scorer

  // ---------------------------------------------------------------------------------------------
  // The invariant
  // ---------------------------------------------------------------------------------------------

  /** The slot a request holds. */
  function SlotOf(p: Phase): Option<string> {
    if p.Forwarding? || p.Answered? || p.Settled? then Some(p.id) else None
  }

  /** The requests holding a slot on a backend. */
  ghost function Holders(s: State, id: string): set<nat> {
    set r | r in s.calls && SlotOf(s.calls[r].phase) == Some(id)
  }

  /** The counter is the number of holders and within the limit. */
  ghost predicate Counted(s: State, id: string) {
    id in s.servers ==>
      && s.servers[id].depth == |Holders(s, id)|
      && (s.servers[id].maxConcurrent > 0 ==> s.servers[id].depth <= s.servers[id].maxConcurrent)
  }

  /** A snapshot of one backend is within the bounds the score relies on. */
  ghost predicate SnapshotFits(s: State, job: Job, b: S.BackendState) {
    && b.healthy && b.id in s.servers && b.maxQueueDepth == s.servers[b.id].maxConcurrent
    && 0 <= b.matchedBlocks <= |job.blocks|
    && (b.maxQueueDepth > 0 ==> 0 <= b.queueDepth <= b.maxQueueDepth)
    && (b.totalCapacity > 0 ==> 0 <= b.usedBlocks <= b.totalCapacity)
  }

  ghost predicate AllFit(s: State, job: Job, states: seq<S.BackendState>) {
    forall b :: b in states ==> SnapshotFits(s, job, b)
  }

  ghost predicate DraftFits(job: Job, d: Draft) {
    && (!d.Nothing? ==> 0 <= d.matched <= |job.blocks|)
    && (d.Used? && d.capacity > 0 ==> 0 <= d.used <= d.capacity)
  }

  ghost predicate AllServers(s: State, ids: seq<string>) {
    forall id :: id in ids ==> id in s.servers
  }

  function Ids(states: seq<S.BackendState>): (ids: seq<string>)
    ensures |ids| == |states|
  {
    seq(|states|, i requires 0 <= i < |states| => states[i].id)
  }

  ghost predicate InOrder(ids: seq<string>) {
    forall i, j :: 0 <= i < j < |ids| ==> Less(ids[i], ids[j])
  }

  ghost predicate PhaseFits(s: State, job: Job, p: Phase) {
    match p
    case Scanning(left, found) =>
      left <= s.servers.Keys && AllServers(s, found) && Distinct(found) && (forall id :: id in found ==> id !in left)
    case Sampling(todo, draft, states) =>
      && AllServers(s, todo) && DraftFits(job, draft) && AllFit(s, job, states) && (todo != [] || states != [])
      && InOrder(Ids(states) + todo)
    case Walking(ranked, at) => AllFit(s, job, ranked) && ranked != [] && at <= |ranked|
    case Reserving(ranked, at) => AllFit(s, job, ranked) && at < |ranked|
    case Loaded(ranked, at, _) => AllFit(s, job, ranked) && at < |ranked|
    case Forwarding(id) => id in s.servers
    case Answered(id, _) => id in s.servers
    case Settled(id, _) => id in s.servers
    case Done(verdict) => verdict != NothingRanked
  }

  ghost predicate CallFits(s: State, r: nat) {
    r in s.calls ==> FitsInt(|s.calls[r].job.blocks|) && PhaseFits(s, s.calls[r].job, s.calls[r].phase)
  }

  ghost predicate Inv(s: State) {
    && (forall id :: Counted(s, id))
    && (forall r :: CallFits(s, r))
    && (forall id :: id in s.directory ==> FitsInt(s.directory[id].capacity))
    && "" !in s.servers
  }

  // ---------------------------------------------------------------------------------------------
  // Every step keeps it
  // ---------------------------------------------------------------------------------------------

  /** The set of backends and their limits never change. */
  ghost predicate SameServers(s: State, s': State) {
    && s'.servers.Keys == s.servers.Keys
    && forall id :: id in s.servers ==> s'.servers[id].maxConcurrent == s.servers[id].maxConcurrent
  }

  lemma NextSameServers(w: S.Weights, s: State, e: Event)
    requires Enabled(s, e)
    ensures SameServers(s, Next(w, s, e))
  {
  }

  /** What fitted still fits. */
  lemma StillFits(s: State, s': State, job: Job, p: Phase)
    requires SameServers(s, s') && PhaseFits(s, job, p)
    ensures PhaseFits(s', job, p)
  {
    forall b | SnapshotFits(s, job, b)
      ensures SnapshotFits(s', job, b)
    {
    }
  }

  lemma UsageFits(s: State, id: string)
    requires Inv(s)
    ensures FitsInt(CapacityOn(s.directory, id))
    ensures CapacityOn(s.directory, id) > 0 ==> 0 <= UsedOn(s.directory, id) <= CapacityOn(s.directory, id)
  {
    if id in s.directory {
      KeptWithinCapacity(s.directory[id]);
    }
  }

  /** The acting request's next phase fits. */
  lemma NextPhaseFits(w: S.Weights, s: State, e: Event, job: Job, p: Phase)
    requires Inv(s) && FitsInt(|job.blocks|) && PhaseFits(s, job, p)
    requires !e.Arrive? && !e.Probe? && Ready(s, e, job, p)
    ensures PhaseFits(s, job, NextPhase(w, s, e, job, p))
  {
    match e
    case EndScan(_) =>
      if p.found != [] {
        SortMembers(Less, p.found);
        IdentifiersAreOrdered(p.found);
        SortIncreases(Less, p.found);
        assert Ids([]) + Sort(Less, p.found) == Sort(Less, p.found);
      }
    case ReadUsage(_) => UsageFits(s, p.todo[0]);
    case ReadDepth(_) =>
      assert Counted(s, p.todo[0]);
      var b := Sampled(p.todo[0], p.draft, s.servers[p.todo[0]]);
      assert Ids(p.states + [b]) + p.todo[1..] == Ids(p.states) + p.todo;
    case Rank(_) =>
      assert p.states[0] in p.states;
      S.RankedMembers(w, RequestOf(job), p.states);
    case _ =>
  }

  lemma HoldersMoved(s: State, s': State, r: nat, id: string)
    requires r in s'.calls && s'.calls == s.calls[r := s'.calls[r]]
    ensures Holders(s', id) ==
            if SlotOf(s'.calls[r].phase) == Some(id) then Holders(s, id) + {r} else Holders(s, id) - {r}
  {
  }

  /** A slot is won by acquiring, lost by releasing, and kept by every other step. */
  lemma NextSlot(w: S.Weights, s: State, e: Event, job: Job, p: Phase)
    requires !e.Arrive? && !e.Probe? && Ready(s, e, job, p)
    ensures SlotOf(NextPhase(w, s, e, job, p)) ==
            match e case Acquire(_, id) => Some(id) case Release(_, _) => None case _ => SlotOf(p)
    ensures e.Acquire? ==> SlotOf(p) == None
    ensures e.Release? ==> SlotOf(p) == Some(e.id)
  {
  }

  /** How one step changes the set of holders. */
  lemma NextHolders(w: S.Weights, s: State, e: Event, id: string)
    requires Enabled(s, e)
    ensures Holders(Next(w, s, e), id) ==
            match e
            case Acquire(r, at) => if at == id then Holders(s, id) + {r} else Holders(s, id)
            case Release(r, at) => if at == id then Holders(s, id) - {r} else Holders(s, id)
            case _ => Holders(s, id)
    ensures e.Acquire? ==> e.r !in Holders(s, id)
    ensures e.Release? && e.id == id ==> e.r in Holders(s, id)
  {
    var s' := Next(w, s, e);
    if !e.Probe? {
      HoldersMoved(s, s', e.r, id);
      if !e.Arrive? {
        NextSlot(w, s, e, s.calls[e.r].job, s.calls[e.r].phase);
      }
    }
  }

  /** The counters still count the holders. */
  lemma NextCounted(w: S.Weights, s: State, e: Event, id: string)
    requires Inv(s) && Enabled(s, e)
    ensures Counted(Next(w, s, e), id)
  {
    assert Counted(s, id);
    NextHolders(w, s, e, id);
  }

  lemma NextKeepsInv(w: S.Weights, s: State, e: Event)
    requires Inv(s) && Enabled(s, e)
    ensures Inv(Next(w, s, e))
  {
    var s' := Next(w, s, e);
    forall id
      ensures Counted(s', id)
    {
      NextCounted(w, s, e, id);
    }
    forall r
      ensures CallFits(s', r)
    {
      NextCallFits(w, s, e, r);
    }
  }

  lemma NextCallFits(w: S.Weights, s: State, e: Event, r: nat)
    requires Inv(s) && Enabled(s, e)
    ensures CallFits(Next(w, s, e), r)
  {
    assert CallFits(s, r);
    NextSameServers(w, s, e);
    if r in s.calls {
      var job, p := s.calls[r].job, s.calls[r].phase;
      if !e.Probe? && e.r == r {
        NextPhaseFits(w, s, e, job, p);
        StillFits(s, Next(w, s, e), job, NextPhase(w, s, e, job, p));
      } else {
        StillFits(s, Next(w, s, e), job, p);
      }
    }
  }

  /** Every state of every run satisfies the invariant. */
  lemma {:induction false} Reachable(run: Run, k: nat)
    requires run.Valid() && k < |run.states|
    ensures Inv(run.states[k])
  {
    if k == 0 {
      var s := run.states[0];
      forall id
        ensures Counted(s, id)
      {
        assert Holders(s, id) == {};
      }
    } else {
      Reachable(run, k - 1);
      assert run.StepAt(k - 1);
      NextKeepsInv(run.weights, run.states[k - 1], run.events[k - 1]);
    }
  }
}
