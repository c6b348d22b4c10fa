/** The handler and the step system describe the same code: what an undisturbed request does to pool
    and directory, and the reply it gets, is what a run gives in which no other request takes a step
    meanwhile. The theorems about runs are therefore theorems about the handler. */
module HandlerRuns {
  import opened Words
  import opened Directory
  import opened Sorting
  import opened Recency
  import opened Fleet
  import S = Scorer
  import Hd = Handler

  // ---------------------------------------------------------------------------------------------
  // Steps of one request
  // ---------------------------------------------------------------------------------------------

  /** The events, all of request r, lead from s to s'. */
  ghost predicate Executes(w: S.Weights, s: State, r: nat, events: seq<Event>, s': State)
    decreases |events|
  {
    if events == [] then s' == s
    else !events[0].Probe? && events[0].r == r && Enabled(s, events[0])
         && Executes(w, Next(w, s, events[0]), r, events[1..], s')
  }

  /** Some events of request r lead from s to s'. */
  ghost predicate Reaches(w: S.Weights, s: State, r: nat, s': State) {
    exists events :: Executes(w, s, r, events, s')
  }

  lemma {:induction false} ExecutesConcat(w: S.Weights, a: State, r: nat, first: seq<Event>, b: State,
                                          second: seq<Event>, c: State)
    requires Executes(w, a, r, first, b) && Executes(w, b, r, second, c)
    ensures Executes(w, a, r, first + second, c)
    decreases |first|
  {
    if first == [] {
      assert first + second == second;
    } else {
      ConcatTail(first, second);
      ExecutesConcat(w, Next(w, a, first[0]), r, first[1..], b, second, c);
    }
  }

  lemma ConcatTail(first: seq<Event>, second: seq<Event>)
    requires first != []
    ensures (first + second)[0] == first[0] && (first + second)[1..] == first[1..] + second
  {
  }

  lemma Then(w: S.Weights, a: State, r: nat, b: State, c: State)
    requires Reaches(w, a, r, b) && Reaches(w, b, r, c)
    ensures Reaches(w, a, r, c)
  {
    var first :| Executes(w, a, r, first, b);
    var second :| Executes(w, b, r, second, c);
    ExecutesConcat(w, a, r, first, b, second, c);
  }

  lemma Stay(w: S.Weights, s: State, r: nat)
    ensures Reaches(w, s, r, s)
  {
    assert Executes(w, s, r, [], s);
  }

  lemma One(w: S.Weights, s: State, r: nat, e: Event)
    requires !e.Probe? && e.r == r && Enabled(s, e)
    ensures Reaches(w, s, r, Next(w, s, e))
  {
    assert Executes(w, Next(w, s, e), r, [e][1..], Next(w, s, e));
    assert Executes(w, s, r, [e], Next(w, s, e));
  }

  /** The state with request r in phase p. */
  function At(s: State, r: nat, job: Job, p: Phase): State {
    s.(calls := s.calls[r := Call(job, p)])
  }

  /** A step that touches nothing shared only moves the request to its next phase. */
  lemma Quiet(w: S.Weights, s: State, r: nat, job: Job, p: Phase, e: Event, next: Phase)
    requires IsQuiet(e) && e.r == r && Ready(s, e, job, p) && next == NextPhase(w, s, e, job, p)
    ensures Reaches(w, At(s, r, job, p), r, At(s, r, job, next))
  {
    QuietNext(w, s, r, job, p, e, next);
    One(w, At(s, r, job, p), r, e);
  }

  predicate IsQuiet(e: Event) {
    !e.Arrive? && !e.Probe? && !e.Acquire? && !e.Release? && !e.Commit?
  }

  lemma QuietNext(w: S.Weights, s: State, r: nat, job: Job, p: Phase, e: Event, next: Phase)
    requires IsQuiet(e) && e.r == r && Ready(s, e, job, p) && next == NextPhase(w, s, e, job, p)
    ensures Enabled(At(s, r, job, p), e) && Next(w, At(s, r, job, p), e) == At(s, r, job, next)
  {
    var t := At(s, r, job, p);
    ServersStay(s.servers, e);
    OnlySharedMatters(w, s, t, e, job, p);
    assert t.calls[r := t.calls[r].(phase := next)] == At(s, r, job, next).calls;
  }

  /** What a request may do and where it gets to depends on pool and directory, not on other requests. */
  lemma OnlySharedMatters(w: S.Weights, s: State, t: State, e: Event, job: Job, p: Phase)
    requires !e.Arrive? && !e.Probe? && t.servers == s.servers && t.directory == s.directory
    requires Ready(s, e, job, p)
    ensures Ready(t, e, job, p) && NextPhase(w, t, e, job, p) == NextPhase(w, s, e, job, p)
  {
  }

  /** Only an acquisition, a release or a probe changes a backend. */
  lemma ServersStay(servers: map<string, Server>, e: Event)
    requires !e.Probe? && !e.Acquire? && !e.Release?
    ensures (map id | id in servers :: NextServer(servers[id], id, e)) == servers
  {
  }

  lemma ServersShift(servers: map<string, Server>, e: Event, id: string, delta: int)
    requires id in servers
    requires (delta == 1 && e.Acquire? && e.id == id) || (delta == -1 && e.Release? && e.id == id)
    ensures (map at | at in servers :: NextServer(servers[at], at, e)) ==
            servers[id := servers[id].(depth := servers[id].depth + delta)]
  {
  }

  // ---------------------------------------------------------------------------------------------
  // Scanning and sampling
  // ---------------------------------------------------------------------------------------------

  /** Exactly the healthy backends of the visited ones have been found, none twice. */
  ghost predicate FoundHealthy(s: State, left: set<string>, found: seq<string>) {
    && left <= s.servers.Keys && Distinct(found)
    && forall id :: id in found <==> id in s.servers && id !in left && Healthy(s, id)
  }

  lemma {:induction false} ScanAll(w: S.Weights, s: State, r: nat, job: Job, left: set<string>, found: seq<string>)
    returns (all: seq<string>)
    requires FoundHealthy(s, left, found)
    ensures FoundHealthy(s, {}, all)
    ensures Reaches(w, At(s, r, job, Scanning(left, found)), r, At(s, r, job, Scanning({}, all)))
    decreases left
  {
    if left == {} {
      all := found;
      Stay(w, At(s, r, job, Scanning(left, found)), r);
    } else {
      var id :| id in left;
      var more := if Healthy(s, id) then found + [id] else found;
      Quiet(w, s, r, job, Scanning(left, found), Scan(r, id), Scanning(left - {id}, more));
      all := ScanAll(w, s, r, job, left - {id}, more);
      Then(w, At(s, r, job, Scanning(left, found)), r, At(s, r, job, Scanning(left - {id}, more)),
           At(s, r, job, Scanning({}, all)));
    }
  }

  /** What the three readings of one backend yield. */
  function SampleOf(s: State, job: Job, id: string): S.BackendState
    requires id in s.servers
  {
    Sampled(id, Used(Wrap64(MatchOn(s.directory, id, job)), Wrap64(UsedOn(s.directory, id)),
                     Wrap64(CapacityOn(s.directory, id))), s.servers[id])
  }

  lemma SampleNext(w: S.Weights, s: State, r: nat, job: Job, todo: seq<string>, states: seq<S.BackendState>)
    requires todo != [] && todo[0] in s.servers
    ensures Reaches(w, At(s, r, job, Sampling(todo, Nothing, states)), r,
                    At(s, r, job, Sampling(todo[1..], Nothing, states + [SampleOf(s, job, todo[0])])))
  {
    var match0 := Wrap64(MatchOn(s.directory, todo[0], job));
    var used := Used(match0, Wrap64(UsedOn(s.directory, todo[0])), Wrap64(CapacityOn(s.directory, todo[0])));
    var p0, p1 := Sampling(todo, Nothing, states), Sampling(todo, Matched(match0), states);
    var p2 := Sampling(todo, used, states);
    var p3 := Sampling(todo[1..], Nothing, states + [SampleOf(s, job, todo[0])]);
    Quiet(w, s, r, job, p0, ReadMatch(r), p1);
    Quiet(w, s, r, job, p1, ReadUsage(r), p2);
    Quiet(w, s, r, job, p2, ReadDepth(r), p3);
    Then(w, At(s, r, job, p0), r, At(s, r, job, p1), At(s, r, job, p2));
    Then(w, At(s, r, job, p0), r, At(s, r, job, p2), At(s, r, job, p3));
  }

  /** The samples are those of the given backends, in order. */
  ghost predicate SamplesOf(s: State, job: Job, ids: seq<string>, states: seq<S.BackendState>) {
    |states| == |ids| && forall i :: 0 <= i < |ids| ==> ids[i] in s.servers && states[i] == SampleOf(s, job, ids[i])
  }

  lemma {:induction false} SampleAll(w: S.Weights, s: State, r: nat, job: Job, ids: seq<string>, n: nat,
                                     states: seq<S.BackendState>)
    returns (all: seq<S.BackendState>)
    requires n <= |ids| && (forall id :: id in ids ==> id in s.servers) && SamplesOf(s, job, ids[..n], states)
    ensures SamplesOf(s, job, ids, all)
    ensures Reaches(w, At(s, r, job, Sampling(ids[n..], Nothing, states)), r, At(s, r, job, Sampling([], Nothing, all)))
    decreases |ids| - n
  {
    if n == |ids| {
      all := states;
      assert ids[..n] == ids && ids[n..] == [];
      Stay(w, At(s, r, job, Sampling([], Nothing, all)), r);
    } else {
      assert ids[n] in ids;
      SampleNext(w, s, r, job, ids[n..], states);
      var more := states + [SampleOf(s, job, ids[n])];
      assert ids[n..][1..] == ids[n + 1..];
      assert ids[..n + 1] == ids[..n] + [ids[n]];
      all := SampleAll(w, s, r, job, ids, n + 1, more);
      Then(w, At(s, r, job, Sampling(ids[n..], Nothing, states)), r,
           At(s, r, job, Sampling(ids[n + 1..], Nothing, more)), At(s, r, job, Sampling([], Nothing, all)));
    }
  }

  // ---------------------------------------------------------------------------------------------
  // The walk
  // ---------------------------------------------------------------------------------------------

  predicate Vacant(s: State, id: string) {
    Healthy(s, id) && !Full(s.servers[id], s.servers[id].depth)
  }

  /** Going past one candidate that is unhealthy or full. */
  lemma PassOne(w: S.Weights, s: State, r: nat, job: Job, ranked: seq<S.BackendState>, at: nat)
    requires at < |ranked| && !Vacant(s, ranked[at].id)
    ensures Reaches(w, At(s, r, job, Walking(ranked, at)), r, At(s, r, job, Walking(ranked, at + 1)))
  {
    var id, p0, p3 := ranked[at].id, Walking(ranked, at), Walking(ranked, at + 1);
    if !Healthy(s, id) {
      Quiet(w, s, r, job, p0, Check(r), p3);
    } else {
      var p1, p2 := Reserving(ranked, at), Loaded(ranked, at, s.servers[id].depth);
      Quiet(w, s, r, job, p0, Check(r), p1);
      Quiet(w, s, r, job, p1, Load(r), p2);
      Quiet(w, s, r, job, p2, Refuse(r), p3);
      Then(w, At(s, r, job, p0), r, At(s, r, job, p1), At(s, r, job, p2));
      Then(w, At(s, r, job, p0), r, At(s, r, job, p2), At(s, r, job, p3));
    }
  }

  lemma {:induction false} PassAll(w: S.Weights, s: State, r: nat, job: Job, ranked: seq<S.BackendState>, to: nat)
    requires to <= |ranked| && forall i :: 0 <= i < to ==> !Vacant(s, ranked[i].id)
    ensures Reaches(w, At(s, r, job, Walking(ranked, 0)), r, At(s, r, job, Walking(ranked, to)))
  {
    if to == 0 {
      Stay(w, At(s, r, job, Walking(ranked, 0)), r);
    } else {
      PassAll(w, s, r, job, ranked, to - 1);
      PassOne(w, s, r, job, ranked, to - 1);
      Then(w, At(s, r, job, Walking(ranked, 0)), r, At(s, r, job, Walking(ranked, to - 1)),
           At(s, r, job, Walking(ranked, to)));
    }
  }

  /** One more slot of this backend is taken, or one fewer. */
  function Shifted(s: State, id: string, delta: int): State
    requires id in s.servers
  {
    s.(servers := s.servers[id := s.servers[id].(depth := s.servers[id].depth + delta)])
  }

  lemma TakeSlot(w: S.Weights, s: State, r: nat, job: Job, ranked: seq<S.BackendState>, at: nat)
    requires at < |ranked| && Vacant(s, ranked[at].id)
    ensures Reaches(w, At(s, r, job, Walking(ranked, at)), r,
                    At(Shifted(s, ranked[at].id, 1), r, job, Forwarding(ranked[at].id)))
  {
    var id, depth := ranked[at].id, s.servers[ranked[at].id].depth;
    var p0, p1, p2 := Walking(ranked, at), Reserving(ranked, at), Loaded(ranked, at, depth);
    Quiet(w, s, r, job, p0, Check(r), p1);
    Quiet(w, s, r, job, p1, Load(r), p2);
    Then(w, At(s, r, job, p0), r, At(s, r, job, p1), At(s, r, job, p2));
    Acquiring(w, s, r, job, ranked, at);
    Then(w, At(s, r, job, p0), r, At(s, r, job, p2), At(Shifted(s, id, 1), r, job, Forwarding(id)));
  }

  lemma Acquiring(w: S.Weights, s: State, r: nat, job: Job, ranked: seq<S.BackendState>, at: nat)
    requires at < |ranked| && Vacant(s, ranked[at].id)
    ensures Reaches(w, At(s, r, job, Loaded(ranked, at, s.servers[ranked[at].id].depth)), r,
                    At(Shifted(s, ranked[at].id, 1), r, job, Forwarding(ranked[at].id)))
  {
    var id := ranked[at].id;
    var t, e := At(s, r, job, Loaded(ranked, at, s.servers[id].depth)), Acquire(r, id);
    ServersShift(s.servers, e, id, 1);
    assert Ready(t, e, job, t.calls[r].phase);
    One(w, t, r, e);
    assert Next(w, t, e).calls == At(s, r, job, Forwarding(id)).calls;
  }

  // ---------------------------------------------------------------------------------------------
  // The exchange
  // ---------------------------------------------------------------------------------------------

  /** Committing, if there is evidence. */
  lemma Settle(w: S.Weights, s: State, r: nat, job: Job, id: string, o: Outcome)
    ensures Reaches(w, At(s, r, job, Answered(id, o)), r,
                    At(s.(directory := Hd.Observed(s.directory, id, job, o)), r, job, Settled(id, o)))
  {
    var t := At(s, r, job, Answered(id, o));
    if Evidence(o) {
      var e := Commit(r, id, Batch(job.ns, job.blocks));
      ServersStay(s.servers, e);
      assert Ready(t, e, job, Answered(id, o));
      One(w, t, r, e);
      assert Next(w, t, e).calls == At(s, r, job, Settled(id, o)).calls;
    } else {
      Quiet(w, s, r, job, Answered(id, o), Skip(r), Settled(id, o));
      assert s.(directory := s.directory) == s;
    }
  }

  lemma Releasing(w: S.Weights, s: State, r: nat, job: Job, id: string, o: Outcome)
    requires id in s.servers
    ensures Reaches(w, At(s, r, job, Settled(id, o)), r, At(Shifted(s, id, -1), r, job, Done(Served(o))))
  {
    var t, e := At(s, r, job, Settled(id, o)), Release(r, id);
    ServersShift(s.servers, e, id, -1);
    assert Ready(t, e, job, Settled(id, o));
    One(w, t, r, e);
    assert Next(w, t, e).calls == At(s, r, job, Done(Served(o))).calls;
  }

  /** From the acquired slot to the end. */
  lemma Exchange(w: S.Weights, s: State, r: nat, job: Job, id: string, o: Outcome)
    requires id in s.servers && Possible(o)
    ensures Reaches(w, At(Shifted(s, id, 1), r, job, Forwarding(id)), r,
                    At(s.(directory := Hd.Observed(s.directory, id, job, o)), r, job, Done(Served(o))))
  {
    var t := Shifted(s, id, 1);
    var d := Hd.Observed(s.directory, id, job, o);
    var start, answered := At(t, r, job, Forwarding(id)), At(t, r, job, Answered(id, o));
    var settled := At(t.(directory := d), r, job, Settled(id, o));
    Quiet(w, t, r, job, Forwarding(id), Answer(r, o), Answered(id, o));
    Settle(w, t, r, job, id, o);
    Then(w, start, r, answered, settled);
    Releasing(w, t.(directory := d), r, job, id, o);
    ShiftedBack(s, d, id);
    Then(w, start, r, settled, At(s.(directory := d), r, job, Done(Served(o))));
  }

  lemma ShiftedBack(s: State, d: map<string, Shelf>, id: string)
    requires id in s.servers
    ensures Shifted(Shifted(s, id, 1).(directory := d), id, -1) == s.(directory := d)
  {
    var servers := s.servers;
    var srv := servers[id];
    assert servers[id := srv.(depth := srv.depth + 1)][id := srv] == servers;
  }

  // ---------------------------------------------------------------------------------------------
  // From arrival to the ranking
  // ---------------------------------------------------------------------------------------------

  lemma Arriving(w: S.Weights, s: State, r: nat, job: Job)
    requires r !in s.calls && FitsInt(|job.blocks|)
    ensures Reaches(w, s, r, At(s, r, job, Scanning(s.servers.Keys, [])))
  {
    var e := Arrive(r, job);
    ServersStay(s.servers, e);
    One(w, s, r, e);
    assert Next(w, s, e).servers == s.servers;
    assert Next(w, s, e) == At(s, r, job, Scanning(s.servers.Keys, []));
  }

  /** The scan finds the healthy backends. */
  lemma Scans(w: S.Weights, s: State, r: nat, job: Job) returns (found: seq<string>)
    requires r !in s.calls && FitsInt(|job.blocks|)
    ensures FoundHealthy(s, {}, found) && Reaches(w, s, r, At(s, r, job, Scanning({}, found)))
  {
    Arriving(w, s, r, job);
    found := ScanAll(w, s, r, job, s.servers.Keys, []);
    Then(w, s, r, At(s, r, job, Scanning(s.servers.Keys, [])), At(s, r, job, Scanning({}, found)));
  }

  /** Exactly the healthy backends, in increasing order of identifier. */
  ghost predicate HealthyInOrder(s: State, ids: seq<string>) {
    Increasing(ids) && forall id :: id in ids <==> Healthy(s, id)
  }

  lemma FoundOne(s: State, found: seq<string>) returns (id: string)
    requires FoundHealthy(s, {}, found) && found != []
    ensures Healthy(s, id)
  {
    id := found[0];
  }

  lemma SortedScan(s: State, found: seq<string>)
    requires FoundHealthy(s, {}, found)
    ensures HealthyInOrder(s, Sort(Less, found))
  {
    IdentifiersAreOrdered(found);
    SortIncreases(Less, found);
    SortMembers(Less, found);
  }

  /** With a healthy backend the request comes to walk the ranking of the samples of all healthy ones. */
  lemma Ranks(w: S.Weights, s: State, r: nat, job: Job) returns (ids: seq<string>, states: seq<S.BackendState>)
    requires r !in s.calls && FitsInt(|job.blocks|) && exists id :: Healthy(s, id)
    ensures HealthyInOrder(s, ids) && SamplesOf(s, job, ids, states)
    ensures Reaches(w, s, r, At(s, r, job, Walking(S.Ranked(w, RequestOf(job), states), 0)))
  {
    var found := Scans(w, s, r, job);
    ids := Sort(Less, found);
    SortedScan(s, found);
    SortMembers(Less, found);
    Quiet(w, s, r, job, Scanning({}, found), EndScan(r), Sampling(ids, Nothing, []));
    Then(w, s, r, At(s, r, job, Scanning({}, found)), At(s, r, job, Sampling(ids, Nothing, [])));
    assert ids[0..] == ids;
    states := SampleAll(w, s, r, job, ids, 0, []);
    Then(w, s, r, At(s, r, job, Sampling(ids, Nothing, [])), At(s, r, job, Sampling([], Nothing, states)));
    var walk := Walking(S.Ranked(w, RequestOf(job), states), 0);
    Quiet(w, s, r, job, Sampling([], Nothing, states), Rank(r), walk);
    Then(w, s, r, At(s, r, job, Sampling([], Nothing, states)), At(s, r, job, walk));
  }

  // ---------------------------------------------------------------------------------------------
  // The handler is a run
  // ---------------------------------------------------------------------------------------------

  /** The step system's state shows what pool and directory show. */
  ghost predicate Mirrors(s: State, board: Hd.Board, shelves: map<string, Shelf>) {
    && s.directory == shelves && board.Keys == s.servers.Keys
    && forall id :: id in s.servers ==>
         board[id] == Hd.Gauge(s.servers[id].health.healthy, s.servers[id].depth, s.servers[id].maxConcurrent)
  }

  function VerdictOf(reply: Hd.Reply): Verdict
    requires !reply.BadRequest?
  {
    match reply
    case Rejected(verdict) => verdict
    case Forwarded(_, o) => Served(o)
  }

  ghost predicate Increasing(ids: seq<string>) {
    forall i, j :: 0 <= i < j < |ids| ==> Less(ids[i], ids[j])
  }

  ghost predicate SameMembers(a: seq<string>, b: seq<string>) {
    forall id: string :: id in a <==> id in b
  }

  /** A set of names has only one increasing arrangement. */
  lemma OnlyOneOrder(a: seq<string>, b: seq<string>)
    requires Increasing(a) && Increasing(b) && SameMembers(a, b)
    ensures a == b
  {
    IncreasingIsSorted(a);
    IncreasingIsSorted(b);
    assert Elements(a) == Elements(b);
    DistinctCount(a);
    DistinctCount(b);
    SameArrangement(a, b);
  }

  lemma IncreasingIsSorted(a: seq<string>)
    requires Increasing(a)
    ensures Distinct(a)
  {
    forall i, j | 0 <= i < j < |a|
      ensures a[i] != a[j]
    {
      LessIsTotal(a[i], a[j]);
    }
  }

  lemma {:induction false} SameArrangement(a: seq<string>, b: seq<string>)
    requires Increasing(a) && Increasing(b) && SameMembers(a, b) && |a| == |b|
    ensures a == b
    decreases |a|
  {
    if |a| > 0 {
      var x, y, front, back := a[|a| - 1], b[|b| - 1], a[..|a| - 1], b[..|b| - 1];
      assert a == front + [x] && b == back + [y];
      LastIsGreatest(a, y);
      LastIsGreatest(b, x);
      LessIsTotal(x, y);
      forall id
        ensures id in front <==> id in back
      {
        FrontMembers(a, id);
        FrontMembers(b, id);
      }
      SameArrangement(front, back);
    }
  }

  lemma LastIsGreatest(a: seq<string>, id: string)
    requires Increasing(a) && id in a
    ensures id == a[|a| - 1] || Less(id, a[|a| - 1])
  {
  }

  lemma FrontMembers(a: seq<string>, id: string)
    requires Increasing(a) && a != []
    ensures id in a[..|a| - 1] <==> id in a && id != a[|a| - 1]
  {
    LessIsTotal(id, a[|a| - 1]);
    assert a == a[..|a| - 1] + [a[|a| - 1]];
  }

  /** The handler's candidates and the run's candidates are the same snapshots. */
  lemma SameSamples(w: S.Weights, s: State, board: Hd.Board, shelves: map<string, Shelf>, job: Job,
                    matches: map<string, nat>, states: seq<S.BackendState>, order: seq<S.BackendState>,
                    ids: seq<string>, samples: seq<S.BackendState>)
    requires Mirrors(s, board, shelves) && Hd.Planned(w, board, shelves, job, matches, states, order)
    requires HealthyInOrder(s, ids) && SamplesOf(s, job, ids, samples)
    ensures states == samples
  {
    var names := seq(|states|, i requires 0 <= i < |states| => states[i].id);
    forall id
      ensures id in names <==> id in ids
    {
      if id in names {
        var i :| 0 <= i < |names| && names[i] == id;
        assert Hd.Fresh(board, shelves, job, matches, states[i]);
      }
      if id in ids {
        var k := PlannedId(w, s, board, shelves, job, matches, states, order, id);
        assert names[k] == id;
      }
    }
    OnlyOneOrder(names, ids);
    forall i | 0 <= i < |states|
      ensures states[i] == samples[i]
    {
      assert names[i] == ids[i];
      assert Hd.Fresh(board, shelves, job, matches, states[i]);
      SampleIsSnapshot(s, board, shelves, job, ids[i]);
    }
  }

  lemma SampleIsSnapshot(s: State, board: Hd.Board, shelves: map<string, Shelf>, job: Job, id: string)
    requires Mirrors(s, board, shelves) && Healthy(s, id)
    ensures SampleOf(s, job, id) == Hd.SnapshotOf(board, shelves, id, job)
  {
  }

  /** Every healthy backend has a place among the planned snapshots. */
  lemma PlannedId(w: S.Weights, s: State, board: Hd.Board, shelves: map<string, Shelf>, job: Job,
                  matches: map<string, nat>, states: seq<S.BackendState>, order: seq<S.BackendState>, id: string)
    returns (k: nat)
    requires Mirrors(s, board, shelves) && Hd.Planned(w, board, shelves, job, matches, states, order)
    requires Healthy(s, id)
    ensures k < |states| && states[k].id == id
  {
    assert Hd.IsRanked(order, id);
    var i :| 0 <= i < |order| && order[i].id == id;
    S.RankedMembers(w, RequestOf(job), states);
    assert order[i] in order;
    k :| 0 <= k < |states| && states[k] == order[i];
  }

  lemma VacantIsAvailable(s: State, board: Hd.Board, shelves: map<string, Shelf>, id: string)
    requires Mirrors(s, board, shelves)
    ensures Vacant(s, id) <==> Hd.Available(board, id)
  {
  }

  /** A refused request. */
  lemma RefusalIsARun(w: S.Weights, s: State, board: Hd.Board, shelves: map<string, Shelf>, r: nat, job: Job,
                      verdict: Verdict)
    requires Mirrors(s, board, shelves) && r !in s.calls && FitsInt(|job.blocks|) && Hd.Refused(board, verdict)
    ensures Reaches(w, s, r, At(s, r, job, Done(verdict)))
  {
    if Hd.NoneHealthy(board) {
      var found := Scans(w, s, r, job);
      if found != [] {
        var id := FoundOne(s, found);
        assert false;
      }
      Quiet(w, s, r, job, Scanning({}, found), EndScan(r), Done(verdict));
      Then(w, s, r, At(s, r, job, Scanning({}, found)), At(s, r, job, Done(verdict)));
    } else {
      var id :| id in board && board[id].healthy;
      assert Healthy(s, id);
      var ids, states := Ranks(w, s, r, job);
      WalkFails(w, s, board, shelves, r, job, ids, states);
      var ranked := S.Ranked(w, RequestOf(job), states);
      Then(w, s, r, At(s, r, job, Walking(ranked, 0)), At(s, r, job, Done(verdict)));
    }
  }

  lemma WalkFails(w: S.Weights, s: State, board: Hd.Board, shelves: map<string, Shelf>, r: nat, job: Job,
                  ids: seq<string>, states: seq<S.BackendState>)
    requires Mirrors(s, board, shelves) && Hd.NoneAvailable(board) && exists id :: Healthy(s, id)
    requires HealthyInOrder(s, ids) && SamplesOf(s, job, ids, states)
    ensures Reaches(w, At(s, r, job, Walking(S.Ranked(w, RequestOf(job), states), 0)), r,
                    At(s, r, job, Done(AllAtCapacity)))
  {
    var ranked := S.Ranked(w, RequestOf(job), states);
    forall i | 0 <= i < |ranked|
      ensures !Vacant(s, ranked[i].id)
    {
      VacantIsAvailable(s, board, shelves, ranked[i].id);
    }
    PassAll(w, s, r, job, ranked, |ranked|);
    SomethingIsRanked(w, s, job, ids, states);
    Quiet(w, s, r, job, Walking(ranked, |ranked|), GiveUp(r), Done(AllAtCapacity));
    Then(w, At(s, r, job, Walking(ranked, 0)), r, At(s, r, job, Walking(ranked, |ranked|)),
         At(s, r, job, Done(AllAtCapacity)));
  }

  lemma SomethingIsRanked(w: S.Weights, s: State, job: Job, ids: seq<string>, states: seq<S.BackendState>)
    requires HealthyInOrder(s, ids) && SamplesOf(s, job, ids, states) && exists id :: Healthy(s, id)
    ensures S.Ranked(w, RequestOf(job), states) != []
  {
    var id :| Healthy(s, id);
    assert id in ids;
    assert states[0] in states && states[0].healthy;
    S.RankedMembers(w, RequestOf(job), states);
  }

  /** A served request. */
  lemma ServiceIsARun(w: S.Weights, s: State, board: Hd.Board, shelves: map<string, Shelf>, r: nat, job: Job,
                      id: string, o: Outcome)
    requires Mirrors(s, board, shelves) && r !in s.calls && FitsInt(|job.blocks|) && Possible(o)
    requires Hd.Chosen(w, board, shelves, job, id)
    ensures Reaches(w, s, r, At(s.(directory := Hd.Observed(shelves, id, job, o)), r, job, Done(Served(o))))
  {
    var matches: map<string, nat>, plan: seq<S.BackendState>, order: seq<S.BackendState>, place: nat :|
      Hd.ChosenIn(w, board, shelves, job, id, matches, plan, order, place);
    VacantIsAvailable(s, board, shelves, id);
    assert Healthy(s, id);
    var ids, states := Ranks(w, s, r, job);
    SameSamples(w, s, board, shelves, job, matches, plan, order, ids, states);
    forall i | 0 <= i < place
      ensures !Vacant(s, order[i].id)
    {
      VacantIsAvailable(s, board, shelves, order[i].id);
    }
    PassAll(w, s, r, job, order, place);
    Then(w, s, r, At(s, r, job, Walking(order, 0)), At(s, r, job, Walking(order, place)));
    TakeSlot(w, s, r, job, order, place);
    Then(w, s, r, At(s, r, job, Walking(order, place)), At(Shifted(s, id, 1), r, job, Forwarding(id)));
    Exchange(w, s, r, job, id, o);
    Then(w, s, r, At(Shifted(s, id, 1), r, job, Forwarding(id)),
         At(s.(directory := Hd.Observed(s.directory, id, job, o)), r, job, Done(Served(o))));
  }

  /** What the handler does to pool and directory, and the reply it gives, is what steps of one request
      alone do from the mirrored state, and its outcome there. */
  lemma HandlerIsARun(server: Hd.Server, s: State, r: nat, board: Hd.Board, before: Hd.Memory, after: Hd.Memory,
                      req: Hd.ChatRequest, job: Job, outcome: Outcome, ttftMillis: int, now: nat, reply: Hd.Reply)
    requires Mirrors(s, board, before.shelves) && r !in s.calls && FitsInt(|job.blocks|) && Possible(outcome)
    requires !reply.BadRequest?
    requires server.Replied(board, before, after, req, job, outcome, ttftMillis, now, reply)
    ensures var s' := At(s.(directory := after.shelves), r, job, Done(VerdictOf(reply)));
            Reaches(server.weights, s, r, s') && Mirrors(s', board, after.shelves)
  {
    match reply
    case Rejected(verdict) =>
      RefusalIsARun(server.weights, s, board, before.shelves, r, job, verdict);
      assert s.(directory := after.shelves) == s;
    case Forwarded(id, o) =>
      ServiceIsARun(server.weights, s, board, before.shelves, r, job, id, o);
  }

  // ---------------------------------------------------------------------------------------------
  // Runs go on
  // ---------------------------------------------------------------------------------------------

  /** What a request reaches from the end of a run continues that run, with events of that request only. */
  lemma {:induction false} Continues(run: Run, r: nat, events: seq<Event>, s': State) returns (longer: Run)
    requires run.Valid() && Executes(run.weights, run.states[|run.states| - 1], r, events, s')
    ensures longer.Valid() && longer.weights == run.weights && longer.events == run.events + events
    ensures run.states <= longer.states && longer.states[|longer.states| - 1] == s'
    decreases |events|
  {
    if events == [] {
      longer := run;
      assert run.events + events == run.events;
    } else {
      var e, s := events[0], run.states[|run.states| - 1];
      var more := Run(run.weights, run.states + [Next(run.weights, s, e)], run.events + [e]);
      OneMore(run, e, more);
      longer := Continues(more, r, events[1..], s');
      assert events == [e] + events[1..];
      Regroup(run.events, [e], events[1..]);
    }
  }

  lemma {:induction false} OnlyOwn(w: S.Weights, s: State, r: nat, events: seq<Event>, s': State)
    requires Executes(w, s, r, events, s')
    ensures forall e :: e in events ==> !e.Probe? && e.r == r
    decreases |events|
  {
    if events != [] {
      OnlyOwn(w, Next(w, s, events[0]), r, events[1..], s');
      assert events == [events[0]] + events[1..];
    }
  }

  /** Whatever run has led to a state that mirrors pool and directory: it goes on with steps of one new
      request alone, after which the state mirrors pool and directory again and the request is done with
      the verdict that the handler replied. */
  lemma HandlerContinuesRun(server: Hd.Server, run: Run, r: nat, board: Hd.Board, before: Hd.Memory,
                            after: Hd.Memory, req: Hd.ChatRequest, job: Job, outcome: Outcome, ttftMillis: int,
                            now: nat, reply: Hd.Reply)
    returns (longer: Run, own: seq<Event>)
    requires run.Valid() && run.weights == server.weights
    requires var s := run.states[|run.states| - 1]; Mirrors(s, board, before.shelves) && r !in s.calls
    requires FitsInt(|job.blocks|) && Possible(outcome) && !reply.BadRequest?
    requires server.Replied(board, before, after, req, job, outcome, ttftMillis, now, reply)
    ensures longer.Valid() && longer.events == run.events + own && run.states <= longer.states
    ensures forall e :: e in own ==> !e.Probe? && e.r == r
    ensures var s' := longer.states[|longer.states| - 1];
            && Mirrors(s', board, after.shelves)
            && r in s'.calls && s'.calls[r] == Call(job, Done(VerdictOf(reply)))
  {
    var s := run.states[|run.states| - 1];
    var s' := At(s.(directory := after.shelves), r, job, Done(VerdictOf(reply)));
    HandlerIsARun(server, s, r, board, before, after, req, job, outcome, ttftMillis, now, reply);
    own :| Executes(run.weights, s, r, own, s');
    OnlyOwn(run.weights, s, r, own, s');
    longer := Continues(run, r, own, s');
  }

  lemma OneMore(run: Run, e: Event, more: Run)
    requires run.Valid() && Enabled(run.states[|run.states| - 1], e)
    requires var s := run.states[|run.states| - 1];
             more == Run(run.weights, run.states + [Next(run.weights, s, e)], run.events + [e])
    ensures more.Valid()
  {
    forall k: nat | k < |more.events|
      ensures more.StepAt(k)
    {
      if k < |run.events| {
        assert run.StepAt(k);
      }
    }
  }
}
