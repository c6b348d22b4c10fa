/** The request handler as it runs when nothing else does: sample, rank, walk and reserve, forward,
    commit, record and release, over the real pool, directory and recorder. What interleaving with
    other requests adds is the subject of Fleet. */
module Handler {
  import opened Words
  import opened Directory
  import opened Tokenizer
  import C = CacheIndex
  import P = Pool
  import R = Recorder
  import S = Scorer
  import F = Fleet
  import Sorting

  datatype Reply =
    | BadRequest
    | Rejected(verdict: F.Verdict)
    | Forwarded(id: string, outcome: F.Outcome)

  datatype ChatRequest = ChatRequest(model: string, messages: seq<Message>, stream: bool)

  /** An outcome this kind of request can have. */
  predicate Fits(stream: bool, o: F.Outcome) {
    F.Possible(o) && (o.Streamed? ==> stream) && (o.Responded? ==> !stream)
  }

  /** The status the recorder is told. That a plain body was cut short is not noticed. */
  function RecordedStatus(o: F.Outcome): int {
    match o
    case Unreachable => 502
    case Streamed(_, _, failed) => if failed then 502 else 200
    case Responded(status, _) => status
  }

  /** The client did not get the whole of a successful response: there was no answer, or an answer with
      an error status, or one that was not carried to its end. */
  predicate ExchangeFailed(o: F.Outcome) {
    match o
    case Unreachable => true
    case Streamed(status, _, failed) => status >= 400 || failed
    case Responded(status, cut) => status >= 400 || cut
  }

  /** An exchange is recorded as an error exactly if there was no answer, the stream broke off, or a
      plain response had an error status; the upstream status of a stream plays no part, nor does what
      became of a plain body. */
  lemma RecordedAsError(o: F.Outcome)
    ensures ExchangeFailed(o) <==>
            o.Unreachable? || o.status >= 400 || (o.Streamed? && o.failed) || (o.Responded? && o.cut)
    ensures RecordedStatus(o) >= 400 <==>
            o.Unreachable? || (o.Streamed? && o.failed) || (o.Responded? && o.status >= 400)
  {
  }

  /** Every combination of what is recorded and what is learnt occurs among failures: a refused stream
      is recorded with status 200 and not committed, a cut plain response is recorded with status 200
      and committed, a stream broken off after its first byte is recorded with status 502 and committed,
      and one broken off before it is recorded with status 502 and not committed. */
  lemma FailuresOfEveryKind()
    ensures var o := F.Streamed(503, false, false);
            Fits(true, o) && ExchangeFailed(o) && RecordedStatus(o) == 200 && !F.Evidence(o)
    ensures var o := F.Responded(200, true);
            Fits(false, o) && ExchangeFailed(o) && RecordedStatus(o) == 200 && F.Evidence(o)
    ensures var o := F.Streamed(200, true, true);
            Fits(true, o) && ExchangeFailed(o) && RecordedStatus(o) == 502 && F.Evidence(o)
    ensures var o := F.Streamed(200, false, true);
            Fits(true, o) && ExchangeFailed(o) && RecordedStatus(o) == 502 && !F.Evidence(o)
  {
  }

  /** The time to first byte the recorder is told: zero unless a stream with a first byte ended well. */
  function RecordedTTFT(o: F.Outcome, ttftMillis: int): int {
    if o.Streamed? && o.firstByte && !o.failed then ttftMillis else 0
  }

  /** A commit changes the directory exactly if the backend keeps one. */
  lemma CommitIsVisible(shelves: map<string, Shelf>, id: string, job: F.Job)
    ensures Learnt(shelves, id, job) != shelves <==> id in shelves && shelves[id].capacity > 0
  {
    if id in shelves && shelves[id].capacity > 0 {
      assert |Learnt(shelves, id, job)[id].history| == |shelves[id].history| + 1;
    }
  }

  /** What the router remembers: the directory, the events it has stored, how many identifiers it has
      handed out. */
  datatype Memory = Memory(shelves: map<string, Shelf>, log: seq<R.RouteEvent>, drawn: nat)

  function Namespace(model: string): string {
    "chat:" + model
  }

  /** The directory after an exchange: a commit if there was evidence, nothing otherwise. */
  function Observed(shelves: map<string, Shelf>, id: string, job: F.Job, o: F.Outcome): map<string, Shelf> {
    if F.Evidence(o) then Learnt(shelves, id, job) else shelves
  }

  /** The directory after a commit. */
  function Learnt(shelves: map<string, Shelf>, id: string, job: F.Job): map<string, Shelf> {
    if id in shelves then shelves[id := Committed(shelves[id], Batch(job.ns, job.blocks))] else shelves
  }

  /** A backend as the pool shows it. */
  datatype Gauge = Gauge(healthy: bool, depth: int, limit: int)

  type Board = map<string, Gauge>

  /** The backend may be taken: known, healthy and below its limit. */
  predicate Available(board: Board, id: string) {
    id in board && board[id].healthy && !(board[id].limit > 0 && board[id].depth >= board[id].limit)
  }

  ghost predicate NoneAvailable(board: Board) {
    forall id :: !Available(board, id)
  }

  ghost predicate NoneHealthy(board: Board) {
    forall id :: id in board ==> !board[id].healthy
  }

  /** A refusal is justified, and names the right reason. */
  ghost predicate Refused(board: Board, verdict: F.Verdict) {
    && NoneAvailable(board) && verdict in {F.NoHealthyBackend, F.AllAtCapacity}
    && (verdict == F.NoHealthyBackend <==> NoneHealthy(board))
  }

  /** The board with one more slot of a backend taken, or one fewer. */
  function Moved(board: Board, id: string, delta: int): Board
    requires id in board
  {
    board[id := board[id].(depth := board[id].depth + delta)]
  }

  lemma MovedBack(board: Board, id: string)
    requires id in board
    ensures Moved(Moved(board, id, 1), id, -1) == board
  {
  }

  /** What sampling one backend yields. */
  function SnapshotOf(board: Board, shelves: map<string, Shelf>, id: string, job: F.Job): (s: S.BackendState)
    requires id in board
    ensures s.healthy && s.id == id
  {
    S.BackendState(id, Wrap64(F.MatchOn(shelves, id, job)), Wrap64(board[id].depth), Wrap64(board[id].limit),
                   Wrap64(F.UsedOn(shelves, id)), Wrap64(F.CapacityOn(shelves, id)), true)
  }

  /** The backend's match is noted as the directory has it. */
  ghost predicate Noted(shelves: map<string, Shelf>, job: F.Job, matches: map<string, nat>, id: string) {
    id in matches && matches[id] == F.MatchOn(shelves, id, job)
  }

  /** The snapshot is that of a healthy backend, and its match is noted. */
  ghost predicate Fresh(board: Board, shelves: map<string, Shelf>, job: F.Job, matches: map<string, nat>,
                        b: S.BackendState) {
    && b.id in board && board[b.id].healthy
    && b == SnapshotOf(board, shelves, b.id, job) && Noted(shelves, job, matches, b.id)
  }

  ghost predicate AllFresh(board: Board, shelves: map<string, Shelf>, job: F.Job, matches: map<string, nat>,
                           states: seq<S.BackendState>) {
    forall b :: b in states ==> Fresh(board, shelves, job, matches, b)
  }

  ghost predicate IsRanked(ranked: seq<S.BackendState>, id: string) {
    exists i :: 0 <= i < |ranked| && ranked[i].id == id
  }

  /** Every healthy backend is among the candidates. */
  ghost predicate Covered(board: Board, ranked: seq<S.BackendState>) {
    forall id :: id in board && board[id].healthy ==> IsRanked(ranked, id)
  }

  /** Sorted by identifier. */
  ghost predicate InOrder(states: seq<S.BackendState>) {
    forall i, j :: 0 <= i < j < |states| ==> Sorting.Less(states[i].id, states[j].id)
  }

  /** The candidates are exactly the healthy backends, each with its true snapshot, in the order of the
      ranking. */
  ghost predicate Planned(w: S.Weights, board: Board, shelves: map<string, Shelf>, job: F.Job,
                          matches: map<string, nat>, states: seq<S.BackendState>, order: seq<S.BackendState>) {
    && order == S.Ranked(w, F.RequestOf(job), states) && Covered(board, order) && InOrder(states)
    && AllFresh(board, shelves, job, matches, states) && AllFresh(board, shelves, job, matches, order)
  }

  /** The place is that of the first candidate that is available. */
  ghost predicate IsFirst(board: Board, order: seq<S.BackendState>, place: nat) {
    && place < |order| && Available(board, order[place].id)
    && forall i :: 0 <= i < place ==> !Available(board, order[i].id)
  }

  /** The backend is the first available one in the ranking of the true snapshots of all healthy ones. */
  ghost predicate Chosen(w: S.Weights, board: Board, shelves: map<string, Shelf>, job: F.Job, id: string) {
    exists matches, states, order, place :: ChosenIn(w, board, shelves, job, id, matches, states, order, place)
  }

  ghost predicate ChosenIn(w: S.Weights, board: Board, shelves: map<string, Shelf>, job: F.Job, id: string,
                           matches: map<string, nat>, states: seq<S.BackendState>, order: seq<S.BackendState>,
                           place: nat) {
    Planned(w, board, shelves, job, matches, states, order) && IsFirst(board, order, place) && order[place].id == id
  }

  /** A conversation with at least one message has at least one block, so no commit is ever empty. */
  lemma BlocksAreNeverEmpty(hasher: BlockHasher, messages: seq<Message>)
    requires hasher.Valid() && messages != []
    ensures hasher.HashText(Flatten(messages)) != []
  {
    FlattenIsNonEmpty(messages);
    hasher.BlockStarts(|Flatten(messages)|, 0);
  }

  class Server {
    const hasher: BlockHasher
    const weights: S.Weights
    const pool: P.Registry
    const cache: C.Index
    const telemetry: R.Recorder

    constructor (hasher: BlockHasher, weights: S.Weights, pool: P.Registry, cache: C.Index, telemetry: R.Recorder)
      ensures this.hasher == hasher && this.weights == weights
      ensures this.pool == pool && this.cache == cache && this.telemetry == telemetry
    {
      this.hasher := hasher;
      this.weights := weights;
      this.pool := pool;
      this.cache := cache;
      this.telemetry := telemetry;
    }

    ghost predicate Valid()
      reads pool, pool.backends.Values`healthy, pool.backends.Values`consecutiveFails,
            pool.backends.Values`consecutiveSuccesses, pool.backends.Values`healthyTransitions,
            pool.backends.Values`unhealthyTransitions, pool.backends.Values`probes,
            cache, cache.backends.Values`entries, telemetry, telemetry.events
    {
      pool.Valid() && cache.Valid() && telemetry.Valid() && hasher.Valid()
    }

    /** The pool shows this. */
    ghost predicate Shows(board: Board)
      reads pool`backends, pool.backends.Values`healthy, pool.backends.Values`queueDepth
    {
      board.Keys == pool.backends.Keys && forall id :: id in board ==> board[id] == GaugeOf(pool.backends[id])
    }

    ghost function Board(): (board: Board)
      reads pool`backends, pool.backends.Values`healthy, pool.backends.Values`queueDepth
      ensures Shows(board)
    {
      map id | id in pool.backends :: GaugeOf(pool.backends[id])
    }

    ghost function GaugeOf(b: P.Backend): Gauge
      reads b`healthy, b`queueDepth
    {
      Gauge(b.healthy, b.queueDepth, b.maxConcurrent)
    }

    // -------------------------------------------------------------------------------------------
    // Sampling and ranking
    // -------------------------------------------------------------------------------------------

    /** Three separate readings of one backend. */
    method SampleOne(b: P.Backend, job: F.Job, ghost board: Board) returns (state: S.BackendState, matched: nat)
      requires cache.Valid() && Shows(board) && Listed(b)
      ensures state == SnapshotOf(board, cache.shelves, b.id, job)
      ensures matched == F.MatchOn(cache.shelves, b.id, job)
    {
      matched := cache.Lookup(b.id, job.ns, job.blocks);
      var usage := cache.Usage(b.id);
      state := S.BackendState(b.id, Wrap64(matched), Wrap64(b.queueDepth), Wrap64(b.maxConcurrent),
                              Wrap64(usage.used), Wrap64(usage.capacity), true);
    }

    /** The backend is healthy and is the one of its name. */
    ghost predicate Listed(b: P.Backend)
      reads pool`backends, pool.backends.Values`healthy
    {
      b.id in pool.backends && pool.backends[b.id] == b && b.healthy
    }

    ghost predicate AllListed(healthy: seq<P.Backend>)
      reads pool`backends, pool.backends.Values`healthy
    {
      forall i :: 0 <= i < |healthy| ==> Listed(healthy[i])
    }

    /** Reads every healthy backend's match, usage and queue. */
    method Sample(healthy: seq<P.Backend>, job: F.Job, ghost board: Board)
      returns (states: seq<S.BackendState>, matches: map<string, nat>)
      requires cache.Valid() && Shows(board) && AllListed(healthy)
      requires forall i, j :: 0 <= i < j < |healthy| ==> healthy[i].id != healthy[j].id
      ensures |states| == |healthy|
      ensures forall i :: 0 <= i < |healthy| ==> states[i] == SnapshotOf(board, cache.shelves, healthy[i].id, job)
      ensures forall i :: 0 <= i < |healthy| ==> Noted(cache.shelves, job, matches, healthy[i].id)
    {
      states, matches := [], map[];
      for n := 0 to |healthy|
        invariant |states| == n
        invariant forall i :: 0 <= i < n ==> states[i] == SnapshotOf(board, cache.shelves, healthy[i].id, job)
        invariant forall i :: 0 <= i < n ==> Noted(cache.shelves, job, matches, healthy[i].id)
      {
        assert Listed(healthy[n]);
        var state, matched := SampleOne(healthy[n], job, board);
        matches := matches[healthy[n].id := matched];
        states := states + [state];
      }
    }

    lemma SamplesAreFresh(healthy: seq<P.Backend>, job: F.Job, states: seq<S.BackendState>, matches: map<string, nat>,
                          board: Board)
      requires |states| == |healthy| && AllListed(healthy) && Shows(board)
      requires forall i :: 0 <= i < |healthy| ==> states[i] == SnapshotOf(board, cache.shelves, healthy[i].id, job)
      requires forall i :: 0 <= i < |healthy| ==> Noted(cache.shelves, job, matches, healthy[i].id)
      ensures AllFresh(board, cache.shelves, job, matches, states)
    {
      forall b | b in states
        ensures Fresh(board, cache.shelves, job, matches, b)
      {
        var i :| 0 <= i < |states| && states[i] == b;
        assert Listed(healthy[i]);
      }
    }

    lemma OrderCovers(healthy: seq<P.Backend>, states: seq<S.BackendState>, order: seq<S.BackendState>, board: Board)
      requires |states| == |healthy| && forall i :: 0 <= i < |healthy| ==> states[i].id == healthy[i].id
      requires forall b :: b in states ==> b in order
      requires pool.Valid() && Shows(board)
      requires forall id :: id in pool.backends && pool.backends[id].healthy ==> pool.backends[id] in healthy
      ensures Covered(board, order)
    {
      forall id | id in board && board[id].healthy
        ensures IsRanked(order, id)
      {
        var i :| 0 <= i < |healthy| && healthy[i] == pool.backends[id];
        assert states[i] in order;
      }
    }

    /** Samples and ranks the healthy backends: every one of them is a candidate, and nothing else. */
    method Plan(healthy: seq<P.Backend>, job: F.Job, ghost board: Board)
      returns (order: seq<S.BackendState>, matches: map<string, nat>, ghost states: seq<S.BackendState>)
      requires cache.Valid() && pool.Valid() && Shows(board) && AllListed(healthy)
      requires forall id :: id in pool.backends && pool.backends[id].healthy ==> pool.backends[id] in healthy
      requires forall i, j :: 0 <= i < j < |healthy| ==> Sorting.Less(healthy[i].id, healthy[j].id)
      ensures Planned(weights, board, cache.shelves, job, matches, states, order)
      ensures healthy != [] ==> order != []
    {
      forall i, j | 0 <= i < j < |healthy|
        ensures healthy[i].id != healthy[j].id
      {
        Sorting.LessIsTotal(healthy[i].id, healthy[j].id);
      }
      var sampled;
      sampled, matches := Sample(healthy, job, board);
      states := sampled;
      SamplesAreFresh(healthy, job, states, matches, board);
      order := S.Rank(weights, F.RequestOf(job), sampled);
      S.RankedMembers(weights, F.RequestOf(job), states);
      OrderCovers(healthy, states, order, board);
    }

    /** The scan and the ranking together; `any` is false when no backend is healthy. */
    method Candidates(job: F.Job, ghost board: Board)
      returns (any: bool, order: seq<S.BackendState>, matches: map<string, nat>, ghost states: seq<S.BackendState>)
      requires cache.Valid() && pool.Valid() && Shows(board)
      ensures Planned(weights, board, cache.shelves, job, matches, states, order)
      ensures if any then order != [] && !NoneHealthy(board) else Refused(board, F.NoHealthyBackend)
    {
      var healthy := pool.Healthy();
      forall i | 0 <= i < |healthy|
        ensures Listed(healthy[i])
      {
        assert healthy[i] in healthy;
      }
      if |healthy| == 0 {
        assert S.Eligible([]) == [];
        return false, [], map[], [];
      }
      assert Listed(healthy[0]);
      order, matches, states := Plan(healthy, job, board);
      any := true;
    }

    // -------------------------------------------------------------------------------------------
    // Reserving
    // -------------------------------------------------------------------------------------------

    /** One reservation attempt, undisturbed. */
    method Take(b: P.Backend) returns (reserved: bool)
      requires pool.Valid() && b in pool.backends.Values
      modifies b`queueDepth
      ensures pool.Valid()
      ensures reserved <==> !(b.maxConcurrent > 0 && old(b.queueDepth) >= b.maxConcurrent)
      ensures b.queueDepth == old(b.queueDepth) + if reserved then 1 else 0
    {
      ghost var loaded;
      reserved, loaded := b.TryReserve([]);
    }

    /** The deferred release. */
    method Give(b: P.Backend, ghost board: Board)
      requires pool.Valid() && Shows(board) && b.id in pool.backends && pool.backends[b.id] == b
      modifies b`queueDepth
      ensures pool.Valid() && Shows(Moved(board, b.id, -1))
    {
      b.Release();
    }

    /** The release leaves everything else alone. */
    method HandBack(b: P.Backend, ghost board: Board)
      requires Valid() && Shows(board) && b.id in pool.backends && pool.backends[b.id] == b
      modifies b`queueDepth
      ensures Valid() && Shows(Moved(board, b.id, -1)) && Remembered() == old(Remembered())
    {
      Give(b, board);
    }

    /** One turn of the walk: takes a slot of this backend exactly if it is available. */
    method TryCandidate(id: string, ghost board: Board) returns (selected: P.Backend?)
      requires pool.Valid() && Shows(board)
      modifies pool.backends.Values`queueDepth
      ensures pool.Valid()
      ensures selected != null <==> Available(board, id)
      ensures selected != null ==> Has(selected, id)
      ensures Shows(if selected != null then Moved(board, id, 1) else board)
    {
      selected := pool.Get(id);
      if selected == null || !selected.healthy {
        return null;
      }
      var reserved := Take(selected);
      if !reserved {
        return null;
      }
    }

    /** The backend is the one of that name. */
    ghost predicate Has(b: P.Backend, id: string)
      reads pool`backends
    {
      b.id == id && id in pool.backends && pool.backends[id] == b
    }

    /** Walks the ranking and reserves on the first backend that is healthy and has room. Without
        interference, finding none means that no backend at all was available. */
    method Walk(ranked: seq<S.BackendState>, ghost board: Board) returns (selected: P.Backend?, at: nat)
      requires pool.Valid() && Shows(board) && Covered(board, ranked)
      modifies pool.backends.Values`queueDepth
      ensures pool.Valid()
      ensures selected == null ==> NoneAvailable(board) && Shows(board)
      ensures selected != null ==> IsFirst(board, ranked, at) && Has(selected, ranked[at].id)
      ensures selected != null ==> Shows(Moved(board, ranked[at].id, 1))
    {
      for i := 0 to |ranked|
        invariant pool.Valid() && Shows(board)
        invariant forall k :: 0 <= k < i ==> !Available(board, ranked[k].id)
      {
        selected := TryCandidate(ranked[i].id, board);
        if selected != null {
          return selected, i;
        }
      }
      forall id
        ensures !Available(board, id)
      {
        assert Available(board, id) ==> IsRanked(ranked, id);
      }
      return null, |ranked|;
    }

    /** Sample, rank, walk: a reservation on the first available candidate of the ranking of true
        snapshots, or a refusal, which says that no backend is healthy exactly if none is. */
    method Reserve(job: F.Job, ghost board: Board)
      returns (selected: P.Backend?, verdict: F.Verdict, state: S.BackendState, matched: nat,
               ghost states: seq<S.BackendState>, ghost ranked: seq<S.BackendState>, ghost place: nat,
               ghost matches: map<string, nat>)
      requires pool.Valid() && cache.Valid() && Shows(board)
      modifies pool.backends.Values`queueDepth
      ensures pool.Valid()
      ensures Planned(weights, board, old(cache.shelves), job, matches, states, ranked)
      ensures selected == null ==> Refused(board, verdict) && Shows(board)
      ensures selected != null ==> IsFirst(board, ranked, place) && ranked[place] == state
      ensures selected != null ==> Fresh(board, old(cache.shelves), job, matches, state) && matched == matches[state.id]
      ensures selected != null ==> Chosen(weights, board, old(cache.shelves), job, state.id)
      ensures selected != null ==> Has(selected, state.id) && Shows(Moved(board, state.id, 1))
    {
      var any, order, noted;
      any, order, noted, states := Candidates(job, board);
      ranked, matches := order, noted;
      verdict, matched, place, state := F.NoHealthyBackend, 0, 0, S.BackendState("", 0, 0, 0, 0, 0, false);
      if !any {
        return null, verdict, state, matched, states, ranked, place, matches;
      }
      var at;
      selected, at := Walk(order, board);
      place := at;
      if selected == null {
        verdict := if |order| == 0 then F.NothingRanked else F.AllAtCapacity;
        return;
      }
      state := order[at];
      assert state in order && Fresh(board, old(cache.shelves), job, matches, state);
      assert ChosenIn(weights, board, old(cache.shelves), job, state.id, matches, states, ranked, place);
      matched := noted[state.id];
    }

    /** What the rest of the handler needs of the reservation. */
    method ReserveFirst(job: F.Job, ghost board: Board)
      returns (selected: P.Backend?, verdict: F.Verdict, state: S.BackendState, matched: nat)
      requires pool.Valid() && cache.Valid() && Shows(board)
      modifies pool.backends.Values`queueDepth
      ensures pool.Valid()
      ensures selected == null ==> Refused(board, verdict) && Shows(board)
      ensures selected != null ==> Has(selected, state.id) && Shows(Moved(board, state.id, 1))
      ensures selected != null ==> Taken(board, old(cache.shelves), job, state, matched)
    {
      ghost var states, ranked, place, matches;
      selected, verdict, state, matched, states, ranked, place, matches := Reserve(job, board);
    }

    /** The state is the snapshot of an available backend, the first in the ranking, and `matched` its
        match. */
    ghost predicate Taken(board: Board, shelves: map<string, Shelf>, job: F.Job, state: S.BackendState, matched: nat) {
      && Available(board, state.id) && Chosen(weights, board, shelves, job, state.id)
      && state == SnapshotOf(board, shelves, state.id, job) && matched == F.MatchOn(shelves, state.id, job)
    }

    /** The reservation leaves directory and recorder alone. */
    method ReserveOnly(job: F.Job, ghost board: Board)
      returns (selected: P.Backend?, verdict: F.Verdict, state: S.BackendState, matched: nat)
      requires Valid() && Shows(board)
      modifies pool.backends.Values`queueDepth
      ensures Valid() && Remembered() == old(Remembered())
      ensures selected == null ==> Refused(board, verdict) && Shows(board)
      ensures selected != null ==> Has(selected, state.id) && Shows(Moved(board, state.id, 1))
      ensures selected != null ==> Taken(board, old(cache.shelves), job, state, matched)
    {
      selected, verdict, state, matched := ReserveFirst(job, board);
      assert cache.Valid();
      assert telemetry.Valid();
    }

    // -------------------------------------------------------------------------------------------
    // Forwarding
    // -------------------------------------------------------------------------------------------

    function EventOf(req: ChatRequest, state: S.BackendState, matched: nat, job: F.Job, status: int, ttftMillis: int,
                     now: nat, id: nat): R.RouteEvent
      requires state.healthy
    {
      R.RouteEvent(id, now, req.model, state.id, matched, |job.blocks|, S.Score(weights, F.RequestOf(job), state).v,
                   state.queueDepth, status, req.stream, ttftMillis)
    }

    /** Records one routing decision. */
    method RecordRoute(req: ChatRequest, state: S.BackendState, matched: nat, job: F.Job, status: int,
                       ttftMillis: int, now: nat)
      requires cache.Valid() && telemetry.Valid() && state.healthy
      modifies telemetry, telemetry.events
      ensures cache.Valid() && telemetry.Valid() && cache.shelves == old(cache.shelves)
      ensures telemetry.log == old(telemetry.log) +
                [EventOf(req, state, matched, job, status, ttftMillis, now, old(|telemetry.taken|) + 1)]
      ensures |telemetry.taken| == old(|telemetry.taken|) + 1
    {
      var score := S.Score(weights, F.RequestOf(job), state).v;
      Record(R.RouteEvent(0, 0, req.model, state.id, matched, |job.blocks|, score, state.queueDepth,
                          status, req.stream, ttftMillis), now);
    }

    /** Recording leaves the directory alone. */
    method Record(event: R.RouteEvent, now: nat)
      requires cache.Valid() && telemetry.Valid()
      modifies telemetry, telemetry.events
      ensures cache.Valid() && telemetry.Valid()
      ensures Remembered() == old(Recalled(event, now))
    {
      Log(event, now);
    }

    /** Records an event, which draws the next identifier. */
    method Log(event: R.RouteEvent, now: nat)
      requires telemetry.Valid()
      modifies telemetry, telemetry.events
      ensures telemetry.Valid()
      ensures telemetry.log == old(telemetry.log) + [event.(id := old(|telemetry.taken|) + 1, timestamp := now)]
      ensures |telemetry.taken| == old(|telemetry.taken|) + 1
    {
      telemetry.Record(event, now);
    }

    /** What is remembered once the event is recorded. */
    ghost function Recalled(event: R.RouteEvent, now: nat): Memory
      reads cache`shelves, telemetry`log, telemetry`taken
    {
      var n := |telemetry.taken| + 1;
      Memory(cache.shelves, telemetry.log + [event.(id := n, timestamp := now)], n)
    }

    /** Updates the directory after evidence that the backend ran the prompt. */
    method CommitObservation(id: string, job: F.Job, ghost outcome: F.Outcome, now: nat)
      requires cache.Valid() && telemetry.Valid() && cache.clock <= now && now > 0 && F.Evidence(outcome)
      modifies cache`sequence, cache`clock, cache`shelves, cache.backends.Values`entries
      ensures cache.Valid() && telemetry.Valid()
      ensures telemetry.log == old(telemetry.log) && telemetry.taken == old(telemetry.taken)
      ensures cache.shelves == Observed(old(cache.shelves), id, job, outcome)
    {
      Commit(id, job, now);
    }

    /** The commit proper, which an unknown backend ignores. */
    method Commit(id: string, job: F.Job, now: nat)
      requires cache.Valid() && cache.clock <= now && now > 0
      modifies cache`sequence, cache`clock, cache`shelves, cache.backends.Values`entries
      ensures cache.Valid()
      ensures cache.shelves == Learnt(old(cache.shelves), id, job)
    {
      cache.Commit(id, job.ns, job.blocks, now);
    }

    /** What the router remembers now. */
    ghost function Remembered(): Memory
      reads cache`shelves, telemetry`log, telemetry`taken
    {
      Memory(cache.shelves, telemetry.log, |telemetry.taken|)
    }

    /** The exchange was concluded: the directory has learnt what the outcome proves, and exactly this
        event was recorded. */
    ghost predicate Concluded(before: Memory, after: Memory, req: ChatRequest, state: S.BackendState, matched: nat,
                              job: F.Job, outcome: F.Outcome, ttftMillis: int, now: nat)
      requires state.healthy
    {
      && after.shelves == Observed(before.shelves, state.id, job, outcome)
      && after.log == before.log +
           [EventOf(req, state, matched, job, RecordedStatus(outcome), RecordedTTFT(outcome, ttftMillis), now,
                    before.drawn + 1)]
      && after.drawn == before.drawn + 1
    }

    /** A failed exchange goes down as a success exactly if it is an error status on a stream that was
        copied to its end, or a plain response below 400 whose body was cut. */
    lemma FailureRecordedAsSuccess(before: Memory, after: Memory, req: ChatRequest, state: S.BackendState,
                                   matched: nat, job: F.Job, outcome: F.Outcome, ttftMillis: int, now: nat)
      requires state.healthy && F.Possible(outcome)
      requires Concluded(before, after, req, state, matched, job, outcome, ttftMillis, now)
      ensures ExchangeFailed(outcome) && after.log[|after.log| - 1].statusCode < 400 <==>
              (outcome.Streamed? && outcome.status >= 400 && !outcome.failed)
              || (outcome.Responded? && outcome.status < 400 && outcome.cut)
    {
    }

    /** The directory changes on a failed exchange exactly if it is a stream broken off after its first
        byte or a plain response below 400 whose body was cut, and the backend keeps a directory; the
        change is then the commit of this prompt. */
    lemma FailureLearntFrom(before: Memory, after: Memory, req: ChatRequest, state: S.BackendState,
                            matched: nat, job: F.Job, outcome: F.Outcome, ttftMillis: int, now: nat)
      requires state.healthy && F.Possible(outcome) && ExchangeFailed(outcome)
      requires Concluded(before, after, req, state, matched, job, outcome, ttftMillis, now)
      ensures after.shelves != before.shelves <==>
              ((outcome.Streamed? && outcome.firstByte && outcome.failed)
               || (outcome.Responded? && outcome.status < 400 && outcome.cut))
              && state.id in before.shelves && before.shelves[state.id].capacity > 0
      ensures after.shelves != before.shelves ==> after.shelves == Learnt(before.shelves, state.id, job)
    {
      CommitIsVisible(before.shelves, state.id, job);
    }

    /** A streamed exchange: commit if a first byte came, however the stream ended. */
    method ForwardStream(req: ChatRequest, state: S.BackendState, matched: nat, job: F.Job,
                         outcome: F.Outcome, ttftMillis: int, now: nat)
      requires cache.Valid() && telemetry.Valid() && state.healthy && cache.clock <= now && now > 0
      requires req.stream && Fits(req.stream, outcome)
      modifies cache`sequence, cache`clock, cache`shelves, cache.backends.Values`entries, telemetry, telemetry.events
      ensures cache.Valid() && telemetry.Valid()
      ensures Concluded(old(Remembered()), Remembered(), req, state, matched, job, outcome, ttftMillis, now)
    {
      if outcome.Streamed? && outcome.firstByte {
        CommitObservation(state.id, job, outcome, now);
      }
      if outcome.Unreachable? || outcome.failed {
        RecordRoute(req, state, matched, job, 502, 0, now);
        return;
      }
      var ttft := if outcome.firstByte then ttftMillis else 0;
      RecordRoute(req, state, matched, job, 200, ttft, now);
    }

    /** A plain exchange: commit if the response status is below 400. */
    method ForwardPlain(req: ChatRequest, state: S.BackendState, matched: nat, job: F.Job,
                        outcome: F.Outcome, ttftMillis: int, now: nat)
      requires cache.Valid() && telemetry.Valid() && state.healthy && cache.clock <= now && now > 0
      requires !req.stream && Fits(req.stream, outcome)
      modifies cache`sequence, cache`clock, cache`shelves, cache.backends.Values`entries, telemetry, telemetry.events
      ensures cache.Valid() && telemetry.Valid()
      ensures Concluded(old(Remembered()), Remembered(), req, state, matched, job, outcome, ttftMillis, now)
    {
      if outcome.Unreachable? {
        RecordRoute(req, state, matched, job, 502, 0, now);
        return;
      }
      if outcome.status < 400 {
        CommitObservation(state.id, job, outcome, now);
      }
      RecordRoute(req, state, matched, job, outcome.status, 0, now);
    }

    /** The upstream exchange, streamed or plain. */
    method Exchange(req: ChatRequest, state: S.BackendState, matched: nat, job: F.Job,
                    outcome: F.Outcome, ttftMillis: int, now: nat, ghost board: Board)
      requires cache.Valid() && telemetry.Valid() && Shows(board) && state.healthy
      requires cache.clock <= now && now > 0 && Fits(req.stream, outcome)
      modifies cache`sequence, cache`clock, cache`shelves, cache.backends.Values`entries, telemetry, telemetry.events
      ensures cache.Valid() && telemetry.Valid() && Shows(board)
      ensures Concluded(old(Remembered()), Remembered(), req, state, matched, job, outcome, ttftMillis, now)
    {
      if req.stream {
        ForwardStream(req, state, matched, job, outcome, ttftMillis, now);
      } else {
        ForwardPlain(req, state, matched, job, outcome, ttftMillis, now);
      }
    }

    /** The exchange leaves the pool alone. */
    method ExchangeOnly(req: ChatRequest, state: S.BackendState, matched: nat, job: F.Job,
                        outcome: F.Outcome, ttftMillis: int, now: nat, ghost board: Board)
      requires Valid() && Shows(board) && state.healthy && cache.clock <= now && now > 0 && Fits(req.stream, outcome)
      modifies cache`sequence, cache`clock, cache`shelves, cache.backends.Values`entries, telemetry, telemetry.events
      ensures Valid() && Shows(board)
      ensures Concluded(old(Remembered()), Remembered(), req, state, matched, job, outcome, ttftMillis, now)
    {
      Exchange(req, state, matched, job, outcome, ttftMillis, now, board);
    }

    /** The part of the handler that holds the reservation: forward, then release. */
    method Serve(selected: P.Backend, req: ChatRequest, state: S.BackendState, matched: nat, job: F.Job,
                 outcome: F.Outcome, ttftMillis: int, now: nat, ghost board: Board)
      requires Valid() && state.healthy && cache.clock <= now && now > 0 && Fits(req.stream, outcome)
      requires Shows(board) && Has(selected, selected.id)
      modifies selected`queueDepth, cache`sequence, cache`clock, cache`shelves, cache.backends.Values`entries,
               telemetry, telemetry.events
      ensures Valid() && Shows(Moved(board, selected.id, -1))
      ensures Concluded(old(Remembered()), Remembered(), req, state, matched, job, outcome, ttftMillis, now)
    {
      ExchangeOnly(req, state, matched, job, outcome, ttftMillis, now, board);
      HandBack(selected, board);
    }

    // -------------------------------------------------------------------------------------------
    // The whole request
    // -------------------------------------------------------------------------------------------

    ghost function JobOf(req: ChatRequest): F.Job
      requires hasher.Valid()
    {
      F.Job(Namespace(req.model), hasher.HashText(Flatten(req.messages)))
    }

    /** What the reply to a well-formed request says about the call. A refusal is justified and leaves
        directory and log alone; a forwarded request was served by the first available backend of the
        ranking, and directory and log have changed exactly as its snapshot, its match and the outcome
        say. */
    ghost predicate Replied(board: Board, before: Memory, after: Memory, req: ChatRequest, job: F.Job,
                            outcome: F.Outcome, ttftMillis: int, now: nat, reply: Reply) {
      match reply
      case BadRequest => after == before
      case Rejected(verdict) => Refused(board, verdict) && after == before
      case Forwarded(id, o) =>
        && o == outcome && Available(board, id) && Chosen(weights, board, before.shelves, job, id)
        && Concluded(before, after, req, SnapshotOf(board, before.shelves, id, job), F.MatchOn(before.shelves, id, job),
                     job, outcome, ttftMillis, now)
    }

    /** One request from parsing to reply, undisturbed: every counter is back where it was. */
    method HandleChat(req: ChatRequest, outcome: F.Outcome, ttftMillis: int, now: nat) returns (reply: Reply)
      requires Valid() && cache.clock <= now && now > 0 && Fits(req.stream, outcome)
      modifies pool.backends.Values`queueDepth, cache`sequence, cache`clock, cache`shelves,
               cache.backends.Values`entries, telemetry, telemetry.events
      ensures Valid() && Shows(old(Board()))
      ensures reply == BadRequest <==> req.messages == []
      ensures reply != BadRequest ==> JobOf(req).blocks != []
      ensures Replied(old(Board()), old(Remembered()), Remembered(), req, JobOf(req), outcome, ttftMillis, now, reply)
    {
      ghost var board := Board();
      if |req.messages| == 0 {
        return BadRequest;
      }
      BlocksAreNeverEmpty(hasher, req.messages);
      var hashes := hasher.HashPrefix(req.messages);
      var job := F.Job(Namespace(req.model), hashes);
      assert job == JobOf(req) && Valid() && Shows(board) && Remembered() == old(Remembered());
      reply := Dispatch(req, job, outcome, ttftMillis, now, board);
    }

    /** The handler once the prompt is hashed. */
    method Dispatch(req: ChatRequest, job: F.Job, outcome: F.Outcome, ttftMillis: int, now: nat, ghost board: Board)
      returns (reply: Reply)
      requires Valid() && Shows(board) && cache.clock <= now && now > 0 && Fits(req.stream, outcome)
      modifies pool.backends.Values`queueDepth, cache`sequence, cache`clock, cache`shelves,
               cache.backends.Values`entries, telemetry, telemetry.events
      ensures Valid() && Shows(board)
      ensures reply != BadRequest
      ensures Replied(board, old(Remembered()), Remembered(), req, job, outcome, ttftMillis, now, reply)
    {
      var selected, verdict, state, matched := ReserveOnly(job, board);
      if selected == null {
        return Rejected(verdict);
      }
      MovedBack(board, state.id);
      Serve(selected, req, state, matched, job, outcome, ttftMillis, now, Moved(board, state.id, 1));
      return Forwarded(state.id, outcome);
    }
  }
}
