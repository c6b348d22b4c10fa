/** The scheduling policy: score every backend by cache affinity, queue pressure and eviction risk,
    rank the healthy ones, fall back to the least loaded one when nobody holds any of the prefix.
    Scores are real numbers; an unhealthy backend scores minus infinity. */
module Scorer {
  import opened Words
  import opened Sorting

  const MAX_INT: GoInt := 0x7FFF_FFFF_FFFF_FFFF

  datatype Request = Request(blockHashes: seq<Word64>, totalBlocks: GoInt)

  datatype BackendState = BackendState(id: string, matchedBlocks: GoInt, queueDepth: GoInt,
                                       maxQueueDepth: GoInt, usedBlocks: GoInt,
                                       totalCapacity: GoInt, healthy: bool)

  datatype Weights = Weights(cacheHit: real, queueDepth: real, evictionRisk: real)

  datatype Value = NegInf | Fin(v: real)

  predicate Greater(a: Value, b: Value) {
    a.Fin? && (b.NegInf? || a.v > b.v)
  }

  /** Denominator of the hit ratio: the stated block count, else the hashes, else one. */
  function Divisor(req: Request): int {
    if req.totalBlocks != 0 then req.totalBlocks
    else if |req.blockHashes| != 0 then |req.blockHashes|
    else 1
  }

  function HitRatio(req: Request, b: BackendState): real {
    b.matchedBlocks as real / Divisor(req) as real
  }

  function Pressure(b: BackendState): real {
    if b.maxQueueDepth > 0 then b.queueDepth as real / b.maxQueueDepth as real else 0.0
  }

  function Risk(b: BackendState): real {
    if b.totalCapacity > 0
    then 1.0 - (b.totalCapacity - b.usedBlocks) as real / b.totalCapacity as real
    else 0.0
  }

  function Score(w: Weights, req: Request, b: BackendState): Value {
    if !b.healthy then NegInf
    else Fin(HitRatio(req, b) * w.cacheHit - Pressure(b) * w.queueDepth - Risk(b) * w.evictionRisk)
  }

  lemma UnitRatio(a: int, b: int)
    requires 0 <= a <= b && b > 0
    ensures 0.0 <= a as real / b as real <= 1.0
  {
  }

  lemma Scaled(x: real, w: real) returns (p: real)
    requires 0.0 <= x <= 1.0 && w >= 0.0
    ensures p == x * w && 0.0 <= p <= w
  {
    p := x * w;
    NonNegativeProduct(x, w);
    NonNegativeProduct(1.0 - x, w);
    assert (1.0 - x) * w == w - x * w;
  }

  lemma NonNegativeProduct(x: real, y: real)
    requires x >= 0.0 && y >= 0.0
    ensures x * y >= 0.0
  {
  }

  /** A backend whose match, queue and usage are within their limits scores within the weights. */
  lemma ScoreBounds(w: Weights, req: Request, b: BackendState)
    requires w.cacheHit >= 0.0 && w.queueDepth >= 0.0 && w.evictionRisk >= 0.0
    requires b.healthy && 0 <= b.matchedBlocks <= Divisor(req)
    requires b.maxQueueDepth > 0 ==> 0 <= b.queueDepth <= b.maxQueueDepth
    requires b.totalCapacity > 0 ==> 0 <= b.usedBlocks <= b.totalCapacity
    ensures Score(w, req, b).Fin?
    ensures -(w.queueDepth + w.evictionRisk) <= Score(w, req, b).v <= w.cacheHit
  {
    UnitRatio(b.matchedBlocks, Divisor(req));
    if b.maxQueueDepth > 0 {
      UnitRatio(b.queueDepth, b.maxQueueDepth);
    }
    if b.totalCapacity > 0 {
      UnitRatio(b.totalCapacity - b.usedBlocks, b.totalCapacity);
    }
    Combined(w, HitRatio(req, b), Pressure(b), Risk(b));
  }

  lemma Combined(w: Weights, hit: real, pressure: real, risk: real)
    requires w.cacheHit >= 0.0 && w.queueDepth >= 0.0 && w.evictionRisk >= 0.0
    requires 0.0 <= hit <= 1.0 && 0.0 <= pressure <= 1.0 && 0.0 <= risk <= 1.0
    ensures -(w.queueDepth + w.evictionRisk)
            <= hit * w.cacheHit - pressure * w.queueDepth - risk * w.evictionRisk <= w.cacheHit
  {
    var gain := Scaled(hit, w.cacheHit);
    var queue := Scaled(pressure, w.queueDepth);
    var eviction := Scaled(risk, w.evictionRisk);
  }

  // ---------------------------------------------------------------------------------------------
  // Ranking
  // ---------------------------------------------------------------------------------------------

  /** The healthy backends, in input order. */
  function Eligible(backends: seq<BackendState>): (e: seq<BackendState>)
    ensures forall b :: b in e ==> b in backends && b.healthy
    ensures forall b :: b in backends && b.healthy ==> b in e
    decreases |backends|
  {
    if backends == [] then []
    else
      var last := backends[|backends| - 1];
      assert backends == backends[..|backends| - 1] + [last];
      Eligible(backends[..|backends| - 1]) + (if last.healthy then [last] else [])
  }

  predicate AnyHit(backends: seq<BackendState>) {
    exists b :: b in backends && b.healthy && b.matchedBlocks > 0
  }

  /** The score table, keyed by identifier; a repeated identifier overwrites. */
  function ScoreTable(w: Weights, req: Request, backends: seq<BackendState>): (t: map<string, Value>)
    ensures forall b :: b in backends ==> b.id in t
    decreases |backends|
  {
    if backends == [] then map[]
    else
      var last := backends[|backends| - 1];
      assert backends == backends[..|backends| - 1] + [last];
      ScoreTable(w, req, backends[..|backends| - 1])[last.id := Score(w, req, last)]
  }

  function Lookup(t: map<string, Value>, id: string): Value {
    if id in t then t[id] else Fin(0.0)
  }

  /** Higher score first, ties by identifier. */
  predicate BeforeByScore(t: map<string, Value>, a: BackendState, b: BackendState) {
    if Lookup(t, a.id) == Lookup(t, b.id) then Less(a.id, b.id)
    else Greater(Lookup(t, a.id), Lookup(t, b.id))
  }

  /** Shorter queue first, ties by identifier. */
  predicate BeforeByDepth(a: BackendState, b: BackendState) {
    if a.queueDepth == b.queueDepth then Less(a.id, b.id) else a.queueDepth < b.queueDepth
  }

  /** The comparison Rank sorts by. */
  function Comparison(w: Weights, req: Request, backends: seq<BackendState>): (BackendState, BackendState) -> bool {
    if AnyHit(backends) then
      var t := ScoreTable(w, req, Eligible(backends));
      (a: BackendState, b: BackendState) => BeforeByScore(t, a, b)
    else
      (a: BackendState, b: BackendState) => BeforeByDepth(a, b)
  }

  function Ranked(w: Weights, req: Request, backends: seq<BackendState>): seq<BackendState> {
    Sort(Comparison(w, req, backends), Eligible(backends))
  }

  /** The ranking has exactly the healthy inputs. */
  lemma RankedMembers(w: Weights, req: Request, backends: seq<BackendState>)
    ensures forall b :: b in Ranked(w, req, backends) <==> b in backends && b.healthy
    ensures |Ranked(w, req, backends)| == |Eligible(backends)| <= |backends|
    ensures (exists b :: b in backends && b.healthy) ==> Ranked(w, req, backends) != []
  {
    SortMembers(Comparison(w, req, backends), Eligible(backends));
    EligibleIsShorter(backends);
  }

  lemma {:induction false} EligibleIsShorter(backends: seq<BackendState>)
    ensures |Eligible(backends)| <= |backends|
    decreases |backends|
  {
    if backends != [] {
      EligibleIsShorter(backends[..|backends| - 1]);
    }
  }

  ghost predicate DistinctIds(backends: seq<BackendState>) {
    forall a, b :: a in backends && b in backends && a.id == b.id ==> a == b
  }

  /** What the ranking means: a is preferred to b. */
  ghost predicate Preferred(w: Weights, req: Request, hit: bool, a: BackendState, b: BackendState) {
    if hit then
      Greater(Score(w, req, a), Score(w, req, b)) || (Score(w, req, a) == Score(w, req, b) && Less(a.id, b.id))
    else
      a.queueDepth < b.queueDepth || (a.queueDepth == b.queueDepth && Less(a.id, b.id))
  }

  lemma {:induction false} ScoreTableEntries(w: Weights, req: Request, backends: seq<BackendState>, b: BackendState)
    requires DistinctIds(backends) && b in backends
    ensures Lookup(ScoreTable(w, req, backends), b.id) == Score(w, req, b)
    decreases |backends|
  {
    var front, last := backends[..|backends| - 1], backends[|backends| - 1];
    assert backends == front + [last];
    if b.id != last.id {
      ScoreTableEntries(w, req, front, b);
    }
  }

  lemma ComparisonMeansPreferred(w: Weights, req: Request, backends: seq<BackendState>, a: BackendState,
                                 b: BackendState)
    requires DistinctIds(backends) && a in Eligible(backends) && b in Eligible(backends)
    ensures Comparison(w, req, backends)(a, b) <==> Preferred(w, req, AnyHit(backends), a, b)
  {
    if AnyHit(backends) {
      ScoreTableEntries(w, req, Eligible(backends), a);
      ScoreTableEntries(w, req, Eligible(backends), b);
    }
  }

  lemma PreferredIsTotal(w: Weights, req: Request, hit: bool, a: BackendState, b: BackendState)
    requires a.healthy && b.healthy && a.id != b.id
    ensures Preferred(w, req, hit, a, b) != Preferred(w, req, hit, b, a)
  {
    LessIsTotal(a.id, b.id);
  }

  lemma PreferredIsTransitive(w: Weights, req: Request, hit: bool, a: BackendState, b: BackendState, c: BackendState)
    requires a.healthy && b.healthy && c.healthy
    requires Preferred(w, req, hit, a, b) && Preferred(w, req, hit, b, c)
    ensures Preferred(w, req, hit, a, c)
  {
    if Less(a.id, b.id) && Less(b.id, c.id) {
      LessIsTransitive(a.id, b.id, c.id);
    }
  }

  lemma ComparisonIsStrictTotal(w: Weights, req: Request, backends: seq<BackendState>)
    requires DistinctIds(backends)
    ensures StrictTotal(Comparison(w, req, backends), multiset(Eligible(backends)))
  {
    var e, less, hit := Eligible(backends), Comparison(w, req, backends), AnyHit(backends);
    forall a, b | a in e && b in e
      ensures less(a, b) <==> Preferred(w, req, hit, a, b)
      ensures a != b ==> less(a, b) != less(b, a)
      ensures less(a, b) ==> !less(b, a)
    {
      ComparisonMeansPreferred(w, req, backends, a, b);
      ComparisonMeansPreferred(w, req, backends, b, a);
      if a != b {
        PreferredIsTotal(w, req, hit, a, b);
      } else {
        LessIsTotal(a.id, b.id);
      }
    }
    forall a, b, c | a in e && b in e && c in e && less(a, b) && less(b, c)
      ensures less(a, c)
    {
      PreferredIsTransitive(w, req, hit, a, b, c);
    }
  }

  /** Rank is a permutation of the healthy inputs in which every backend is preferred to all that
      follow it. */
  lemma RankIsSortedPermutation(w: Weights, req: Request, backends: seq<BackendState>)
    requires DistinctIds(backends)
    ensures multiset(Ranked(w, req, backends)) == multiset(Eligible(backends))
    ensures var r := Ranked(w, req, backends);
            forall i, j :: 0 <= i < j < |r| && r[i] != r[j] ==> Preferred(w, req, AnyHit(backends), r[i], r[j])
  {
    var r, less := Ranked(w, req, backends), Comparison(w, req, backends);
    ComparisonIsStrictTotal(w, req, backends);
    SortSorts(less, Eligible(backends));
    forall i, j | 0 <= i < j < |r| && r[i] != r[j]
      ensures Preferred(w, req, AnyHit(backends), r[i], r[j])
    {
      assert r[i] in multiset(r) && r[j] in multiset(r);
      assert less(r[i], r[j]);
      ComparisonMeansPreferred(w, req, backends, r[i], r[j]);
    }
  }

  lemma {:induction false} EligibleMultiset(backends: seq<BackendState>, b: BackendState)
    ensures multiset(Eligible(backends))[b] == if b.healthy then multiset(backends)[b] else 0
    decreases |backends|
  {
    if backends != [] {
      EligibleMultiset(backends[..|backends| - 1], b);
      assert backends == backends[..|backends| - 1] + [backends[|backends| - 1]];
    }
  }

  /** Ranking does not depend on the order of its input. */
  lemma RankIgnoresInputOrder(w: Weights, req: Request, a: seq<BackendState>, b: seq<BackendState>)
    requires DistinctIds(a) && multiset(a) == multiset(b)
    ensures Ranked(w, req, a) == Ranked(w, req, b)
  {
    forall x
      ensures x in a <==> x in b
      ensures multiset(Eligible(a))[x] == multiset(Eligible(b))[x]
    {
      assert x in a <==> x in multiset(a);
      assert x in b <==> x in multiset(b);
      EligibleMultiset(a, x);
      EligibleMultiset(b, x);
    }
    assert multiset(Eligible(a)) == multiset(Eligible(b));
    var ra, rb, less := Ranked(w, req, a), Ranked(w, req, b), Comparison(w, req, a);
    ComparisonIsStrictTotal(w, req, a);
    ComparisonIsStrictTotal(w, req, b);
    SortSorts(less, Eligible(a));
    SortSorts(Comparison(w, req, b), Eligible(b));
    forall i, j | 0 <= i < j < |rb|
      ensures !less(rb[j], rb[i])
    {
      assert rb[i] in multiset(rb) && rb[j] in multiset(rb);
      ComparisonMeansPreferred(w, req, a, rb[j], rb[i]);
      ComparisonMeansPreferred(w, req, b, rb[j], rb[i]);
    }
    forall x | x in ra
      ensures x in multiset(Eligible(a))
    {
      assert x in multiset(ra);
    }
    SortedIsUnique(less, multiset(Eligible(a)), ra, rb);
  }

  /** Filters, scores and sorts, as the source does. */
  method Rank(w: Weights, req: Request, backends: seq<BackendState>) returns (ranked: seq<BackendState>)
    ensures ranked == Ranked(w, req, backends)
  {
    var healthy := KeepHealthy(backends);
    var anyCacheHit := HasCacheHit(healthy);
    assert anyCacheHit == AnyHit(backends);
    if anyCacheHit {
      var scores := ScoreAll(w, req, healthy);
      return Sort((a: BackendState, b: BackendState) => BeforeByScore(scores, a, b), healthy);
    }
    return Sort((a: BackendState, b: BackendState) => BeforeByDepth(a, b), healthy);
  }

  method KeepHealthy(backends: seq<BackendState>) returns (healthy: seq<BackendState>)
    ensures healthy == Eligible(backends)
  {
    healthy := [];
    for i := 0 to |backends|
      invariant healthy == Eligible(backends[..i])
    {
      assert backends[..i + 1][..i] == backends[..i];
      if backends[i].healthy {
        healthy := healthy + [backends[i]];
      }
    }
    assert backends[..|backends|] == backends;
  }

  method HasCacheHit(backends: seq<BackendState>) returns (hit: bool)
    ensures hit == AnyHit(backends)
  {
    for i := 0 to |backends|
      invariant forall k :: 0 <= k < i ==> !(backends[k].healthy && backends[k].matchedBlocks > 0)
    {
      if backends[i].healthy && backends[i].matchedBlocks > 0 {
        assert backends[i] in backends;
        return true;
      }
    }
    return false;
  }

  method ScoreAll(w: Weights, req: Request, backends: seq<BackendState>) returns (scores: map<string, Value>)
    ensures scores == ScoreTable(w, req, backends)
  {
    scores := map[];
    for i := 0 to |backends|
      invariant scores == ScoreTable(w, req, backends[..i])
    {
      assert backends[..i + 1][..i] == backends[..i];
      scores := scores[backends[i].id := Score(w, req, backends[i])];
    }
    assert backends[..|backends|] == backends;
  }

  // ---------------------------------------------------------------------------------------------
  // Routing
  // ---------------------------------------------------------------------------------------------

  /** Index of the first healthy backend with the highest score, -1 if none is healthy. */
  function BestIndex(w: Weights, req: Request, backends: seq<BackendState>): (i: int)
    ensures -1 <= i < |backends|
    ensures i < 0 ==> forall b :: b in backends ==> !b.healthy
    ensures i >= 0 ==> backends[i].healthy
    ensures i >= 0 ==> forall j :: 0 <= j < |backends| && backends[j].healthy ==>
              !Greater(Score(w, req, backends[j]), Score(w, req, backends[i]))
    ensures i >= 0 ==> forall j :: 0 <= j < i && backends[j].healthy ==>
              Greater(Score(w, req, backends[i]), Score(w, req, backends[j]))
    decreases |backends|
  {
    if backends == [] then -1
    else
      var front, last := backends[..|backends| - 1], backends[|backends| - 1];
      var i := BestIndex(w, req, front);
      assert backends == front + [last];
      if last.healthy && Greater(Score(w, req, last), if i < 0 then NegInf else Score(w, req, front[i]))
      then |backends| - 1 else i
  }

  /** Index of the first healthy backend with the shortest queue, -1 if none beats MAX_INT. */
  function LeastLoadedIndex(backends: seq<BackendState>): (i: int)
    ensures -1 <= i < |backends|
    ensures i < 0 ==> forall b :: b in backends && b.healthy ==> b.queueDepth == MAX_INT
    ensures i >= 0 ==> backends[i].healthy && backends[i].queueDepth < MAX_INT
    ensures i >= 0 ==> forall j :: 0 <= j < |backends| && backends[j].healthy ==>
              backends[i].queueDepth <= backends[j].queueDepth
    ensures i >= 0 ==> forall j :: 0 <= j < i && backends[j].healthy ==>
              backends[i].queueDepth < backends[j].queueDepth
    decreases |backends|
  {
    if backends == [] then -1
    else
      var front, last := backends[..|backends| - 1], backends[|backends| - 1];
      var i := LeastLoadedIndex(front);
      assert backends == front + [last];
      if last.healthy && last.queueDepth < (if i < 0 then MAX_INT else front[i].queueDepth)
      then |backends| - 1 else i
  }

  function IdAt(backends: seq<BackendState>, i: int): string
    requires -1 <= i < |backends|
  {
    if i < 0 then "" else backends[i].id
  }

  /** The identifier routing picks. */
  function Routed(w: Weights, req: Request, backends: seq<BackendState>): string {
    if AnyHit(backends) then IdAt(backends, BestIndex(w, req, backends))
    else IdAt(backends, LeastLoadedIndex(backends))
  }

  method Route(w: Weights, req: Request, backends: seq<BackendState>) returns (id: string)
    ensures id == Routed(w, req, backends)
  {
    if |backends| == 0 {
      return "";
    }
    var anyCacheHit := HasCacheHit(backends);
    if !anyCacheHit {
      id := LeastLoaded(backends);
      return;
    }
    var bestScore := NegInf;
    id := "";
    for i := 0 to |backends|
      invariant var k := BestIndex(w, req, backends[..i]);
                id == IdAt(backends[..i], k) && bestScore == if k < 0 then NegInf else Score(w, req, backends[k])
    {
      assert backends[..i + 1][..i] == backends[..i];
      if !backends[i].healthy {
        continue;
      }
      var score := Score(w, req, backends[i]);
      if Greater(score, bestScore) {
        bestScore := score;
        id := backends[i].id;
      }
    }
    assert backends[..|backends|] == backends;
  }

  method LeastLoaded(backends: seq<BackendState>) returns (id: string)
    ensures id == IdAt(backends, LeastLoadedIndex(backends))
  {
    var bestDepth: GoInt := MAX_INT;
    id := "";
    for i := 0 to |backends|
      invariant var k := LeastLoadedIndex(backends[..i]);
                id == IdAt(backends[..i], k) && bestDepth == if k < 0 then MAX_INT else backends[k].queueDepth
    {
      assert backends[..i + 1][..i] == backends[..i];
      if !backends[i].healthy {
        continue;
      }
      if backends[i].queueDepth < bestDepth {
        bestDepth := backends[i].queueDepth;
        id := backends[i].id;
      }
    }
    assert backends[..|backends|] == backends;
  }

  /** What Pool.Healthy hands over: identifiers strictly increasing, none empty. */
  ghost predicate SortedById(backends: seq<BackendState>) {
    && (forall i, j :: 0 <= i < j < |backends| ==> Less(backends[i].id, backends[j].id))
    && (forall b :: b in backends ==> b.id != "")
  }

  lemma SortedIdsAreDistinct(backends: seq<BackendState>)
    requires SortedById(backends)
    ensures DistinctIds(backends)
  {
    forall a, b | a in backends && b in backends && a.id == b.id
      ensures a == b
    {
      LessIsTotal(a.id, b.id);
    }
  }

  /** A backend preferred to every other eligible one heads the ranking. */
  lemma MostPreferredIsFirst(w: Weights, req: Request, backends: seq<BackendState>, h: BackendState)
    requires DistinctIds(backends) && h in Eligible(backends)
    requires forall b :: b in Eligible(backends) && b != h ==> Preferred(w, req, AnyHit(backends), h, b)
    ensures Ranked(w, req, backends) != [] && Ranked(w, req, backends)[0] == h
  {
    var r := Ranked(w, req, backends);
    RankIsSortedPermutation(w, req, backends);
    assert h in multiset(Eligible(backends));
    assert h in r;
    assert r[0] in multiset(r);
    assert r[0] in Eligible(backends);
    if r[0] != h {
      PreferredIsTotal(w, req, AnyHit(backends), r[0], h);
    }
  }

  /** The backend routing picks is preferred to every other eligible one. */
  lemma RoutedIsPreferred(w: Weights, req: Request, backends: seq<BackendState>, i: nat, b: BackendState)
    requires SortedById(backends) && b in backends && b.healthy
    requires i == if AnyHit(backends) then BestIndex(w, req, backends) else LeastLoadedIndex(backends)
    requires i < |backends| && b != backends[i]
    ensures Preferred(w, req, AnyHit(backends), backends[i], b)
  {
    var j :| 0 <= j < |backends| && backends[j] == b;
  }

  /** Routing and ranking agree on what Pool.Healthy produces: Route returns the head of Rank in
      both branches, except that the least-loaded fallback overlooks backends whose queue depth is
      MAX_INT. It agrees exactly when there is a cache hit, or no healthy backend, or some healthy
      backend below MAX_INT. */
  lemma RouteAgreesWithRank(w: Weights, req: Request, backends: seq<BackendState>)
    requires SortedById(backends)
    ensures var r := Ranked(w, req, backends);
            (Routed(w, req, backends) == if r == [] then "" else r[0].id) <==>
            (|| AnyHit(backends)
             || (forall b :: b in backends ==> !b.healthy)
             || (exists b :: b in backends && b.healthy && b.queueDepth < 0x7FFF_FFFF_FFFF_FFFF))
  {
    SortedIdsAreDistinct(backends);
    RankIsSortedPermutation(w, req, backends);
    var r := Ranked(w, req, backends);
    var i := if AnyHit(backends) then BestIndex(w, req, backends) else LeastLoadedIndex(backends);
    if i >= 0 {
      assert backends[i] in backends;
      forall b | b in Eligible(backends) && b != backends[i]
        ensures Preferred(w, req, AnyHit(backends), backends[i], b)
      {
        RoutedIsPreferred(w, req, backends, i, b);
      }
      MostPreferredIsFirst(w, req, backends, backends[i]);
    } else {
      HeadIsEligible(w, req, backends);
    }
  }

  lemma HeadIsEligible(w: Weights, req: Request, backends: seq<BackendState>)
    requires DistinctIds(backends)
    ensures Ranked(w, req, backends) == [] <==> forall b :: b in backends ==> !b.healthy
    ensures Ranked(w, req, backends) != [] ==> Ranked(w, req, backends)[0] in backends
  {
    var r, e := Ranked(w, req, backends), Eligible(backends);
    if r != [] {
      assert r[0] in multiset(e);
      assert r[0] in e;
    }
    if e != [] {
      assert e[0] in multiset(r);
      assert e[0] in e;
    }
  }

  /** The exception is real: a saturated lone backend heads the ranking but is never routed to. */
  lemma SaturatedBackendIsNotRouted(w: Weights, req: Request)
    ensures var b := BackendState("a", 0, MAX_INT, MAX_INT, 0, 1, true);
            SortedById([b]) && Ranked(w, req, [b]) == [b] && Routed(w, req, [b]) == ""
  {
    var b := BackendState("a", 0, MAX_INT, MAX_INT, 0, 1, true);
    assert [b][..0] == [];
    assert Eligible([b]) == Eligible([]) + [b] == [b];
    assert Sort(Comparison(w, req, [b]), [b]) == [b];
  }
}
