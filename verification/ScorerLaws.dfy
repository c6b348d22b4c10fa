/** What the score and the ranking amount to, in numbers and without naming how they are computed:
    the closed form of the score, what one more matched block, queued request or used block is worth,
    and which of two backends comes first. */
module ScorerLaws {
  import opened Words
  import opened Sorting
  import opened Scorer

  // ---------------------------------------------------------------------------------------------
  // The score in numbers
  // ---------------------------------------------------------------------------------------------

  /** A quotient in numbers: the only x with x * n == a. */
  ghost predicate IsShare(x: real, a: int, n: int) {
    n != 0 && x * n as real == a as real
  }

  lemma ShareIsQuotient(x: real, a: int, n: int)
    requires IsShare(x, a, n)
    ensures x == a as real / n as real
  {
  }

  lemma QuotientIsShare(a: int, n: int) returns (x: real)
    requires n != 0
    ensures x == a as real / n as real && IsShare(x, a, n)
  {
    x := a as real / n as real;
  }

  lemma SharesAdd(a: int, d: int, n: int)
    requires n != 0
    ensures (a + d) as real / n as real == a as real / n as real + d as real / n as real
  {
    var x := QuotientIsShare(a, n);
    var y := QuotientIsShare(d, n);
    assert (x + y) * n as real == x * n as real + y * n as real;
    ShareIsQuotient(x + y, a + d, n);
  }

  /** The number of blocks that a request counts as: as stated, else as hashed, else one. */
  ghost predicate CountsAs(req: Request, n: int) {
    && (req.totalBlocks != 0 ==> n == req.totalBlocks)
    && (req.totalBlocks == 0 && req.blockHashes != [] ==> n == |req.blockHashes|)
    && (req.totalBlocks == 0 && req.blockHashes == [] ==> n == 1)
  }

  /** The score of a healthy backend: the matched share of the request weighs for it, the used shares of
      its queue and of its directory weigh against it; a limit that is not positive does not count. */
  lemma ScoreFormula(w: Weights, req: Request, b: BackendState, n: int, queued: real, used: real)
    requires b.healthy && CountsAs(req, n)
    requires if b.maxQueueDepth > 0 then IsShare(queued, b.queueDepth, b.maxQueueDepth) else queued == 0.0
    requires if b.totalCapacity > 0 then IsShare(used, b.usedBlocks, b.totalCapacity) else used == 0.0
    ensures n != 0
    ensures Score(w, req, b) ==
            Fin(b.matchedBlocks as real / n as real * w.cacheHit - queued * w.queueDepth - used * w.evictionRisk)
  {
    assert n == Divisor(req);
    if b.totalCapacity > 0 {
      UsedShare(b.usedBlocks, b.totalCapacity);
      ShareIsQuotient(used, b.usedBlocks, b.totalCapacity);
    }
    if b.maxQueueDepth > 0 {
      ShareIsQuotient(queued, b.queueDepth, b.maxQueueDepth);
    }
  }

  lemma UsedShare(used: int, total: int)
    requires total != 0
    ensures 1.0 - (total - used) as real / total as real == used as real / total as real
  {
    SharesAdd(total - used, used, total);
  }

  /** d more matched blocks are worth d / n of the cache-hit weight. */
  lemma MatchIsWorth(w: Weights, req: Request, b: BackendState, n: int, d: int)
    requires b.healthy && CountsAs(req, n) && FitsInt(b.matchedBlocks + d)
    ensures n != 0 && Score(w, req, b).Fin?
    ensures Score(w, req, b.(matchedBlocks := b.matchedBlocks + d)) ==
            Fin(Score(w, req, b).v + d as real / n as real * w.cacheHit)
  {
    SharesAdd(b.matchedBlocks, d, n);
    SplitWorth(b.matchedBlocks as real / n as real, d as real / n as real, w.cacheHit);
  }

  lemma SplitWorth(x: real, y: real, w: real)
    ensures (x + y) * w == x * w + y * w
  {
  }

  /** d more queued requests cost d / limit of the queue weight, nothing without a limit. */
  lemma QueueCosts(w: Weights, req: Request, b: BackendState, d: int)
    requires b.healthy && FitsInt(b.queueDepth + d)
    ensures var longer := b.(queueDepth := b.queueDepth + d);
            && Score(w, req, b).Fin?
            && (b.maxQueueDepth > 0 ==>
                  Score(w, req, longer) ==
                  Fin(Score(w, req, b).v - d as real / b.maxQueueDepth as real * w.queueDepth))
            && (b.maxQueueDepth <= 0 ==> Score(w, req, longer) == Score(w, req, b))
  {
    if b.maxQueueDepth > 0 {
      SharesAdd(b.queueDepth, d, b.maxQueueDepth);
      SplitWorth(b.queueDepth as real / b.maxQueueDepth as real, d as real / b.maxQueueDepth as real, w.queueDepth);
    }
  }

  /** d more used blocks cost d / capacity of the eviction weight, nothing without a capacity. */
  lemma UsageCosts(w: Weights, req: Request, b: BackendState, d: int)
    requires b.healthy && FitsInt(b.usedBlocks + d)
    ensures var fuller := b.(usedBlocks := b.usedBlocks + d);
            && Score(w, req, b).Fin?
            && (b.totalCapacity > 0 ==>
                  Score(w, req, fuller) ==
                  Fin(Score(w, req, b).v - d as real / b.totalCapacity as real * w.evictionRisk))
            && (b.totalCapacity <= 0 ==> Score(w, req, fuller) == Score(w, req, b))
  {
    if b.totalCapacity > 0 {
      UsedShare(b.usedBlocks, b.totalCapacity);
      UsedShare(b.usedBlocks + d, b.totalCapacity);
      SharesAdd(b.usedBlocks, d, b.totalCapacity);
      SplitWorth(b.usedBlocks as real / b.totalCapacity as real, d as real / b.totalCapacity as real, w.evictionRisk);
    }
  }

  /** A full match on an idle backend with an empty directory is worth the cache-hit weight; no match on
      a backend with a full queue and a full directory costs both penalties. */
  lemma ExtremeScores(w: Weights, req: Request, b: BackendState, n: int)
    requires b.healthy && CountsAs(req, n)
    ensures b.matchedBlocks == n && b.queueDepth == 0 && b.usedBlocks == 0 ==> Score(w, req, b) == Fin(w.cacheHit)
    ensures b.matchedBlocks == 0 && b.queueDepth == b.maxQueueDepth > 0 && b.usedBlocks == b.totalCapacity > 0 ==>
              Score(w, req, b) == Fin(-(w.queueDepth + w.evictionRisk))
  {
    assert n == Divisor(req);
    if b.matchedBlocks == n && b.queueDepth == 0 && b.usedBlocks == 0 {
      ShareIsQuotient(1.0, n, n);
      ScoreFormula(w, req, b, n, 0.0, 0.0);
    }
    if b.matchedBlocks == 0 && b.queueDepth == b.maxQueueDepth > 0 && b.usedBlocks == b.totalCapacity > 0 {
      ScoreFormula(w, req, b, n, 1.0, 1.0);
    }
  }

  // ---------------------------------------------------------------------------------------------
  // The ranking
  // ---------------------------------------------------------------------------------------------

  /** Some healthy backend has some of the prefix. */
  ghost predicate SomeHit(backends: seq<BackendState>) {
    exists b :: b in backends && b.healthy && b.matchedBlocks > 0
  }

  /** The order of the ranking: with a hit anywhere by descending score, without one by ascending queue
      depth, in both cases with ties by ascending identifier. */
  lemma RankOrder(w: Weights, req: Request, backends: seq<BackendState>, i: nat, j: nat)
    requires DistinctIds(backends) && i < j < |Ranked(w, req, backends)|
    ensures var a, b := Ranked(w, req, backends)[i], Ranked(w, req, backends)[j];
            && a in backends && b in backends && a.healthy && b.healthy
            && (SomeHit(backends) && a != b ==>
                  && Score(w, req, a).Fin? && Score(w, req, b).Fin?
                  && (Score(w, req, a).v > Score(w, req, b).v
                      || (Score(w, req, a).v == Score(w, req, b).v && Less(a.id, b.id))))
            && (!SomeHit(backends) && a != b ==>
                  a.queueDepth < b.queueDepth || (a.queueDepth == b.queueDepth && Less(a.id, b.id)))
  {
    RankIsSortedPermutation(w, req, backends);
    RankedMembers(w, req, backends);
    var r := Ranked(w, req, backends);
    assert r[i] in r && r[j] in r;
    assert AnyHit(backends) <==> SomeHit(backends);
    assert r[i] != r[j] ==> Preferred(w, req, AnyHit(backends), r[i], r[j]);
  }

  /** With a hit anywhere the higher score comes first, and routing never picks the lower one. */
  lemma HigherScoreFirst(w: Weights, req: Request, backends: seq<BackendState>, a: BackendState, b: BackendState)
    returns (i: nat, j: nat)
    requires DistinctIds(backends) && SomeHit(backends)
    requires a in backends && b in backends && a.healthy && b.healthy && Score(w, req, a).v > Score(w, req, b).v
    ensures i < j < |Ranked(w, req, backends)|
    ensures Ranked(w, req, backends)[i] == a && Ranked(w, req, backends)[j] == b
    ensures Routed(w, req, backends) != b.id
  {
    i, j := Places(w, req, backends, a, b);
    if j < i {
      RankOrder(w, req, backends, j, i);
    }
    RoutedScoresBest(w, req, backends, a, b);
  }

  lemma Places(w: Weights, req: Request, backends: seq<BackendState>, a: BackendState, b: BackendState)
    returns (i: nat, j: nat)
    requires a in backends && b in backends && a.healthy && b.healthy && a != b
    ensures i < |Ranked(w, req, backends)| && Ranked(w, req, backends)[i] == a
    ensures j < |Ranked(w, req, backends)| && Ranked(w, req, backends)[j] == b
    ensures i != j
  {
    RankedMembers(w, req, backends);
    var r := Ranked(w, req, backends);
    assert a in r && b in r;
    i :| 0 <= i < |r| && r[i] == a;
    j :| 0 <= j < |r| && r[j] == b;
  }

  lemma RoutedScoresBest(w: Weights, req: Request, backends: seq<BackendState>, a: BackendState, b: BackendState)
    requires DistinctIds(backends) && SomeHit(backends)
    requires a in backends && b in backends && a.healthy && b.healthy && Score(w, req, a).v > Score(w, req, b).v
    ensures Routed(w, req, backends) != b.id
  {
    assert AnyHit(backends);
    var k := BestIndex(w, req, backends);
    assert k >= 0 && backends[k] in backends;
    var at :| 0 <= at < |backends| && backends[at] == a;
    assert !Greater(Score(w, req, backends[at]), Score(w, req, backends[k]));
  }

  /** Of two healthy backends that differ only in name and match, the one with the better match comes
      first, and routing does not pick the other. */
  lemma BetterMatchFirst(w: Weights, req: Request, backends: seq<BackendState>, a: BackendState, b: BackendState)
    returns (i: nat, j: nat)
    requires DistinctIds(backends) && a in backends && b in backends && a.healthy && b.healthy
    requires b == a.(id := b.id, matchedBlocks := b.matchedBlocks) && a.matchedBlocks > b.matchedBlocks
    requires a.matchedBlocks > 0 && w.cacheHit > 0.0 && req.totalBlocks >= 0
    ensures i < j < |Ranked(w, req, backends)|
    ensures Ranked(w, req, backends)[i] == a && Ranked(w, req, backends)[j] == b
    ensures Routed(w, req, backends) != b.id
  {
    BetterMatchScoresHigher(w, req, a, b);
    i, j := HigherScoreFirst(w, req, backends, a, b);
  }

  lemma BetterMatchScoresHigher(w: Weights, req: Request, a: BackendState, b: BackendState)
    requires a.healthy && b == a.(id := b.id, matchedBlocks := b.matchedBlocks) && a.matchedBlocks > b.matchedBlocks
    requires w.cacheHit > 0.0 && req.totalBlocks >= 0
    ensures Score(w, req, a).v > Score(w, req, b).v
  {
    var n, d := Divisor(req), a.matchedBlocks - b.matchedBlocks;
    MatchIsWorth(w, req, b, n, d);
    PositiveWorth(d, n, w.cacheHit);
    assert Score(w, req, a) == Score(w, req, b.(matchedBlocks := b.matchedBlocks + d));
  }

  lemma PositiveWorth(d: int, n: int, w: real)
    requires d > 0 && n > 0 && w > 0.0
    ensures d as real / n as real * w > 0.0
  {
    var x := QuotientIsShare(d, n);
    assert x > 0.0;
  }

  /** With a hit anywhere, of two healthy backends that differ only in name and queue, the one with the
      shorter queue comes first. */
  lemma ShorterQueueFirst(w: Weights, req: Request, backends: seq<BackendState>, a: BackendState, b: BackendState)
    returns (i: nat, j: nat)
    requires DistinctIds(backends) && a in backends && b in backends && a.healthy && b.healthy && SomeHit(backends)
    requires b == a.(id := b.id, queueDepth := b.queueDepth) && a.queueDepth < b.queueDepth
    requires a.maxQueueDepth > 0 && w.queueDepth > 0.0
    ensures i < j < |Ranked(w, req, backends)|
    ensures Ranked(w, req, backends)[i] == a && Ranked(w, req, backends)[j] == b
    ensures Routed(w, req, backends) != b.id
  {
    ShorterQueueScoresHigher(w, req, a, b);
    i, j := HigherScoreFirst(w, req, backends, a, b);
  }

  lemma ShorterQueueScoresHigher(w: Weights, req: Request, a: BackendState, b: BackendState)
    requires a.healthy && b == a.(id := b.id, queueDepth := b.queueDepth) && a.queueDepth < b.queueDepth
    requires a.maxQueueDepth > 0 && w.queueDepth > 0.0
    ensures Score(w, req, a).v > Score(w, req, b).v
  {
    var d := b.queueDepth - a.queueDepth;
    QueueCosts(w, req, a, d);
    PositiveWorth(d, a.maxQueueDepth, w.queueDepth);
    assert Score(w, req, b) == Score(w, req, a.(queueDepth := a.queueDepth + d));
  }

  /** Likewise the one with fewer used blocks. */
  lemma RoomierFirst(w: Weights, req: Request, backends: seq<BackendState>, a: BackendState, b: BackendState)
    returns (i: nat, j: nat)
    requires DistinctIds(backends) && a in backends && b in backends && a.healthy && b.healthy && SomeHit(backends)
    requires b == a.(id := b.id, usedBlocks := b.usedBlocks) && a.usedBlocks < b.usedBlocks
    requires a.totalCapacity > 0 && w.evictionRisk > 0.0
    ensures i < j < |Ranked(w, req, backends)|
    ensures Ranked(w, req, backends)[i] == a && Ranked(w, req, backends)[j] == b
    ensures Routed(w, req, backends) != b.id
  {
    RoomierScoresHigher(w, req, a, b);
    i, j := HigherScoreFirst(w, req, backends, a, b);
  }

  lemma RoomierScoresHigher(w: Weights, req: Request, a: BackendState, b: BackendState)
    requires a.healthy && b == a.(id := b.id, usedBlocks := b.usedBlocks) && a.usedBlocks < b.usedBlocks
    requires a.totalCapacity > 0 && w.evictionRisk > 0.0
    ensures Score(w, req, a).v > Score(w, req, b).v
  {
    var d := b.usedBlocks - a.usedBlocks;
    UsageCosts(w, req, a, d);
    PositiveWorth(d, a.totalCapacity, w.evictionRisk);
    assert Score(w, req, b) == Score(w, req, a.(usedBlocks := a.usedBlocks + d));
  }

  /** Without a hit only the queue counts, whatever the weights. */
  lemma IdlerFirst(w: Weights, req: Request, backends: seq<BackendState>, a: BackendState, b: BackendState)
    returns (i: nat, j: nat)
    requires DistinctIds(backends) && !SomeHit(backends)
    requires a in backends && b in backends && a.healthy && b.healthy && a.queueDepth < b.queueDepth
    ensures i < j < |Ranked(w, req, backends)|
    ensures Ranked(w, req, backends)[i] == a && Ranked(w, req, backends)[j] == b
    ensures Routed(w, req, backends) != b.id
  {
    i, j := Places(w, req, backends, a, b);
    if j < i {
      RankOrder(w, req, backends, j, i);
    }
    RoutedIsIdlest(w, req, backends, a, b);
  }

  lemma RoutedIsIdlest(w: Weights, req: Request, backends: seq<BackendState>, a: BackendState, b: BackendState)
    requires DistinctIds(backends) && !SomeHit(backends)
    requires a in backends && b in backends && a.healthy && b.healthy && a.queueDepth < b.queueDepth
    ensures Routed(w, req, backends) != b.id
  {
    assert !AnyHit(backends);
    var k := LeastLoadedIndex(backends);
    assert k >= 0 && backends[k] in backends;
    var at :| 0 <= at < |backends| && backends[at] == a;
    assert backends[k].queueDepth <= backends[at].queueDepth;
  }
}
