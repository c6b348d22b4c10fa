/** The backends the router sends to: a reservation counter taken by compare-and-swap, the health
    state machine driven by probes, and the pool that hands out the healthy ones in order. */
module Pool {
  import opened Words
  import H = Health
  import opened Sorting

  const DEFAULT_MAX_CONCURRENT := 64

  const DEFAULT_INTERVAL := 10_000_000_000  // ten seconds, in nanoseconds

  /** What other goroutines leave in a counter around one attempt to reserve. */
  datatype Interference = Interference(beforeSwap: int, beforeLoad: int)

  class Backend {
    const id: string
    const maxConcurrent: int
    var healthy: bool
    var queueDepth: int
    var consecutiveFails: H.Int32
    var consecutiveSuccesses: H.Int32
    var healthyTransitions: nat
    var unhealthyTransitions: nat
    ghost var probes: seq<bool>  // the outcomes of all probes so far

    constructor (id: string, maxConcurrent: int)
      ensures this.id == id && this.maxConcurrent == maxConcurrent
      ensures Valid() && probes == [] && !healthy && queueDepth == 0
    {
      this.id := id;
      this.maxConcurrent := maxConcurrent;
      healthy, queueDepth, consecutiveFails, consecutiveSuccesses := false, 0, 0, 0;
      healthyTransitions, unhealthyTransitions, probes := 0, 0, [];
    }

    ghost function Status(): H.Status
      reads this`healthy, this`consecutiveFails, this`consecutiveSuccesses,
            this`healthyTransitions, this`unhealthyTransitions
    {
      H.Status(healthy, consecutiveFails, consecutiveSuccesses, healthyTransitions, unhealthyTransitions)
    }

    /** The health fields are what the probe history makes them. */
    ghost predicate Valid()
      reads this`healthy, this`consecutiveFails, this`consecutiveSuccesses,
            this`healthyTransitions, this`unhealthyTransitions, this`probes
    {
      Status() == H.After(probes)
    }

    method CompareAndSwap(expected: int, next: int) returns (swapped: bool)
      modifies this`queueDepth
      ensures swapped <==> old(queueDepth) == expected
      ensures queueDepth == if swapped then next else old(queueDepth)
    {
      swapped := queueDepth == expected;
      if swapped {
        queueDepth := next;
      }
    }

    /** The reservation loop among other goroutines: `others[i]` is what they leave in the counter
        during attempt i, between the load and the compare-and-swap and, if that fails, again before
        the next load; after that they are quiet. A reservation adds exactly one to the loaded value,
        which is below the limit and was still in the counter; a refusal has seen the counter at the
        limit; and an attempt fails only if the others changed the counter since its own load. */
    method TryReserve(others: seq<Interference>) returns (reserved: bool, ghost loaded: seq<int>)
      modifies this`queueDepth
      ensures loaded != [] && |loaded| <= |others| + 1 && loaded[0] == old(queueDepth)
      ensures forall i :: 0 <= i < |loaded| - 1 ==> others[i].beforeSwap != loaded[i]
      ensures forall i :: 0 < i < |loaded| ==> loaded[i] == others[i - 1].beforeLoad
      ensures reserved ==> queueDepth == loaded[|loaded| - 1] + 1
      ensures reserved && |loaded| <= |others| ==> others[|loaded| - 1].beforeSwap == loaded[|loaded| - 1]
      ensures reserved && maxConcurrent > 0 ==> queueDepth <= maxConcurrent
      ensures !reserved ==> queueDepth == loaded[|loaded| - 1] >= maxConcurrent > 0
      ensures maxConcurrent <= 0 ==> reserved
    {
      loaded := [];
      var attempt := 0;
      while true
        invariant attempt == |loaded| <= |others|
        invariant attempt == 0 ==> queueDepth == old(queueDepth)
        invariant attempt > 0 ==> loaded[0] == old(queueDepth) && queueDepth == others[attempt - 1].beforeLoad
        invariant forall i :: 0 <= i < attempt ==> others[i].beforeSwap != loaded[i]
        invariant forall i :: 0 < i < attempt ==> loaded[i] == others[i - 1].beforeLoad
        decreases |others| - attempt
      {
        var current := queueDepth;
        loaded := loaded + [current];
        if maxConcurrent > 0 && current >= maxConcurrent {
          return false, loaded;
        }
        if attempt < |others| {
          queueDepth := others[attempt].beforeSwap;
        }
        var swapped := CompareAndSwap(current, current + 1);
        if swapped {
          return true, loaded;
        }
        queueDepth := others[attempt].beforeLoad;
        attempt := attempt + 1;
      }
    }

    method Release()
      modifies this`queueDepth
      ensures queueDepth == old(queueDepth) - 1
    {
      queueDepth := queueDepth - 1;
    }

    /** One health probe. The outcome of the ping is given. */
    method Probe(ok: bool)
      requires Valid()
      modifies this`healthy, this`consecutiveFails, this`consecutiveSuccesses,
               this`healthyTransitions, this`unhealthyTransitions, this`probes
      ensures Valid() && probes == old(probes) + [ok]
    {
      assert (probes + [ok])[..|probes|] == probes;
      probes := probes + [ok];
      if !ok {
        consecutiveSuccesses := 0;
        consecutiveFails := H.Bump(consecutiveFails);
        if consecutiveFails >= H.UNHEALTHY_AFTER && healthy {
          healthy := false;
          unhealthyTransitions := unhealthyTransitions + 1;
        }
        return;
      }
      consecutiveFails := 0;
      consecutiveSuccesses := H.Bump(consecutiveSuccesses);
      if consecutiveSuccesses >= H.HEALTHY_AFTER && !healthy {
        healthy := true;
        healthyTransitions := healthyTransitions + 1;
      }
    }

    /** The probe burst at start-up: at most two probes, none once the backend is healthy. If all
        probes made succeed, the backend ends healthy. */
    method Bootstrap(outcomes: seq<bool>) returns (ghost made: seq<bool>)
      requires Valid() && |outcomes| == H.HEALTHY_AFTER
      modifies this`healthy, this`consecutiveFails, this`consecutiveSuccesses,
               this`healthyTransitions, this`unhealthyTransitions, this`probes
      ensures Valid() && probes == old(probes) + made
      ensures |made| <= H.HEALTHY_AFTER && forall i :: 0 <= i < |made| ==> made[i] == outcomes[i]
      ensures old(healthy) ==> made == []
      ensures |made| < H.HEALTHY_AFTER ==> healthy
      ensures (forall i :: 0 <= i < |made| ==> made[i]) ==> healthy
    {
      made := [];
      AppendNothing(probes);
      var i := 0;
      while i < H.HEALTHY_AFTER && !healthy
        invariant 0 <= i <= H.HEALTHY_AFTER && |made| == i
        invariant ProbedSince(old(probes), made)
        invariant forall k :: 0 <= k < i ==> made[k] == outcomes[k]
        invariant old(healthy) ==> i == 0 && healthy
      {
        made := ProbeOnce(outcomes[i], old(probes), made);
        i := i + 1;
      }
      BurstAdmits(old(probes), made);
    }

    ghost predicate ProbedSince(before: seq<bool>, made: seq<bool>)
      reads this`healthy, this`consecutiveFails, this`consecutiveSuccesses,
            this`healthyTransitions, this`unhealthyTransitions, this`probes
    {
      Valid() && probes == before + made
    }

    /** One probe of the burst. */
    method ProbeOnce(ok: bool, ghost before: seq<bool>, ghost made: seq<bool>) returns (ghost more: seq<bool>)
      requires ProbedSince(before, made)
      modifies this`healthy, this`consecutiveFails, this`consecutiveSuccesses,
               this`healthyTransitions, this`unhealthyTransitions, this`probes
      ensures ProbedSince(before, more) && more == made + [ok]
    {
      Regroup(before, made, [ok]);
      Probe(ok);
      more := made + [ok];
    }

    lemma BurstAdmits(before: seq<bool>, burst: seq<bool>)
      requires ProbedSince(before, burst)
      ensures |burst| == H.HEALTHY_AFTER && burst[0] && burst[1] ==> healthy
    {
      if |burst| == H.HEALTHY_AFTER && burst[0] && burst[1] {
        H.TwoSuccessesAdmit(before, burst);
      }
    }
  }

  /** What the pool needs of one backend's configuration; whether its URL is acceptable is given. */
  datatype Config = Config(id: string, validURL: bool, maxConcurrent: int, interval: int)

  datatype Result<+T> = Ok(value: T) | Err(at: nat, error: Error)

  datatype Error = MissingID | DuplicateID | InvalidURL

  /** The names among the first n configurations. */
  function Names(configs: seq<Config>, n: nat): set<string>
    requires n <= |configs|
  {
    set k | 0 <= k < n :: configs[k].id
  }

  /** What is wrong with the i-th configuration, given the ones before it. */
  function Fault(configs: seq<Config>, i: nat): Option<Error>
    requires i < |configs|
  {
    if configs[i].id == "" then Some(MissingID)
    else if configs[i].id in Names(configs, i) then Some(DuplicateID)
    else if !configs[i].validURL then Some(InvalidURL)
    else None
  }

  /** None of the first n configurations is at fault. */
  ghost predicate NoFaults(configs: seq<Config>, n: nat) {
    n <= |configs| && forall k :: 0 <= k < n ==> Fault(configs, k) == None
  }

  /** The limit a configured value turns into. */
  function Limit(configured: int): (limit: int)
    ensures limit > 0
  {
    if configured > 0 then configured else DEFAULT_MAX_CONCURRENT
  }

  /** The probe interval a configured value turns into. */
  function Interval(configured: int): (interval: int)
    ensures interval > 0
  {
    if configured > 0 then configured else DEFAULT_INTERVAL
  }

  class Registry {
    var backends: map<string, Backend>
    var intervals: map<string, int>

    /** Every backend is filed under its own name, limited, consistent with its probe history, and has
        a positive probe interval. */
    ghost predicate Valid()
      reads this, backends.Values`healthy, backends.Values`consecutiveFails, backends.Values`consecutiveSuccesses,
            backends.Values`healthyTransitions, backends.Values`unhealthyTransitions, backends.Values`probes
    {
      && intervals.Keys == backends.Keys
      && (forall id :: id in backends ==>
            backends[id].id == id != "" && backends[id].maxConcurrent > 0 && backends[id].Valid())
      && (forall id :: id in intervals ==> intervals[id] > 0)
    }

    constructor Empty(ghost configs: seq<Config>)
      ensures Valid() && backends == map[] && intervals == map[] && Built(configs, 0)
    {
      backends, intervals := map[], map[];
    }

    /** The backend configured so is there as configured, with its probe interval. */
    ghost predicate Holds(cfg: Config)
      reads this, backends.Values
    {
      && cfg.id in backends && StartsAs(backends[cfg.id], cfg)
      && cfg.id in intervals && intervals[cfg.id] == Interval(cfg.interval)
    }

    /** The backend is as its configuration says: idle, not yet routable, with the configured limit or
        else 64, probed in the configured interval or else every ten seconds. */
    ghost predicate AsConfigured(cfg: Config)
      reads this, backends.Values
    {
      && cfg.id in backends && cfg.id in intervals
      && var b := backends[cfg.id];
         && b.id == cfg.id && !b.healthy && b.queueDepth == 0
         && b.maxConcurrent == (if cfg.maxConcurrent > 0 then cfg.maxConcurrent else 64)
         && intervals[cfg.id] == (if cfg.interval > 0 then cfg.interval else 10_000_000_000)
    }

    lemma BuiltAsConfigured(configs: seq<Config>)
      requires Built(configs, |configs|)
      ensures forall id :: id in backends <==> exists k :: 0 <= k < |configs| && configs[k].id == id
      ensures forall k :: 0 <= k < |configs| ==> AsConfigured(configs[k])
    {
      forall k | 0 <= k < |configs|
        ensures AsConfigured(configs[k])
      {
        assert HoldsAt(configs, k);
      }
      forall id
        ensures id in backends <==> exists k :: 0 <= k < |configs| && configs[k].id == id
      {
        assert id in Names(configs, |configs|) <==> exists k :: 0 <= k < |configs| && configs[k].id == id;
      }
    }

    /** Adds a backend; it is not routable until its probes admit it. */
    method Add(cfg: Config)
      requires Valid() && cfg.id != "" && cfg.id !in backends
      modifies this`backends, this`intervals
      ensures Valid() && backends.Keys == old(backends.Keys) + {cfg.id} && Holds(cfg)
      ensures fresh(backends[cfg.id])
      ensures forall c: Config :: old(Holds(c)) ==> Holds(c)
    {
      var maxConcurrent := cfg.maxConcurrent;
      if maxConcurrent <= 0 {
        maxConcurrent := DEFAULT_MAX_CONCURRENT;
      }
      var b := new Backend(cfg.id, maxConcurrent);
      var interval := cfg.interval;
      if interval <= 0 {
        interval := DEFAULT_INTERVAL;
      }
      File(b, interval);
    }

    /** Puts a backend and its probe interval under its name. */
    method File(b: Backend, interval: int)
      requires Valid() && b.id != "" && b.id !in backends && b.maxConcurrent > 0 && b.Valid() && interval > 0
      modifies this`backends, this`intervals
      ensures Valid() && backends == old(backends)[b.id := b] && intervals == old(intervals)[b.id := interval]
      ensures forall c: Config :: old(Holds(c)) ==> Holds(c)
    {
      backends := backends[b.id := b];
      intervals := intervals[b.id := interval];
      forall c: Config | old(Holds(c))
        ensures Holds(c)
      {
        assert c.id != b.id;
      }
    }

    /** Exactly the first n configured backends are there, as configured. */
    ghost predicate Built(configs: seq<Config>, n: nat)
      requires n <= |configs|
      reads this, backends.Values
    {
      backends.Keys == Names(configs, n) && forall k :: 0 <= k < n ==> HoldsAt(configs, k)
    }

    ghost predicate HoldsAt(configs: seq<Config>, k: nat)
      reads this, backends.Values
    {
      k < |configs| && Holds(configs[k])
    }

    /** One turn of NewPool's loop: adds the next backend unless its configuration is at fault. */
    method AddNext(configs: seq<Config>, i: nat) returns (fault: Option<Error>)
      requires Valid() && i < |configs| && Built(configs, i)
      modifies this`backends, this`intervals
      ensures fault == Fault(configs, i)
      ensures fault == None ==> Valid() && Built(configs, i + 1)
    {
      var cfg := configs[i];
      if cfg.id == "" {
        return Some(MissingID);
      }
      if cfg.id in backends {
        return Some(DuplicateID);
      }
      if !cfg.validURL {
        return Some(InvalidURL);
      }
      Add(cfg);
      MoreNames(configs, i);
      forall k | 0 <= k <= i
        ensures HoldsAt(configs, k)
      {
        assert k < i ==> old(HoldsAt(configs, k));
      }
      return None;
    }

    /** The loop of NewPool: stops at the first configuration at fault. */
    method AddAll(configs: seq<Config>) returns (at: nat, fault: Option<Error>)
      requires Valid() && Built(configs, 0)
      modifies this`backends, this`intervals
      ensures at <= |configs| && NoFaults(configs, at)
      ensures if at == |configs| then fault == None && Valid() && Built(configs, at)
              else fault.Some? && fault == Fault(configs, at)
    {
      at := 0;
      while at < |configs|
        invariant at <= |configs| && Valid() && Built(configs, at) && NoFaults(configs, at)
      {
        fault := AddNext(configs, at);
        if fault.Some? {
          return;
        }
        at := at + 1;
      }
      fault := None;
    }

    method Get(id: string) returns (b: Backend?)
      requires Valid()
      ensures if id in backends then b == backends[id] else b == null
    {
      b := if id in backends then backends[id] else null;
    }

    /** The healthy backends, visited in any order and sorted by identifier. */
    method Healthy() returns (healthy: seq<Backend>)
      requires Valid()
      ensures forall b :: b in healthy ==> b in backends.Values && b.healthy
      ensures forall id :: id in backends && backends[id].healthy ==> backends[id] in healthy
      ensures forall i, j :: 0 <= i < j < |healthy| ==> Less(healthy[i].id, healthy[j].id)
    {
      var todo := backends.Keys;
      healthy := [];
      while todo != {}
        invariant todo <= backends.Keys
        invariant forall b :: b in healthy ==> b.id in backends && backends[b.id] == b && b.healthy && b.id !in todo
        invariant forall id :: id in backends && id !in todo && backends[id].healthy ==> backends[id] in healthy
        invariant forall i, j :: 0 <= i < j < |healthy| ==> healthy[i].id != healthy[j].id
      {
        var id :| id in todo;
        todo := todo - {id};
        if backends[id].healthy {
          healthy := healthy + [backends[id]];
        }
      }
      healthy := SortById(healthy);
    }
  }

  /** Builds a pool, or reports the first configuration that is at fault and why. */
  method NewPool(configs: seq<Config>) returns (r: Result<Registry>)
    ensures r.Ok? <==> AreSound(configs, |configs|)
    ensures r.Err? ==> r.at < |configs| && AreSound(configs, r.at)
    ensures r.Err? ==>
              match r.error
              case MissingID => configs[r.at].id == ""
              case DuplicateID =>
                configs[r.at].id != "" && exists j :: 0 <= j < r.at && configs[j].id == configs[r.at].id
              case InvalidURL =>
                && configs[r.at].id != "" && !configs[r.at].validURL
                && forall j :: 0 <= j < r.at ==> configs[j].id != configs[r.at].id
    ensures r.Ok? ==> fresh(r.value) && r.value.Valid() && r.value.Built(configs, |configs|)
    ensures r.Ok? ==> forall id :: id in r.value.backends <==> exists k :: 0 <= k < |configs| && configs[k].id == id
    ensures r.Ok? ==> forall k :: 0 <= k < |configs| ==> r.value.AsConfigured(configs[k])
  {
    var pool := new Registry.Empty(configs);
    var at, fault := pool.AddAll(configs);
    SoundIffNoFaults(configs, at);
    if fault.Some? {
      FaultMeans(configs, at);
      return Err(at, fault.value);
    }
    pool.BuiltAsConfigured(configs);
    return Ok(pool);
  }

  /** The first n configurations have names, all different, and acceptable URLs. */
  ghost predicate AreSound(configs: seq<Config>, n: nat) {
    n <= |configs|
    && (forall k :: 0 <= k < n ==> configs[k].id != "" && configs[k].validURL)
    && (forall j, k :: 0 <= j < k < n ==> configs[j].id != configs[k].id)
  }

  lemma SoundIffNoFaults(configs: seq<Config>, n: nat)
    requires n <= |configs|
    ensures AreSound(configs, n) <==> NoFaults(configs, n)
  {
    forall k | 0 <= k < n
      ensures Fault(configs, k) == None <==>
              configs[k].id != "" && configs[k].validURL && forall j :: 0 <= j < k ==> configs[j].id != configs[k].id
    {
      FaultMeans(configs, k);
    }
  }

  /** What is wrong with a configuration: no name, else a name taken before, else its URL. */
  lemma FaultMeans(configs: seq<Config>, i: nat)
    requires i < |configs|
    ensures var fault, taken := Fault(configs, i), exists j :: 0 <= j < i && configs[j].id == configs[i].id;
            && (fault == Some(MissingID) <==> configs[i].id == "")
            && (fault == Some(DuplicateID) <==> configs[i].id != "" && taken)
            && (fault == Some(InvalidURL) <==> configs[i].id != "" && !taken && !configs[i].validURL)
            && (fault == None <==> configs[i].id != "" && !taken && configs[i].validURL)
  {
    assert configs[i].id in Names(configs, i) <==> exists j :: 0 <= j < i && configs[j].id == configs[i].id;
  }

  lemma MoreNames(configs: seq<Config>, i: nat)
    requires i < |configs|
    ensures Names(configs, i + 1) == Names(configs, i) + {configs[i].id}
  {
  }

  /** The backend configured so: idle, not yet routable, with its limit. */
  ghost predicate StartsAs(b: Backend, cfg: Config)
    reads b
  {
    b.id == cfg.id && !b.healthy && b.queueDepth == 0 && b.maxConcurrent == Limit(cfg.maxConcurrent)
  }

  /** The sort by identifier. */
  method SortById(s: seq<Backend>) returns (r: seq<Backend>)
    requires forall i, j :: 0 <= i < j < |s| ==> s[i].id != s[j].id
    ensures forall b :: b in r ==> b in s
    ensures forall b :: b in s ==> b in r
    ensures forall i, j :: 0 <= i < j < |r| ==> Less(r[i].id, r[j].id)
  {
    var less := (a: Backend, b: Backend) => Less(a.id, b.id);
    r := Sort(less, s);
    SortedIds(s, less);
  }

  lemma SortedIds(s: seq<Backend>, less: (Backend, Backend) -> bool)
    requires forall i, j :: 0 <= i < j < |s| ==> s[i].id != s[j].id
    requires forall a, b :: a in s && b in s ==> less(a, b) == Less(a.id, b.id)
    ensures forall b :: b in Sort(less, s) ==> b in s
    ensures forall b :: b in s ==> b in Sort(less, s)
    ensures forall i, j :: 0 <= i < j < |Sort(less, s)| ==> Less(Sort(less, s)[i].id, Sort(less, s)[j].id)
  {
    IdsAreStrict(s, less);
    SortIncreases(less, s);
    SortMembers(less, s);
  }

  lemma IdsAreStrict(s: seq<Backend>, less: (Backend, Backend) -> bool)
    requires forall i, j :: 0 <= i < j < |s| ==> s[i].id != s[j].id
    requires forall a, b :: a in s && b in s ==> less(a, b) == Less(a.id, b.id)
    ensures StrictTotal(less, multiset(s)) && Distinct(s)
  {
    forall a, b | a in s && b in s
      ensures less(a, b) ==> !less(b, a)
      ensures a == b || less(a, b) || less(b, a)
    {
      LessIsTotal(a.id, b.id);
    }
    forall a, b, c | a in s && b in s && c in s && less(a, b) && less(b, c)
      ensures less(a, c)
    {
      LessIsTransitive(a.id, b.id, c.id);
    }
  }
}
