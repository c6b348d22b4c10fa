/** The route-event recorder: a ring buffer over the tail of an ever-growing log. */
module Recorder {
  import opened Words

  datatype RouteEvent = RouteEvent(id: nat, timestamp: nat, model: string, backendID: string,
                                   matchedBlocks: int, totalBlocks: int, score: real,
                                   queueDepth: int, statusCode: int, stream: bool, ttftMillis: int)

  datatype Summary = Summary(requests: nat, errors: nat, streams: nat, cacheHitRequests: nat)

  const DEFAULT_CAPACITY := 1000
  const DEFAULT_LIMIT := 100
  const COUNTERS := 4

  /** The last n elements of a log, newest first. */
  function NewestFirst<T>(log: seq<T>, n: nat): (r: seq<T>)
    requires n <= |log|
    ensures |r| == n
    ensures forall i :: 0 <= i < n ==> r[i] == log[|log| - 1 - i]
  {
    seq(n, i requires 0 <= i < n => log[|log| - 1 - i])
  }

  /** The limit Recent applies: out-of-range requests fall back to 100, then the count caps it. */
  function EffectiveLimit(limit: int, capacity: nat, count: nat): nat {
    var l := if limit <= 0 || limit > capacity then DEFAULT_LIMIT else limit;
    if l > count then count else l
  }

  function Min(a: nat, b: nat): nat {
    if a < b then a else b
  }

  predicate IsCall(e: RouteEvent) { true }
  predicate IsError(e: RouteEvent) { e.statusCode >= 400 }
  predicate IsStream(e: RouteEvent) { e.stream }
  predicate IsHit(e: RouteEvent) { e.matchedBlocks > 0 }

  /** The calls that have drawn an identifier, in that order, and how many of the four counters each of
      them has passed. */
  datatype Calls = Calls(taken: seq<RouteEvent>, passed: seq<nat>)

  /** How many of the calls have passed counter n and have the property. */
  function Count(taken: seq<RouteEvent>, passed: seq<nat>, n: nat, p: RouteEvent -> bool): nat
    requires |taken| == |passed|
    decreases |taken|
  {
    if taken == [] then 0
    else
      var k := |taken| - 1;
      Count(taken[..k], passed[..k], n, p) + (if passed[k] >= n && p(taken[k]) then 1 else 0)
  }

  /** A new call has passed no counter. */
  lemma CountNew(taken: seq<RouteEvent>, passed: seq<nat>, e: RouteEvent, n: nat, p: RouteEvent -> bool)
    requires |taken| == |passed| && n > 0
    ensures Count(taken + [e], passed + [0], n, p) == Count(taken, passed, n, p)
  {
    assert (taken + [e])[..|taken|] == taken && (passed + [0])[..|passed|] == passed;
  }

  /** When a call passes one more counter, only that counter can move. */
  lemma {:induction false} CountPassed(taken: seq<RouteEvent>, passed: seq<nat>, i: nat, n: nat, p: RouteEvent -> bool)
    requires |taken| == |passed| && i < |taken|
    ensures Count(taken, passed[i := passed[i] + 1], n, p) ==
            Count(taken, passed, n, p) + (if passed[i] + 1 == n && p(taken[i]) then 1 else 0)
    decreases |taken|
  {
    var k, more := |taken| - 1, passed[i := passed[i] + 1];
    if i < k {
      CountPassed(taken[..k], passed[..k], i, n, p);
      assert more[..k] == passed[..k][i := passed[i] + 1];
    } else {
      assert more[..k] == passed[..k];
    }
  }

  /** Never more errors, streams or hits than requests at one moment. */
  lemma {:induction false} CountAtMost(taken: seq<RouteEvent>, passed: seq<nat>, n: nat, p: RouteEvent -> bool)
    requires |taken| == |passed| && n > 0
    ensures Count(taken, passed, n, p) <= Count(taken, passed, 1, IsCall)
    decreases |taken|
  {
    if taken != [] {
      CountAtMost(taken[..|taken| - 1], passed[..|taken| - 1], n, p);
    }
  }

  /** The k-th event to draw an identifier draws k, counting from one. */
  ghost predicate Numbered(taken: seq<RouteEvent>) {
    forall k :: 0 <= k < |taken| ==> taken[k].id == k + 1
  }

  /** All of `part` are in `whole`, none twice. */
  ghost predicate Among<T>(part: seq<T>, whole: seq<T>) {
    Distinct(part) && forall e :: e in part ==> e in whole
  }

  /** A taken event sits where its identifier says. */
  lemma TakenById(taken: seq<RouteEvent>, e: RouteEvent)
    requires Numbered(taken) && e in taken
    ensures 1 <= e.id <= |taken| && taken[e.id - 1] == e
  {
  }

  /** No identifier is stored twice, in whatever order the events were stored. */
  lemma StoredIdsAreDistinct(log: seq<RouteEvent>, taken: seq<RouteEvent>)
    requires Numbered(taken) && Among(log, taken)
    ensures forall i, j :: 0 <= i < j < |log| ==> log[i].id != log[j].id
  {
    forall i, j | 0 <= i < j < |log|
      ensures log[i].id != log[j].id
    {
      TakenById(taken, log[i]);
      TakenById(taken, log[j]);
    }
  }

  /** The i-th newest elements of two sequences are the same. */
  ghost predicate SameFromEnd<T>(a: seq<T>, b: seq<T>, i: nat) {
    i < |a| && i < |b| && a[|a| - 1 - i] == b[|b| - 1 - i]
  }

  /** How many of the newest events were stored in the order in which they drew their identifiers:
      the length of the longest common suffix. */
  function Agreement<T(==)>(log: seq<T>, taken: seq<T>): nat
    decreases |log|
  {
    if log == [] || taken == [] || log[|log| - 1] != taken[|taken| - 1] then 0
    else Agreement(log[..|log| - 1], taken[..|taken| - 1]) + 1
  }

  /** The agreement is where the sequences, compared from their ends, first differ. */
  lemma {:induction false} AgreementIsCommonSuffix<T>(log: seq<T>, taken: seq<T>)
    ensures Agreement(log, taken) <= |log| && Agreement(log, taken) <= |taken|
    ensures forall i :: 0 <= i < Agreement(log, taken) ==> SameFromEnd(log, taken, i)
    ensures !SameFromEnd(log, taken, Agreement(log, taken))
    decreases |log|
  {
    if log != [] && taken != [] && log[|log| - 1] == taken[|taken| - 1] {
      var l, t := log[..|log| - 1], taken[..|taken| - 1];
      AgreementIsCommonSuffix(l, t);
      assert !SameFromEnd(l, t, Agreement(l, t));
      forall i | 0 <= i < Agreement(log, taken)
        ensures SameFromEnd(log, taken, i)
      {
        assert i > 0 ==> SameFromEnd(l, t, i - 1);
      }
    }
  }

  lemma AgreementAppend<T>(log: seq<T>, taken: seq<T>, e: T)
    ensures Agreement(log + [e], taken + [e]) == Agreement(log, taken) + 1
  {
    assert (log + [e])[..|log|] == log && (taken + [e])[..|taken|] == taken;
  }

  /** The events carry the identifiers top, top - 1, and so on. */
  ghost predicate Descends(events: seq<RouteEvent>, top: nat) {
    forall i :: 0 <= i < |events| ==> events[i].id == top - i
  }

  /** The n newest events carry the identifiers from `top` down, one by one, exactly if they were stored
      in the order in which the events up to `top` drew them. */
  lemma DescendingIffAgree(log: seq<RouteEvent>, taken: seq<RouteEvent>, top: nat, n: nat)
    requires Numbered(taken) && Among(log, taken) && n <= |log| && top <= |taken|
    ensures Descends(NewestFirst(log, n), top) <==> n <= Agreement(log, taken[..top])
  {
    AgreementIsCommonSuffix(log, taken[..top]);
    DescendingIffSame(log, taken, taken[..top], NewestFirst(log, n), Agreement(log, taken[..top]));
  }

  lemma DescendingIffSame(log: seq<RouteEvent>, taken: seq<RouteEvent>, drawn: seq<RouteEvent>,
                          recent: seq<RouteEvent>, m: nat)
    requires Numbered(taken) && Among(log, taken) && drawn <= taken && |recent| <= |log|
    requires forall i :: 0 <= i < |recent| ==> recent[i] == log[|log| - 1 - i]
    requires (forall i :: 0 <= i < m ==> SameFromEnd(log, drawn, i)) && !SameFromEnd(log, drawn, m)
    ensures Descends(recent, |drawn|) <==> |recent| <= m
  {
    if |recent| <= m {
      forall i | 0 <= i < |recent|
        ensures recent[i].id == |drawn| - i
      {
        assert SameFromEnd(log, drawn, i);
      }
    } else {
      DisorderShows(log, taken, drawn, m);
      assert recent[m].id != |drawn| - m;
    }
  }

  lemma DisorderShows(log: seq<RouteEvent>, taken: seq<RouteEvent>, drawn: seq<RouteEvent>, m: nat)
    requires Numbered(taken) && Among(log, taken) && drawn <= taken && m < |log| && !SameFromEnd(log, drawn, m)
    ensures log[|log| - 1 - m].id != |drawn| - m
  {
    TakenById(taken, log[|log| - 1 - m]);
  }

  /** Everything stored has passed all counters. */
  ghost predicate AllPassed(log: seq<RouteEvent>, taken: seq<RouteEvent>, passed: seq<nat>)
    requires |taken| == |passed|
  {
    forall k :: 0 <= k < |taken| && taken[k] in log ==> passed[k] == COUNTERS
  }

  /** It stays so when a call that has not passed them all passes another one. */
  lemma StillAllPassed(log: seq<RouteEvent>, taken: seq<RouteEvent>, passed: seq<nat>, i: nat, n: nat)
    requires |taken| == |passed| && i < |taken| && AllPassed(log, taken, passed) && passed[i] != COUNTERS
    ensures AllPassed(log, taken, passed[i := n])
  {
  }

  class Recorder {
    const capacity: nat
    const events: array<RouteEvent>
    var next: nat
    var count: nat
    var sequence: nat
    var requests: nat
    var errors: nat
    var streams: nat
    var cacheHits: nat
    ghost var taken: seq<RouteEvent>  // every event that has drawn an identifier, in that order
    ghost var passed: seq<nat>        // how many of the four counters each of them has passed
    ghost var log: seq<RouteEvent>    // those of them that have been stored, oldest first

    ghost predicate Valid()
      reads this, events
    {
      RingHoldsTail() && CountersAgree() && StagesInOrder()
    }

    /** The ring is the tail of the log, wrapped around. */
    ghost predicate RingHoldsTail()
      reads this`next, this`count, this`log, events
    {
      && capacity > 0 && events.Length == capacity
      && count == Min(|log|, capacity)
      && next == |log| % capacity
      && (forall k :: |log| - count <= k < |log| ==> events[k % capacity] == log[k])
    }

    /** Each counter counts the calls that have passed it. */
    ghost predicate CountersAgree()
      reads this`requests, this`errors, this`streams, this`cacheHits, this`taken, this`passed
    {
      |passed| == |taken| && Tallied(taken, passed, requests, errors, streams, cacheHits)
    }

    /** Identifiers are consecutive, and only calls that have passed all counters are stored, none
        twice. The calls in between are in flight. */
    ghost predicate StagesInOrder()
      reads this`sequence, this`taken, this`passed, this`log
    {
      && sequence == |taken| == |passed| && Numbered(taken)
      && Among(log, taken) && AllPassed(log, taken, passed)
    }

    ghost function InFlight(): Calls
      reads this`taken, this`passed
    {
      Calls(taken, passed)
    }

    /** No call was ever stored out of the order in which it drew its identifier. */
    ghost predicate Undisturbed()
      reads this
    {
      log == taken
    }

    constructor (capacity: int)
      ensures Valid() && fresh(events) && Undisturbed()
      ensures log == [] && taken == [] && passed == [] && requests == errors == streams == cacheHits == 0
      ensures this.capacity == if capacity <= 0 then 1000 else capacity
    {
      var n: nat := if capacity <= 0 then DEFAULT_CAPACITY else capacity;
      this.capacity := n;
      var empty := RouteEvent(0, 0, "", "", 0, 0, 0.0, 0, 0, false, 0);
      events := new RouteEvent[n](_ => empty);
      next, count, sequence, requests, errors, streams, cacheHits := 0, 0, 0, 0, 0, 0, 0;
      log, taken, passed := [], [], [];
    }

    /** Draws the next identifier. */
    method Stamp(event: RouteEvent, now: nat) returns (stamped: RouteEvent)
      requires Valid()
      modifies this`sequence, this`taken, this`passed
      ensures Valid()
      ensures stamped == event.(id := old(|taken|) + 1, timestamp := now)
      ensures taken == old(taken) + [stamped] && passed == old(passed) + [0]
      ensures Reached(InFlight(), stamped, 0) && stamped !in log
    {
      sequence := sequence + 1;
      stamped := event.(id := sequence, timestamp := now);
      TalliedNew(taken, passed, stamped, requests, errors, streams, cacheHits);
      taken, passed := taken + [stamped], passed + [0];
    }

    /** The first counter. */
    method CountRequest(event: RouteEvent)
      requires Valid() && Reached(InFlight(), event, 0)
      modifies this`requests, this`passed
      ensures Valid() && InFlight() == Stepped(old(InFlight()), Pass(event, 1)) && Reached(InFlight(), event, 1)
      ensures requests == old(requests) + 1
    {
      TalliedNext(taken, passed, event.id - 1, 1, requests, errors, streams, cacheHits);
      requests := requests + 1;
      StillAllPassed(log, taken, passed, event.id - 1, 1);
      passed := passed[event.id - 1 := 1];
    }

    /** The second counter. */
    method CountError(event: RouteEvent)
      requires Valid() && Reached(InFlight(), event, 1)
      modifies this`errors, this`passed
      ensures Valid() && InFlight() == Stepped(old(InFlight()), Pass(event, 2)) && Reached(InFlight(), event, 2)
      ensures errors == old(errors) + if event.statusCode >= 400 then 1 else 0
    {
      TalliedNext(taken, passed, event.id - 1, 2, requests, errors, streams, cacheHits);
      if event.statusCode >= 400 {
        errors := errors + 1;
      }
      StillAllPassed(log, taken, passed, event.id - 1, 2);
      passed := passed[event.id - 1 := 2];
    }

    /** The third counter. */
    method CountStream(event: RouteEvent)
      requires Valid() && Reached(InFlight(), event, 2)
      modifies this`streams, this`passed
      ensures Valid() && InFlight() == Stepped(old(InFlight()), Pass(event, 3)) && Reached(InFlight(), event, 3)
      ensures streams == old(streams) + if event.stream then 1 else 0
    {
      TalliedNext(taken, passed, event.id - 1, 3, requests, errors, streams, cacheHits);
      if event.stream {
        streams := streams + 1;
      }
      StillAllPassed(log, taken, passed, event.id - 1, 3);
      passed := passed[event.id - 1 := 3];
    }

    /** The last counter. */
    method CountHit(event: RouteEvent)
      requires Valid() && Reached(InFlight(), event, 3)
      modifies this`cacheHits, this`passed
      ensures Valid() && InFlight() == Stepped(old(InFlight()), Pass(event, 4)) && Reached(InFlight(), event, 4)
      ensures cacheHits == old(cacheHits) + if event.matchedBlocks > 0 then 1 else 0
    {
      TalliedNext(taken, passed, event.id - 1, 4, requests, errors, streams, cacheHits);
      if event.matchedBlocks > 0 {
        cacheHits := cacheHits + 1;
      }
      StillAllPassed(log, taken, passed, event.id - 1, 4);
      passed := passed[event.id - 1 := 4];
    }

    /** The four counters, one after the other. */
    method Tally(event: RouteEvent)
      requires Valid() && Reached(InFlight(), event, 0)
      modifies this`requests, this`errors, this`streams, this`cacheHits, this`passed
      ensures Valid() && Reached(InFlight(), event, COUNTERS)
      ensures passed == old(passed)[event.id - 1 := COUNTERS]
    {
      CountRequest(event);
      CountError(event);
      CountStream(event);
      CountHit(event);
    }

    /** The critical section, once for every event that has passed the counters: overwrite the oldest
        cell and advance. */
    method Store(event: RouteEvent)
      requires Valid() && Reached(InFlight(), event, COUNTERS) && event !in log
      modifies this`next, this`count, this`log, events
      ensures Valid()
      ensures log == old(log) + [event]
    {
      Overwrite(event);
    }

    /** The ring write of the critical section. */
    method Overwrite(event: RouteEvent)
      requires RingHoldsTail()
      modifies this`next, this`count, this`log, events
      ensures RingHoldsTail() && log == old(log) + [event]
    {
      RingStep(|log|, capacity);
      events[next] := event;
      next := (next + 1) % capacity;
      if count < capacity {
        count := count + 1;
      }
      log := log + [event];
    }

    /** One undisturbed Record: number, count, store. It extends the agreement between the order of
        storing and the order of identifiers by one, whatever happened before. */
    method Record(event: RouteEvent, now: nat)
      requires Valid()
      modifies this, events
      ensures Valid()
      ensures var stamped := event.(id := old(|taken|) + 1, timestamp := now);
              taken == old(taken) + [stamped] && log == old(log) + [stamped]
      ensures passed == old(passed) + [COUNTERS]
      ensures Agreement(log, taken) == Agreement(old(log), old(taken)) + 1
      ensures old(Undisturbed()) ==> Undisturbed()
    {
      var stamped := Stamp(event, now);
      Complete(stamped);
      assert taken == old(taken) + [stamped] && log == old(log) + [stamped] && passed == old(passed) + [COUNTERS];
      AgreementAppend(old(log), old(taken), stamped);
    }

    /** The rest of an undisturbed call that has drawn its identifier. */
    method Complete(event: RouteEvent)
      requires Valid() && Reached(InFlight(), event, 0) && event !in log
      modifies this`requests, this`errors, this`streams, this`cacheHits, this`passed,
               this`next, this`count, this`log, events
      ensures Valid() && log == old(log) + [event] && passed == old(passed)[event.id - 1 := COUNTERS]
    {
      Tally(event);
      Store(event);
    }

    /** One step of another goroutine. */
    method Act(step: Step)
      requires Valid() && Can(InFlight(), step)
      modifies this`sequence, this`taken, this`requests, this`errors, this`streams, this`cacheHits, this`passed
      ensures Valid() && InFlight() == Stepped(old(InFlight()), step)
      ensures requests == old(requests) + Passes([step], 1, IsCall)
      ensures errors == old(errors) + Passes([step], 2, IsError)
      ensures streams == old(streams) + Passes([step], 3, IsStream)
      ensures cacheHits == old(cacheHits) + Passes([step], 4, IsHit)
    {
      match step
      case Draw(event, now) =>
        var stamped := Stamp(event, now);
      case Pass(event, counter) =>
        if counter == 1 {
          CountRequest(event);
        } else if counter == 2 {
          CountError(event);
        } else if counter == 3 {
          CountStream(event);
        } else {
          CountHit(event);
        }
    }

    /** Steps of other goroutines, one after the other. */
    method ActAll(steps: seq<Step>)
      requires Valid() && CanAll(InFlight(), steps)
      modifies this`sequence, this`taken, this`requests, this`errors, this`streams, this`cacheHits, this`passed
      ensures Valid() && InFlight() == SteppedAll(old(InFlight()), steps)
      ensures requests == old(requests) + Passes(steps, 1, IsCall)
      ensures errors == old(errors) + Passes(steps, 2, IsError)
      ensures streams == old(streams) + Passes(steps, 3, IsStream)
      ensures cacheHits == old(cacheHits) + Passes(steps, 4, IsHit)
      decreases |steps|
    {
      if |steps| > 0 {
        Act(steps[0]);
        ActAll(steps[1..]);
      }
    }

    /** The newest events, newest first, read back through the ring. Under any interleaving their
        identifiers are distinct. They are the highest ones drawn, descending one by one, exactly if as
        many of the newest events were stored in the order of their identifiers; and they descend one by
        one from that of the newest event exactly if the same holds of the events drawn up to it. */
    method Recent(limit: int) returns (result: seq<RouteEvent>)
      requires Valid()
      ensures result == NewestFirst(log, EffectiveLimit(limit, capacity, Min(|log|, capacity)))
      ensures 1 <= limit <= capacity ==> |result| == if limit <= |log| then limit else |log|
      ensures limit < 1 || limit > capacity ==> |result| <= 100 && |result| <= |log| && |result| <= capacity
      ensures limit < 1 || limit > capacity ==> |result| == 100 || |result| == |log| || |result| == capacity
      ensures forall i, j :: 0 <= i < j < |result| ==> result[i].id != result[j].id
      ensures Descends(result, |taken|) <==> |result| <= Agreement(log, taken)
      ensures result != [] ==>
                && 1 <= result[0].id <= |taken|
                && (Descends(result, result[0].id) <==> |result| <= Agreement(log, taken[..result[0].id]))
      ensures Undisturbed() ==> Descends(result, |log|)
    {
      var l := limit;
      if l <= 0 || l > capacity {
        l := DEFAULT_LIMIT;
      }
      if l > count {
        l := count;
      }
      result := ReadRing(l);
      StoredIdsAreDistinct(log, taken);
      DescendingIffAgree(log, taken, |taken|, l);
      assert taken[..|taken|] == taken;
      if l > 0 {
        TakenById(taken, result[0]);
        DescendingIffAgree(log, taken, result[0].id, l);
      }
      AgreementOfSame(log);
    }

    /** The loop of Recent. */
    method ReadRing(l: nat) returns (result: seq<RouteEvent>)
      requires RingHoldsTail() && l <= count
      ensures result == NewestFirst(log, l)
    {
      result := [];
      for n := 0 to l
        invariant |result| == n
        invariant forall i :: 0 <= i < n ==> result[i] == log[|log| - 1 - i]
      {
        ReadBack(|log|, capacity, n);
        var index := (next - 1 - n + capacity) % capacity;
        result := result + [events[index]];
      }
    }

    /** The four counters, loaded one by one while other goroutines go on between the loads: each is what
        it was at first plus the calls that passed it before its own load. Errors, streams or hits exceed
        the requests exactly if more of them slipped in than there were other requests at first. */
    method Summarize(first: seq<Step>, second: seq<Step>, third: seq<Step>) returns (s: Summary)
      requires Valid() && CanAll(InFlight(), first) && CanAll(SteppedAll(InFlight(), first), second)
      requires CanAll(SteppedAll(SteppedAll(InFlight(), first), second), third)
      modifies this`sequence, this`taken, this`requests, this`errors, this`streams, this`cacheHits, this`passed
      ensures Valid()
      ensures s.requests == old(requests)
      ensures s.errors == old(errors) + Passes(first, 2, IsError)
      ensures s.streams == old(streams) + Passes(first, 3, IsStream) + Passes(second, 3, IsStream)
      ensures s.cacheHitRequests ==
                old(cacheHits) + Passes(first, 4, IsHit) + Passes(second, 4, IsHit) + Passes(third, 4, IsHit)
      ensures old(errors) <= old(requests) && old(streams) <= old(requests) && old(cacheHits) <= old(requests)
      ensures s.errors > s.requests <==> Passes(first, 2, IsError) > old(requests) - old(errors)
      ensures s.streams > s.requests <==>
              Passes(first, 3, IsStream) + Passes(second, 3, IsStream) > old(requests) - old(streams)
      ensures s.cacheHitRequests > s.requests <==>
              Passes(first, 4, IsHit) + Passes(second, 4, IsHit) + Passes(third, 4, IsHit)
              > old(requests) - old(cacheHits)
    {
      CountAtMost(taken, passed, 2, IsError);
      CountAtMost(taken, passed, 3, IsStream);
      CountAtMost(taken, passed, 4, IsHit);
      var requestCount := requests;
      ActAll(first);
      var errorCount := errors;
      ActAll(second);
      var streamCount := streams;
      ActAll(third);
      return Summary(requestCount, errorCount, streamCount, cacheHits);
    }
  }

  /** One atomic step of a call: it draws its identifier, or passes its next counter. */
  datatype Step = Draw(event: RouteEvent, now: nat) | Pass(event: RouteEvent, counter: nat)

  /** The event has drawn its identifier and has passed n counters. */
  ghost predicate Reached(c: Calls, e: RouteEvent, n: nat) {
    && 1 <= e.id <= |c.taken| && |c.passed| == |c.taken|
    && c.taken[e.id - 1] == e && c.passed[e.id - 1] == n
  }

  ghost predicate Can(c: Calls, step: Step) {
    step.Pass? ==> 1 <= step.counter <= COUNTERS && Reached(c, step.event, step.counter - 1)
  }

  function Stepped(c: Calls, step: Step): Calls {
    match step
    case Draw(event, now) =>
      Calls(c.taken + [event.(id := |c.taken| + 1, timestamp := now)], c.passed + [0])
    case Pass(event, counter) =>
      if 1 <= event.id <= |c.passed| then c.(passed := c.passed[event.id - 1 := counter]) else c
  }

  ghost predicate CanAll(c: Calls, steps: seq<Step>)
    decreases |steps|
  {
    steps == [] || (Can(c, steps[0]) && CanAll(Stepped(c, steps[0]), steps[1..]))
  }

  function SteppedAll(c: Calls, steps: seq<Step>): Calls
    decreases |steps|
  {
    if steps == [] then c else SteppedAll(Stepped(c, steps[0]), steps[1..])
  }

  /** How many of the steps take a call with the property past this counter. */
  function Passes(steps: seq<Step>, counter: nat, p: RouteEvent -> bool): nat
    decreases |steps|
  {
    if steps == [] then 0
    else (if steps[0].Pass? && steps[0].counter == counter && p(steps[0].event) then 1 else 0)
         + Passes(steps[1..], counter, p)
  }

  /** Each counter counts the calls that have passed it. */
  ghost predicate Tallied(taken: seq<RouteEvent>, passed: seq<nat>, requests: nat, errors: nat, streams: nat, hits: nat)
    requires |taken| == |passed|
  {
    && requests == Count(taken, passed, 1, IsCall)
    && errors == Count(taken, passed, 2, IsError)
    && streams == Count(taken, passed, 3, IsStream)
    && hits == Count(taken, passed, 4, IsHit)
  }

  /** A new call moves no counter. */
  lemma TalliedNew(taken: seq<RouteEvent>, passed: seq<nat>, e: RouteEvent, requests: nat, errors: nat, streams: nat,
                   hits: nat)
    requires |taken| == |passed| && Tallied(taken, passed, requests, errors, streams, hits)
    ensures Tallied(taken + [e], passed + [0], requests, errors, streams, hits)
  {
    CountNew(taken, passed, e, 1, IsCall);
    CountNew(taken, passed, e, 2, IsError);
    CountNew(taken, passed, e, 3, IsStream);
    CountNew(taken, passed, e, 4, IsHit);
  }

  /** What passing counter n adds to counter m. */
  function Gain(n: nat, m: nat, hasProperty: bool): nat {
    if n == m && hasProperty then 1 else 0
  }

  /** A call that passes its next counter moves that one, if it has the property, and no other. */
  lemma TalliedNext(taken: seq<RouteEvent>, passed: seq<nat>, i: nat, n: nat, requests: nat, errors: nat, streams: nat,
                    hits: nat)
    requires |taken| == |passed| && Tallied(taken, passed, requests, errors, streams, hits)
    requires i < |taken| && n == passed[i] + 1
    ensures Tallied(taken, passed[i := n], requests + Gain(n, 1, true), errors + Gain(n, 2, IsError(taken[i])),
                    streams + Gain(n, 3, IsStream(taken[i])), hits + Gain(n, 4, IsHit(taken[i])))
  {
    CountPassed(taken, passed, i, 1, IsCall);
    CountPassed(taken, passed, i, 2, IsError);
    CountPassed(taken, passed, i, 3, IsStream);
    CountPassed(taken, passed, i, 4, IsHit);
  }

  lemma {:induction false} AgreementOfSame<T>(log: seq<T>)
    ensures Agreement(log, log) == |log|
  {
    if log != [] {
      AgreementOfSame(log[..|log| - 1]);
    }
  }

  /** Two concurrent calls, of which the later one overtakes the earlier one between drawing its
      identifier and taking the lock: the newest event then has the lower identifier. */
  method Overtake(first: RouteEvent, second: RouteEvent, now: nat) returns (recent: seq<RouteEvent>)
    ensures |recent| == 2 && recent[0].id == 1 && recent[1].id == 2
  {
    var recorder := new Recorder(2);
    var a := recorder.Stamp(first, now);
    var b := recorder.Stamp(second, now);
    assert a.id == 1 && b.id == 2;
    recorder.Complete(b);
    assert recorder.log == [b];
    recorder.Complete(a);
    assert recorder.log == [b, a];
    recent := recorder.Recent(2);
  }

  /** A summary that a failing call slips into: it reports more errors than requests. */
  method TornSummary(call: RouteEvent, now: nat) returns (s: Summary)
    requires IsError(call)
    ensures s.errors > s.requests
  {
    var recorder := new Recorder(1);
    var steps := FailingCall(call, now);
    s := recorder.Summarize(steps, [], []);
  }

  /** The first steps of a failing call, up to the counter of errors. */
  method FailingCall(call: RouteEvent, now: nat) returns (steps: seq<Step>)
    requires IsError(call)
    ensures CanAll(Calls([], []), steps) && Passes(steps, 2, IsError) == 1
  {
    var stamped := call.(id := 1, timestamp := now);
    var draw, request, error := Draw(call, now), Pass(stamped, 1), Pass(stamped, 2);
    steps := [draw] + ([request] + [error]);
    var c := Stepped(Calls([], []), draw);
    assert steps[1..] == [request] + [error] && steps[1..][1..] == [error] && [error][1..] == [];
    assert CanAll(Stepped(c, request), [error]);
    assert CanAll(c, [request] + [error]);
    assert Passes([error], 2, IsError) == 1;
    assert Passes([request] + [error], 2, IsError) == 1;
  }

  /** Writing log position n hits none of the cells of the capacity - 1 positions before it. */
  lemma RingStep(n: nat, capacity: nat)
    requires capacity > 0
    ensures (n % capacity + 1) % capacity == (n + 1) % capacity
    ensures forall k :: n - capacity < k < n && k >= 0 ==> k % capacity != n % capacity
  {
    ModStep(n, capacity);
    forall k | n - capacity < k < n && k >= 0
      ensures k % capacity != n % capacity
    {
      CellsDiffer(k, n, capacity);
    }
  }

  lemma ModStep(n: nat, c: nat)
    requires c > 0
    ensures (n % c + 1) % c == (n + 1) % c
  {
    var q, r := n / c, n % c;
    assert n == q * c + r;
    if r + 1 < c {
      Quotient(n + 1, c, q, r + 1);
    } else {
      assert n + 1 == (q + 1) * c;
      Quotient(n + 1, c, q + 1, 0);
      Quotient(c, c, 1, 0);
    }
  }

  lemma CellsDiffer(k: nat, n: nat, c: nat)
    requires c > 0 && n - c < k < n
    ensures k % c != n % c
  {
    assert n - k == (n / c - k / c) * c + (n % c - k % c);
    SmallMultiple(n / c - k / c, c);
  }

  /** The n-th newest event sits n cells behind the write position, wrapping around. */
  lemma ReadBack(length: nat, c: nat, n: nat)
    requires c > 0 && n < c && n < length
    ensures 0 <= length % c - 1 - n + c
    ensures (length % c - 1 - n + c) % c == (length - 1 - n) % c
  {
    var q, r := length / c, length % c;
    assert length == q * c + r;
    if r - 1 - n >= 0 {
      Quotient(length - 1 - n, c, q, r - 1 - n);
      Quotient(r - 1 - n + c, c, 1, r - 1 - n);
    } else {
      assert (q - 1) * c == q * c - c;
      Quotient(length - 1 - n, c, q - 1, r - 1 - n + c);
      Quotient(r - 1 - n + c, c, 0, r - 1 - n + c);
    }
  }
}
