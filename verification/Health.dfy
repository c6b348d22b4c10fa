/** Health hysteresis of one backend: three failed probes in a row take a healthy backend out,
    two successful ones in a row let it back in. The consecutive counters are 32-bit and wrap. */
module Health {

  const UNHEALTHY_AFTER := 3
  const HEALTHY_AFTER := 2

  type Int32 = x: int | -0x8000_0000 <= x < 0x8000_0000

  /** Two's-complement truncation to 32 bits. */
  function Wrap32(x: int): Int32 {
    (x + 0x8000_0000) % 0x1_0000_0000 - 0x8000_0000
  }

  /** A 32-bit counter moved up by one, wrapping around at the top. */
  function Bump(x: Int32): Int32 {
    if x == 0x7FFF_FFFF then -0x8000_0000 else x + 1
  }

  datatype Status = Status(healthy: bool, fails: Int32, successes: Int32,
                           healthyTransitions: nat, unhealthyTransitions: nat)

  const INITIAL: Status := Status(false, 0, 0, 0, 0)

  /** The effect of one probe on the counters and the verdict. */
  function Probed(s: Status, ok: bool): Status {
    if ok then
      var n := Bump(s.successes);
      var t := s.(fails := 0, successes := n);
      if n >= HEALTHY_AFTER && !s.healthy
      then t.(healthy := true, healthyTransitions := s.healthyTransitions + 1) else t
    else
      var n := Bump(s.fails);
      var t := s.(successes := 0, fails := n);
      if n >= UNHEALTHY_AFTER && s.healthy
      then t.(healthy := false, unhealthyTransitions := s.unhealthyTransitions + 1) else t
  }

  /** The status after a whole probe history. */
  function After(probes: seq<bool>): Status
    decreases |probes|
  {
    if probes == [] then INITIAL else Probed(After(probes[..|probes| - 1]), probes[|probes| - 1])
  }

  /** k equal outcomes in a row end just before position e. */
  ghost predicate RunEndsAt(probes: seq<bool>, outcome: bool, k: nat, e: nat) {
    k <= e <= |probes| && forall i :: e - k <= i < e ==> probes[i] == outcome
  }

  /** Where the latest completed run of k equal outcomes ends; 0 if there was none. */
  function LatestRun(probes: seq<bool>, outcome: bool, k: nat): (e: nat)
    requires k > 0
    ensures e == 0 || RunEndsAt(probes, outcome, k, e)
    ensures forall f: nat :: RunEndsAt(probes, outcome, k, f) ==> f <= e
    decreases |probes|
  {
    if Streak(probes, outcome) >= k then |probes|
    else if probes == [] then 0
    else
      var front := probes[..|probes| - 1];
      assert forall f: nat :: RunEndsAt(probes, outcome, k, f) && f < |probes| ==> RunEndsAt(front, outcome, k, f);
      assert !RunEndsAt(probes, outcome, k, |probes|);
      LatestRun(front, outcome, k)
  }

  /** Length of the run of equal outcomes the history ends with. */
  function Streak(probes: seq<bool>, outcome: bool): (n: nat)
    ensures n <= |probes|
    ensures RunEndsAt(probes, outcome, n, |probes|)
    ensures n < |probes| ==> probes[|probes| - n - 1] != outcome
    decreases |probes|
  {
    if probes == [] || probes[|probes| - 1] != outcome then 0
    else
      assert RunEndsAt(probes[..|probes| - 1], outcome, Streak(probes[..|probes| - 1], outcome), |probes| - 1);
      Streak(probes[..|probes| - 1], outcome) + 1
  }

  /** How much of a threshold is already used up by the current streak. */
  function Pending(probes: seq<bool>): nat {
    var healthy := After(probes).healthy;
    var n, most := Streak(probes, !healthy), if healthy then UNHEALTHY_AFTER - 1 else HEALTHY_AFTER - 1;
    if n < most then n else most
  }

  lemma AtStart(probes: seq<bool>)
    requires probes == []
    ensures After(probes) == INITIAL
  {
  }

  lemma AfterOneMore(front: seq<bool>, ok: bool)
    ensures After(front + [ok]) == Probed(After(front), ok)
  {
    assert (front + [ok])[..|front|] == front;
  }

  /** One more probe extends its own streak and ends the other one. */
  lemma StreakStep(front: seq<bool>, ok: bool)
    ensures Streak(front + [ok], ok) == Streak(front, ok) + 1
    ensures Streak(front + [ok], !ok) == 0
    ensures After(front + [ok]) == Probed(After(front), ok)
  {
    assert (front + [ok])[..|front|] == front;
  }

  /** The counters are the wrapped streak lengths, and a streak that has reached its threshold has
      already had its effect. */
  ghost predicate Tracks(s: Status, good: nat, bad: nat) {
    && s.successes == Wrap32(good) && s.fails == Wrap32(bad)
    && (good >= HEALTHY_AFTER ==> s.healthy)
    && (bad >= UNHEALTHY_AFTER ==> !s.healthy)
  }

  lemma TracksStep(s: Status, good: nat, bad: nat, ok: bool)
    requires Tracks(s, good, bad)
    ensures ok ==> Tracks(Probed(s, ok), good + 1, 0)
    ensures !ok ==> Tracks(Probed(s, ok), 0, bad + 1)
    ensures ok ==> Probed(s, ok).healthy == (s.healthy || good + 1 >= HEALTHY_AFTER)
    ensures !ok ==> Probed(s, ok).healthy == (s.healthy && bad + 1 < UNHEALTHY_AFTER)
  {
    WrapStep(good);
    WrapStep(bad);
  }

  lemma {:induction false} HistoryIsTracked(probes: seq<bool>)
    ensures Tracks(After(probes), Streak(probes, true), Streak(probes, false))
    decreases |probes|
  {
    if probes != [] {
      var front, ok := probes[..|probes| - 1], probes[|probes| - 1];
      assert probes == front + [ok];
      HistoryIsTracked(front);
      StreakStep(front, ok);
      TracksStep(After(front), Streak(front, true), Streak(front, false), ok);
    }
  }

  lemma WrapStep(n: nat)
    ensures Bump(Wrap32(n)) == Wrap32(n + 1)
    ensures n < 0x8000_0000 ==> Wrap32(n) == n
  {
  }

  lemma LatestRunStep(front: seq<bool>, ok: bool, outcome: bool, k: nat)
    requires k > 0
    ensures LatestRun(front + [ok], outcome, k) ==
            if ok == outcome && Streak(front, ok) + 1 >= k then |front| + 1 else LatestRun(front, outcome, k)
  {
    StreakStep(front, ok);
    assert (front + [ok])[..|front|] == front;
  }

  /** Health is a function of probe history: a backend is healthy exactly when its latest
      completed run of two successes is more recent than its latest completed run of three
      failures. The wrap-around of the 32-bit counters never shows. */
  lemma {:induction false} HealthyIffLatestRunIsSuccess(probes: seq<bool>)
    ensures After(probes).healthy <==>
            LatestRun(probes, true, HEALTHY_AFTER) > LatestRun(probes, false, UNHEALTHY_AFTER)
    decreases |probes|
  {
    if probes != [] {
      var front, ok := probes[..|probes| - 1], probes[|probes| - 1];
      assert probes == front + [ok];
      HealthyIffLatestRunIsSuccess(front);
      StreakStep(front, ok);
      HistoryIsTracked(front);
      TracksStep(After(front), Streak(front, true), Streak(front, false), ok);
      LatestRunStep(front, ok, true, HEALTHY_AFTER);
      LatestRunStep(front, ok, false, UNHEALTHY_AFTER);
    }
  }

  /** Flap damping: transitions alternate, every admission cost two probes and every removal three. */
  lemma {:induction false} FlapDamping(probes: seq<bool>)
    ensures var s := After(probes);
            && s.healthyTransitions - s.unhealthyTransitions == (if s.healthy then 1 else 0)
            && 2 * s.healthyTransitions + 3 * s.unhealthyTransitions + Pending(probes) <= |probes|
    decreases |probes|
  {
    if probes != [] {
      var front, ok := probes[..|probes| - 1], probes[|probes| - 1];
      assert probes == front + [ok];
      FlapDamping(front);
      HistoryIsTracked(front);
      StreakStep(front, ok);
      TracksStep(After(front), Streak(front, true), Streak(front, false), ok);
    }
  }

  /** The bootstrap burst: two successes in a row admit a backend whatever went before. */
  lemma TwoSuccessesAdmit(probes: seq<bool>, burst: seq<bool>)
    requires |burst| == HEALTHY_AFTER && burst[0] && burst[1]
    ensures After(probes + burst).healthy
  {
    var once := probes + [burst[0]];
    assert probes + burst == once + [burst[1]];
    StreakStep(probes, burst[0]);
    StreakStep(once, burst[1]);
    HistoryIsTracked(probes + burst);
  }

  /** How often the verdict has turned to `to`. */
  function Turns(probes: seq<bool>, to: bool): nat
    decreases |probes|
  {
    if probes == [] then 0
    else
      var front := probes[..|probes| - 1];
      Turns(front, to) + (if After(front).healthy != to && After(probes).healthy == to then 1 else 0)
  }

  /** The transition counters count how often the verdict has turned each way. */
  lemma {:induction false} TransitionsAreTurns(probes: seq<bool>)
    ensures After(probes).healthyTransitions == Turns(probes, true)
    ensures After(probes).unhealthyTransitions == Turns(probes, false)
    decreases |probes|
  {
    if probes != [] {
      TransitionsAreTurns(probes[..|probes| - 1]);
    }
  }

  /** The thresholds: two successes in a row admit and one does not; three failures in a row remove and
      two do not. */
  lemma Thresholds(probes: seq<bool>)
    ensures After(probes + [true, true]).healthy
    ensures !After(probes + [false, false, false]).healthy
    ensures !After(probes).healthy && (probes == [] || !probes[|probes| - 1]) ==> !After(probes + [true]).healthy
    ensures After(probes).healthy && (probes == [] || probes[|probes| - 1]) ==> After(probes + [false, false]).healthy
  {
    TwoSuccessesAdmit(probes, [true, true]);
    var one, two := probes + [false], probes + [false, false];
    assert two == one + [false] && probes + [false, false, false] == two + [false];
    HistoryIsTracked(probes);
    HistoryIsTracked(one);
    HistoryIsTracked(two + [false]);
    StreakStep(probes, true);
    StreakStep(probes, false);
    StreakStep(one, false);
    StreakStep(two, false);
    TracksStep(After(probes), Streak(probes, true), Streak(probes, false), true);
    TracksStep(After(probes), Streak(probes, true), Streak(probes, false), false);
    TracksStep(After(one), Streak(one, true), Streak(one, false), false);
  }

  /** The 32-bit counters wrap: they are right modulo 2^32. */
  lemma Wrap32IsCongruent(x: int)
    ensures (x - Wrap32(x)) % 0x1_0000_0000 == 0
  {
  }

  /** The same machine with unbounded counters. */
  function Unbounded(probes: seq<bool>): (healthy: bool)
    decreases |probes|
  {
    if probes == [] then false
    else
      var was := Unbounded(probes[..|probes| - 1]);
      if probes[|probes| - 1] then was || Streak(probes, true) >= HEALTHY_AFTER
      else was && Streak(probes, false) < UNHEALTHY_AFTER
  }

  /** Counter wrap-around never changes a verdict. */
  lemma {:induction false} WraparoundIsInvisible(probes: seq<bool>)
    ensures After(probes).healthy == Unbounded(probes)
    decreases |probes|
  {
    if probes != [] {
      var front, ok := probes[..|probes| - 1], probes[|probes| - 1];
      assert probes == front + [ok];
      WraparoundIsInvisible(front);
      HistoryIsTracked(front);
      StreakStep(front, ok);
      TracksStep(After(front), Streak(front, true), Streak(front, false), ok);
    }
  }
}
