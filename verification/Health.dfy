/** Active health checking (proxy/health.go): one counter per target drives both transitions.
    It is proved to mean what its configuration says, on every history of probes. */
module Health {
  import opened Balancer
  import opened RoundRobin

  datatype State = State(healthy: bool, fails: int)
  datatype Thresholds = Thresholds(fail: int, success: int)
  {
    predicate Valid() {
      fail >= 1 && success >= 1
    }
  }

  datatype Event = Probe(ok: bool) | MarkDown      // a dial failure in the TCP proxy marks down

  const FRESH := State(true, 0)

  /** The per-target transition of runOnce. */
  function Step(s: State, ok: bool, th: Thresholds): State {
    if ok && s.healthy then State(true, 0)
    else if ok then (if s.fails + 1 >= th.success then State(true, 0) else State(false, s.fails + 1))
    else if !s.healthy then State(false, 0)
    else if s.fails + 1 >= th.fail then State(false, 0) else State(true, s.fails + 1)
  }

  function Apply(s: State, e: Event, th: Thresholds): State {
    match e
    case Probe(ok) => Step(s, ok, th)
    case MarkDown => s.(healthy := false)
  }

  function Run(s: State, es: seq<Event>, th: Thresholds): State {
    if es == [] then s else Apply(Run(s, es[..|es| - 1], th), es[|es| - 1], th)
  }

  function Probes(ps: seq<bool>): seq<Event> {
    seq(|ps|, i requires 0 <= i < |ps| => Probe(ps[i]))
  }

  // ---------- probes only ----------

  /** How many of the latest probes in a row came out as v. */
  function Streak(ps: seq<bool>, v: bool): (n: nat)
    ensures n <= |ps|
  {
    if ps == [] || ps[|ps| - 1] != v then 0 else 1 + Streak(ps[..|ps| - 1], v)
  }

  /** The promise: a target in rotation leaves it with the fail-th failure in a row, and one out
      of rotation returns with the success-th success in a row. */
  predicate InRotation(ps: seq<bool>, th: Thresholds) {
    if ps == [] then true
    else if InRotation(ps[..|ps| - 1], th) then Streak(ps, false) < th.fail
    else Streak(ps, true) >= th.success
  }

  /** The single counter keeps the promise on every history, and holds the streak that matters. */
  lemma {:induction false} CounterKeepsPromise(ps: seq<bool>, th: Thresholds)
    requires th.Valid()
    ensures Run(FRESH, Probes(ps), th) ==
      State(InRotation(ps, th), if InRotation(ps, th) then Streak(ps, false) else Streak(ps, true))
    ensures InRotation(ps, th) ==> Streak(ps, false) < th.fail
    ensures !InRotation(ps, th) ==> Streak(ps, true) < th.success
  {
    if ps != [] {
      var init := ps[..|ps| - 1];
      CounterKeepsPromise(init, th);
      assert Probes(ps)[..|ps| - 1] == Probes(init);
    }
  }

  /** Leaving happens exactly on the fail-th consecutive failure, returning exactly on the
      success-th consecutive success. */
  lemma TransitionsAreExact(ps: seq<bool>, ok: bool, th: Thresholds)
    requires th.Valid()
    ensures InRotation(ps, th) ==> (!InRotation(ps + [ok], th) <==> Streak(ps + [ok], false) == th.fail)
    ensures !InRotation(ps, th) ==> (InRotation(ps + [ok], th) <==> Streak(ps + [ok], true) == th.success)
  {
    CounterKeepsPromise(ps, th);
    assert (ps + [ok])[..|ps|] == ps;
  }

  function Takedowns(ps: seq<bool>, th: Thresholds): nat {
    if ps == [] then 0
    else
      var init := ps[..|ps| - 1];
      Takedowns(init, th) + if InRotation(init, th) && !InRotation(ps, th) then 1 else 0
  }

  /** The k-th takedown cannot come before probe k * fail + (k - 1) * success. */
  lemma {:induction false} TakedownsAreSpaced(ps: seq<bool>, th: Thresholds)
    requires th.Valid()
    ensures var k := Takedowns(ps, th);
      |ps| >= Times(k, th.fail) + (if k > 0 then Times(k - 1, th.success) else 0)
    ensures var k := Takedowns(ps, th);
      if InRotation(ps, th) then |ps| >= Times(k, th.fail) + Times(k, th.success) + Streak(ps, false)
      else k > 0 && |ps| >= Times(k, th.fail) + Times(k - 1, th.success) + Streak(ps, true)
  {
    if ps != [] {
      var init := ps[..|ps| - 1];
      TakedownsAreSpaced(init, th);
      TransitionsAreExact(init, ps[|ps| - 1], th);
      assert init + [ps[|ps| - 1]] == ps;
    }
  }

  // ---------- with passive mark-downs ----------

  /** In every reachable state the counter is not negative, and in rotation it is below the
      threshold. */
  lemma {:induction false} ReachableStates(es: seq<Event>, th: Thresholds)
    requires th.Valid()
    ensures var s := Run(FRESH, es, th); s.fails >= 0 && (s.healthy ==> s.fails < th.fail)
  {
    if es != [] {
      ReachableStates(es[..|es| - 1], th);
    }
  }

  function Successes(s: State, n: nat, th: Thresholds): State {
    if n == 0 then s else Step(Successes(s, n - 1, th), true, th)
  }

  /** Successes in a row that a target out of rotation needs to return. A mark-down leaves the
      counter as it was, so failures counted before it pass for successes after it. */
  function Needed(s: State, th: Thresholds): int {
    if th.success - s.fails <= 1 then 1 else th.success - s.fails
  }

  lemma {:induction false} ReturnsAfterNeeded(s: State, n: nat, th: Thresholds)
    requires th.Valid() && !s.healthy
    ensures Successes(s, n, th).healthy <==> n >= Needed(s, th)
    ensures n < Needed(s, th) ==> Successes(s, n, th).fails == s.fails + n
  {
    if n > 0 {
      ReturnsAfterNeeded(s, n - 1, th);
    }
  }

  /** In every reachable state out of rotation, between 1 and success-threshold successes are
      needed; exactly the threshold once a probe has failed while the target was out. */
  lemma NeededIsBounded(es: seq<Event>, th: Thresholds)
    requires th.Valid() && !Run(FRESH, es, th).healthy
    ensures 1 <= Needed(Run(FRESH, es, th), th) <= th.success
    ensures Needed(Step(Run(FRESH, es, th), false, th), th) == th.success
    ensures !Step(Run(FRESH, es, th), false, th).healthy
  {
    ReachableStates(es, th);
  }

  /** The lower end is reached: two failures, then a mark-down, and a single success restores a
      target configured to need three. */
  lemma MarkDownShortensReturn()
    ensures var th := Thresholds(3, 3);
      var s := Run(FRESH, [Probe(false), Probe(false), MarkDown], th);
      !s.healthy && Step(s, true, th).healthy
  {
    var th := Thresholds(3, 3);
    var es := [Probe(false), Probe(false), MarkDown];
    assert es[..2] == [Probe(false), Probe(false)];
    assert es[..2][..1] == [Probe(false)];
    assert es[..2][..1][..0] == [];
    assert Run(FRESH, es[..2][..1], th) == State(true, 1);
    assert Run(FRESH, es[..2], th) == State(true, 2);
  }

  /** In rotation, the counter holds the failures that the latest probes left pending: some if and only if
      the latest probe failed. */
  lemma {:induction false} PendingFailures(es: seq<Event>, th: Thresholds)
    requires th.Valid() && Run(FRESH, es, th).healthy
    ensures Run(FRESH, es, th).fails > 0 <==> es != [] && es[|es| - 1] == Probe(false)
  {
    if es != [] {
      ReachableStates(es[..|es| - 1], th);
    }
  }

  /** A target that a mark-down takes out of rotation needs the whole threshold of successes to return if
      and only if its latest probe had not failed, or the threshold is one. */
  lemma WholeThresholdExactly(es: seq<Event>, th: Thresholds)
    requires th.Valid() && Run(FRESH, es, th).healthy
    ensures var s := Run(FRESH, es + [MarkDown], th);
      && !s.healthy
      && (Needed(s, th) == th.success <==> th.success == 1 || es == [] || es[|es| - 1] != Probe(false))
  {
    assert (es + [MarkDown])[..|es|] == es;
    PendingFailures(es, th);
    ReachableStates(es, th);
  }

  // ---------- a probe is not one instruction ----------

  function Down(s: State, yes: bool): State {
    if yes then s.(healthy := false) else s
  }

  /** The instructions of one probe's transition, with a mark-down possible before the load of
      healthy, between the load and the update of fails, before the store to healthy, and after. */
  function Interleaved(s: State, ok: bool, m1: bool, m2: bool, m3: bool, m4: bool, th: Thresholds): State {
    var loaded := Down(s, m1).healthy;
    var s2 := Down(Down(s, m1), m2);
    var end :=
      if ok && loaded then s2.(fails := 0)
      else if ok then
        (if s2.fails + 1 >= th.success then Down(s2.(fails := 0), m3).(healthy := true) else s2.(fails := s2.fails + 1))
      else if !loaded then s2.(fails := 0)
      else if s2.fails + 1 >= th.fail then Down(s2.(fails := 0), m3).(healthy := false)
      else s2.(fails := s2.fails + 1);
    Down(end, m4)
  }

  /** Every interleaving has the effect of the mark-downs happening wholly before or wholly
      after the probe. */
  lemma ProbeIsAtomic(s: State, ok: bool, m1: bool, m2: bool, m3: bool, m4: bool, th: Thresholds)
    returns (before: bool, after: bool)
    ensures Interleaved(s, ok, m1, m2, m3, m4, th) == Down(Step(Down(s, before), ok, th), after)
    ensures before || after ==> m1 || m2 || m3 || m4
  {
    var loaded := Down(s, m1).healthy;
    before := m1;
    after := (m2 && loaded) || m4;
  }

  // ---------- thresholds and targets ----------

  class HealthCheck {
    var failThreshold: int
    var successThreshold: int

    constructor (failThreshold: int, successThreshold: int)
      ensures this.failThreshold == failThreshold && this.successThreshold == successThreshold
    {
      this.failThreshold, this.successThreshold := failThreshold, successThreshold;
    }

    /** Thresholds that are not positive get their defaults, 3 and 1. */
    method SetDefaults()
      modifies this
      ensures failThreshold == if old(failThreshold) <= 0 then 3 else old(failThreshold)
      ensures successThreshold == if old(successThreshold) <= 0 then 1 else old(successThreshold)
      ensures View().Valid()
    {
      if failThreshold <= 0 {
        failThreshold := 3;
      }
      if successThreshold <= 0 {
        successThreshold := 1;
      }
    }

    function View(): Thresholds
      reads this
    {
      Thresholds(failThreshold, successThreshold)
    }
  }

  function StateOf(t: Target): State
    reads t`healthy, t`fails
  {
    State(t.healthy, t.fails)
  }

  /** One target's turn in runOnce. */
  method ApplyProbe(t: Target, ok: bool, th: Thresholds)
    modifies t`healthy, t`fails
    ensures StateOf(t) == Step(old(StateOf(t)), ok, th)
  {
    if ok && t.healthy {
      t.fails := 0;
    } else if ok {
      t.fails := t.fails + 1;
      if t.fails >= th.success {
        t.fails := 0;
        t.healthy := true;
      }
    } else if !t.healthy {
      t.fails := 0;
    } else {
      t.fails := t.fails + 1;
      if t.fails >= th.fail {
        t.fails := 0;
        t.healthy := false;
      }
    }
  }

  ghost predicate ListedOnce(targets: seq<Target>, i: nat)
    requires i < |targets|
  {
    forall j :: 0 <= j < |targets| && j != i ==> targets[j] != targets[i]
  }

  /** runOnce: every target takes its own step; a target listed once takes exactly one. */
  method RunOnce(targets: seq<Target>, oks: seq<bool>, th: Thresholds)
    requires |oks| == |targets|
    modifies targets`healthy, targets`fails
    ensures forall i :: 0 <= i < |targets| && ListedOnce(targets, i) ==>
      StateOf(targets[i]) == Step(old(StateOf(targets[i])), oks[i], th)
  {
    for i := 0 to |targets|
      invariant forall k :: 0 <= k < |targets| && ListedOnce(targets, k) ==>
        StateOf(targets[k]) == if k < i then Step(old(StateOf(targets[k])), oks[k], th) else old(StateOf(targets[k]))
    {
      ApplyProbe(targets[i], oks[i], th);
    }
  }
}
