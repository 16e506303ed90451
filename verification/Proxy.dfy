/** The HTTP reverse proxy's request loop (proxy/proxy.go): retry on another target after a
    transport failure, with in-flight counters kept exact. */
module Proxy {
  import opened Bytes
  import opened RoundRobin
  import opened Retry
  import opened WrapCoverage
  import opened Balancer
  import opened Fnv1a

  datatype Outcome = Served(target: Target) | TransportError | NoTarget

  class Proxy {
    const bal: Balancer
    const maxRetries: int

    constructor (bal: Balancer, maxRetries: int)
      ensures this.bal == bal && this.maxRetries == maxRetries
    {
      this.bal, this.maxRetries := bal, maxRetries;
    }

    /** The attempts a request may make: none when MaxRetries is below zero. */
    function Limit(): nat {
      if maxRetries + 1 < 0 then 0 else maxRetries + 1
    }

    /** The one target a given algorithm returns again and again while nothing changes;
        nothing is fixed for round robin and random. */
    ghost function FixedPick(key: Str): Option<Target>
      reads bal.targets
    {
      var pool := Pool(bal.targets);
      PoolEmpty(bal.targets);
      UsableItems(bal.targets);
      if pool == [] then None
      else if bal.algo == IPHash then Some(pool[Hash(key) % |pool|])
      else if bal.algo == LeastConn && Usable(bal.targets) != [] then Some(LeastPick(bal.targets))
      else None
    }

    /** pick of proxy.go: asks the balancer until an untried target comes up, one time more
        often than there are targets. */
    method PickUntriedTarget(key: Str, tried: set<Target>) returns (t: Target?)
      requires bal.Valid()
      modifies bal`counter
      ensures bal.Valid()
      ensures t != null ==> t in bal.targets && t.healthy && t !in tried && Pool(bal.targets) != []
      ensures t == null && tried == {} ==> Pool(bal.targets) == []
      ensures bal.algo == RoundRobinAlgo && Pool(bal.targets) != [] ==>
        (if t == null then None else Some(t), bal.counter) ==
        PickUntried<Target>(Pool(bal.targets), old(bal.counter), tried, |bal.targets| + 1)
      ensures (bal.algo == IPHash || bal.algo == LeastConn) && t != null ==> FixedPick(key) == Some(t)
    {
      ghost var fuel := |bal.targets| + 1;
      ghost var pool := Pool(bal.targets);
      var i := 0;
      while i <= |bal.targets|
        invariant 0 <= i <= fuel && bal.Valid() && (i > 0 ==> tried != {})
        invariant bal.algo == RoundRobinAlgo && pool != [] ==>
          PickUntried<Target>(pool, old(bal.counter), tried, fuel) ==
          PickUntried<Target>(pool, bal.counter, tried, fuel - i)
      {
        t := bal.Pick(key);
        if t == null || t !in tried {
          return;
        }
        i := i + 1;
      }
      return null;
    }

    /** What a round-robin request still tries, from attempt i on. */
    function Expected(pool: seq<Target>, c: nat, tried: set<Target>, i: nat, ok: nat -> bool): seq<Target>
      requires c < WRAP && i <= Limit() && pool != []
    {
      Attempts<Target>(pool, c, tried, |bal.targets| + 1, i, Limit(), ok)
    }

    /** The log of a round-robin request so far and what it still tries make up all it tries. */
    ghost predicate OnTrack(pool: seq<Target>, c0: nat, log: seq<Target>, c: nat, tried: set<Target>, i: nat,
                            ok: nat -> bool)
      requires c0 < WRAP && c < WRAP && i <= Limit() && pool != []
    {
      Expected(pool, c0, {}, 0, ok) == log + Expected(pool, c, tried, i, ok)
    }

    lemma AtTheEnd(pool: seq<Target>, c0: nat, log: seq<Target>, c: nat, tried: set<Target>, i: nat, ok: nat -> bool)
      requires c0 < WRAP && c < WRAP && i <= Limit() && pool != []
      requires OnTrack(pool, c0, log, c, tried, i, ok)
      requires i == Limit() || Expected(pool, c, tried, i, ok) == []
      ensures Expected(pool, c0, {}, 0, ok) == log
    {
      assert log + [] == log;
    }

    lemma OneStepOn(pool: seq<Target>, c0: nat, log: seq<Target>, c: nat, tried: set<Target>, i: nat, ok: nat -> bool,
                    c': nat, t: Target)
      requires c0 < WRAP && c < WRAP && c' < WRAP && i < Limit() && pool != []
      requires OnTrack(pool, c0, log, c, tried, i, ok)
      requires Expected(pool, c, tried, i, ok) == [t] + if ok(i) then [] else Expected(pool, c', tried + {t}, i + 1, ok)
      ensures ok(i) ==> Expected(pool, c0, {}, 0, ok) == log + [t]
      ensures !ok(i) ==> OnTrack(pool, c0, log + [t], c', tried + {t}, i + 1, ok)
    {
      var rest := Expected(pool, c', tried + {t}, i + 1, ok);
      assert log + ([t] + rest) == (log + [t]) + rest;
    }

    /** One attempt: a target nobody tried for this request, its in-flight count raised for the
        duration of the transport call and back afterwards. */
    method Attempt(key: Str, tried: set<Target>, i: nat, ok: nat -> bool) returns (t: Target?, sent: bool)
      requires bal.Valid() && i < Limit()
      modifies bal`counter, bal.targets`active
      ensures bal.Valid()
      ensures forall u :: u in bal.targets ==> u.active == old(u.active)
      ensures FixedPick(key) == old(FixedPick(key))
      ensures t != null ==> t in bal.targets && t.healthy && t !in tried && sent == ok(i) && Pool(bal.targets) != []
      ensures t == null && tried == {} ==> Pool(bal.targets) == []
      ensures bal.algo == RoundRobinAlgo && Pool(bal.targets) != [] ==>
        Expected(Pool(bal.targets), old(bal.counter), tried, i, ok) ==
        if t == null then []
        else [t] + if sent then [] else Expected(Pool(bal.targets), bal.counter, tried + {t}, i + 1, ok)
      ensures (bal.algo == IPHash || bal.algo == LeastConn) && t != null ==> old(FixedPick(key)) == Some(t)
    {
      t := PickUntriedTarget(key, tried);
      sent := false;
      if t != null {
        ghost var during;
        sent, during := Send(t, i, ok);
      }
    }

    /** What holds of the attempts made so far, all of which failed: different healthy targets; round
        robin on track; at most one target for the algorithms that return the same one again. */
    ghost predicate Trying(key: Str, c0: nat, fixed: Option<Target>, log: seq<Target>, tried: set<Target>,
                           ok: nat -> bool)
      requires bal.Valid() && c0 < WRAP
      reads bal`counter, bal.targets
    {
      && |log| <= Limit() && FailedSoFar<Target>(log, tried, ok) && FixedPick(key) == fixed
      && (forall t :: t in log ==> t in bal.targets && t.healthy)
      && ((bal.algo == IPHash || bal.algo == LeastConn) ==> log == [] || (fixed.Some? && log == [fixed.value]))
      && (bal.algo == RoundRobinAlgo && Pool(bal.targets) != [] ==>
            OnTrack(Pool(bal.targets), c0, log, bal.counter, tried, |log|, ok))
    }

    /** What holds of all the attempts of a request. */
    ghost predicate Tried(c0: nat, fixed: Option<Target>, log: seq<Target>, ok: nat -> bool)
      requires c0 < WRAP
      reads bal.targets
    {
      && |log| <= (if maxRetries < 0 then 0 else maxRetries + 1)
      && (forall k, l :: 0 <= k < l < |log| ==> log[k] != log[l])
      && (forall t :: t in log ==> t in bal.targets && t.healthy)
      && (forall k :: 0 <= k < |log| - 1 ==> !ok(k))
      && (bal.algo == IPHash || bal.algo == LeastConn ==> log == [] || (fixed.Some? && log == [fixed.value]))
      && (bal.algo == RoundRobinAlgo && Pool(bal.targets) != [] ==>
            log == Expected(Pool(bal.targets), c0, {}, 0, ok))
    }

    /** What the reply says of the attempts. */
    ghost predicate Told(outcome: Outcome, log: seq<Target>, ok: nat -> bool)
      reads bal.targets
    {
      match outcome
      case Served(t) => log != [] && t == log[|log| - 1] && ok(|log| - 1)
      case TransportError => log != [] && !ok(|log| - 1)
      case NoTarget => log == [] && (maxRetries < 0 || Pool(bal.targets) == [])
    }

    function Unserved(log: seq<Target>): Outcome {
      if log == [] then NoTarget else TransportError
    }

    /** The same attempt seen from the whole request, which has a log behind it. */
    method Round(key: Str, tried: set<Target>, i: nat, ok: nat -> bool, ghost log: seq<Target>, ghost c0: nat,
                 ghost fixed: Option<Target>) returns (t: Target?, sent: bool)
      requires bal.Valid() && i == |log| < Limit() && c0 < WRAP && Trying(key, c0, fixed, log, tried, ok)
      modifies bal`counter, bal.targets`active
      ensures bal.Valid() && forall u :: u in bal.targets ==> u.active == old(u.active)
      ensures t != null ==> sent == ok(i)
      ensures t == null ==> Tried(c0, fixed, log, ok) && Told(Unserved(log), log, ok)
      ensures t != null && sent ==> Tried(c0, fixed, log + [t], ok) && Told(Served(t), log + [t], ok)
      ensures t != null && !sent ==> Trying(key, c0, fixed, log + [t], tried + {t}, ok)
    {
      ghost var c := bal.counter;
      t, sent := Attempt(key, tried, i, ok);
      if t == null {
        NoneLeft(c0, fixed, log, c, tried, ok);
      } else {
        OneTaken(key, c0, fixed, log, c, tried, ok, t);
      }
    }

    /** An attempt from counter c found nothing. */
    lemma NoneLeft(c0: nat, fixed: Option<Target>, log: seq<Target>, c: nat, tried: set<Target>, ok: nat -> bool)
      requires c0 < WRAP && c < WRAP && |log| < Limit() && FailedSoFar<Target>(log, tried, ok)
      requires forall u :: u in log ==> u in bal.targets && u.healthy
      requires tried == {} ==> Pool(bal.targets) == []
      requires bal.algo == IPHash || bal.algo == LeastConn ==> log == [] || (fixed.Some? && log == [fixed.value])
      requires bal.algo == RoundRobinAlgo && Pool(bal.targets) != [] ==>
        OnTrack(Pool(bal.targets), c0, log, c, tried, |log|, ok) &&
        Expected(Pool(bal.targets), c, tried, |log|, ok) == []
      ensures Tried(c0, fixed, log, ok) && Told(Unserved(log), log, ok)
    {
      if bal.algo == RoundRobinAlgo && Pool(bal.targets) != [] {
        AtTheEnd(Pool(bal.targets), c0, log, c, tried, |log|, ok);
      }
      NoTargetMore(log, tried, ok);
    }

    /** An attempt from counter c went to t. */
    lemma OneTaken(key: Str, c0: nat, fixed: Option<Target>, log: seq<Target>, c: nat, tried: set<Target>,
                   ok: nat -> bool, t: Target)
      requires bal.Valid() && c0 < WRAP && c < WRAP && |log| < Limit() && FailedSoFar<Target>(log, tried, ok)
      requires forall u :: u in log ==> u in bal.targets && u.healthy
      requires t in bal.targets && t.healthy && t !in tried && FixedPick(key) == fixed
      requires bal.algo == IPHash || bal.algo == LeastConn ==> log == [] && fixed == Some(t)
      requires bal.algo == RoundRobinAlgo && Pool(bal.targets) != [] ==>
        OnTrack(Pool(bal.targets), c0, log, c, tried, |log|, ok) &&
        Expected(Pool(bal.targets), c, tried, |log|, ok) ==
          [t] + if ok(|log|) then [] else Expected(Pool(bal.targets), bal.counter, tried + {t}, |log| + 1, ok)
      ensures if ok(|log|) then Tried(c0, fixed, log + [t], ok) && Told(Served(t), log + [t], ok)
              else Trying(key, c0, fixed, log + [t], tried + {t}, ok)
    {
      if bal.algo == RoundRobinAlgo && Pool(bal.targets) != [] {
        OneStepOn(Pool(bal.targets), c0, log, c, tried, |log|, ok, bal.counter, t);
      }
      OneTargetMore(key, c0, fixed, log, tried, ok, t);
    }

    lemma NoTargetMore(log: seq<Target>, tried: set<Target>, ok: nat -> bool)
      requires FailedSoFar<Target>(log, tried, ok) && (tried == {} ==> Pool(bal.targets) == [])
      ensures Told(Unserved(log), log, ok)
    {
      assert log == [] ==> tried == {};
    }

    lemma OneTargetMore(key: Str, c0: nat, fixed: Option<Target>, log: seq<Target>, tried: set<Target>, ok: nat -> bool,
                        t: Target)
      requires bal.Valid() && c0 < WRAP && |log| < Limit() && FailedSoFar<Target>(log, tried, ok)
      requires forall u :: u in log ==> u in bal.targets && u.healthy
      requires t in bal.targets && t.healthy && t !in tried && FixedPick(key) == fixed
      requires bal.algo == IPHash || bal.algo == LeastConn ==> log == [] && fixed == Some(t)
      requires bal.algo == RoundRobinAlgo && Pool(bal.targets) != [] ==>
        if ok(|log|) then Expected(Pool(bal.targets), c0, {}, 0, ok) == log + [t]
        else OnTrack(Pool(bal.targets), c0, log + [t], bal.counter, tried + {t}, |log| + 1, ok)
      ensures if ok(|log|) then Tried(c0, fixed, log + [t], ok) && Told(Served(t), log + [t], ok)
              else Trying(key, c0, fixed, log + [t], tried + {t}, ok)
    {
      OneMore<Target>(log, tried, t, ok);
    }

    /** The transport call; `during` is what the target's counter shows meanwhile. */
    method Send(t: Target, i: nat, ok: nat -> bool) returns (sent: bool, ghost during: int)
      modifies t`active
      ensures sent == ok(i) && t.active == old(t.active) && during == old(t.active) + 1
    {
      t.active := t.active + 1;
      during := t.active;
      sent := ok(i);
      t.active := t.active - 1;
    }

    /** Do, from the first attempt to the reply. Attempt i's transport call succeeds when ok(i). */
    method Do(key: Str, ok: nat -> bool) returns (outcome: Outcome, ghost log: seq<Target>)
      requires bal.Valid()
      modifies bal`counter, bal.targets`active
      ensures bal.Valid()
      ensures forall t :: t in bal.targets ==> t.active == old(t.active)
      ensures Tried(old(bal.counter), old(FixedPick(key)), log, ok)
      ensures match outcome
        case Served(t) => log != [] && t == log[|log| - 1] && ok(|log| - 1)
        case TransportError => log != [] && !ok(|log| - 1)
        case NoTarget => log == [] && (maxRetries < 0 || Pool(bal.targets) == [])
    {
      outcome, log := DoFrom(key, ok, FixedPick(key), bal.counter);
    }

    /** The same, with the counter and the fixed pick of the beginning by name. */
    method DoFrom(key: Str, ok: nat -> bool, ghost fixed: Option<Target>, ghost c0: nat)
      returns (outcome: Outcome, ghost log: seq<Target>)
      requires bal.Valid() && fixed == FixedPick(key) && c0 == bal.counter
      modifies bal`counter, bal.targets`active
      ensures bal.Valid() && forall t :: t in bal.targets ==> t.active == old(t.active)
      ensures Tried(c0, fixed, log, ok)
      ensures Told(outcome, log, ok)
    {
      log := [];
      var tried: set<Target> := {};
      outcome := NoTarget;
      var i := 0;
      NoneTried(key, fixed, ok);
      while i < maxRetries + 1
        invariant 0 <= i == |log| <= Limit() && bal.Valid()
        invariant forall t :: t in bal.targets ==> t.active == old(t.active)
        invariant Trying(key, c0, fixed, log, tried, ok)
        invariant outcome == Unserved(log)
      {
        var target, sent := Round(key, tried, i, ok, log, c0, fixed);
        if target == null {
          return;
        }
        var t: Target := target;
        tried := tried + {t};
        log := log + [t];
        if sent {
          return Served(t), log;
        }
        outcome := TransportError;
        i := i + 1;
      }
      AllTried(key, c0, fixed, log, tried, ok);
    }

    lemma NoneTried(key: Str, fixed: Option<Target>, ok: nat -> bool)
      requires bal.Valid() && fixed == FixedPick(key)
      ensures Trying(key, bal.counter, fixed, [], {}, ok)
    {
    }

    lemma AllTried(key: Str, c0: nat, fixed: Option<Target>, log: seq<Target>, tried: set<Target>, ok: nat -> bool)
      requires bal.Valid() && c0 < WRAP && Trying(key, c0, fixed, log, tried, ok) && |log| == Limit()
      ensures Tried(c0, fixed, log, ok) && Told(Unserved(log), log, ok)
    {
      if bal.algo == RoundRobinAlgo && Pool(bal.targets) != [] {
        AtTheEnd(Pool(bal.targets), c0, log, bal.counter, tried, |log|, ok);
      }
    }
  }

  /** Retry coverage. Round robin, different targets, stable health, nobody else picking, and a
      counter that does not shift: a request whose transport calls all fail has tried
      min(MaxRetries + 1, healthy targets) different healthy targets, provided no weight exceeds
      the number of targets by more than one; unit weights always qualify. */
  lemma RetryCoverage(p: Proxy, c: nat, ok: nat -> bool)
    requires NoRepeats(p.bal.targets) && Pool(p.bal.targets) != [] && c < WRAP
    requires forall t :: t in p.bal.targets && t.healthy ==> t.weight <= |p.bal.targets| + 1
    requires Steady(c, Times(p.Limit(), |p.bal.targets| + 1) + 1, |Pool(p.bal.targets)|)
    requires forall k :: !ok(k)
    ensures var log := p.Expected(Pool(p.bal.targets), c, {}, 0, ok);
      && |log| == Min(if p.maxRetries < 0 then 0 else p.maxRetries + 1, |Usable(p.bal.targets)|)
      && (forall k :: 0 <= k < |log| ==> log[k] in p.bal.targets && log[k].healthy)
      && (forall k, l :: 0 <= k < l < |log| ==> log[k] != log[l])
  {
    var items, fuel := Usable(p.bal.targets), |p.bal.targets| + 1;
    UsableItems(p.bal.targets);
    assert forall i :: 0 <= i < |items| ==> items[i].1 <= fuel;
    var b := FailingRequestCovers<Target>(items, c, fuel, p.Limit(), ok);
    OnlyHealthyTried(p, c, ok);
  }

  lemma OnlyHealthyTried(p: Proxy, c: nat, ok: nat -> bool)
    requires Pool(p.bal.targets) != [] && c < WRAP
    ensures var log := p.Expected(Pool(p.bal.targets), c, {}, 0, ok);
      && (forall k :: 0 <= k < |log| ==> log[k] in p.bal.targets && log[k].healthy)
      && (forall k, l :: 0 <= k < l < |log| ==> log[k] != log[l])
  {
    var pool, fuel := Pool(p.bal.targets), |p.bal.targets| + 1;
    var log := Attempts<Target>(pool, c, {}, fuel, 0, p.Limit(), ok);
    assert log == p.Expected(Pool(p.bal.targets), c, {}, 0, ok);
    AttemptsAreDistinct<Target>(pool, c, {}, fuel, 0, p.Limit(), ok);
    forall k | 0 <= k < |log| ensures log[k] in p.bal.targets && log[k].healthy {
      PoolEmpty(p.bal.targets);
      assert log[k] in pool;
    }
  }

  /** With weights beyond that, some counter value ends the request after one target although other
      healthy targets and retries are left. */
  lemma HeavyTargetBlocksRetry(p: Proxy, t: Target, ok: nat -> bool) returns (c: nat)
    requires NoRepeats(p.bal.targets) && t in p.bal.targets && t.healthy
    requires t.weight > |p.bal.targets| + 1 && p.maxRetries >= 0 && forall k :: !ok(k)
    requires |Pool(p.bal.targets)| + Times(p.Limit(), |p.bal.targets| + 1) < WRAP
    ensures c < |Pool(p.bal.targets)|
    ensures p.Expected(Pool(p.bal.targets), c, {}, 0, ok) == [t]
  {
    var items, fuel := Usable(p.bal.targets), |p.bal.targets| + 1;
    UsableItems(p.bal.targets);
    var b :| 0 <= b < |items| && items[b] == (t, t.Weight());
    StuckInBlock<Target>(items, b, fuel, p.Limit());
    c := Start<Target>(items, b);
    ModUnique(c, 0, c, |Pool(p.bal.targets)|);
    AttemptsByPosition<Target>(Pool(p.bal.targets), c, {}, fuel, 0, p.Limit(), ok);
  }

  /** On the proxy, the condition is exact: with two healthy targets and a retry, coverage holds from
      every counter value if and only if no healthy target weighs more than one more than there are
      targets. */
  lemma RetryCoverageExactly(p: Proxy, ok: nat -> bool)
    requires NoRepeats(p.bal.targets) && |Usable(p.bal.targets)| >= 2 && p.maxRetries >= 1 && forall k :: !ok(k)
    requires Pool(p.bal.targets) != []
    requires |Pool(p.bal.targets)| + Times(p.Limit(), |p.bal.targets| + 1) < WRAP
    ensures (forall c | 0 <= c < WRAP &&
               Steady(c, Times(p.Limit(), |p.bal.targets| + 1) + 1, |Pool(p.bal.targets)|) ::
               |p.Expected(Pool(p.bal.targets), c, {}, 0, ok)| == Min(p.maxRetries + 1, |Usable(p.bal.targets)|)) <==>
            (forall t :: t in p.bal.targets && t.healthy ==> t.weight <= |p.bal.targets| + 1)
  {
    if forall t :: t in p.bal.targets && t.healthy ==> t.weight <= |p.bal.targets| + 1 {
      forall c: nat | c < WRAP && Steady(c, Times(p.Limit(), |p.bal.targets| + 1) + 1, |Pool(p.bal.targets)|)
        ensures |p.Expected(Pool(p.bal.targets), c, {}, 0, ok)| == Min(p.maxRetries + 1, |Usable(p.bal.targets)|)
      {
        RetryCoverage(p, c, ok);
      }
    } else {
      var t :| t in p.bal.targets && t.healthy && t.weight > |p.bal.targets| + 1;
      var c := HeavyTargetBlocksRetry(p, t, ok);
      assert Steady(c, Times(p.Limit(), |p.bal.targets| + 1) + 1, |Pool(p.bal.targets)|);
    }
  }

  /** Retry coverage from every counter value, also those from which the counter wraps during the request:
      exactly when no healthy target is too heavy and the wrap fits. */
  lemma RetryCoverageFromEveryCounter(p: Proxy, ok: nat -> bool)
    requires NoRepeats(p.bal.targets) && |Usable(p.bal.targets)| >= 2 && p.maxRetries >= 1 && forall k :: !ok(k)
    requires Pool(p.bal.targets) != []
    requires |Pool(p.bal.targets)| + Times(p.Limit(), |p.bal.targets| + 1) < WRAP
    ensures (forall c: nat | c < WRAP :: Covered(p, c, ok)) <==>
            (forall t :: t in p.bal.targets && t.healthy ==> t.weight <= |p.bal.targets| + 1) &&
            WrapFits<Target>(Usable(p.bal.targets), |p.bal.targets| + 1, p.Limit())
  {
    if t :| t in p.bal.targets && t.healthy && t.weight > |p.bal.targets| + 1 {
      var c := HeavyTargetBlocksRetry(p, t, ok);
      assert !Covered(p, c, ok);
    } else if WrapFits<Target>(Usable(p.bal.targets), |p.bal.targets| + 1, p.Limit()) {
      forall c: nat | c < WRAP ensures Covered(p, c, ok) {
        CoveredFrom(p, c, ok);
      }
    } else {
      var c := StoppedOnce(p, ok);
    }
  }

  lemma CoveredFrom(p: Proxy, c: nat, ok: nat -> bool)
    requires NoRepeats(p.bal.targets) && Pool(p.bal.targets) != [] && c < WRAP && forall k :: !ok(k)
    requires forall t :: t in p.bal.targets && t.healthy ==> t.weight <= |p.bal.targets| + 1
    requires |Pool(p.bal.targets)| + Times(p.Limit(), |p.bal.targets| + 1) < WRAP
    requires WrapFits<Target>(Usable(p.bal.targets), |p.bal.targets| + 1, p.Limit())
    ensures Covered(p, c, ok)
  {
    var items, fuel := Usable(p.bal.targets), |p.bal.targets| + 1;
    UsableItems(p.bal.targets);
    HeavyItems(p.bal.targets, fuel);
    CoversFromAnywhere<Target>(items, c, fuel, p.Limit());
    FailingIs<Target>(Expand<Target>(items), c, {}, fuel, 0, p.Limit(), ok);
  }

  lemma StoppedOnce(p: Proxy, ok: nat -> bool) returns (c: nat)
    requires NoRepeats(p.bal.targets) && Pool(p.bal.targets) != [] && p.maxRetries >= 0 && forall k :: !ok(k)
    requires forall t :: t in p.bal.targets && t.healthy ==> t.weight <= |p.bal.targets| + 1
    requires |Pool(p.bal.targets)| + Times(p.Limit(), |p.bal.targets| + 1) < WRAP
    requires !WrapFits<Target>(Usable(p.bal.targets), |p.bal.targets| + 1, p.Limit())
    ensures c < WRAP && !Covered(p, c, ok)
  {
    var items, fuel := Usable(p.bal.targets), |p.bal.targets| + 1;
    UsableItems(p.bal.targets);
    HeavyItems(p.bal.targets, fuel);
    c := StoppedByWrap<Target>(items, fuel, p.Limit());
    FailingIs<Target>(Expand<Target>(items), c, {}, fuel, 0, p.Limit(), ok);
  }

  /** The request that starts at this counter value tries as many targets as it may. */
  ghost predicate Covered(p: Proxy, c: nat, ok: nat -> bool)
    requires Pool(p.bal.targets) != [] && c < WRAP
    reads p.bal.targets
  {
    |p.Expected(Pool(p.bal.targets), c, {}, 0, ok)| ==
    Min(if p.maxRetries < 0 then 0 else p.maxRetries + 1, |Usable(p.bal.targets)|)
  }

  lemma HeavyItems(ts: seq<Target>, fuel: nat)
    requires fuel >= 1
    ensures (forall t :: t in ts && t.healthy ==> t.weight <= fuel) <==>
            (forall i :: 0 <= i < |Usable(ts)| ==> Usable(ts)[i].1 <= fuel)
  {
    UsableItems(ts);
    if forall i :: 0 <= i < |Usable(ts)| ==> Usable(ts)[i].1 <= fuel {
      forall t | t in ts && t.healthy ensures t.weight <= fuel {
        var i :| 0 <= i < |Usable(ts)| && Usable(ts)[i] == (t, t.Weight());
      }
    }
  }

  /** With healthy targets of weight one, a request whose calls all fail tries min(MaxRetries + 1, healthy)
      of them from every counter value there is. */
  lemma UnitWeightsAlwaysCover(p: Proxy, c: nat, ok: nat -> bool)
    requires NoRepeats(p.bal.targets) && Pool(p.bal.targets) != [] && c < WRAP && forall k :: !ok(k)
    requires forall t :: t in p.bal.targets && t.healthy ==> t.weight <= 1
    requires |Pool(p.bal.targets)| + Times(p.Limit(), |p.bal.targets| + 1) < WRAP
    ensures Covered(p, c, ok)
  {
    UsableItems(p.bal.targets);
    UnitWeightsFit<Target>(Usable(p.bal.targets), |p.bal.targets| + 1, p.Limit());
    CoveredFrom(p, c, ok);
  }
}
