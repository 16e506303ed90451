/** The target pool and its selection algorithms (proxy/balancer.go). */
module Balancer {
  import opened Bytes
  import opened RoundRobin
  import opened Retry
  import opened Fnv1a

  datatype Algorithm = RoundRobinAlgo | Random | LeastConn | IPHash | Unknown

  class Target {
    const weight: int
    var healthy: bool
    var active: int
    var fails: int

    constructor (weight: int)
      ensures this.weight == weight && !healthy && active == 0 && fails == 0
    {
      this.weight := weight;
      healthy, active, fails := false, 0, 0;
    }

    /** Zero, or anything below, means 1. */
    function Weight(): nat {
      if weight <= 0 then 1 else weight
    }
  }

  // ---------- the pool ----------

  /** The healthy targets with their weights, in order. */
  ghost function Usable(ts: seq<Target>): seq<(Target, nat)>
    reads ts`healthy
  {
    if ts == [] then []
    else (if ts[0].healthy then [(ts[0], ts[0].Weight())] else []) + Usable(ts[1..])
  }

  /** Every healthy target as often as its weight. */
  ghost function Pool(ts: seq<Target>): seq<Target>
    reads ts`healthy
  {
    Expand<Target>(Usable(ts))
  }

  lemma {:induction false} UsableItems(ts: seq<Target>)
    ensures |Usable(ts)| <= |ts| && Weighted(Usable(ts))
    ensures forall i :: 0 <= i < |Usable(ts)| ==>
      var t := Usable(ts)[i].0; t in ts && t.healthy && Usable(ts)[i].1 == t.Weight()
    ensures forall t :: t in ts && t.healthy ==> (t, t.Weight()) in Usable(ts)
    ensures NoRepeats(ts) ==> Distinct(Usable(ts))
  {
    if ts != [] {
      UsableItems(ts[1..]);
    }
  }

  /** An unhealthy target is never in the pool; a healthy one is there as often as its configured weight
      says, once when that is not positive. */
  lemma {:induction false} PoolCounts(ts: seq<Target>, t: Target)
    requires NoRepeats(ts)
    ensures t in ts && t.healthy && t.weight >= 1 ==> multiset(Pool(ts))[t] == t.weight
    ensures t in ts && t.healthy && t.weight <= 0 ==> multiset(Pool(ts))[t] == 1
    ensures t !in ts || !t.healthy ==> multiset(Pool(ts))[t] == 0
  {
    if ts != [] {
      PoolCounts(ts[1..], t);
      if ts[0].healthy {
        var u := Usable(ts);
        assert u[0] == (ts[0], ts[0].Weight()) && u[1..] == Usable(ts[1..]);
        CopiesCount(ts[0], ts[0].Weight(), t);
      } else {
        assert Usable(ts) == Usable(ts[1..]);
      }
    }
  }

  /** There are as many entries as healthy targets. */
  lemma {:induction false} UsableCount(ts: seq<Target>)
    requires NoRepeats(ts)
    ensures |Usable(ts)| == |HealthyOf(ts)|
  {
    if ts != [] {
      UsableCount(ts[1..]);
      HealthyFirst(ts);
    }
  }

  ghost function HealthyOf(ts: seq<Target>): set<Target>
    reads ts`healthy
  {
    set t | t in ts && t.healthy
  }

  lemma HealthyFirst(ts: seq<Target>)
    requires ts != [] && NoRepeats(ts)
    ensures NoRepeats(ts[1..])
    ensures |HealthyOf(ts)| == |HealthyOf(ts[1..])| + if ts[0].healthy then 1 else 0
  {
    assert ts[0] !in ts[1..];
    if ts[0].healthy {
      assert HealthyOf(ts) == HealthyOf(ts[1..]) + {ts[0]};
    } else {
      assert HealthyOf(ts) == HealthyOf(ts[1..]);
    }
  }

  /** The entries come in the order of the targets, each with its configured weight or with one. */
  lemma {:induction false} UsableInOrder(a: seq<Target>, t: Target, b: seq<Target>)
    ensures Usable(a + b) == Usable(a) + Usable(b)
    ensures Usable([t]) == if !t.healthy then [] else [(t, if t.weight >= 1 then t.weight else 1)]
  {
    if a == [] {
      assert a + b == b;
    } else {
      assert (a + b)[1..] == a[1..] + b;
      UsableInOrder(a[1..], t, b);
    }
  }

  lemma {:induction false} CopiesCount<T>(x: T, n: nat, y: T)
    ensures multiset(seq(n, _ => x))[y] == if x == y then n else 0
  {
    if n > 0 {
      CopiesCount(x, n - 1, y);
      assert seq(n, _ => x) == seq(n - 1, _ => x) + [x];
    }
  }

  /** Weighted fairness. With health fixed, any k full turns of round-robin picks return each
      healthy target exactly k times its weight and no other target, while the counter is steady. */
  lemma WeightedFairness(ts: seq<Target>, c: nat, k: nat, t: Target)
    requires NoRepeats(ts) && Pool(ts) != [] && |Pool(ts)| <= WRAP && c < WRAP
    requires Steady(c, k * |Pool(ts)|, |Pool(ts)|)
    ensures var times := multiset(Picks<Target>(Pool(ts), c, k * |Pool(ts)|))[t];
      && (t in ts && t.healthy && t.weight >= 1 ==> times == k * t.weight)
      && (t in ts && t.healthy && t.weight <= 0 ==> times == k)
      && (t !in ts || !t.healthy ==> times == 0)
  {
    PoolCounts(ts, t);
    TurnsAreFair<Target>(Pool(ts), c, k, t);
  }

  /** And exactly when: the shares come out right if and only if the counter does not wrap inside the
      turns, or the picks between the last whole turn and the wrap take what the last entries of the
      pool would have. */
  lemma WeightedFairnessExactly(ts: seq<Target>, c: nat, k: nat)
    requires NoRepeats(ts) && Pool(ts) != [] && |Pool(ts)| <= WRAP && c < WRAP
    requires Times(k, |Pool(ts)|) <= WRAP
    ensures Undisturbed<Target>(Pool(ts), c, k) <==> forall t :: t in ts && t.healthy ==>
      Taken<Target>(Pool(ts), c, Times(k, |Pool(ts)|), t) == Times(k, if t.weight >= 1 then t.weight else 1)
  {
    TurnsAreFairExactly<Target>(Pool(ts), c, k);
    FairToTargets(ts, c, k);
  }

  /** Every entry of the pool gets its share just when every healthy target does. */
  lemma FairToTargets(ts: seq<Target>, c: nat, k: nat)
    requires NoRepeats(ts) && Pool(ts) != [] && c < WRAP
    ensures Fair<Target>(Pool(ts), c, k) <==> forall t :: t in ts && t.healthy ==>
      Taken<Target>(Pool(ts), c, Times(k, |Pool(ts)|), t) == Times(k, t.Weight())
  {
    var pool, n := Pool(ts), Times(k, |Pool(ts)|);
    PoolEmpty(ts);
    forall i | 0 <= i < |pool| ensures multiset(pool)[pool[i]] == pool[i].Weight() && pool[i] in ts && pool[i].healthy {
      assert pool[i] in pool;
      PoolCounts(ts, pool[i]);
    }
    if Fair<Target>(pool, c, k) {
      forall t | t in ts && t.healthy ensures Taken<Target>(pool, c, n, t) == Times(k, t.Weight()) {
        assert t in pool;
        var i :| 0 <= i < |pool| && pool[i] == t;
      }
    }
  }

  lemma {:induction false} PoolEmpty(ts: seq<Target>)
    ensures Pool(ts) == [] <==> forall t :: t in ts ==> !t.healthy
    ensures forall t :: t in Pool(ts) <==> t in ts && t.healthy
  {
    if ts != [] {
      PoolEmpty(ts[1..]);
      if ts[0].healthy {
        var u := Usable(ts);
        assert u[0] == (ts[0], ts[0].Weight()) && u[1..] == Usable(ts[1..]);
        assert Pool(ts) == seq(ts[0].Weight(), _ => ts[0]) + Pool(ts[1..]);
        assert Pool(ts)[0] == ts[0];
        assert forall t :: t in Pool(ts) <==> t == ts[0] || t in Pool(ts[1..]);
      } else {
        assert Usable(ts) == Usable(ts[1..]);
      }
    }
  }

  // ---------- selection ----------

  function FirstLeast(counts: seq<int>): (i: nat)
    requires counts != []
    ensures i < |counts|
  {
    if |counts| == 1 then 0
    else
      var n := |counts| - 1;
      var i := FirstLeast(counts[..n]);
      if counts[n] < counts[i] then n else i
  }

  lemma {:induction false} FirstLeastMeans(counts: seq<int>)
    requires counts != []
    ensures var i := FirstLeast(counts);
      && (forall j :: 0 <= j < |counts| ==> counts[i] <= counts[j])
      && (forall j :: 0 <= j < i ==> counts[i] < counts[j])
  {
    if |counts| > 1 {
      var n := |counts| - 1;
      FirstLeastMeans(counts[..n]);
      assert forall j :: 0 <= j < n ==> counts[..n][j] == counts[j];
    }
  }

  ghost function Actives(items: seq<(Target, nat)>): (r: seq<int>)
    reads set i | i in items :: i.0
    ensures |r| == |items|
  {
    seq(|items|, i requires 0 <= i < |items| reads set i | i in items :: i.0 => items[i].0.active)
  }

  /** The first healthy target with the fewest requests in flight. */
  ghost function LeastPick(ts: seq<Target>): Target
    requires Usable(ts) != []
    reads ts
  {
    UsableItems(ts);
    Usable(ts)[FirstLeast(Actives(Usable(ts)))].0
  }

  /** t comes first in the pool among those with the fewest requests in flight. */
  ghost predicate IsLeastActive(pool: seq<Target>, t: Target)
    reads pool`active
  {
    exists i :: 0 <= i < |pool| && pool[i] == t
      && (forall j :: 0 <= j < |pool| ==> t.active <= pool[j].active)
      && (forall j :: 0 <= j < i ==> t.active < pool[j].active)
  }

  /** Least connections ignores weights: it picks the first least loaded healthy target. */
  lemma LeastActiveIgnoresWeights(ts: seq<Target>, t: Target)
    requires IsLeastActive(Pool(ts), t)
    ensures Usable(ts) != [] && t == LeastPick(ts)
  {
    UsableItems(ts);
    var items, pool := Usable(ts), Pool(ts);
    var i :| 0 <= i < |pool| && pool[i] == t
      && (forall j :: 0 <= j < |pool| ==> t.active <= pool[j].active)
      && (forall j :: 0 <= j < i ==> t.active < pool[j].active);
    var b, o := BlockOf<Target>(items, i);
    BlockHolds<Target>(items, b, o);
    forall d | 0 <= d < |items|
      ensures t.active <= items[d].0.active && (d < b ==> t.active < items[d].0.active)
    {
      BlockHolds<Target>(items, d, 0);
      StartOrder<Target>(items, d, b);
    }
    FirstLeastIs(Actives(items), b);
  }

  lemma FirstLeastIs(counts: seq<int>, i: nat)
    requires i < |counts| && forall j :: 0 <= j < |counts| ==> counts[i] <= counts[j]
    requires forall j :: 0 <= j < i ==> counts[i] < counts[j]
    ensures FirstLeast(counts) == i
  {
    FirstLeastMeans(counts);
    assert counts[FirstLeast(counts)] <= counts[i];
  }

  class Balancer {
    const targets: seq<Target>
    const algo: Algorithm
    var counter: nat

    ghost predicate Valid()
      reads `counter
    {
      counter < WRAP && algo != Unknown
    }

    /** All targets begin in rotation, whatever they were; a name that is no algorithm means round robin. */
    constructor (targets: seq<Target>, algo: Algorithm)
      modifies targets
      ensures Valid() && this.targets == targets && counter == 0
      ensures this.algo == if algo == Unknown then RoundRobinAlgo else algo
      ensures forall t :: t in targets ==> t.healthy && t.active == old(t.active) && t.fails == old(t.fails)
    {
      this.targets := targets;
      this.algo := if algo == Unknown then RoundRobinAlgo else algo;
      counter := 0;
      new;
      for i := 0 to |targets|
        invariant counter == 0
        invariant forall j :: 0 <= j < i ==> targets[j].healthy
        invariant forall t :: t in targets ==> t.active == old(t.active) && t.fails == old(t.fails)
      {
        targets[i].healthy := true;
      }
    }

    method BuildPool() returns (pool: seq<Target>)
      ensures pool == Pool(targets)
    {
      pool := [];
      for i := 0 to |targets|
        invariant pool + Pool(targets[i..]) == Pool(targets)
      {
        var t := targets[i];
        ghost var before := pool;
        assert targets[i..][1..] == targets[i + 1..];
        if t.healthy {
          for j := 0 to t.Weight()
            invariant pool == before + seq(j, _ => t)
          {
            pool := pool + [t];
          }
          ghost var u := Usable(targets[i..]);
          assert u[0] == (t, t.Weight()) && u[1..] == Usable(targets[i + 1..]);
        } else {
          assert Usable(targets[i..]) == Usable(targets[i + 1..]);
        }
      }
    }

    method LeastActive(pool: seq<Target>) returns (best: Target)
      requires pool != []
      ensures IsLeastActive(pool, best)
    {
      best := pool[0];
      ghost var at := 0;
      for i := 1 to |pool|
        invariant 0 <= at < i && pool[at] == best
        invariant forall j :: 0 <= j < i ==> best.active <= pool[j].active
        invariant forall j :: 0 <= j < at ==> best.active < pool[j].active
      {
        if pool[i].active < best.active {
          best, at := pool[i], i;
        }
      }
    }

    /** Pick: nil exactly when every target is down, otherwise a healthy target chosen by the
        algorithm; only round robin moves the counter. */
    method Pick(key: Str) returns (t: Target?)
      requires Valid()
      modifies `counter
      ensures Valid()
      ensures t == null <==> Pool(targets) == []
      ensures t == null <==> forall u :: u in targets ==> !u.healthy
      ensures t != null ==> t in targets && t.healthy
      ensures algo == RoundRobinAlgo && t != null ==>
        t == Pool(targets)[old(counter) % |Pool(targets)|] && counter == Next(old(counter))
      ensures algo == LeastConn && t != null ==>
        IsLeastActive(Pool(targets), t) && Usable(targets) != [] && t == LeastPick(targets)
      ensures algo == IPHash && t != null ==> t == Pool(targets)[Hash(key) % |Pool(targets)|]
      ensures algo != RoundRobinAlgo || t == null ==> counter == old(counter)
    {
      PoolEmpty(targets);
      var pool := BuildPool();
      if |pool| == 0 {
        return null;
      }
      t := PickFrom(pool, key);
      assert t in Pool(targets);
      PoolEmpty(targets);
      if algo == LeastConn {
        LeastActiveIgnoresWeights(targets, t);
      }
    }

    method PickFrom(pool: seq<Target>, key: Str) returns (t: Target)
      requires Valid() && pool != []
      modifies `counter
      ensures Valid() && t in pool
      ensures algo == RoundRobinAlgo ==> t == pool[old(counter) % |pool|] && counter == Next(old(counter))
      ensures algo == LeastConn ==> IsLeastActive(pool, t)
      ensures algo == IPHash ==> t == pool[Hash(key) % |pool|]
      ensures algo != RoundRobinAlgo ==> counter == old(counter)
    {
      if algo == Random {
        var i :| 0 <= i < |pool|;
        t := pool[i];
      } else if algo == LeastConn {
        t := LeastActive(pool);
      } else if algo == IPHash {
        var h := Compute(key);
        t := pool[h % |pool|];
      } else {
        var n := counter;
        counter := if n + 1 == WRAP then 0 else n + 1;
        t := pool[n % |pool|];
      }
    }
  }

  /** A run of round-robin picks, with nobody else picking, is Picks. */
  method PickRun(b: Balancer, key: Str, n: nat) returns (run: seq<Target>)
    requires b.Valid() && b.algo == RoundRobinAlgo && Pool(b.targets) != []
    modifies b`counter
    ensures b.Valid() && b.counter == Advance(old(b.counter), n)
    ensures run == Picks<Target>(Pool(b.targets), old(b.counter), n)
    decreases n
  {
    if n == 0 {
      return [];
    }
    ghost var pool := Pool(b.targets);
    var t := b.Pick(key);
    var rest := PickRun(b, key, n - 1);
    run := [t] + rest;
  }

  // ---------- least connections ----------

  /** One pick and one more request in flight on the picked target. */
  function LoadOne(counts: seq<int>): (r: seq<int>)
    requires counts != []
    ensures |r| == |counts|
  {
    var i := FirstLeast(counts);
    counts[i := counts[i] + 1]
  }

  /** n of these. */
  function Load(counts: seq<int>, n: nat): (r: seq<int>)
    requires counts != []
    ensures |r| == |counts|
  {
    if n == 0 then counts else LoadOne(Load(counts, n - 1))
  }

  /** From equal counts, least-connections fills the targets level by level and from the front:
      after q full levels and r more picks the first r targets are exactly one ahead. */
  lemma {:induction false} LoadIsLevel(m: nat, base: int, n: nat, q: nat, r: nat)
    requires r < m && n == Times(q, m) + r
    ensures Load(Level(m, base, 0), n) == Level(m, base + q, r)
    decreases n
  {
    if r > 0 {
      LoadIsLevel(m, base, n - 1, q, r - 1);
      OneMoreIsLevel(Level(m, base, 0), n - 1, m, base + q, r - 1);
    } else if q > 0 {
      assert Times(q, m) == m + Times(q - 1, m);
      LoadIsLevel(m, base, n - 1, q - 1, m - 1);
      LevelDone(Level(m, base, 0), n - 1, m, base + q);
    }
  }

  lemma OneMoreIsLevel(counts: seq<int>, n: nat, m: nat, base: int, r: nat)
    requires counts != [] && r < m && Load(counts, n) == Level(m, base, r)
    ensures Load(counts, n + 1) == Level(m, base, r + 1)
  {
    LoadStep(counts, n);
    LevelStep(m, base, r);
  }

  lemma LevelDone(counts: seq<int>, n: nat, m: nat, base: int)
    requires counts != [] && 0 < m && Load(counts, n) == Level(m, base - 1, m - 1)
    ensures Load(counts, n + 1) == Level(m, base, 0)
  {
    OneMoreIsLevel(counts, n, m, base - 1, m - 1);
    FullLevel(m, base);
  }

  lemma LoadStep(counts: seq<int>, n: nat)
    requires counts != []
    ensures Load(counts, n + 1) == LoadOne(Load(counts, n))
  {
  }

  lemma FullLevel(m: nat, base: int)
    ensures Level(m, base - 1, m) == Level(m, base, 0)
  {
  }

  lemma LevelStep(m: nat, base: int, r: nat)
    requires r < m
    ensures var c := Level(m, base, r);
      FirstLeast(c) == r && c[r := c[r] + 1] == Level(m, base, r + 1)
  {
    FirstLeastIs(Level(m, base, r), r);
  }

  /** m counts of which the first r are one ahead. */
  function Level(m: nat, base: int, r: nat): (s: seq<int>)
    ensures |s| == m
  {
    seq(m, i => base + if i < r then 1 else 0)
  }

  /** The largest and the smallest count stay within one. */
  lemma {:induction false} LoadStaysEven(counts: seq<int>, n: nat)
    requires counts != [] && AllSame(counts)
    ensures WithinOne(Load(counts, n))
  {
    var m := |counts|;
    var q, r := n / m, n % m;
    TimesIs(q, m);
    assert Times(q, m) + r == n;
    assert counts == Level(m, counts[0], 0);
    LoadIsLevel(m, counts[0], n, q, r);
  }

  method CountIn(t: Target, ghost items: seq<(Target, nat)>)
    requires Distinct(items) && items != [] && t == items[FirstLeast(Actives(items))].0
    modifies t`active
    ensures Actives(items) == LoadOne(old(Actives(items)))
  {
    ghost var i := FirstLeast(Actives(items));
    t.active := t.active + 1;
    assert forall k :: 0 <= k < |items| && k != i ==> items[k].0 != t;
  }

  method PickLeast(b: Balancer, key: Str, ghost items: seq<(Target, nat)>) returns (t: Target)
    requires b.Valid() && b.algo == LeastConn && items == Usable(b.targets) && items != []
    modifies b`counter
    ensures b.Valid() && t in b.targets && t == items[FirstLeast(Actives(items))].0
  {
    UsableItems(b.targets);
    assert items[0].0 in b.targets && items[0].0.healthy;
    var picked := b.Pick(key);
    t := picked;
  }

  /** One least-connections pick and one more request in flight on the picked target. */
  method PickAndCount(b: Balancer, key: Str, ghost items: seq<(Target, nat)>)
    requires b.Valid() && b.algo == LeastConn && Distinct(items)
    requires items == Usable(b.targets) && items != []
    modifies b`counter, b.targets`active
    ensures b.Valid() && Usable(b.targets) == items
    ensures Actives(items) == LoadOne(old(Actives(items)))
  {
    ghost var acts := Actives(items);
    var t := PickLeast(b, key, items);
    assert Actives(items) == acts;
    CountIn(t, items);
    assert Usable(b.targets) == items;
  }

  /** A run of least-connections picks, each followed by one more request in flight on the picked
      target and nothing else, is Load; from equal counts it keeps the healthy targets within one. */
  method LoadRun(b: Balancer, key: Str, n: nat)
    requires b.Valid() && b.algo == LeastConn && NoRepeats(b.targets) && Usable(b.targets) != []
    modifies b`counter, b.targets`active
    ensures b.Valid() && Usable(b.targets) == old(Usable(b.targets))
    ensures Actives(Usable(b.targets)) == Load(old(Actives(Usable(b.targets))), n)
    ensures AllSame(old(Actives(Usable(b.targets)))) ==> WithinOne(Actives(Usable(b.targets)))
  {
    ghost var items := Usable(b.targets);
    ghost var start := Actives(items);
    UsableItems(b.targets);
    for k := 0 to n
      invariant b.Valid() && Usable(b.targets) == items && Actives(items) == Load(start, k)
    {
      PickAndCount(b, key, items);
      LoadStep(start, k);
    }
    if AllSame(start) {
      LoadStaysEven(start, n);
    }
  }

  predicate AllSame(counts: seq<int>) {
    forall i :: 0 <= i < |counts| ==> counts[i] == counts[0]
  }

  predicate WithinOne(counts: seq<int>) {
    forall i, j :: 0 <= i < |counts| && 0 <= j < |counts| ==> counts[i] - counts[j] <= 1
  }
}
