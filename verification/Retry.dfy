/** The retry loop of the HTTP proxy over a round-robin pool, as a computation on the pool, the
    counter and the set of targets tried so far. */
module Retry {
  import opened Bytes
  import opened RoundRobin

  /** Picks until an untried target comes up, at most fuel times. */
  function PickUntried<T(==)>(pool: seq<T>, c: nat, tried: set<T>, fuel: nat): (r: (Option<T>, nat))
    requires pool != [] && c < WRAP
    ensures r.1 < WRAP
    ensures r.0.Some? ==> r.0.value in pool && r.0.value !in tried
    decreases fuel
  {
    if fuel == 0 then (None, c)
    else
      var t := pool[c % |pool|];
      if t !in tried then (Some(t), Next(c)) else PickUntried(pool, Next(c), tried, fuel - 1)
  }

  /** The targets one request tries when ok(i) tells whether attempt i gets through. */
  function Attempts<T(==)>(pool: seq<T>, c: nat, tried: set<T>, fuel: nat, i: nat, n: nat, ok: nat -> bool): seq<T>
    requires pool != [] && c < WRAP && i <= n
    decreases n - i
  {
    if i == n then []
    else
      var (t, c') := PickUntried(pool, c, tried, fuel);
      if t.None? then []
      else [t.value] + if ok(i) then [] else Attempts(pool, c', tried + {t.value}, fuel, i + 1, n, ok)
  }

  /** The log of the attempts made so far, all of which failed. */
  ghost predicate FailedSoFar<T>(log: seq<T>, tried: set<T>, ok: nat -> bool) {
    && (forall t :: t in tried ==> t in log) && (forall t :: t in log ==> t in tried)
    && (forall k, l :: 0 <= k < l < |log| ==> log[k] != log[l])
    && (forall k :: 0 <= k < |log| ==> !ok(k))
  }

  lemma OneMore<T>(log: seq<T>, tried: set<T>, t: T, ok: nat -> bool)
    requires FailedSoFar(log, tried, ok) && t !in tried
    ensures forall k, l :: 0 <= k < l < |log + [t]| ==> (log + [t])[k] != (log + [t])[l]
    ensures !ok(|log|) ==> FailedSoFar(log + [t], tried + {t}, ok)
  {
  }

  /** No target is tried twice, and only targets of the pool are tried. */
  lemma {:induction false} AttemptsAreDistinct<T>(pool: seq<T>, c: nat, tried: set<T>, fuel: nat, i: nat, n: nat,
                                                 ok: nat -> bool)
    requires pool != [] && c < WRAP && i <= n
    ensures var log := Attempts(pool, c, tried, fuel, i, n, ok);
      && |log| <= n - i
      && (forall k :: 0 <= k < |log| ==> log[k] in pool && log[k] !in tried)
      && (forall k, l :: 0 <= k < l < |log| ==> log[k] != log[l])
    decreases n - i
  {
    if i < n {
      var (t, c') := PickUntried(pool, c, tried, fuel);
      if t.Some? && !ok(i) {
        AttemptsAreDistinct(pool, c', tried + {t.value}, fuel, i + 1, n, ok);
      }
    }
  }

  // ---------- the same on positions ----------

  function After(p: nat, w: nat): (q: nat)
    requires p < w
    ensures q < w
  {
    if p + 1 == w then 0 else p + 1
  }

  function Walk<T(==)>(pool: seq<T>, p: nat, tried: set<T>, fuel: nat): (r: (Option<T>, nat))
    requires p < |pool|
    ensures r.1 < |pool|
    decreases fuel
  {
    if fuel == 0 then (None, p)
    else if pool[p] !in tried then (Some(pool[p]), After(p, |pool|))
    else Walk(pool, After(p, |pool|), tried, fuel - 1)
  }

  function WalkAttempts<T(==)>(pool: seq<T>, p: nat, tried: set<T>, fuel: nat, n: nat): seq<T>
    requires p < |pool|
    decreases n
  {
    if n == 0 then []
    else
      var (t, p') := Walk(pool, p, tried, fuel);
      if t.None? then [] else [t.value] + WalkAttempts(pool, p', tried + {t.value}, fuel, n - 1)
  }

  lemma NextPosition(c: nat, w: nat)
    requires 0 < w && c < WRAP && Steady(c, 2, w)
    ensures Next(c) % w == After(c % w, w)
  {
    ModMove(c, 1, w);
    if c + 1 == WRAP {
      ModUnique(0, 0, 0, w);
    }
  }

  lemma {:induction false} WalkIsPick<T>(pool: seq<T>, c: nat, tried: set<T>, fuel: nat, more: nat)
    requires pool != [] && c < WRAP && Steady(c, fuel + more + 1, |pool|)
    ensures var (t, c') := PickUntried(pool, c, tried, fuel);
      Walk(pool, c % |pool|, tried, fuel) == (t, c' % |pool|) && Steady(c', more + 1, |pool|)
    decreases fuel
  {
    if fuel > 0 {
      NextPosition(c, |pool|);
      if pool[c % |pool|] in tried {
        WalkIsPick(pool, Next(c), tried, fuel - 1, more);
      }
    }
  }

  /** While the counter does not shift, what a wholly failing request tries depends on the
      counter only through its position in the pool. */
  lemma {:induction false} AttemptsByPosition<T>(pool: seq<T>, c: nat, tried: set<T>, fuel: nat, i: nat, n: nat,
                                                ok: nat -> bool)
    requires pool != [] && c < WRAP && i <= n && Steady(c, Times(n - i, fuel) + 1, |pool|)
    requires forall k :: !ok(k)
    ensures Attempts(pool, c, tried, fuel, i, n, ok) == WalkAttempts(pool, c % |pool|, tried, fuel, n - i)
    decreases n - i
  {
    if i < n {
      WalkIsPick(pool, c, tried, fuel, Times(n - i - 1, fuel));
      var (t, c') := PickUntried(pool, c, tried, fuel);
      if t.Some? {
        AttemptsByPosition(pool, c', tried + {t.value}, fuel, i + 1, n, ok);
      }
    }
  }

  // ---------- blocks: each target's run of consecutive positions ----------

  predicate Distinct<T(==)>(items: seq<(T, nat)>) {
    forall i, j :: 0 <= i < j < |items| ==> items[i].0 != items[j].0
  }

  predicate Weighted<T>(items: seq<(T, nat)>) {
    forall i :: 0 <= i < |items| ==> items[i].1 > 0
  }

  /** First position of block b. */
  function Start<T>(items: seq<(T, nat)>, b: nat): nat
    requires b <= |items|
  {
    if b == 0 then 0 else Start(items, b - 1) + items[b - 1].1
  }

  lemma {:induction false} StartTail<T>(items: seq<(T, nat)>, b: nat)
    requires 0 < b <= |items|
    ensures Start(items, b) == items[0].1 + Start(items[1..], b - 1)
    decreases b
  {
    if b > 1 {
      StartTail(items, b - 1);
    }
  }

  lemma {:induction false} PoolSize<T>(items: seq<(T, nat)>)
    ensures |Expand(items)| == Start(items, |items|)
  {
    if items != [] {
      PoolSize(items[1..]);
      StartTail(items, |items|);
    }
  }

  /** The position at offset o of block b holds block b's target. */
  lemma {:induction false} BlockHolds<T>(items: seq<(T, nat)>, b: nat, o: nat)
    requires b < |items| && o < items[b].1
    ensures Start(items, b) + o < |Expand(items)|
    ensures Expand(items)[Start(items, b) + o] == items[b].0
  {
    if b > 0 {
      StartTail(items, b);
      BlockHolds(items[1..], b - 1, o);
    }
  }

  /** Every position is somewhere in some block. */
  lemma {:induction false} BlockOf<T>(items: seq<(T, nat)>, p: nat) returns (b: nat, o: nat)
    requires p < |Expand(items)|
    ensures b < |items| && o < items[b].1 && p == Start(items, b) + o
  {
    if p < items[0].1 {
      b, o := 0, p;
    } else {
      b, o := BlockOf(items[1..], p - items[0].1);
      b := b + 1;
      StartTail(items, b);
    }
  }

  /** The start of the block after b, cyclically. */
  function NextStart<T>(items: seq<(T, nat)>, b: nat): nat
    requires b < |items|
  {
    if b + 1 < |items| then Start(items, b + 1) else 0
  }

  /** One step on: within the block, or to the start of the next block. */
  lemma NextInBlock<T>(items: seq<(T, nat)>, b: nat, o: nat)
    requires Weighted(items) && b < |items| && o < items[b].1
    ensures Start(items, b) + o < |Expand(items)| && NextStart(items, b) < |Expand(items)|
    ensures After(Start(items, b) + o, |Expand(items)|) ==
      if o + 1 < items[b].1 then Start(items, b) + o + 1 else NextStart(items, b)
  {
    BlockEnds(items, b);
  }

  lemma BlockEnds<T>(items: seq<(T, nat)>, b: nat)
    requires Weighted(items) && b < |items|
    ensures Start(items, b) + items[b].1 == Start(items, b + 1) <= |Expand(items)|
    ensures Start(items, b + 1) == |Expand(items)| <==> b + 1 == |items|
  {
    PoolSize(items);
    StartGrows(items, b + 1);
    if b + 1 < |items| {
      BlockHolds(items, b + 1, 0);
    }
  }

  /** Walking through the rest of a block that was tried already. */
  lemma {:induction false} WalkSkipsBlock<T>(items: seq<(T, nat)>, b: nat, o: nat, tried: set<T>, fuel: nat)
    requires Weighted(items) && b < |items| && o < items[b].1 && items[b].0 in tried
    ensures Start(items, b) + o < |Expand(items)| && NextStart(items, b) < |Expand(items)|
    ensures var pool, left := Expand(items), items[b].1 - o;
      var r := Walk(pool, Start(items, b) + o, tried, fuel);
      if fuel < left then r.0.None? else r == Walk(pool, NextStart(items, b), tried, fuel - left)
    decreases fuel
  {
    NextInBlock(items, b, o);
    BlockHolds(items, b, o);
    if fuel > 0 && o + 1 < items[b].1 {
      WalkSkipsBlock(items, b, o + 1, tried, fuel - 1);
    }
  }

  lemma {:induction false} WalkAllTried<T>(pool: seq<T>, p: nat, tried: set<T>, fuel: nat)
    requires p < |pool| && forall i :: 0 <= i < |pool| ==> pool[i] in tried
    ensures Walk(pool, p, tried, fuel).0.None?
    decreases fuel
  {
    if fuel > 0 {
      WalkAllTried(pool, After(p, |pool|), tried, fuel - 1);
    }
  }

  // ---------- what a wholly failing request tries ----------

  /** The block j places after b, cyclically. */
  function Cyclic(b: nat, j: nat, m: nat): (r: nat)
    requires b < m && j <= m
    ensures r < m
  {
    if b + j < m then b + j else b + j - m
  }

  /** The targets of k blocks from the j-th after b on. */
  function Names<T>(items: seq<(T, nat)>, b: nat, j: nat, k: nat): (r: seq<T>)
    requires b < |items| && j + k <= |items|
    ensures |r| == k
    decreases k
  {
    if k == 0 then [] else [items[Cyclic(b, j, |items|)].0] + Names(items, b, j + 1, k - 1)
  }

  ghost predicate TriedBlocks<T>(items: seq<(T, nat)>, b: nat, j: nat, tried: set<T>)
    requires b < |items| && j <= |items|
  {
    forall i :: 0 <= i < |items| ==> (items[Cyclic(b, i, |items|)].0 in tried <==> i < j)
  }

  lemma TriedGrows<T>(items: seq<(T, nat)>, b: nat, j: nat, tried: set<T>)
    requires Distinct(items) && b < |items| && j < |items| && TriedBlocks(items, b, j, tried)
    ensures TriedBlocks(items, b, j + 1, tried + {items[Cyclic(b, j, |items|)].0})
  {
    var m := |items|;
    forall i | 0 <= i < m && i != j
      ensures items[Cyclic(b, i, m)].0 != items[Cyclic(b, j, m)].0
    {
      assert Cyclic(b, i, m) != Cyclic(b, j, m);
    }
  }

  lemma TriedAll<T>(items: seq<(T, nat)>, b: nat, tried: set<T>)
    requires b < |items| && TriedBlocks(items, b, |items|, tried)
    ensures forall p :: 0 <= p < |Expand(items)| ==> Expand(items)[p] in tried
  {
    forall p | 0 <= p < |Expand(items)| ensures Expand(items)[p] in tried {
      var d, o := BlockOf(items, p);
      BlockHolds(items, d, o);
      var i := if d >= b then d - b else d + |items| - b;
      assert Cyclic(b, i, |items|) == d;
    }
  }

  /** Having tried j blocks from b on, and standing in the last of them, the request goes on with
      the following blocks in turn, provided no block is longer than the walk. */
  lemma {:induction false} GoesOn<T>(items: seq<(T, nat)>, b: nat, j: nat, o: nat, tried: set<T>, fuel: nat, n: nat)
    requires Weighted(items) && Distinct(items) && b < |items| && 0 < j <= |items|
    requires forall i :: 0 <= i < |items| ==> items[i].1 <= fuel
    requires TriedBlocks(items, b, j, tried) && o < items[Cyclic(b, j - 1, |items|)].1
    ensures Start(items, Cyclic(b, j - 1, |items|)) + o < |Expand(items)|
    ensures var w, cur := |Expand(items)|, Cyclic(b, j - 1, |items|);
      WalkAttempts(Expand(items), After(Start(items, cur) + o, w), tried, fuel, n) ==
      Names(items, b, j, if n < |items| - j then n else |items| - j)
    decreases n
  {
    var pool, m, cur := Expand(items), |items|, Cyclic(b, j - 1, |items|);
    NextInBlock(items, cur, o);
    if n > 0 {
      var p := After(Start(items, cur) + o, |pool|);
      if j == m {
        TriedAll(items, b, tried);
        WalkAllTried(pool, p, tried, fuel);
      } else {
        var nxt := AttemptNext(items, b, j, o, tried, fuel, n);
        GoesOn(items, b, j + 1, 0, tried + {items[nxt].0}, fuel, n - 1);
      }
    }
  }

  /** The next attempt takes the next block's target and stands in its block. */
  lemma AttemptNext<T>(items: seq<(T, nat)>, b: nat, j: nat, o: nat, tried: set<T>, fuel: nat, n: nat)
    returns (nxt: nat)
    requires Weighted(items) && Distinct(items) && b < |items| && 0 < j < |items| && n > 0
    requires TriedBlocks(items, b, j, tried) && o < items[Cyclic(b, j - 1, |items|)].1 <= fuel
    ensures nxt == Cyclic(b, j, |items|)
    ensures Start(items, Cyclic(b, j - 1, |items|)) + o < |Expand(items)| && Start(items, nxt) < |Expand(items)|
    ensures TriedBlocks(items, b, j + 1, tried + {items[nxt].0})
    ensures var pool, w, cur, t := Expand(items), |Expand(items)|, Cyclic(b, j - 1, |items|), items[nxt].0;
      WalkAttempts(pool, After(Start(items, cur) + o, w), tried, fuel, n) ==
      [t] + WalkAttempts(pool, After(Start(items, nxt), w), tried + {t}, fuel, n - 1)
  {
    nxt := StepsToNext(items, b, j, o, tried, fuel);
    TriedGrows(items, b, j, tried);
    var pool, w, cur := Expand(items), |Expand(items)|, Cyclic(b, j - 1, |items|);
    OneAttempt(pool, After(Start(items, cur) + o, w), tried, fuel, n, items[nxt].0, After(Start(items, nxt), w));
  }

  lemma OneAttempt<T>(pool: seq<T>, p: nat, tried: set<T>, fuel: nat, n: nat, t: T, p': nat)
    requires p < |pool| && p' < |pool| && n > 0 && Walk(pool, p, tried, fuel) == (Some(t), p')
    ensures WalkAttempts(pool, p, tried, fuel, n) == [t] + WalkAttempts(pool, p', tried + {t}, fuel, n - 1)
  {
  }

  /** One attempt: through the rest of the current block, to the first position of the next. */
  lemma StepsToNext<T>(items: seq<(T, nat)>, b: nat, j: nat, o: nat, tried: set<T>, fuel: nat) returns (nxt: nat)
    requires Weighted(items) && b < |items| && 0 < j < |items| && TriedBlocks(items, b, j, tried)
    requires o < items[Cyclic(b, j - 1, |items|)].1 <= fuel
    ensures nxt == Cyclic(b, j, |items|)
    ensures Start(items, Cyclic(b, j - 1, |items|)) + o < |Expand(items)| && Start(items, nxt) < |Expand(items)|
    ensures var w, cur := |Expand(items)|, Cyclic(b, j - 1, |items|);
      Walk(Expand(items), After(Start(items, cur) + o, w), tried, fuel) ==
      (Some(items[nxt].0), After(Start(items, nxt), w))
  {
    nxt := Cyclic(b, j, |items|);
    var cur := Cyclic(b, j - 1, |items|);
    NextInBlock(items, cur, o);
    assert NextStart(items, cur) == Start(items, nxt);
    BlockHolds(items, nxt, 0);
    assert items[cur].0 in tried && items[nxt].0 !in tried;
    if o + 1 < items[cur].1 {
      WalkSkipsBlock(items, cur, o + 1, tried, fuel);
    }
  }

  /** Coverage by position: from any position, min(n, number of targets) different targets are
      tried, in cyclic order, provided no weight exceeds the walk. */
  lemma CoverageFrom<T>(items: seq<(T, nat)>, p: nat, fuel: nat, n: nat) returns (b: nat)
    requires Weighted(items) && Distinct(items) && p < |Expand(items)|
    requires forall i :: 0 <= i < |items| ==> items[i].1 <= fuel
    ensures b < |items|
    ensures WalkAttempts(Expand(items), p, {}, fuel, n) == Names(items, b, 0, if n < |items| then n else |items|)
  {
    var o;
    b, o := BlockOf(items, p);
    BlockHolds(items, b, o);
    if n > 0 {
      TriedGrows(items, b, 0, {});
      assert {} + {items[b].0} == {items[b].0};
      GoesOn(items, b, 1, o, {items[b].0}, fuel, n - 1);
    }
  }

  /** A block longer than the walk stops the request at its first target. */
  lemma StuckInBlock<T>(items: seq<(T, nat)>, b: nat, fuel: nat, n: nat)
    requires Weighted(items) && b < |items| && 0 < fuel < items[b].1 && n > 0
    ensures Start(items, b) < |Expand(items)|
    ensures WalkAttempts(Expand(items), Start(items, b), {}, fuel, n) == [items[b].0]
  {
    BlockHolds(items, b, 0);
    NextInBlock(items, b, 0);
    WalkSkipsBlock(items, b, 1, {items[b].0}, fuel);
    assert {} + {items[b].0} == {items[b].0};
  }

  lemma {:induction false} StartGrows<T>(items: seq<(T, nat)>, b: nat)
    requires b <= |items|
    ensures Start(items, b) <= Start(items, |items|)
    decreases |items| - b
  {
    if b < |items| {
      StartGrows(items, b + 1);
    }
  }

  lemma {:induction false} StartOrder<T>(items: seq<(T, nat)>, d: nat, b: nat)
    requires Weighted(items) && d < |items| && b < |items|
    ensures d < b ==> Start(items, d) < Start(items, b)
    decreases b
  {
    if d + 1 < b {
      StartOrder(items, d, b - 1);
    }
  }

  /** Retry coverage: when every call fails, min(n, number of healthy targets) different targets
      have been tried once each, in cyclic order, provided no weight exceeds the walk. */
  lemma FailingRequestCovers<T>(items: seq<(T, nat)>, c: nat, fuel: nat, n: nat, ok: nat -> bool) returns (b: nat)
    requires items != [] && Weighted(items) && Distinct(items) && Expand(items) != [] && c < WRAP
    requires Steady(c, Times(n, fuel) + 1, |Expand(items)|) && forall k :: !ok(k)
    requires forall i :: 0 <= i < |items| ==> items[i].1 <= fuel
    ensures b < |items|
    ensures Attempts(Expand(items), c, {}, fuel, 0, n, ok) == Names(items, b, 0, Min(n, |items|))
  {
    AttemptsByPosition(Expand(items), c, {}, fuel, 0, n, ok);
    b := CoverageFrom(items, c % |Expand(items)|, fuel, n);
  }

  /** The condition is exact. With at least two healthy targets and one retry, every wholly
      failing request reaches as many targets as it may, from every counter value, if and only
      if no weight exceeds the number of picks one attempt makes. */
  lemma CoverageExactly<T>(items: seq<(T, nat)>, fuel: nat, n: nat, ok: nat -> bool)
    requires |items| >= 2 && Weighted(items) && Distinct(items) && Expand(items) != []
    requires n >= 2 && fuel > 0 && forall k :: !ok(k)
    requires |Expand(items)| + Times(n, fuel) < WRAP
    ensures (forall c :: 0 <= c < WRAP && Steady(c, Times(n, fuel) + 1, |Expand(items)|) ==>
               |Attempts(Expand(items), c, {}, fuel, 0, n, ok)| == Min(n, |items|)) <==>
            (forall i :: 0 <= i < |items| ==> items[i].1 <= fuel)
  {
    if forall i :: 0 <= i < |items| ==> items[i].1 <= fuel {
      forall c: nat | c < WRAP && Steady(c, Times(n, fuel) + 1, |Expand(items)|)
        ensures |Attempts(Expand(items), c, {}, fuel, 0, n, ok)| == Min(n, |items|)
      {
        var b := FailingRequestCovers(items, c, fuel, n, ok);
      }
    } else {
      var b :| 0 <= b < |items| && items[b].1 > fuel;
      StuckInBlock(items, b, fuel, n);
      var c := Start(items, b);
      ModUnique(c, 0, c, |Expand(items)|);
      AttemptsByPosition(Expand(items), c, {}, fuel, 0, n, ok);
    }
  }
}
