/** Retry coverage from every counter value, also when the 64-bit counter wraps during the request: the
    walk over the pool then breaks off at some position and starts again at position 0. */
module WrapCoverage {
  import opened Bytes
  import opened RoundRobin
  import opened Retry

  // ---------- a request that fails throughout ----------

  function Failing<T(==)>(pool: seq<T>, c: nat, tried: set<T>, fuel: nat, n: nat): seq<T>
    requires pool != [] && c < WRAP
    decreases n, 1
  {
    if n == 0 then [] else FailingWith(pool, c, tried, fuel, fuel, n)
  }

  /** As Failing, of which the first attempt has only `left` picks to go. */
  function FailingWith<T(==)>(pool: seq<T>, c: nat, tried: set<T>, left: nat, fuel: nat, n: nat): seq<T>
    requires pool != [] && c < WRAP && n > 0
    decreases n, 0
  {
    var (t, c') := PickUntried(pool, c, tried, left);
    if t.None? then [] else [t.value] + Failing(pool, c', tried + {t.value}, fuel, n - 1)
  }

  lemma {:induction false} FailingIs<T>(pool: seq<T>, c: nat, tried: set<T>, fuel: nat, i: nat, n: nat, ok: nat -> bool)
    requires pool != [] && c < WRAP && i <= n && forall k :: !ok(k)
    ensures Attempts(pool, c, tried, fuel, i, n, ok) == Failing(pool, c, tried, fuel, n - i)
    decreases n - i
  {
    if i < n {
      var (t, c') := PickUntried(pool, c, tried, fuel);
      if t.Some? {
        FailingIs(pool, c', tried + {t.value}, fuel, i + 1, n, ok);
      }
    }
  }

  /** The same on positions. */
  function WalkWith<T(==)>(pool: seq<T>, p: nat, tried: set<T>, left: nat, fuel: nat, n: nat): seq<T>
    requires p < |pool| && n > 0
  {
    var (t, p') := Walk(pool, p, tried, left);
    if t.None? then [] else [t.value] + WalkAttempts(pool, p', tried + {t.value}, fuel, n - 1)
  }

  lemma {:induction false} FailingByPosition<T>(pool: seq<T>, c: nat, tried: set<T>, left: nat, fuel: nat, n: nat)
    requires pool != [] && c < WRAP && n > 0 && Steady(c, left + Times(n - 1, fuel) + 1, |pool|)
    ensures FailingWith(pool, c, tried, left, fuel, n) == WalkWith(pool, c % |pool|, tried, left, fuel, n)
    decreases n
  {
    WalkIsPick(pool, c, tried, left, Times(n - 1, fuel));
    var (t, c') := PickUntried(pool, c, tried, left);
    if t.Some? && n > 1 {
      FailingByPosition(pool, c', tried + {t.value}, fuel, fuel, n - 1);
    }
  }

  // ---------- one pass over the pool, from its beginning ----------

  ghost predicate BelowTried<T>(items: seq<(T, nat)>, k: nat, tried: set<T>)
    requires k <= |items|
  {
    forall i :: 0 <= i < k ==> items[i].0 in tried
  }

  /** How many targets from block k on are untried. */
  function Untried<T(==)>(items: seq<(T, nat)>, k: nat, tried: set<T>): nat
    requires k <= |items|
    decreases |items| - k
  {
    if k == |items| then 0 else (if items[k].0 in tried then 0 else 1) + Untried(items, k + 1, tried)
  }

  lemma {:induction false} UntriedAfter<T>(items: seq<(T, nat)>, k: nat, tried: set<T>, t: T)
    requires k <= |items| && forall i :: k <= i < |items| ==> items[i].0 != t
    ensures Untried(items, k, tried + {t}) == Untried(items, k, tried)
    decreases |items| - k
  {
    if k < |items| {
      UntriedAfter(items, k + 1, tried, t);
    }
  }

  lemma {:induction false} NoneUntried<T>(items: seq<(T, nat)>, k: nat, tried: set<T>)
    requires k <= |items| && Untried(items, k, tried) == 0
    ensures forall i :: k <= i < |items| ==> items[i].0 in tried
    decreases |items| - k
  {
    if k < |items| {
      NoneUntried(items, k + 1, tried);
    }
  }

  lemma PoolTried<T>(items: seq<(T, nat)>, tried: set<T>)
    requires forall i :: 0 <= i < |items| ==> items[i].0 in tried
    ensures forall p :: 0 <= p < |Expand(items)| ==> Expand(items)[p] in tried
  {
    forall p | 0 <= p < |Expand(items)| ensures Expand(items)[p] in tried {
      var d, o := BlockOf(items, p);
      BlockHolds(items, d, o);
    }
  }

  /** No attempt of a pass from block k on runs out of picks while there is something untried ahead.
      `left` is what the current attempt has. */
  predicate Fits<T(==)>(items: seq<(T, nat)>, k: nat, tried: set<T>, fuel: int, left: int, n: nat)
    requires k <= |items|
    decreases |items| - k
  {
    if n == 0 || Untried(items, k, tried) == 0 then true
    else if items[k].0 in tried then left > items[k].1 && Fits(items, k + 1, tried, fuel, left - items[k].1, n)
    else left > 0 && Fits(items, k + 1, tried + {items[k].0}, fuel, fuel - items[k].1 + 1, n - 1)
  }

  lemma PassNothing<T>(items: seq<(T, nat)>, k: nat, p: nat, tried: set<T>, left: nat, fuel: nat, n: nat)
    requires k <= |items| && BelowTried(items, k, tried) && Untried(items, k, tried) == 0 && n > 0
    requires p < |Expand(items)|
    ensures WalkWith(Expand(items), p, tried, left, fuel, n) == []
  {
    NoneUntried(items, k, tried);
    PoolTried(items, tried);
    WalkAllTried(Expand(items), p, tried, left);
  }

  /** A pass that fits tries everything untried ahead, as far as the attempts go. */
  lemma {:induction false} PassTries<T>(items: seq<(T, nat)>, k: nat, tried: set<T>, left: nat, fuel: nat, n: nat)
    requires Weighted(items) && Distinct(items) && k < |items| && n > 0 && BelowTried(items, k, tried)
    requires (forall i :: 0 <= i < |items| ==> items[i].1 <= fuel) && Fits(items, k, tried, fuel, left, n)
    ensures Start(items, k) < |Expand(items)|
    ensures |WalkWith(Expand(items), Start(items, k), tried, left, fuel, n)| == Min(n, Untried(items, k, tried))
    decreases |items| - k
  {
    BlockHolds(items, k, 0);
    if Untried(items, k, tried) == 0 {
      PassNothing(items, k, Start(items, k), tried, left, fuel, n);
    } else if items[k].0 in tried {
      PassSkips(items, k, tried, left, fuel, n);
      PassTries(items, k + 1, tried, left - items[k].1, fuel, n);
    } else {
      PassTakes(items, k, tried, left, fuel, n);
      if n > 1 {
        PassTriesRest(items, k, tried + {items[k].0}, fuel, n - 1);
      }
    }
  }

  lemma PassSkips<T>(items: seq<(T, nat)>, k: nat, tried: set<T>, left: nat, fuel: nat, n: nat)
    requires Weighted(items) && k + 1 < |items| && n > 0 && left > items[k].1 && items[k].0 in tried
    ensures Start(items, k) < |Expand(items)| && Start(items, k + 1) < |Expand(items)|
    ensures WalkWith(Expand(items), Start(items, k), tried, left, fuel, n) ==
            WalkWith(Expand(items), Start(items, k + 1), tried, left - items[k].1, fuel, n)
  {
    WalkSkipsBlock(items, k, 0, tried, left);
    assert NextStart(items, k) == Start(items, k + 1);
  }

  lemma PassTakes<T>(items: seq<(T, nat)>, k: nat, tried: set<T>, left: nat, fuel: nat, n: nat)
    requires Weighted(items) && Distinct(items) && k < |items| && n > 0 && left > 0 && items[k].0 !in tried
    ensures Start(items, k) < |Expand(items)|
    ensures var w := |Expand(items)|;
      WalkWith(Expand(items), Start(items, k), tried, left, fuel, n) ==
      [items[k].0] + WalkAttempts(Expand(items), After(Start(items, k), w), tried + {items[k].0}, fuel, n - 1)
    ensures Untried(items, k, tried) == 1 + Untried(items, k + 1, tried + {items[k].0})
  {
    BlockHolds(items, k, 0);
    UntriedAfter(items, k + 1, tried, items[k].0);
  }

  lemma {:induction false} PassTriesRest<T>(items: seq<(T, nat)>, k: nat, tried: set<T>, fuel: nat, n: nat)
    requires Weighted(items) && Distinct(items) && k < |items| && n > 0 && BelowTried(items, k + 1, tried)
    requires forall i :: 0 <= i < |items| ==> items[i].1 <= fuel
    requires Fits(items, k + 1, tried, fuel, fuel - items[k].1 + 1, n)
    ensures Start(items, k) < |Expand(items)|
    ensures |WalkAttempts(Expand(items), After(Start(items, k), |Expand(items)|), tried, fuel, n)| ==
            Min(n, Untried(items, k + 1, tried))
    decreases |items| - k, 0
  {
    var pool := Expand(items);
    NextInBlock(items, k, 0);
    var p := After(Start(items, k), |pool|);
    assert WalkAttempts(pool, p, tried, fuel, n) == WalkWith(pool, p, tried, fuel, fuel, n);
    if Untried(items, k + 1, tried) == 0 {
      PassNothing(items, k + 1, p, tried, fuel, fuel, n);
    } else {
      if items[k].1 > 1 {
        WalkSkipsBlock(items, k, 1, tried, fuel);
      }
      PassTries(items, k + 1, tried, fuel - items[k].1 + 1, fuel, n);
    }
  }

  // ---------- up to the wrap ----------

  /** The counter d picks before the wrap. */
  function CounterAt(d: nat): (c: nat)
    requires d <= WRAP
    ensures c < WRAP
  {
    if d == 0 || d == WRAP then 0 else WRAP - d
  }

  /** One pick on, in positions. */
  lemma OnePickOn(d: nat, w: nat)
    requires 0 < w && 0 < d <= WRAP
    ensures Next(CounterAt(d)) == CounterAt(d - 1) && CounterAt(d) % w == (WRAP - d) % w
    ensures (WRAP - (d - 1)) % w == After((WRAP - d) % w, w)
  {
    ModMove(WRAP - d, 1, w);
  }

  /** Picks of tried targets only, at positions from p on and up to the wrap at most. */
  lemma {:induction false} PicksSkip<T>(pool: seq<T>, d: nat, p: nat, k: nat, tried: set<T>, fuel: nat)
    requires pool != [] && k <= d <= WRAP && k <= fuel && 0 < k && p + k <= |pool|
    requires (WRAP - d) % |pool| == p && forall i :: p <= i < p + k ==> pool[i] in tried
    ensures PickUntried(pool, CounterAt(d), tried, fuel) == PickUntried(pool, CounterAt(d - k), tried, fuel - k)
    ensures (WRAP - (d - k)) % |pool| == if p + k == |pool| then 0 else p + k
    decreases k
  {
    OnePickOn(d, |pool|);
    assert pool[p] in tried;
    if k > 1 {
      PicksSkip(pool, d - 1, p + 1, k - 1, tried, fuel - 1);
    }
  }

  /** The counter stands behind offset o of block b, d picks before the wrap. */
  predicate StandsAfter<T>(items: seq<(T, nat)>, b: nat, o: nat, d: nat)
    requires b < |items| && Start(items, b) + o < |Expand(items)| && d <= WRAP
  {
    (WRAP - d) % |Expand(items)| == After(Start(items, b) + o, |Expand(items)|)
  }

  /** Skipping k picks in what is left of a tried block. */
  lemma SkipsInBlock<T>(items: seq<(T, nat)>, b: nat, o: nat, d: nat, k: nat, tried: set<T>, fuel: nat)
    requires Weighted(items) && b < |items| && o + k < items[b].1 && k <= d <= WRAP && k <= fuel
    requires Start(items, b) + o < |Expand(items)| && StandsAfter(items, b, o, d) && items[b].0 in tried
    ensures Start(items, b) + o + k < |Expand(items)| && StandsAfter(items, b, o + k, d - k)
    ensures PickUntried(Expand(items), CounterAt(d), tried, fuel) ==
            PickUntried(Expand(items), CounterAt(d - k), tried, fuel - k)
  {
    BlockHolds(items, b, o + k);
    if k > 0 {
      var p := Start(items, b) + o + 1;
      forall i | p <= i < p + k ensures Expand(items)[i] in tried {
        BlockHolds(items, b, i - Start(items, b));
      }
      PicksSkip(Expand(items), d, p, k, tried, fuel);
    }
  }

  /** The rest of the block and one pick more, before the wrap: the next block's target. */
  lemma NextFound<T>(items: seq<(T, nat)>, b: nat, j: nat, o: nat, d: nat, tried: set<T>, fuel: nat)
    returns (d': nat)
    requires Weighted(items) && b < |items| && 0 < j < |items| && TriedBlocks(items, b, j, tried)
    requires var cur := Cyclic(b, j - 1, |items|);
      && o < items[cur].1 <= fuel && items[cur].1 - o <= d <= WRAP
      && Start(items, cur) + o < |Expand(items)| && StandsAfter(items, cur, o, d)
    ensures var nxt, cur := Cyclic(b, j, |items|), Cyclic(b, j - 1, |items|);
      && d' == d - (items[cur].1 - o) && Start(items, nxt) < |Expand(items)| && StandsAfter(items, nxt, 0, d')
      && PickUntried(Expand(items), CounterAt(d), tried, fuel) == (Some(items[nxt].0), CounterAt(d'))
  {
    var nxt, cur, pool := Cyclic(b, j, |items|), Cyclic(b, j - 1, |items|), Expand(items);
    var k := items[cur].1 - 1 - o;
    d' := d - (k + 1);
    assert items[cur].0 in tried && items[nxt].0 !in tried;
    SkipsInBlock(items, cur, o, d, k, tried, fuel);
    NextInBlock(items, cur, o + k);
    BlockHolds(items, nxt, 0);
    OnePickOn(d - k, |pool|);
  }

  // ---------- what was tried before the wrap ----------

  /** From block k on, tried are the blocks before f and those from b to g. */
  ghost predicate Ahead<T>(items: seq<(T, nat)>, k: nat, tried: set<T>, f: nat, b: nat, g: nat) {
    forall i :: k <= i < |items| ==> (items[i].0 in tried <==> i < f || b <= i < g)
  }

  lemma {:induction false} UntriedIs<T>(items: seq<(T, nat)>, k: nat, tried: set<T>, f: nat, b: nat, g: nat)
    requires k <= |items| && f <= b <= g <= |items| && Ahead(items, k, tried, f, b, g)
    ensures Untried(items, k, tried) ==
            (if k < b then b - (if k < f then f else k) else 0) + |items| - (if k < g then g else k)
    decreases |items| - k
  {
    if k < |items| {
      UntriedIs(items, k + 1, tried, f, b, g);
    }
  }

  /** The current attempt gets past every tried stretch ahead that has something untried behind it. */
  predicate Room<T>(items: seq<(T, nat)>, k: nat, f: nat, b: nat, g: nat, fuel: int, left: int, n: nat)
    requires k <= |items| && f <= b <= g <= |items|
  {
    && left > 0
    && (k < f ==> left > Start(items, f) - Start(items, k))
    && (b <= k < g < |items| && n > 0 ==> left > Start(items, g) - Start(items, k))
    && (k < b && g < |items| && n > b - k ==> fuel - items[b - 1].1 + 1 > Start(items, g) - Start(items, b))
  }

  lemma {:induction false} StartsUp<T>(items: seq<(T, nat)>, k: nat, g: nat)
    requires k <= g <= |items|
    ensures Start(items, k) <= Start(items, g)
    decreases g
  {
    if k < g {
      StartsUp(items, k, g - 1);
    }
  }

  lemma {:induction false} RoomFits<T>(items: seq<(T, nat)>, k: nat, tried: set<T>, f: nat, b: nat, g: nat,
                                       fuel: nat, left: nat, n: nat)
    requires Weighted(items) && Distinct(items) && forall i :: 0 <= i < |items| ==> items[i].1 <= fuel
    requires k <= |items| && f <= b <= g <= |items| && Ahead(items, k, tried, f, b, g)
    requires f == 0 || (f < b && g == |items|)
    requires Room(items, k, f, b, g, fuel, left, n)
    ensures Fits(items, k, tried, fuel, left, n)
    decreases |items| - k
  {
    if n > 0 && Untried(items, k, tried) > 0 {
      UntriedIs(items, k, tried, f, b, g);
      if items[k].0 in tried {
        StartsUp(items, k + 1, if k < f then f else g);
        RoomFits(items, k + 1, tried, f, b, g, fuel, left - items[k].1, n);
      } else {
        AheadAfter(items, k, tried, f, b, g);
        RoomFits(items, k + 1, tried + {items[k].0}, f, b, g, fuel, fuel - items[k].1 + 1, n - 1);
      }
    }
  }

  lemma AheadAfter<T>(items: seq<(T, nat)>, k: nat, tried: set<T>, f: nat, b: nat, g: nat)
    requires Distinct(items) && k < |items| && Ahead(items, k, tried, f, b, g)
    ensures Ahead(items, k + 1, tried + {items[k].0}, f, b, g)
  {
  }

  /** Blocks tried in cyclic order from b on, as stretches of the pool. */
  lemma CyclicAhead<T>(items: seq<(T, nat)>, b: nat, j: nat, tried: set<T>) returns (f: nat, b': nat, g: nat)
    requires b < |items| && 0 < j < |items| && TriedBlocks(items, b, j, tried)
    ensures f <= b' <= g <= |items| && Ahead(items, 0, tried, f, b', g) && b' == b
    ensures if b + j <= |items| then f == 0 && g == b + j else f == b + j - |items| < b && g == |items|
  {
    var m := |items|;
    b' := b;
    if b + j <= m {
      f, g := 0, b + j;
    } else {
      f, g := b + j - m, m;
    }
    forall i | 0 <= i < m ensures items[i].0 in tried <==> i < f || b <= i < g {
      var at := if b <= i then i - b else i + m - b;
      assert Cyclic(b, at, m) == i;
    }
  }

  // ---------- the wrap ----------

  /** The block that holds a position. */
  function BlockAt<T>(items: seq<(T, nat)>, p: nat): (b: nat)
    requires p < |Expand(items)|
    ensures b < |items|
  {
    if p < items[0].1 then 0 else 1 + BlockAt(items[1..], p - items[0].1)
  }

  lemma {:induction false} BlockAtIs<T>(items: seq<(T, nat)>, b: nat, o: nat)
    requires b < |items| && o < items[b].1
    ensures Start(items, b) + o < |Expand(items)| && BlockAt(items, Start(items, b) + o) == b
  {
    BlockHolds(items, b, o);
    if b > 0 {
      StartTail(items, b);
      BlockAtIs(items[1..], b - 1, o);
    }
  }

  /** The wrap breaks the walk off behind position r - 1, r being 2^64 modulo the pool size. It does no
      harm if nothing breaks off, if all blocks up to there are all that a request of n attempts tries, or
      if one attempt has the picks to walk from there through these blocks again. */
  predicate WrapFits<T>(items: seq<(T, nat)>, fuel: nat, n: nat)
    requires Expand(items) != []
  {
    var r := WRAP % |Expand(items)|;
    r == 0 ||
    var e := BlockAt(items, r - 1);
    n <= e + 1 || e + 1 == |items| || r + items[e].1 <= fuel
  }

  /** Where the wrap falls, when the counter stands there behind offset o of block b. */
  lemma WrapPlace<T>(items: seq<(T, nat)>, b: nat, o: nat)
    requires Weighted(items) && b < |items| && o < items[b].1
    requires Start(items, b) + o < |Expand(items)| && StandsAfter(items, b, o, 0)
    ensures var r, w := WRAP % |Expand(items)|, |Expand(items)|;
      if Start(items, b) + o + 1 == w then r == 0 && b + 1 == |items|
      else r == Start(items, b) + o + 1 && BlockAt(items, r - 1) == b
  {
    BlockAtIs(items, b, o);
    BlockEnds(items, b);
  }

  lemma {:induction false} StandsOn<T>(items: seq<(T, nat)>, b: nat, o: nat, d: nat, k: nat)
    requires b < |items| && o + k < items[b].1 && k <= d <= WRAP
    requires Start(items, b) + o < |Expand(items)| && StandsAfter(items, b, o, d)
    ensures Start(items, b) + o + k < |Expand(items)| && StandsAfter(items, b, o + k, d - k)
  {
    BlockHolds(items, b, o + k);
    if k > 0 {
      StandsOn(items, b, o, d, k - 1);
      OnePickOn(d - (k - 1), |Expand(items)|);
    }
  }

  /** With the wrap inside the current block and room for what was tried, the rest of the request tries
      everything untried, as far as its attempts go. */
  lemma WrapNow<T>(items: seq<(T, nat)>, b: nat, j: nat, o: nat, d: nat, tried: set<T>, fuel: nat, n: nat)
    requires Weighted(items) && Distinct(items) && forall i :: 0 <= i < |items| ==> items[i].1 <= fuel
    requires b < |items| && 0 < j < |items| && TriedBlocks(items, b, j, tried) && n > 0
    requires var cur := Cyclic(b, j - 1, |items|);
      && o + d < items[cur].1 && d <= WRAP
      && Start(items, cur) + o < |Expand(items)| && StandsAfter(items, cur, o, d)
    requires |Expand(items)| <= WRAP && Times(n, fuel) < WRAP && WrapFits(items, fuel, n + j)
    ensures |Failing(Expand(items), CounterAt(d), tried, fuel, n)| == Min(n, |items| - j)
  {
    var cur := Cyclic(b, j - 1, |items|);
    assert items[cur].0 in tried;
    ToTheWrap(items, cur, o, d, tried, fuel, n);
    var f, b', g := CyclicAhead(items, b, j, tried);
    StandsOn(items, cur, o, d, d);
    WrapPlace(items, cur, o + d);
    RoomAfterWrap(items, b, j, o, d, f, g, fuel, n);
    RoomFits(items, 0, tried, f, b, g, fuel, fuel - d, n);
    UntriedIs(items, 0, tried, f, b, g);
    PassTries(items, 0, tried, fuel - d, fuel, n);
  }

  /** The picks before the wrap are used up; the walk starts again at position 0. */
  lemma ToTheWrap<T>(items: seq<(T, nat)>, b: nat, o: nat, d: nat, tried: set<T>, fuel: nat, n: nat)
    requires Weighted(items) && b < |items| && o + d < items[b].1 <= fuel && d <= WRAP && items[b].0 in tried
    requires Start(items, b) + o < |Expand(items)| && StandsAfter(items, b, o, d)
    requires n > 0 && Times(n, fuel) < WRAP
    ensures Failing(Expand(items), CounterAt(d), tried, fuel, n) ==
            WalkWith(Expand(items), 0, tried, fuel - d, fuel, n)
  {
    SkipsInBlock(items, b, o, d, d, tried, fuel);
    FailingByPosition(Expand(items), 0, tried, fuel - d, fuel, n);
    ModUnique(0, 0, 0, |Expand(items)|);
  }

  lemma RoomAfterWrap<T>(items: seq<(T, nat)>, b: nat, j: nat, o: nat, d: nat, f: nat, g: nat, fuel: nat, n: nat)
    requires Weighted(items) && forall i :: 0 <= i < |items| ==> items[i].1 <= fuel
    requires b < |items| && 0 < j < |items| && n > 0 && Expand(items) != []
    requires if b + j <= |items| then f == 0 && g == b + j else f == b + j - |items| < b && g == |items|
    requires o + d < items[Cyclic(b, j - 1, |items|)].1 && WrapFits(items, fuel, n + j)
    requires var r, w, cur := WRAP % |Expand(items)|, |Expand(items)|, Cyclic(b, j - 1, |items|);
      if Start(items, cur) + o + d + 1 == w then r == 0 && cur + 1 == |items|
      else r == Start(items, cur) + o + d + 1 && BlockAt(items, r - 1) == cur
    ensures f <= b <= g <= |items| && Room(items, 0, f, b, g, fuel, fuel - d, n)
  {
    var cur := Cyclic(b, j - 1, |items|);
    if b <= cur && b > 0 {
      StartsUp(items, b, cur);
    }
  }

  // ---------- the whole request ----------

  lemma AllTriedFails<T>(items: seq<(T, nat)>, b: nat, c: nat, tried: set<T>, fuel: nat, n: nat)
    requires b < |items| && TriedBlocks(items, b, |items|, tried) && Expand(items) != [] && c < WRAP
    ensures Failing(Expand(items), c, tried, fuel, n) == []
  {
    TriedAll(items, b, tried);
    NothingFound(Expand(items), c, tried, fuel);
  }

  lemma {:induction false} NothingFound<T>(pool: seq<T>, c: nat, tried: set<T>, fuel: nat)
    requires pool != [] && c < WRAP && forall p :: 0 <= p < |pool| ==> pool[p] in tried
    ensures PickUntried(pool, c, tried, fuel).0.None?
    decreases fuel
  {
    if fuel > 0 {
      NothingFound(pool, Next(c), tried, fuel - 1);
    }
  }

  /** One attempt that succeeds before the wrap, then the others. */
  lemma AttemptThen<T>(pool: seq<T>, d: nat, d': nat, tried: set<T>, t: T, fuel: nat, n: nat)
    requires pool != [] && d <= WRAP && d' <= WRAP && n > 0
    requires PickUntried(pool, CounterAt(d), tried, fuel) == (Some(t), CounterAt(d'))
    ensures Failing(pool, CounterAt(d), tried, fuel, n) ==
            [t] + Failing(pool, CounterAt(d'), tried + {t}, fuel, n - 1)
  {
  }

  /** Standing in the last of j tried blocks, d picks before the wrap. */
  lemma {:induction false} RestCovers<T>(items: seq<(T, nat)>, b: nat, j: nat, o: nat, d: nat, tried: set<T>,
                                         fuel: nat, n: nat)
    requires Weighted(items) && Distinct(items) && forall i :: 0 <= i < |items| ==> items[i].1 <= fuel
    requires b < |items| && 0 < j <= |items| && TriedBlocks(items, b, j, tried)
    requires var cur := Cyclic(b, j - 1, |items|);
      && o < items[cur].1 && d <= WRAP && Start(items, cur) + o < |Expand(items)| && StandsAfter(items, cur, o, d)
    requires |Expand(items)| <= WRAP && Times(n, fuel) < WRAP && WrapFits(items, fuel, n + j)
    ensures |Failing(Expand(items), CounterAt(d), tried, fuel, n)| == Min(n, |items| - j)
    decreases n
  {
    var cur := Cyclic(b, j - 1, |items|);
    if j == |items| {
      AllTriedFails(items, b, CounterAt(d), tried, fuel, n);
    } else if n > 0 {
      if o + d < items[cur].1 {
        WrapNow(items, b, j, o, d, tried, fuel, n);
      } else {
        var nxt := Cyclic(b, j, |items|);
        var d' := NextFound(items, b, j, o, d, tried, fuel);
        TriedGrows(items, b, j, tried);
        AttemptThen(Expand(items), d, d', tried, items[nxt].0, fuel, n);
        RestCovers(items, b, j + 1, 0, d', tried + {items[nxt].0}, fuel, n - 1);
      }
    }
  }

  /** A request whose calls all fail tries as many targets as it may, from whatever counter value. */
  lemma CoversFromAnywhere<T>(items: seq<(T, nat)>, c: nat, fuel: nat, n: nat)
    requires Weighted(items) && Distinct(items) && Expand(items) != [] && c < WRAP
    requires fuel > 0 && forall i :: 0 <= i < |items| ==> items[i].1 <= fuel
    requires |Expand(items)| <= WRAP && Times(n, fuel) < WRAP && WrapFits(items, fuel, n)
    ensures |Failing(Expand(items), c, {}, fuel, n)| == Min(n, |items|)
  {
    if n > 0 {
      var pool, d := Expand(items), WRAP - c;
      var b, o := BlockOf(items, c % |pool|);
      BlockHolds(items, b, o);
      OnePickOn(d, |pool|);
      assert CounterAt(d) == c && {} + {items[b].0} == {items[b].0};
      TriedGrows(items, b, 0, {});
      AttemptThen(pool, d, d - 1, {}, items[b].0, fuel, n);
      RestCovers(items, b, 1, o, d - 1, {items[b].0}, fuel, n - 1);
    }
  }

  // ---------- when it does not ----------

  lemma {:induction false} FirstBlocksTried<T>(items: seq<(T, nat)>, e: nat, p: nat, tried: set<T>, fuel: nat)
    requires Weighted(items) && e < |items| && BelowTried(items, e + 1, tried) && p + fuel <= Start(items, e + 1)
    requires p < |Expand(items)|
    ensures Walk(Expand(items), p, tried, fuel).0.None?
    decreases fuel
  {
    if fuel > 0 {
      var d, o := BlockOf(items, p);
      BlockHolds(items, d, o);
      if d > e {
        StartsUp(items, e + 1, d);
      }
      BlockEnds(items, e);
      if fuel > 1 {
        FirstBlocksTried(items, e, p + 1, tried, fuel - 1);
      }
    }
  }

  /** The wrap in block e, with all blocks up to it tried and too few picks to walk through them again. */
  lemma StopsHere<T>(items: seq<(T, nat)>, e: nat, d: nat, tried: set<T>, fuel: nat, n: nat)
    requires Weighted(items) && e < |items| && items[e].1 <= fuel && BelowTried(items, e + 1, tried) && n > 0
    requires d < items[e].1 && d <= WRAP && Start(items, e) < |Expand(items)| && StandsAfter(items, e, 0, d)
    requires fuel - d <= Start(items, e + 1) && Times(n, fuel) < WRAP
    ensures Failing(Expand(items), CounterAt(d), tried, fuel, n) == []
  {
    ToTheWrap(items, e, 0, d, tried, fuel, n);
    FirstBlocksTried(items, e, 0, tried, fuel - d);
  }

  lemma FirstTried<T>(items: seq<(T, nat)>, j: nat, tried: set<T>)
    requires 0 < j <= |items| && TriedBlocks(items, 0, j, tried)
    ensures BelowTried(items, j, tried)
  {
    forall i | 0 <= i < j ensures items[i].0 in tried {
      assert items[Cyclic(0, i, |items|)].0 in tried;
    }
  }

  /** From the beginning of the pool to the wrap in block e, at d0 picks from there, and no further. */
  lemma {:induction false} StopsAtWrap<T>(items: seq<(T, nat)>, e: nat, j: nat, d: nat, tried: set<T>,
                                          fuel: nat, n: nat, d0: nat)
    requires Weighted(items) && Distinct(items) && forall i :: 0 <= i < |items| ==> items[i].1 <= fuel
    requires e + 1 < |items| && 0 < j <= e + 1 && TriedBlocks(items, 0, j, tried) && n + j >= e + 2
    requires Start(items, j - 1) + d == Start(items, e) + d0 && d0 < items[e].1 && d <= WRAP
    requires Start(items, j - 1) < |Expand(items)| && StandsAfter(items, j - 1, 0, d)
    requires fuel - d0 <= Start(items, e + 1) && Times(n, fuel) < WRAP
    ensures |Failing(Expand(items), CounterAt(d), tried, fuel, n)| == e + 1 - j
    decreases e + 1 - j
  {
    if j == e + 1 {
      FirstTried(items, j, tried);
      StopsHere(items, e, d, tried, fuel, n);
    } else {
      StartsUp(items, j, e);
      assert Cyclic(0, j - 1, |items|) == j - 1 && Cyclic(0, j, |items|) == j;
      var d' := NextFound(items, 0, j, 0, d, tried, fuel);
      TriedGrows(items, 0, j, tried);
      AttemptThen(Expand(items), d, d', tried, items[j].0, fuel, n);
      StopsAtWrap(items, e, j + 1, d', tried + {items[j].0}, fuel, n - 1, d0);
    }
  }

  /** Where WrapFits fails, a request that starts at the beginning of the pool so far before the wrap that
      it just reaches it stops there, with something untried and an attempt left. */
  lemma StoppedByWrap<T>(items: seq<(T, nat)>, fuel: nat, n: nat) returns (c: nat)
    requires Weighted(items) && Distinct(items) && Expand(items) != [] && n > 0
    requires fuel > 0 && forall i :: 0 <= i < |items| ==> items[i].1 <= fuel
    requires |Expand(items)| <= WRAP && Times(n, fuel) < WRAP && !WrapFits(items, fuel, n)
    ensures c < WRAP && |Failing(Expand(items), c, {}, fuel, n)| < Min(n, |items|)
  {
    var pool, r := Expand(items), WRAP % |Expand(items)|;
    var e, o := BlockOf(items, r - 1);
    BlockAtIs(items, e, o);
    c := WRAP - r;
    ModUnique(c, WRAP / |pool|, 0, |pool|);
    BlockHolds(items, 0, 0);
    OnePickOn(r, |pool|);
    var t := items[0].0;
    assert CounterAt(r) == c && pool[0] == t && {} + {t} == {t};
    TriedGrows(items, 0, 0, {});
    AttemptThen(pool, r, r - 1, {}, t, fuel, n);
    TimesLess(n, fuel);
    StopsAtWrap(items, e, 1, r - 1, {t}, fuel, n - 1, o);
  }

  lemma TimesLess(n: nat, fuel: nat)
    requires n > 0
    ensures Times(n - 1, fuel) <= Times(n, fuel)
  {
  }

  /** Coverage from every counter value, wrapping or not: a request whose calls all fail reaches as many
      targets as it may, if and only if no weight exceeds the picks of one attempt and the wrap fits. */
  lemma CoverageFromEveryCounter<T>(items: seq<(T, nat)>, fuel: nat, n: nat, ok: nat -> bool)
    requires |items| >= 2 && Weighted(items) && Distinct(items) && Expand(items) != []
    requires n >= 2 && fuel > 0 && forall k :: !ok(k)
    requires |Expand(items)| + Times(n, fuel) < WRAP
    ensures (forall c | 0 <= c < WRAP :: |Attempts(Expand(items), c, {}, fuel, 0, n, ok)| == Min(n, |items|)) <==>
            (forall i :: 0 <= i < |items| ==> items[i].1 <= fuel) && WrapFits(items, fuel, n)
  {
    if b :| 0 <= b < |items| && items[b].1 > fuel {
      StuckInBlock(items, b, fuel, n);
      var c := Start(items, b);
      ModUnique(c, 0, c, |Expand(items)|);
      AttemptsByPosition(Expand(items), c, {}, fuel, 0, n, ok);
      assert |Attempts(Expand(items), c, {}, fuel, 0, n, ok)| == 1;
    } else if WrapFits(items, fuel, n) {
      forall c: nat | c < WRAP ensures |Attempts(Expand(items), c, {}, fuel, 0, n, ok)| == Min(n, |items|) {
        CoversFromAnywhere(items, c, fuel, n);
        FailingIs(Expand(items), c, {}, fuel, 0, n, ok);
      }
    } else {
      var c := StoppedByWrap(items, fuel, n);
      FailingIs(Expand(items), c, {}, fuel, 0, n, ok);
    }
  }

  lemma {:induction false} UnitPool<T>(items: seq<(T, nat)>, b: nat)
    requires b <= |items| && forall i :: 0 <= i < |items| ==> items[i].1 == 1
    ensures Start(items, b) == b
  {
    if b > 0 {
      UnitPool(items, b - 1);
    }
  }

  /** With weights of one the wrap always fits, an attempt having more picks than there are targets. */
  lemma UnitWeightsFit<T>(items: seq<(T, nat)>, fuel: nat, n: nat)
    requires Expand(items) != [] && fuel > |items| && forall i :: 0 <= i < |items| ==> items[i].1 == 1
    ensures WrapFits(items, fuel, n)
  {
    PoolSize(items);
    UnitPool(items, |items|);
  }
}
