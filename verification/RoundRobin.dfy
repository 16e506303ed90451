/** Weighted round robin as arithmetic: a pool in which heavier targets appear more than once,
    indexed by a 64-bit counter that wraps. */
module RoundRobin {
  const WRAP: nat := 0x1_0000_0000_0000_0000

  /** Each item as often as its weight, in order. */
  function Expand<T>(items: seq<(T, nat)>): seq<T> {
    if items == [] then [] else seq(items[0].1, _ => items[0].0) + Expand(items[1..])
  }

  /** The counter after one more pick. */
  function Next(c: nat): (r: nat)
    requires c < WRAP
    ensures r < WRAP
  {
    if c + 1 == WRAP then 0 else c + 1
  }

  /** The counter after m more picks. */
  function Advance(c: nat, m: nat): (r: nat)
    requires c < WRAP
    ensures r < WRAP
    decreases m
  {
    if m == 0 then c else Advance(Next(c), m - 1)
  }

  /** n consecutive picks from a counter value. */
  function Picks<T>(pool: seq<T>, c: nat, n: nat): (r: seq<T>)
    requires pool != [] && c < WRAP
    ensures |r| == n
    decreases n
  {
    if n == 0 then [] else [pool[c % |pool|]] + Picks(pool, Next(c), n - 1)
  }

  lemma {:induction false} AdvanceIs(c: nat, m: nat)
    requires c < WRAP && m <= WRAP
    ensures Advance(c, m) == if c + m < WRAP then c + m else c + m - WRAP
    decreases m
  {
    if m > 0 {
      AdvanceIs(Next(c), m - 1);
    }
  }

  lemma ModUnique(x: int, q: int, s: int, w: int)
    requires 0 < w && 0 <= s < w && x == w * q + s
    ensures x % w == s
  {
    var d := q - x / w;
    assert w * d == x % w - s;
    AtLeastFactor(w, d);
  }

  lemma AtLeastFactor(w: int, d: int)
    requires 0 < w
    ensures d >= 1 ==> w * d >= w
    ensures d <= -1 ==> w * d <= -w
  {
  }

  /** Moving less than a turn from a position: on, or around the corner. */
  lemma ModMove(c: nat, i: nat, w: nat)
    requires 0 < w && i <= w
    ensures (c + i) % w == if c % w + i < w then c % w + i else c % w + i - w
  {
    var q, r := c / w, c % w;
    if r + i < w {
      ModUnique(c + i, q, r + i, w);
    } else {
      assert w * (q + 1) == w * q + w;
      ModUnique(c + i, q + 1, r + i - w, w);
    }
  }

  /** Wrapping the counter is harmless to positions if the pool size divides 2^64. */
  lemma ModWrap(c: nat, i: nat, w: nat)
    requires 0 < w && WRAP % w == 0 && WRAP <= c + i
    ensures (c + i - WRAP) % w == (c + i) % w
  {
    var q, r := (c + i - WRAP) / w, (c + i - WRAP) % w;
    assert WRAP == w * (WRAP / w);
    assert w * (q + WRAP / w) == w * q + w * (WRAP / w);
    ModUnique(c + i, q + WRAP / w, r, w);
  }

  lemma {:induction false} PickAt<T>(pool: seq<T>, c: nat, n: nat, i: nat)
    requires pool != [] && c < WRAP && i < n
    ensures Picks(pool, c, n)[i] == pool[Advance(c, i) % |pool|]
    decreases i
  {
    if i > 0 {
      PickAt(pool, Next(c), n - 1, i - 1);
    }
  }

  /** No wrap inside the window, or a wrap that does not shift positions. */
  predicate Steady(c: nat, n: nat, w: nat)
    requires 0 < w
  {
    c + n <= WRAP || WRAP % w == 0
  }

  lemma TurnAt<T>(pool: seq<T>, c: nat, i: nat)
    requires i < |pool| <= WRAP && c < WRAP && Steady(c, |pool|, |pool|)
    ensures var r := c % |pool|;
      Picks(pool, c, |pool|)[i] == pool[if r + i < |pool| then r + i else r + i - |pool|]
  {
    PickAt(pool, c, |pool|, i);
    AdvanceIs(c, i);
    ModMove(c, i, |pool|);
    if c + i >= WRAP {
      ModWrap(c, i, |pool|);
    }
  }

  /** A full turn, from wherever the counter stands, is a rotation of the pool. */
  lemma TurnIsRotation<T>(pool: seq<T>, c: nat)
    requires pool != [] && c < WRAP && |pool| <= WRAP && Steady(c, |pool|, |pool|)
    ensures var r := c % |pool|;
      Picks(pool, c, |pool|) == pool[r..] + pool[..r]
  {
    forall i | 0 <= i < |pool|
      ensures var r := c % |pool|; Picks(pool, c, |pool|)[i] == (pool[r..] + pool[..r])[i]
    {
      TurnAt(pool, c, i);
    }
  }

  lemma {:induction false} PicksSplit<T>(pool: seq<T>, c: nat, m: nat, n: nat)
    requires pool != [] && c < WRAP
    ensures Picks(pool, c, m + n) == Picks(pool, c, m) + Picks(pool, Advance(c, m), n)
    decreases m
  {
    if m > 0 {
      PicksSplit(pool, Next(c), m - 1, n);
    }
  }

  /** Weighted fairness: k turns' worth of consecutive picks take every pool entry k times. */
  lemma TurnsAreFair<T>(pool: seq<T>, c: nat, k: nat, x: T)
    requires pool != [] && c < WRAP && |pool| <= WRAP && Steady(c, k * |pool|, |pool|)
    ensures multiset(Picks(pool, c, k * |pool|))[x] == k * multiset(pool)[x]
  {
    TimesIs(k, |pool|);
    TimesIs(k, multiset(pool)[x]);
    FairTurns(pool, c, k, x);
  }

  /** k * m, see TimesIs. */
  function Times(k: nat, m: nat): nat {
    if k == 0 then 0 else m + Times(k - 1, m)
  }

  lemma {:induction false} TimesIs(k: nat, m: nat)
    ensures Times(k, m) == k * m
  {
    if k > 0 {
      TimesIs(k - 1, m);
      assert k * m == m + (k - 1) * m;
    }
  }

  lemma SteadyAfterTurn(c: nat, w: nat, rest: nat)
    requires 0 < w <= WRAP && c < WRAP && Steady(c, w + rest, w)
    ensures Steady(c, w, w) && Steady(Advance(c, w), rest, w)
  {
    AdvanceIs(c, w);
  }

  lemma {:induction false} FairTurns<T>(pool: seq<T>, c: nat, k: nat, x: T)
    requires pool != [] && c < WRAP && |pool| <= WRAP && Steady(c, Times(k, |pool|), |pool|)
    ensures multiset(Picks(pool, c, Times(k, |pool|)))[x] == Times(k, multiset(pool)[x])
    decreases k
  {
    if k > 0 {
      var rest, c' := Times(k - 1, |pool|), Advance(c, |pool|);
      assert Times(k, |pool|) == |pool| + rest;
      assert Times(k, multiset(pool)[x]) == multiset(pool)[x] + Times(k - 1, multiset(pool)[x]);
      SteadyAfterTurn(c, |pool|, rest);
      FairTurns(pool, c', k - 1, x);
      OneMoreTurn(pool, c, rest, x);
    }
  }

  lemma OneMoreTurn<T>(pool: seq<T>, c: nat, rest: nat, x: T)
    requires pool != [] && c < WRAP && |pool| <= WRAP && Steady(c, |pool|, |pool|)
    ensures multiset(Picks(pool, c, |pool| + rest))[x] ==
            multiset(pool)[x] + multiset(Picks(pool, Advance(c, |pool|), rest))[x]
  {
    PicksSplit(pool, c, |pool|, rest);
    OneTurn(pool, c);
  }

  lemma OneTurn<T>(pool: seq<T>, c: nat)
    requires pool != [] && c < WRAP && |pool| <= WRAP && Steady(c, |pool|, |pool|)
    ensures multiset(Picks(pool, c, |pool|)) == multiset(pool)
  {
    var r := c % |pool|;
    TurnIsRotation(pool, c);
    assert pool == pool[..r] + pool[r..];
  }

  /** For a pool without repetitions the condition is exact: one turn is fair if and only if the
      counter does not wrap inside it, or the pool size divides 2^64. */
  lemma TurnIsFairExactly<T>(pool: seq<T>, c: nat)
    requires pool != [] && c < WRAP && |pool| <= WRAP
    requires forall i, j :: 0 <= i < j < |pool| ==> pool[i] != pool[j]
    ensures multiset(Picks(pool, c, |pool|)) == multiset(pool) <==> Steady(c, |pool|, |pool|)
  {
    var w := |pool|;
    if Steady(c, w, w) {
      OneTurn(pool, c);
    } else {
      var i, j := RepeatedPick(c, w);
      PickAt(pool, c, w, i);
      PickAt(pool, c, w, j);
      TwiceIn(Picks(pool, c, w), i, j);
      OnceIn(pool, Advance(c, i) % w);
    }
  }

  /** How often x is among n picks. */
  function Taken<T(==)>(pool: seq<T>, c: nat, n: nat, x: T): nat
    requires pool != [] && c < WRAP
  {
    multiset(Picks(pool, c, n))[x]
  }

  lemma TakenBeforeWrap<T>(pool: seq<T>, c: nat, k: nat, x: T)
    requires pool != [] && c < WRAP && |pool| <= WRAP && c + Times(k, |pool|) <= WRAP
    ensures Taken(pool, c, Times(k, |pool|), x) == Times(k, multiset(pool)[x])
  {
    FairTurns(pool, c, k, x);
  }

  lemma {:induction false} TimesJoin(q: nat, j: nat, m: nat)
    ensures Times(q + 1 + j, m) == Times(q, m) + (m + Times(j, m))
  {
    if q > 0 {
      TimesJoin(q - 1, j, m);
    }
  }

  /** Picks of which the first a end at c', where m picks meet the wrap and leave the counter at d. */
  lemma PicksAroundWrap<T>(pool: seq<T>, c: nat, a: nat, c': nat, m: nat, d: nat, b: nat)
    requires pool != [] && c + a == c' < WRAP && c' + m == WRAP + d && d < WRAP && m <= WRAP
    ensures Picks(pool, c, a + (m + b)) == Picks(pool, c, a) + (Picks(pool, c', m) + Picks(pool, d, b))
  {
    PicksSplit(pool, c, a, m + b);
    AdvanceIs(c, a);
    PicksSplit(pool, c', m, b);
    AdvanceIs(c', m);
  }

  lemma CountThree<T>(a: seq<T>, b: seq<T>, c: seq<T>, x: T)
    ensures multiset(a + (b + c))[x] == multiset(a)[x] + multiset(b)[x] + multiset(c)[x]
  {
  }

  lemma TakenAroundWrap<T>(pool: seq<T>, c: nat, a: nat, c': nat, m: nat, d: nat, b: nat, x: T)
    requires pool != [] && c + a == c' < WRAP && c' + m == WRAP + d && d < WRAP && m <= WRAP
    ensures Taken(pool, c, a + (m + b), x) == Taken(pool, c, a, x) + Taken(pool, c', m, x) + Taken(pool, d, b, x)
  {
    PicksAroundWrap(pool, c, a, c', m, d, b);
    CountThree(Picks(pool, c, a), Picks(pool, c', m), Picks(pool, d, b), x);
  }

  /** Fairness of q + 1 + j turns, of which the one that starts at c' meets the wrap and leaves the
      counter at d, comes down to fairness of that one. */
  lemma WrapTurnDecides<T>(pool: seq<T>, c: nat, q: nat, c': nat, d: nat, j: nat, x: T)
    requires pool != [] && |pool| <= WRAP && c + Times(q, |pool|) == c' < WRAP
    requires c' + |pool| == WRAP + d && d + Times(j, |pool|) <= WRAP && d < WRAP
    ensures Taken(pool, c, Times(q + 1 + j, |pool|), x) - Times(q + 1 + j, multiset(pool)[x]) ==
            Taken(pool, c', |pool|, x) - multiset(pool)[x]
  {
    TimesJoin(q, j, |pool|);
    TimesJoin(q, j, multiset(pool)[x]);
    TakenBeforeWrap(pool, c, q, x);
    TakenBeforeWrap(pool, d, j, x);
    TakenAroundWrap(pool, c, Times(q, |pool|), c', |pool|, d, Times(j, |pool|), x);
  }

  lemma {:induction false} PicksFromZero<T>(pool: seq<T>, n: nat)
    requires pool != [] && n <= |pool| <= WRAP
    ensures Picks(pool, 0, n) == pool[..n]
  {
    forall i | 0 <= i < n ensures Picks(pool, 0, n)[i] == pool[i] {
      PickAt(pool, 0, n, i);
      AdvanceIs(0, i);
      ModUnique(i, 0, i, |pool|);
    }
  }

  /** The turn that starts s picks before the wrap: those s picks, then the first entries of the pool. */
  lemma WrapTurnTakes<T>(pool: seq<T>, c: nat, s: nat)
    requires 0 < s <= |pool| <= WRAP && c + s == WRAP
    ensures Picks(pool, c, |pool|) == Picks(pool, c, s) + pool[..|pool| - s]
  {
    var n := |pool| - s;
    assert s + n == |pool|;
    PicksSplit(pool, c, s, n);
    AdvanceIs(c, s);
    PicksFromZero(pool, n);
  }

  /** k turns of picks take every entry of the pool k times. */
  predicate Fair<T(==)>(pool: seq<T>, c: nat, k: nat)
    requires pool != [] && c < WRAP
  {
    forall i :: 0 <= i < |pool| ==> Taken(pool, c, Times(k, |pool|), pool[i]) == Times(k, multiset(pool)[pool[i]])
  }

  lemma {:induction false} PicksAreEntries<T>(pool: seq<T>, c: nat, n: nat, x: T)
    requires pool != [] && c < WRAP
    ensures x in Picks(pool, c, n) ==> x in pool
    decreases n
  {
    if n > 0 {
      PicksAreEntries(pool, Next(c), n - 1, x);
    }
  }

  lemma SameCounts<T>(a: seq<T>, pool: seq<T>)
    requires forall i :: 0 <= i < |a| ==> a[i] in pool
    ensures multiset(a) == multiset(pool) <==>
            forall i :: 0 <= i < |pool| ==> multiset(a)[pool[i]] == multiset(pool)[pool[i]]
  {
    if forall i :: 0 <= i < |pool| ==> multiset(a)[pool[i]] == multiset(pool)[pool[i]] {
      forall x ensures multiset(a)[x] == multiset(pool)[x] {
        if x in pool {
          var i :| 0 <= i < |pool| && pool[i] == x;
          assert multiset(a)[pool[i]] == multiset(pool)[pool[i]];
        } else {
          assert x !in a;
        }
      }
    }
  }

  /** One turn is fair when it takes the pool, in some order. */
  lemma FairTurnTakesPool<T>(pool: seq<T>, c: nat)
    requires pool != [] && c < WRAP
    ensures Fair(pool, c, 1) <==> multiset(Picks(pool, c, |pool|)) == multiset(pool)
  {
    var turn := Picks(pool, c, |pool|);
    forall i | 0 <= i < |turn| ensures turn[i] in pool {
      PicksAreEntries(pool, c, |pool|, turn[i]);
    }
    SameCounts(turn, pool);
    OneTurnCounts(pool, c);
  }

  lemma OneTurnCounts<T>(pool: seq<T>, c: nat)
    requires pool != [] && c < WRAP
    ensures Fair(pool, c, 1) <==>
      forall i :: 0 <= i < |pool| ==> Taken(pool, c, |pool|, pool[i]) == multiset(pool)[pool[i]]
  {
    TimesOne(|pool|);
    forall i | 0 <= i < |pool| ensures Times(1, multiset(pool)[pool[i]]) == multiset(pool)[pool[i]] {
      TimesOne(multiset(pool)[pool[i]]);
    }
  }

  lemma TimesOne(m: nat)
    ensures Times(1, m) == m
  {
  }

  /** Of the turn that starts at c, the s picks before the wrap stand in for the last s entries. */
  predicate WrapKeepsShares<T(==)>(pool: seq<T>, c: nat, s: nat)
    requires pool != [] && c < WRAP && s <= |pool|
  {
    multiset(Picks(pool, c, s)) == multiset(pool[|pool| - s..])
  }

  lemma WrapTurnFair<T>(pool: seq<T>, c: nat, s: nat)
    requires 0 < s <= |pool| <= WRAP && c + s == WRAP
    ensures Fair(pool, c, 1) <==> WrapKeepsShares(pool, c, s)
  {
    var first, last := pool[..|pool| - s], pool[|pool| - s..];
    FairTurnTakesPool(pool, c);
    WrapTurnTakes(pool, c, s);
    assert pool == first + last;
    SameRest(multiset(Picks(pool, c, s)), multiset(last), multiset(first));
  }

  lemma SameRest<T>(a: multiset<T>, b: multiset<T>, c: multiset<T>)
    ensures a + c == b + c <==> a == b
  {
    if a + c == b + c {
      forall x ensures a[x] == b[x] {
        assert (a + c)[x] == (b + c)[x];
      }
    }
  }

  lemma FairBeforeWrap<T>(pool: seq<T>, c: nat, k: nat)
    requires pool != [] && c < WRAP && |pool| <= WRAP && c + Times(k, |pool|) <= WRAP
    ensures Fair(pool, c, k)
  {
    forall x ensures Taken(pool, c, Times(k, |pool|), x) == Times(k, multiset(pool)[x]) {
      FairTurns(pool, c, k, x);
    }
  }

  lemma WrapTurnDecidesAll<T>(pool: seq<T>, c: nat, q: nat, c': nat, d: nat, j: nat)
    requires pool != [] && |pool| <= WRAP && c + Times(q, |pool|) == c' < WRAP
    requires c' + |pool| == WRAP + d && d + Times(j, |pool|) <= WRAP && d < WRAP
    ensures Fair(pool, c, q + 1 + j) <==> Fair(pool, c', 1)
  {
    OneTurnCounts(pool, c');
    forall i | 0 <= i < |pool|
      ensures Taken(pool, c, Times(q + 1 + j, |pool|), pool[i]) - Times(q + 1 + j, multiset(pool)[pool[i]]) ==
              Taken(pool, c', |pool|, pool[i]) - multiset(pool)[pool[i]]
    {
      WrapTurnDecides(pool, c, q, c', d, j, pool[i]);
    }
  }

  lemma ModAtMost(x: nat, w: nat)
    requires 0 < w
    ensures x % w <= x
  {
    if x < w {
      ModUnique(x, 0, x, w);
    }
  }

  /** The picks between the last whole turn before the wrap and the wrap; a whole turn if none is left. */
  function BeforeWrap(c: nat, w: nat): (s: nat)
    requires c < WRAP && 0 < w
    ensures 0 < s <= w && s <= WRAP - c
  {
    ModAtMost(WRAP - 1 - c, w);
    (WRAP - 1 - c) % w + 1
  }

  lemma FairExactlyFrom<T>(pool: seq<T>, c: nat, k: nat, q: nat, c': nat, s: nat)
    requires pool != [] && |pool| <= WRAP && Times(k, |pool|) <= WRAP
    requires c + Times(q, |pool|) == c' && c' + s == WRAP && 0 < s <= |pool|
    ensures Fair(pool, c, k) <==> c + Times(k, |pool|) <= WRAP || WrapKeepsShares(pool, c', s)
  {
    if c + Times(k, |pool|) <= WRAP {
      FairBeforeWrap(pool, c, k);
    } else {
      if k <= q {
        TimesGrows(k, q, |pool|);
        assert false;
      }
      FairAcrossWrap(pool, c, k, q, c', s);
    }
  }

  lemma FairAcrossWrap<T>(pool: seq<T>, c: nat, k: nat, q: nat, c': nat, s: nat)
    requires pool != [] && |pool| <= WRAP && Times(k, |pool|) <= WRAP && q < k
    requires c + Times(q, |pool|) == c' && c' + s == WRAP && 0 < s <= |pool|
    ensures Fair(pool, c, k) <==> WrapKeepsShares(pool, c', s)
  {
    TimesJoin(q, k - q - 1, |pool|);
    WrapTurnDecidesAll(pool, c, q, c', |pool| - s, k - q - 1);
    WrapTurnFair(pool, c', s);
  }

  /** Either the counter does not wrap inside the turns, or the picks that the wrap cuts off a turn
      take what the last entries of the pool would have. */
  predicate Undisturbed<T(==)>(pool: seq<T>, c: nat, k: nat)
    requires pool != [] && c < WRAP
  {
    var s := BeforeWrap(c, |pool|);
    c + Times(k, |pool|) <= WRAP || WrapKeepsShares(pool, WRAP - s, s)
  }

  lemma UndisturbedIs<T>(pool: seq<T>, c: nat, k: nat, c': nat, s: nat)
    requires pool != [] && c < WRAP && s == BeforeWrap(c, |pool|) && c' + s == WRAP
    ensures Undisturbed(pool, c, k) <==> c + Times(k, |pool|) <= WRAP || WrapKeepsShares(pool, c', s)
  {
  }

  /** Fairness of k turns from any counter value, for every pool, exactly. */
  lemma TurnsAreFairExactly<T>(pool: seq<T>, c: nat, k: nat)
    requires pool != [] && c < WRAP && |pool| <= WRAP && Times(k, |pool|) <= WRAP
    ensures Fair(pool, c, k) <==> Undisturbed(pool, c, k)
  {
    var q, c', s := WrapPlace(c, |pool|);
    FairExactlyFrom(pool, c, k, q, c', s);
    UndisturbedIs(pool, c, k, c', s);
  }

  lemma TurnsBeforeWrap(c: nat, w: nat) returns (q: nat)
    requires c < WRAP && 0 < w
    ensures c + Times(q, w) == WRAP - BeforeWrap(c, w)
  {
    q := (WRAP - 1 - c) / w;
    TimesIs(q, w);
    assert w * q == q * w;
  }

  /** Between different entries a wrap does no harm only when it falls between two turns or does not
      shift positions. */
  lemma DifferentEntriesFairExactly<T>(pool: seq<T>, c: nat, k: nat)
    requires pool != [] && c < WRAP && |pool| <= WRAP && Times(k, |pool|) <= WRAP
    requires forall i, j :: 0 <= i < j < |pool| ==> pool[i] != pool[j]
    ensures Fair(pool, c, k) <==>
            c + Times(k, |pool|) <= WRAP || WRAP % |pool| == 0 || (WRAP - c) % |pool| == 0
  {
    var q, c', s := WrapPlace(c, |pool|);
    FairExactlyFrom(pool, c, k, q, c', s);
    WrapKeepsDifferent(pool, c', s);
  }

  lemma WrapPlace(c: nat, w: nat) returns (q: nat, c': nat, s: nat)
    requires c < WRAP && 0 < w
    ensures c + Times(q, w) == c' && c' + s == WRAP && 0 < s <= w && s == BeforeWrap(c, w)
    ensures s == w <==> (WRAP - c) % w == 0
  {
    s := BeforeWrap(c, w);
    c' := WRAP - s;
    q := TurnsBeforeWrap(c, w);
    WholeTurnLeft(WRAP - c, w);
  }

  lemma WrapKeepsDifferent<T>(pool: seq<T>, c: nat, s: nat)
    requires 0 < s <= |pool| <= WRAP && c + s == WRAP
    requires forall i, j :: 0 <= i < j < |pool| ==> pool[i] != pool[j]
    ensures WrapKeepsShares(pool, c, s) <==> s == |pool| || WRAP % |pool| == 0
  {
    TurnIsFairExactly(pool, c);
    WrapTurnFair(pool, c, s);
    FairTurnTakesPool(pool, c);
  }

  lemma WholeTurnLeft(a: nat, w: nat)
    requires 0 < a && 0 < w
    ensures (a - 1) % w + 1 == w <==> a % w == 0
  {
    var q, r := (a - 1) / w, (a - 1) % w;
    if r + 1 == w {
      assert w * (q + 1) == w * q + w;
      ModUnique(a, q + 1, 0, w);
    } else {
      ModUnique(a, q, r + 1, w);
    }
  }

  lemma {:induction false} TimesGrows(k: nat, q: nat, m: nat)
    requires k <= q
    ensures Times(k, m) <= Times(q, m)
  {
    if k < q {
      TimesGrows(k, q - 1, m);
    }
  }

  lemma {:induction false} TwiceIn<T>(s: seq<T>, i: nat, j: nat)
    requires i < j < |s| && s[i] == s[j]
    ensures multiset(s)[s[i]] >= 2
  {
    assert s == s[..i] + [s[i]] + s[i + 1..j] + [s[j]] + s[j + 1..];
  }

  lemma OnceIn<T>(s: seq<T>, i: nat)
    requires i < |s| && forall i, j :: 0 <= i < j < |s| ==> s[i] != s[j]
    ensures multiset(s)[s[i]] == 1
  {
    assert s == s[..i] + [s[i]] + s[i + 1..];
    assert s[i] !in s[..i] && s[i] !in s[i + 1..];
  }

  /** A wrap inside the turn that shifts positions visits some position twice: the one just
      before the wrap, the first one of the turn, or position 0. */
  lemma RepeatedPick(c: nat, w: nat) returns (i: nat, j: nat)
    requires 0 < w <= WRAP && c < WRAP && !Steady(c, w, w)
    ensures i < j < w && Advance(c, i) % w == Advance(c, j) % w
  {
    var a, r := WRAP - c, WRAP % w;       // picks before the wrap; how far the wrap shifts
    if r - 1 < w - a {
      BeforeWrapMeetsAfter(c, w);
      i, j := a - 1, a + r - 1;
    } else if r >= a {
      FirstMeetsAfter(c, w);
      i, j := 0, r;
    } else {
      ZeroMeetsZero(c, w);
      i, j := a - r, a;
    }
  }

  lemma BeforeWrapMeetsAfter(c: nat, w: nat)
    requires 0 < w <= WRAP && c < WRAP && WRAP < c + w && 0 < WRAP % w <= w - (WRAP - c)
    ensures Advance(c, WRAP - c - 1) % w == Advance(c, WRAP - c + WRAP % w - 1) % w
  {
    var r := WRAP % w;
    AdvanceIs(c, WRAP - c - 1);
    AdvanceIs(c, WRAP - c + r - 1);
    assert WRAP - 1 == w * (WRAP / w) + (r - 1);
    ModUnique(WRAP - 1, WRAP / w, r - 1, w);
    ModUnique(r - 1, 0, r - 1, w);
  }

  lemma FirstMeetsAfter(c: nat, w: nat)
    requires 0 < w <= WRAP && c < WRAP && WRAP < c + w && WRAP - c <= WRAP % w
    ensures Advance(c, 0) % w == Advance(c, WRAP % w) % w
  {
    var r, a := WRAP % w, WRAP - c;
    AdvanceIs(c, r);
    assert c == w * (WRAP / w) + (r - a);
    ModUnique(c, WRAP / w, r - a, w);
    ModUnique(r - a, 0, r - a, w);
  }

  lemma ZeroMeetsZero(c: nat, w: nat)
    requires 0 < w <= WRAP && c < WRAP && WRAP < c + w && 0 < WRAP % w < WRAP - c
    ensures Advance(c, WRAP - c - WRAP % w) % w == Advance(c, WRAP - c) % w
  {
    var r := WRAP % w;
    AdvanceIs(c, WRAP - c - r);
    AdvanceIs(c, WRAP - c);
    assert WRAP - r == w * (WRAP / w) + 0;
    ModUnique(WRAP - r, WRAP / w, 0, w);
    ModUnique(0, 0, 0, w);
  }
}
