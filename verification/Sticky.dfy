/** How far IPHash keeps a client on its target while other targets go down. */
module Sticky {
  import opened Bytes
  import opened RoundRobin
  import opened Retry
  import opened Fnv1a
  import opened Balancer

  // ---------- which target a hash falls on ----------

  /** The place of a hash in a pool lies in block b. */
  predicate FallsOn<T>(items: seq<(T, nat)>, b: nat, h: nat)
    requires b < |items| && 0 < Start(items, |items|)
  {
    Start(items, b) <= h % Start(items, |items|) < Start(items, b) + items[b].1
  }

  lemma {:induction false} BlocksInOrder<T>(items: seq<(T, nat)>, b: nat, d: nat)
    requires b < d <= |items|
    ensures Start(items, b) + items[b].1 <= Start(items, d)
    decreases d
  {
    if b + 1 < d {
      BlocksInOrder(items, b, d - 1);
    }
  }

  lemma SomeEntries<T>(items: seq<(T, nat)>)
    requires Weighted(items) && items != []
    ensures |Expand(items)| == Start(items, |items|) > 0
  {
    PoolSize(items);
    BlocksInOrder(items, 0, |items|);
  }

  /** A client is on the target of block b exactly when its hash falls on that block. */
  lemma PickedExactly<T>(items: seq<(T, nat)>, b: nat, h: nat)
    requires Weighted(items) && Distinct(items) && b < |items|
    ensures |Expand(items)| == Start(items, |items|) > 0
    ensures Expand(items)[h % |Expand(items)|] == items[b].0 <==> FallsOn(items, b, h)
  {
    SomeEntries(items);
    var p := h % |Expand(items)|;
    var d, o := BlockOf(items, p);
    BlockHolds(items, d, o);
    if d < b {
      BlocksInOrder(items, d, b);
    } else if b < d {
      BlocksInOrder(items, b, d);
    }
  }

  // ---------- one target fewer ----------

  /** The healthy targets without the one at d. */
  function Without<T>(items: seq<T>, d: nat): (r: seq<T>)
    requires d < |items|
    ensures |r| == |items| - 1
  {
    items[..d] + items[d + 1..]
  }

  lemma {:induction false} StartWithout<T>(items: seq<(T, nat)>, d: nat, j: nat)
    requires d < |items| && j < |items|
    ensures Start(Without(items, d), j) == if j <= d then Start(items, j) else Start(items, j + 1) - items[d].1
  {
    if j > 0 {
      StartWithout(items, d, j - 1);
    }
  }

  /** Whether the client with hash h is still on block b once block d has gone: the blocks after d move
      up by its weight, and the hash is taken modulo what is left. */
  predicate Stays<T>(items: seq<(T, nat)>, b: nat, d: nat, h: nat)
    requires Weighted(items) && b < |items| && d < |items| && b != d
  {
    BlocksInOrder(items, if b < d then b else d, |items|);
    BlocksInOrder(items, if b < d then b else d, if b < d then d else b);
    BlocksInOrder(items, if b < d then d else b, |items|);
    var first := if b < d then Start(items, b) else Start(items, b) - items[d].1;
    var left := Start(items, |items|) - items[d].1;
    first <= h % left < first + items[b].1
  }

  /** IPHash does not keep a client on its target for as long as that target is healthy. For any
      weights, whether it does when another target goes down: if and only if the hash, taken modulo the
      smaller pool, falls on the moved-up block of its target. */
  lemma StickyExactly<T>(items: seq<(T, nat)>, b: nat, d: nat, h: nat)
    requires Weighted(items) && Distinct(items) && b < |items| && d < |items| && b != d
    ensures var rest := Without(items, d);
      && |Expand(rest)| > 0
      && (Expand(rest)[h % |Expand(rest)|] == items[b].0 <==> Stays(items, b, d, h))
  {
    var rest, b' := Without(items, d), if b < d then b else b - 1;
    assert rest[b'] == items[b];
    assert Weighted(rest) && Distinct(rest);
    PickedExactly(rest, b', h);
    StartWithout(items, d, b');
    StartWithout(items, d, |rest|);
  }

  // ---------- targets of weight one ----------

  lemma {:induction false} UnitStart<T>(items: seq<(T, nat)>, j: nat)
    requires j <= |items| && forall i :: 0 <= i < |items| ==> items[i].1 == 1
    ensures Start(items, j) == j
  {
    if j > 0 {
      UnitStart(items, j - 1);
    }
  }

  /** With unit weights, a client stays whichever other target goes down if and only if its target is
      the first and the hash falls on the first place of the smaller pool too, or likewise the last;
      a client of any target in between is moved by some takedown. */
  lemma UnitWeightsStickyExactly<T>(items: seq<(T, nat)>, h: nat)
    requires |items| >= 2 && forall i :: 0 <= i < |items| ==> items[i].1 == 1
    ensures var w := |items|;
      (forall d :: 0 <= d < w && d != h % w ==> Stays(items, h % w, d, h)) <==>
      (h % w == 0 && h % (w - 1) == 0) || (h % w == w - 1 && h % (w - 1) == w - 2)
  {
    var w, b := |items|, h % |items|;
    UnitStart(items, b);
    UnitStart(items, w);
    if b > 0 {
      assert Stays(items, b, 0, h) <==> h % (w - 1) == b - 1;
    }
    if b < w - 1 {
      assert Stays(items, b, w - 1, h) <==> h % (w - 1) == b;
    }
    forall d | 0 <= d < w && d != b ensures Stays(items, b, d, h) <==> h % (w - 1) == if b < d then b else b - 1 {
      BlocksInOrder(items, 0, w);
    }
  }

  /** So the comment's promise fails: of three targets of weight one, a client on the loopback address
      is on the last, and loses it when either of the others goes down. */
  lemma LoopbackClientMoves<T>(items: seq<(T, nat)>)
    requires |items| == 3 && forall i :: 0 <= i < 3 ==> items[i].1 == 1
    ensures Start(items, 3) > 0 && FallsOn(items, 2, Hash(LOOPBACK))
    ensures !Stays(items, 2, 0, Hash(LOOPBACK)) && !Stays(items, 2, 1, Hash(LOOPBACK))
  {
    LoopbackHash();
    UnitStart(items, 2);
    UnitStart(items, 3);
  }

  // ---------- the same on the balancer ----------

  /** Usable, as a function of which targets are healthy. */
  function UsableWhen(ts: seq<Target>, up: set<Target>): seq<(Target, nat)> {
    if ts == [] then []
    else (if ts[0] in up then [(ts[0], ts[0].Weight())] else []) + UsableWhen(ts[1..], up)
  }

  lemma {:induction false} UsableIs(ts: seq<Target>, up: set<Target>)
    requires forall t :: t in ts ==> (t in up <==> t.healthy)
    ensures Usable(ts) == UsableWhen(ts, up)
  {
    if ts != [] {
      UsableIs(ts[1..], up);
    }
  }

  lemma {:induction false} AbsentFromUsable(ts: seq<Target>, up: set<Target>, t: Target)
    requires t !in ts
    ensures UsableWhen(ts, up - {t}) == UsableWhen(ts, up)
    ensures forall i :: 0 <= i < |UsableWhen(ts, up)| ==> UsableWhen(ts, up)[i].0 != t
  {
    if ts != [] {
      AbsentFromUsable(ts[1..], up, t);
    }
  }

  /** Taking a healthy target down drops its entry and leaves the others in order. */
  lemma {:induction false} UsableAfterTakedown(ts: seq<Target>, up: set<Target>, t: Target) returns (d: nat)
    requires NoRepeats(ts) && t in ts && t in up
    ensures d < |UsableWhen(ts, up)| && UsableWhen(ts, up)[d].0 == t
    ensures UsableWhen(ts, up - {t}) == Without(UsableWhen(ts, up), d)
  {
    var more := UsableWhen(ts[1..], up);
    if ts[0] == t {
      d := 0;
      AbsentFromUsable(ts[1..], up, t);
      WithoutFirst((t, t.Weight()), more);
    } else {
      d := UsableAfterTakedown(ts[1..], up, t);
      if ts[0] in up {
        WithoutLater((ts[0], ts[0].Weight()), more, d);
        d := d + 1;
      } else {
        assert UsableWhen(ts, up) == more;
      }
    }
  }

  lemma WithoutFirst<T>(x: T, more: seq<T>)
    ensures Without([x] + more, 0) == more
  {
  }

  lemma WithoutLater<T>(x: T, more: seq<T>, d: nat)
    requires d < |more|
    ensures Without([x] + more, d + 1) == [x] + Without(more, d)
  {
  }

  /** Any change of the healthy set, targets going down and coming back: the client is on one target before
      and after if and only if its hash falls on that target's places in both pools. */
  lemma StaysAcrossChange(ts: seq<Target>, up: set<Target>, up': set<Target>, i: nat, i': nat, h: nat)
    requires NoRepeats(ts)
    requires i < |UsableWhen(ts, up)| && i' < |UsableWhen(ts, up')|
    requires UsableWhen(ts, up)[i].0 == UsableWhen(ts, up')[i'].0
    ensures var items, items' := UsableWhen(ts, up), UsableWhen(ts, up');
      && |Expand<Target>(items)| == Start<Target>(items, |items|) > 0
      && |Expand<Target>(items')| == Start<Target>(items', |items'|) > 0
      && (Expand<Target>(items)[h % |Expand<Target>(items)|] == items[i].0 ==
            Expand<Target>(items')[h % |Expand<Target>(items')|] <==>
          FallsOn<Target>(items, i, h) && FallsOn<Target>(items', i', h))
  {
    UsableWhenItems(ts, up);
    UsableWhenItems(ts, up');
    PickedExactly<Target>(UsableWhen(ts, up), i, h);
    PickedExactly<Target>(UsableWhen(ts, up'), i', h);
  }

  lemma {:induction false} UsableWhenIn(ts: seq<Target>, up: set<Target>)
    ensures forall i :: 0 <= i < |UsableWhen(ts, up)| ==> UsableWhen(ts, up)[i].0 in ts
  {
    if ts != [] {
      UsableWhenIn(ts[1..], up);
    }
  }

  lemma {:induction false} UsableWhenItems(ts: seq<Target>, up: set<Target>)
    ensures Weighted(UsableWhen(ts, up)) && (NoRepeats(ts) ==> Distinct(UsableWhen(ts, up)))
  {
    if ts != [] {
      var more := UsableWhen(ts[1..], up);
      UsableWhenItems(ts[1..], up);
      UsableWhenIn(ts[1..], up);
      if NoRepeats(ts) {
        NotFurtherOn(ts, more);
      }
      if ts[0] in up {
        ItemsInFront<Target>((ts[0], ts[0].Weight()), more);
      } else {
        assert UsableWhen(ts, up) == more;
      }
    }
  }

  lemma NotFurtherOn(ts: seq<Target>, more: seq<(Target, nat)>)
    requires ts != [] && NoRepeats(ts) && forall i :: 0 <= i < |more| ==> more[i].0 in ts[1..]
    ensures NoRepeats(ts[1..]) && forall i :: 0 <= i < |more| ==> more[i].0 != ts[0]
  {
  }

  lemma ItemsInFront<T>(x: (T, nat), more: seq<(T, nat)>)
    requires x.1 > 0 && Weighted(more)
    ensures Weighted([x] + more)
    ensures Distinct(more) && (forall i :: 0 <= i < |more| ==> more[i].0 != x.0) ==> Distinct([x] + more)
  {
  }

  /** The pick for a client, in terms of the healthy targets with their weights. */
  method PickOne(b: Balancer, key: Str, ghost items: seq<(Target, nat)>) returns (t: Target?)
    requires b.Valid() && b.algo == IPHash && items == Usable(b.targets)
    modifies b`counter
    ensures b.Valid() && b.counter == old(b.counter)
    ensures items == [] <==> t == null
    ensures items != [] ==>
      |Expand<Target>(items)| > 0 && t == Expand<Target>(items)[Hash(key) % |Expand<Target>(items)|]
  {
    UsableItems(b.targets);
    if items != [] {
      SomeEntries<Target>(items);
    }
    t := b.Pick(key);
  }

  lemma PlaceOf(items: seq<(Target, nat)>, h: nat) returns (i: nat)
    requires Weighted(items) && items != [] && |Expand<Target>(items)| > 0
    ensures i < |items| && items[i].0 == Expand<Target>(items)[h % |Expand<Target>(items)|]
  {
    var o;
    i, o := BlockOf<Target>(items, h % |Expand<Target>(items)|);
    BlockHolds<Target>(items, i, o);
  }

  /** A pick, then a target goes down, then a pick for the same client. Of the healthy targets before,
      the client was on number i and number d went down: unless these are one and the same, the client
      stays exactly when Stays says so. */
  method PickAcrossTakedown(b: Balancer, key: Str, t: Target)
    returns (before: Target, after: Target?, ghost items: seq<(Target, nat)>, ghost i: nat, ghost d: nat)
    requires b.Valid() && b.algo == IPHash && NoRepeats(b.targets) && t in b.targets && t.healthy
    modifies b`counter, t`healthy
    ensures b.Valid() && !t.healthy && items == old(Usable(b.targets)) && Weighted(items)
    ensures i < |items| && items[i].0 == before && d < |items| && items[d].0 == t
    ensures i != d ==> (after == before <==> Stays(items, i, d, Hash(key)))
  {
    ghost var up := set u | u in b.targets && u.healthy;
    items := Usable(b.targets);
    UsableItems(b.targets);
    UsableIs(b.targets, up);
    d := UsableAfterTakedown(b.targets, up, t);
    var first := PickOne(b, key, items);
    before := first;
    i := PlaceOf(items, Hash(key));
    t.healthy := false;
    UsableIs(b.targets, up - {t});
    after := PickOne(b, key, Without(items, d));
    if i != d {
      StickyExactly<Target>(items, i, d, Hash(key));
    }
  }

  method SetHealth(ts: seq<Target>, up: set<Target>)
    modifies ts`healthy
    ensures forall t :: t in ts ==> (t.healthy <==> t in up)
  {
    for i := 0 to |ts|
      invariant forall k :: 0 <= k < i ==> (ts[k].healthy <==> ts[k] in up)
    {
      ts[i].healthy := ts[i] in up;
    }
  }

  /** A pick, then any change of health, then a pick for the same client: both are the picks on the healthy
      targets before and after, so StaysAcrossChange says when they agree. */
  method PickAcrossChange(b: Balancer, key: Str, ghost up: set<Target>, up': set<Target>)
    returns (before: Target?, after: Target?)
    requires b.Valid() && b.algo == IPHash && forall t :: t in b.targets ==> (t.healthy <==> t in up)
    modifies b`counter, b.targets`healthy
    ensures b.Valid()
    ensures PicksFrom(before, UsableWhen(b.targets, up), Hash(key))
    ensures PicksFrom(after, UsableWhen(b.targets, up'), Hash(key))
  {
    UsableIs(b.targets, up);
    before := PickOne(b, key, UsableWhen(b.targets, up));
    SetHealth(b.targets, up');
    UsableIs(b.targets, up');
    after := PickOne(b, key, UsableWhen(b.targets, up'));
  }

  ghost predicate PicksFrom(t: Target?, items: seq<(Target, nat)>, h: nat) {
    if items == [] then t == null
    else |Expand<Target>(items)| > 0 && t == Expand<Target>(items)[h % |Expand<Target>(items)|]
  }
}
