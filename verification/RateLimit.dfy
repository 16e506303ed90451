/** The fixed-window rate limiter (middleware/ratelimit.go). A request reads the clock twice: when
    it looks its visitor up (and possibly creates one), and when it counts itself. */
module RateLimit {
  import opened Bytes

  datatype Visitor = Visitor(count: int, resetAt: int)

  /** A request with its two clock readings, or a sweep of the background eviction. */
  datatype Event = Request(looked: int, counted: int) | Sweep(now: int)

  function TimeOf(e: Event): int {
    match e
    case Request(_, counted) => counted
    case Sweep(now) => now
  }

  function Earliest(e: Event): int {
    match e
    case Request(looked, _) => looked
    case Sweep(now) => now
  }

  /** Clock readings do not go back, within an event or from one to the next. */
  predicate Ordered(es: seq<Event>, from: int) {
    if es == [] then true
    else from <= Earliest(es[0]) <= TimeOf(es[0]) && Ordered(es[1..], TimeOf(es[0]))
  }

  // ---------- one client ----------

  function LookUp(v: Option<Visitor>, looked: int, window: int): Visitor {
    if v.None? then Visitor(0, looked + window) else v.value
  }

  function CountIn(v: Visitor, counted: int, window: int): Visitor {
    var w := if counted > v.resetAt then Visitor(0, counted + window) else v;
    w.(count := w.count + 1)
  }

  function Apply(v: Option<Visitor>, e: Event, window: int): Option<Visitor> {
    match e
    case Request(looked, counted) => Some(CountIn(LookUp(v, looked, window), counted, window))
    case Sweep(now) => if v.Some? && now > v.value.resetAt then None else v
  }

  function Admits(v: Option<Visitor>, e: Event, limit: int, window: int): bool {
    e.Request? && Apply(v, e, window).value.count <= limit
  }

  /** The decisions on a client's requests, in order. */
  function Decisions(v: Option<Visitor>, es: seq<Event>, limit: int, window: int): seq<bool>
    decreases |es|
  {
    if es == [] then []
    else (if es[0].Request? then [Admits(v, es[0], limit, window)] else [])
         + Decisions(Apply(v, es[0], window), es[1..], limit, window)
  }

  /** Requests admitted with their counting time in [a, b]. */
  function AdmittedIn(v: Option<Visitor>, es: seq<Event>, limit: int, window: int, a: int, b: int): nat
    decreases |es|
  {
    if es == [] then 0
    else (if Admits(v, es[0], limit, window) && a <= TimeOf(es[0]) <= b then 1 else 0)
         + AdmittedIn(Apply(v, es[0], window), es[1..], limit, window, a, b)
  }

  // ---------- how many get through ----------

  function Pos(n: int): nat {
    if n < 0 then 0 else n
  }

  function Left(v: Visitor, limit: int): nat {
    Pos(limit - v.count)
  }

  /** The most requests that can still be admitted within [a, b], b at most one window after a. */
  function Budget(v: Option<Visitor>, now: int, limit: int, a: int, b: int): nat {
    if now > b then 0
    else match v
      case None => if now > a then Pos(limit) else 2 * Pos(limit)
      case Some(w) =>
        if w.resetAt >= b then Left(w, limit)
        else if w.resetAt >= a then Left(w, limit) + Pos(limit)
        else 2 * Pos(limit)
  }

  lemma {:induction false} WithinBudget(v: Option<Visitor>, es: seq<Event>, now: int,
                                        limit: int, window: int, a: int, b: int)
    requires window > 0 && Ordered(es, now) && b - a <= window && (v.Some? ==> v.value.count >= 0)
    ensures AdmittedIn(v, es, limit, window, a, b) <= Budget(v, now, limit, a, b)
    decreases |es|
  {
    if es != [] {
      WithinBudget(Apply(v, es[0], window), es[1..], TimeOf(es[0]), limit, window, a, b);
    }
  }

  /** Any closed interval no longer than the window admits at most twice the limit, whatever the
      eviction sweep does and however far apart a request's two clock readings are. */
  lemma TwiceTheLimit(es: seq<Event>, now: int,
                                        limit: int, window: int, a: int, b: int)
    requires window > 0 && Ordered(es, now) && b - a <= window
    ensures AdmittedIn(None, es, limit, window, a, b) <= 2 * Pos(limit)
  {
    WithinBudget(None, es, now, limit, window, a, b);
  }

  /** Requests whose two readings agree. */
  predicate Prompt(es: seq<Event>) {
    forall i :: 0 <= i < |es| && es[i].Request? ==> es[i].looked == es[i].counted
  }

  /** As Budget, for prompt requests: the first request of a window is spent at its start, so two
      windows that meet one interval cannot both be spent in full. */
  function PromptBudget(v: Option<Visitor>, now: int, limit: int, a: int, b: int): nat {
    if now > b then 0
    else match v
      case None => if now > a then Pos(limit) else Pos(2 * limit - 1)
      case Some(w) =>
        if w.resetAt >= b then Left(w, limit)
        else if w.resetAt >= a then Left(w, limit) + Pos(limit)
        else Pos(2 * limit - 1)
  }

  lemma {:induction false} WithinPromptBudget(v: Option<Visitor>, es: seq<Event>, now: int,
                                              limit: int, window: int, a: int, b: int)
    requires window > 0 && Ordered(es, now) && Prompt(es) && a <= b <= a + window && (v.Some? ==> v.value.count >= 1)
    ensures AdmittedIn(v, es, limit, window, a, b) <= PromptBudget(v, now, limit, a, b)
    decreases |es|
  {
    if es != [] {
      WithinPromptBudget(Apply(v, es[0], window), es[1..], TimeOf(es[0]), limit, window, a, b);
    }
  }

  /** With prompt requests the bound improves by one, to 2 * limit - 1. */
  lemma OneLessWhenPrompt(es: seq<Event>, now: int, limit: int, window: int, a: int, b: int)
    requires window > 0 && Ordered(es, now) && Prompt(es) && a <= b <= a + window
    ensures AdmittedIn(None, es, limit, window, a, b) <= Pos(2 * limit - 1)
  {
    WithinPromptBudget(None, es, now, limit, window, a, b);
  }

  // ---------- one window ----------

  /** Requests with their counting time in [a, b]. */
  function RequestsIn(es: seq<Event>, a: int, b: int): nat {
    if es == [] then 0
    else (if es[0].Request? && a <= es[0].counted <= b then 1 else 0) + RequestsIn(es[1..], a, b)
  }

  lemma {:induction false} NothingLater(v: Option<Visitor>, es: seq<Event>, now: int,
                                        limit: int, window: int, a: int, b: int)
    requires Ordered(es, now) && b < now
    ensures AdmittedIn(v, es, limit, window, a, b) == 0 == RequestsIn(es, a, b)
    decreases |es|
  {
    if es != [] {
      NothingLater(Apply(v, es[0], window), es[1..], TimeOf(es[0]), limit, window, a, b);
    }
  }

  lemma {:induction false} RestOfWindow(v: Visitor, es: seq<Event>, now: int, limit: int, window: int, a: int)
    requires window > 0 && Ordered(es, now) && a <= now
    ensures AdmittedIn(Some(v), es, limit, window, a, v.resetAt) ==
            Min(Left(v, limit), RequestsIn(es, a, v.resetAt))
    decreases |es|
  {
    if es != [] {
      var e, rest := es[0], es[1..];
      if TimeOf(e) > v.resetAt {
        NothingLater(Apply(Some(v), e, window), rest, TimeOf(e), limit, window, a, v.resetAt);
      } else {
        RestOfWindow(Apply(Some(v), e, window).value, rest, TimeOf(e), limit, window, a);
      }
    }
  }

  /** The request opens a counting window: nobody is remembered, or the last window is over. */
  predicate Opens(v: Option<Visitor>, e: Event) {
    e.Request? && (v.None? || e.counted > v.value.resetAt)
  }

  /** On every run, each counting window, from the request that opens it to its end, admits as many of its
      requests as the limit allows; which ones, WindowAdmitsFirst says. */
  lemma OneWindow(es: seq<Event>, now: int, i: nat, limit: int, window: int)
    requires window > 0 && Ordered(es, now) && i < |es| && Opens(After(None, es[..i], window), es[i])
    ensures var before := After(None, es[..i], window);
      var start, finish := TimeOf(es[i]), Apply(before, es[i], window).value.resetAt;
      AdmittedIn(before, es[i..], limit, window, start, finish) == Min(Pos(limit), RequestsIn(es[i..], start, finish))
  {
    var before := After(None, es[..i], window);
    var v := Apply(before, es[i], window).value;
    OrderedFrom(es, now, i);
    assert es[i..][0] == es[i] && es[i..][1..] == es[i + 1..];
    RestOfWindow(v, es[i + 1..], TimeOf(es[i]), limit, window, TimeOf(es[i]));
  }

  /** How long it is: the window's length from the request's counting time, or from its look-up time if it
      found nobody remembered and was counted before that was over. */
  lemma WindowIs(v: Option<Visitor>, e: Event, window: int)
    requires Opens(v, e)
    ensures var w := Apply(v, e, window).value;
      && w.count == 1
      && w.resetAt == (if v.None? && e.counted <= e.looked + window then e.looked else e.counted) + window
  {
  }

  lemma {:induction false} CountsRequests(v: Visitor, es: seq<Event>, now: int, window: int)
    requires Ordered(es, now) && forall i :: 0 <= i < |es| ==> TimeOf(es[i]) <= v.resetAt
    ensures After(Some(v), es, window) == Some(v.(count := v.count + RequestsIn(es, now, v.resetAt)))
    decreases |es|
  {
    if es != [] {
      var v' := Apply(Some(v), es[0], window).value;
      assert forall i :: 0 <= i < |es[1..]| ==> es[1..][i] == es[i + 1];
      CountsRequests(v', es[1..], TimeOf(es[0]), window);
      SameRequests(es[1..], TimeOf(es[0]), now, v.resetAt);
    }
  }

  /** Requests of an ordered run are all counted after its beginning. */
  lemma {:induction false} SameRequests(es: seq<Event>, now: int, a: int, b: int)
    requires Ordered(es, now) && a <= now
    ensures RequestsIn(es, a, b) == RequestsIn(es, now, b)
    decreases |es|
  {
    if es != [] {
      SameRequests(es[1..], TimeOf(es[0]), a, b);
      SameRequests(es[1..], TimeOf(es[0]), now, b);
    }
  }

  lemma {:induction false} OrderedUpTo(es: seq<Event>, now: int, j: nat)
    requires Ordered(es, now) && j < |es|
    ensures Ordered(es[..j], now) && now <= TimeOf(es[j]) && forall k :: 0 <= k < j ==> TimeOf(es[k]) <= TimeOf(es[j])
  {
    if j > 0 {
      OrderedUpTo(es[1..], TimeOf(es[0]), j - 1);
      assert es[..j][1..] == es[1..][..j - 1];
      forall k | 0 <= k < j ensures TimeOf(es[k]) <= TimeOf(es[j]) {
        assert k > 0 ==> es[k] == es[1..][k - 1];
      }
    }
  }

  /** Which of a window's requests: one is admitted if and only if fewer than the limit came before it in
      the window, the request that opened it included. */
  lemma WindowAdmitsFirst(es: seq<Event>, now: int, i: nat, j: nat, limit: int, window: int)
    requires window > 0 && Ordered(es, now) && i < j < |es| && Opens(After(None, es[..i], window), es[i])
    requires es[j].Request?
    requires TimeOf(es[j]) <= Apply(After(None, es[..i], window), es[i], window).value.resetAt
    ensures Admits(After(None, es[..j], window), es[j], limit, window) <==>
            1 + RequestsIn(es[i + 1..j], TimeOf(es[i]), TimeOf(es[j])) < limit
  {
    var before := After(None, es[..i], window);
    var v, mid := Apply(before, es[i], window).value, es[i + 1..j];
    OrderedFrom(es, now, i);
    var rest := es[i + 1..];
    OrderedUpTo(rest, TimeOf(es[i]), j - i - 1);
    assert rest[..j - i - 1] == mid && rest[j - i - 1] == es[j];
    forall k | 0 <= k < |mid| ensures TimeOf(mid[k]) <= v.resetAt {
      assert mid[k] == rest[k];
    }
    AfterJoin(None, es[..i], [es[i]] + mid, window);
    assert es[..j] == es[..i] + ([es[i]] + mid);
    assert ([es[i]] + mid)[1..] == mid;
    CountsRequests(v, mid, TimeOf(es[i]), window);
    RequestsUpTo(mid, TimeOf(es[i]), TimeOf(es[j]), v.resetAt);
  }

  lemma {:induction false} RequestsUpTo(es: seq<Event>, a: int, b: int, b': int)
    requires b <= b' && forall k :: 0 <= k < |es| ==> TimeOf(es[k]) <= b
    ensures RequestsIn(es, a, b) == RequestsIn(es, a, b')
    decreases |es|
  {
    if es != [] {
      assert forall k :: 0 <= k < |es[1..]| ==> es[1..][k] == es[k + 1];
      RequestsUpTo(es[1..], a, b, b');
    }
  }

  lemma {:induction false} AfterJoin(v: Option<Visitor>, xs: seq<Event>, ys: seq<Event>, window: int)
    ensures After(v, xs + ys, window) == After(After(v, xs, window), ys, window)
    decreases |xs|
  {
    if xs == [] {
      assert xs + ys == ys;
    } else {
      assert (xs + ys)[1..] == xs[1..] + ys;
      AfterJoin(Apply(v, xs[0], window), xs[1..], ys, window);
    }
  }

  lemma {:induction false} OrderedFrom(es: seq<Event>, now: int, i: nat)
    requires Ordered(es, now) && i < |es|
    ensures Earliest(es[i]) <= TimeOf(es[i]) && Ordered(es[i + 1..], TimeOf(es[i]))
  {
    if i > 0 {
      OrderedFrom(es[1..], TimeOf(es[0]), i - 1);
      assert es[1..][i..] == es[i + 1..];
    }
  }

  // ---------- eviction ----------

  function WithoutSweeps(es: seq<Event>): seq<Event> {
    if es == [] then [] else (if es[0].Sweep? then [] else [es[0]]) + WithoutSweeps(es[1..])
  }

  lemma Cons(v: Option<Visitor>, e: Event, rest: seq<Event>, limit: int, window: int)
    ensures WithoutSweeps([e] + rest) == (if e.Sweep? then [] else [e]) + WithoutSweeps(rest)
    ensures Decisions(v, [e] + rest, limit, window) ==
            (if e.Request? then [Admits(v, e, limit, window)] else [])
            + Decisions(Apply(v, e, window), rest, limit, window)
  {
    assert ([e] + rest)[1..] == rest;
  }

  /** The swept and the unswept store agree, up to a visitor whose window is over. */
  predicate Agree(swept: Option<Visitor>, kept: Option<Visitor>, now: int) {
    swept == kept || (swept.None? && kept.Some? && now > kept.value.resetAt)
  }

  lemma {:induction false} SweepsKeepDecisions(swept: Option<Visitor>, kept: Option<Visitor>, es: seq<Event>,
                                               now: int, limit: int, window: int)
    requires window > 0 && Ordered(es, now) && Prompt(es) && Agree(swept, kept, now)
    ensures Decisions(swept, es, limit, window) == Decisions(kept, WithoutSweeps(es), limit, window)
    decreases |es|
  {
    if es != [] {
      var e, rest := es[0], es[1..];
      var swept' := Apply(swept, e, window);
      if e.Sweep? {
        SweepsKeepDecisions(swept', kept, rest, e.now, limit, window);
        assert WithoutSweeps(es) == WithoutSweeps(rest);
      } else {
        assert Apply(kept, e, window) == swept';
        SweepsKeepDecisions(swept', swept', rest, e.counted, limit, window);
        assert WithoutSweeps(es) == [e] + WithoutSweeps(rest);
        Cons(kept, e, WithoutSweeps(rest), limit, window);
      }
    }
  }

  /** For prompt requests the eviction sweep is invisible: the same requests are admitted. */
  lemma EvictionIsInvisible(es: seq<Event>, now: int, limit: int, window: int)
    requires window > 0 && Ordered(es, now) && Prompt(es)
    ensures Decisions(None, es, limit, window) == Decisions(None, WithoutSweeps(es), limit, window)
  {
    SweepsKeepDecisions(None, None, es, now, limit, window);
  }

  // ---------- exactly when eviction is invisible ----------

  predicate LagAtMost(es: seq<Event>, d: int) {
    forall i :: 0 <= i < |es| && es[i].Request? ==> es[i].counted - es[i].looked <= d
  }

  function After(v: Option<Visitor>, es: seq<Event>, window: int): Option<Visitor>
    decreases |es|
  {
    if es == [] then v else After(Apply(v, es[0], window), es[1..], window)
  }

  lemma {:induction false} DecisionsJoin(v: Option<Visitor>, xs: seq<Event>, ys: seq<Event>, limit: int, window: int)
    ensures Decisions(v, xs + ys, limit, window) ==
            Decisions(v, xs, limit, window) + Decisions(After(v, xs, window), ys, limit, window)
    decreases |xs|
  {
    if xs == [] {
      assert xs + ys == ys;
    } else {
      assert (xs + ys)[1..] == xs[1..] + ys;
      DecisionsJoin(Apply(v, xs[0], window), xs[1..], ys, limit, window);
    }
  }

  /** n prompt requests at one time. */
  function Burst(n: nat, t: int): seq<Event> {
    if n == 0 then [] else [Request(t, t)] + Burst(n - 1, t)
  }

  lemma {:induction false} BurstFills(v: Visitor, n: nat, t: int, limit: int, window: int)
    requires t <= v.resetAt
    ensures After(Some(v), Burst(n, t), window) == Some(v.(count := v.count + n))
    decreases n
  {
    if n > 0 {
      BurstFills(v.(count := v.count + 1), n - 1, t, limit, window);
    }
  }

  // ---------- the bounds are reached ----------

  lemma {:induction false} AdmittedJoin(v: Option<Visitor>, xs: seq<Event>, ys: seq<Event>, limit: int, window: int,
                                        a: int, b: int)
    ensures AdmittedIn(v, xs + ys, limit, window, a, b) ==
            AdmittedIn(v, xs, limit, window, a, b) + AdmittedIn(After(v, xs, window), ys, limit, window, a, b)
    decreases |xs|
  {
    if xs == [] {
      assert xs + ys == ys;
    } else {
      assert (xs + ys)[1..] == xs[1..] + ys;
      AdmittedJoin(Apply(v, xs[0], window), xs[1..], ys, limit, window, a, b);
    }
  }

  lemma {:induction false} BurstAdmitted(v: Visitor, n: nat, t: int, limit: int, window: int, a: int, b: int)
    requires t <= v.resetAt && a <= t <= b && v.count + n <= limit
    ensures AdmittedIn(Some(v), Burst(n, t), limit, window, a, b) == n
    decreases n
  {
    if n > 0 {
      BurstAdmitted(v.(count := v.count + 1), n - 1, t, limit, window, a, b);
    }
  }

  /** A first request, the rest of its window spent at t, and a second window spent at once right after
      the first one is over. */
  function TwoWindows(first: Event, t: int, limit: int, window: int): seq<Event>
    requires limit >= 1
  {
    [first] + (Burst(limit - 1, t) + ([Request(window + 1, window + 1)] + Burst(limit - 1, window + 1)))
  }

  lemma TwoWindowsOrdered(x: int, t: int, limit: int, window: int)
    requires limit >= 1 && window >= 1 && 0 <= x <= t <= window
    ensures Ordered(TwoWindows(Request(0, x), t, limit, window), 0)
  {
    var first, second := Request(0, x), Request(window + 1, window + 1);
    var some, more := Burst(limit - 1, t), Burst(limit - 1, window + 1);
    BurstIsOrdered(limit - 1, window + 1, []);
    assert more + [] == more && ([second] + more)[1..] == more;
    OrderedEarlier([second] + more, window + 1, t);
    BurstIsOrdered(limit - 1, t, [second] + more);
    assert ([first] + (some + ([second] + more)))[1..] == some + ([second] + more);
    OrderedEarlier(some + ([second] + more), t, x);
  }

  lemma TwoWindowsAdmit(x: int, t: int, limit: int, window: int, a: int)
    requires limit >= 1 && window >= 1 && 0 <= x <= t <= window && a <= t && a <= window + 1
    ensures AdmittedIn(None, TwoWindows(Request(0, x), t, limit, window), limit, window, a, window + 1) ==
            (if a <= x then 1 else 0) + (limit - 1) + limit
  {
    var first, second := Request(0, x), Request(window + 1, window + 1);
    var some, more := Burst(limit - 1, t), Burst(limit - 1, window + 1);
    var v, w, b := Visitor(1, window), Visitor(1, 2 * window + 1), window + 1;
    assert ([second] + more)[1..] == more;
    assert ([first] + (some + ([second] + more)))[1..] == some + ([second] + more);
    AdmittedJoin(Some(v), some, [second] + more, limit, window, a, b);
    BurstAdmitted(v, limit - 1, t, limit, window, a, b);
    BurstFills(v, limit - 1, t, limit, window);
    BurstAdmitted(w, limit - 1, window + 1, limit, window, a, b);
  }

  lemma OrderedEarlier(es: seq<Event>, from: int, earlier: int)
    requires Ordered(es, from) && earlier <= from
    ensures Ordered(es, earlier)
  {
  }

  /** Twice the limit is reached for every limit and window, by a run whose first request is slow by one
      between its two clock readings. */
  lemma TwiceIsReached(limit: int, window: int) returns (es: seq<Event>)
    requires limit >= 1 && window >= 1
    ensures Ordered(es, 0) && AdmittedIn(None, es, limit, window, 1, window + 1) == 2 * Pos(limit)
  {
    es := TwoWindows(Request(0, 1), 1, limit, window);
    TwoWindowsOrdered(1, 1, limit, window);
    TwoWindowsAdmit(1, 1, limit, window, 1);
  }

  /** And one less by a run of prompt requests. */
  lemma OneLessIsReached(limit: int, window: int) returns (es: seq<Event>)
    requires limit >= 1 && window >= 1
    ensures Ordered(es, 0) && Prompt(es)
    ensures AdmittedIn(None, es, limit, window, 1, window + 1) == Pos(2 * limit - 1)
  {
    es := TwoWindows(Request(0, 0), window, limit, window);
    TwoWindowsOrdered(0, window, limit, window);
    TwoWindowsAdmit(0, window, limit, window, 1);
    BurstIsPrompt(limit - 1, window);
    BurstIsPrompt(limit - 1, window + 1);
  }

  lemma {:induction false} BurstIsPrompt(n: nat, t: int)
    ensures Prompt(Burst(n, t))
  {
    if n > 0 {
      BurstIsPrompt(n - 1, t);
    }
  }

  lemma {:induction false} BurstIsOrdered(n: nat, t: int, rest: seq<Event>)
    requires Ordered(rest, t)
    ensures Ordered(Burst(n, t) + rest, t)
    decreases n
  {
    if n == 0 {
      assert [] + rest == rest;
    } else {
      assert (Burst(n, t) + rest)[1..] == Burst(n - 1, t) + rest;
      BurstIsOrdered(n - 1, t, rest);
    }
  }

  lemma {:induction false} BurstHasNoSweeps(n: nat, t: int, rest: seq<Event>)
    ensures WithoutSweeps(Burst(n, t) + rest) == Burst(n, t) + WithoutSweeps(rest)
    decreases n
  {
    if n == 0 {
      assert [] + rest == rest && [] + WithoutSweeps(rest) == WithoutSweeps(rest);
    } else {
      BurstHasNoSweeps(n - 1, t, rest);
      Cons(None, Request(t, t), Burst(n - 1, t) + rest, 0, 0);
      assert Burst(n, t) + rest == [Request(t, t)] + (Burst(n - 1, t) + rest);
    }
  }

  function Rest(limit: int, window: int): seq<Event>
    requires limit >= 1
  {
    Burst(limit - 1, window + 2) + [Request(2 * window + 2, 2 * window + 2)]
  }

  /** A sweep between two windows, then a request that is slow by one, then a full window's worth
      of requests and one more when the new window is just over. */
  function Witness(limit: int, window: int): seq<Event>
    requires limit >= 1
  {
    [Request(0, 0)] + ([Sweep(window + 1)] + ([Request(window + 1, window + 2)] + Rest(limit, window)))
  }

  lemma WitnessIsARun(limit: int, window: int)
    requires limit >= 1 && window >= 1
    ensures Ordered(Witness(limit, window), 0) && LagAtMost(Witness(limit, window), 1)
  {
    var rest, slow := Rest(limit, window), Request(window + 1, window + 2);
    BurstIsOrdered(limit - 1, window + 2, [Request(2 * window + 2, 2 * window + 2)]);
    BurstLags(limit - 1, window + 2);
    assert ([slow] + rest)[1..] == rest;
    assert ([Sweep(window + 1)] + ([slow] + rest))[1..] == [slow] + rest;
    assert Witness(limit, window)[1..] == [Sweep(window + 1)] + ([slow] + rest);
  }

  lemma WitnessSwept(limit: int, window: int)
    requires limit >= 1
    ensures WithoutSweeps(Witness(limit, window)) ==
            [Request(0, 0)] + ([Request(window + 1, window + 2)] + Rest(limit, window))
  {
    var rest, slow := Rest(limit, window), Request(window + 1, window + 2);
    var last := Request(2 * window + 2, 2 * window + 2);
    BurstHasNoSweeps(limit - 1, window + 2, [last]);
    assert WithoutSweeps([last]) == [last] + [];
    Cons(None, slow, rest, 0, 0);
    Cons(None, Sweep(window + 1), [slow] + rest, 0, 0);
    Cons(None, Request(0, 0), [Sweep(window + 1)] + ([slow] + rest), 0, 0);
  }

  /** The visitor created after the sweep has a deadline one earlier than the visitor that would
      have been reset, so the last request finds a new window only in the swept store. */
  lemma SlowRequestSeesEviction(limit: int, window: int) returns (es: seq<Event>)
    requires limit >= 1 && window >= 1
    ensures Ordered(es, 0) && LagAtMost(es, 1)
    ensures Decisions(None, es, limit, window) != Decisions(None, WithoutSweeps(es), limit, window)
  {
    es := Witness(limit, window);
    WitnessIsARun(limit, window);
    WitnessSwept(limit, window);
    var rest, slow := Rest(limit, window), Request(window + 1, window + 2);
    var v0 := Some(Visitor(1, window));
    Cons(None, Request(0, 0), [Sweep(window + 1)] + ([slow] + rest), limit, window);
    Cons(v0, Sweep(window + 1), [slow] + rest, limit, window);
    Cons(None, slow, rest, limit, window);
    Cons(None, Request(0, 0), [slow] + rest, limit, window);
    Cons(v0, slow, rest, limit, window);
    EndsWith(Visitor(1, 2 * window + 1), limit, window);
    EndsWith(Visitor(1, 2 * window + 2), limit, window);
    LastOf([true], [] + ([true] + Decisions(Some(Visitor(1, 2 * window + 1)), rest, limit, window)));
    LastOf([true], Decisions(Some(Visitor(1, 2 * window + 1)), rest, limit, window));
    LastOf([true], [true] + Decisions(Some(Visitor(1, 2 * window + 2)), rest, limit, window));
    LastOf([true], Decisions(Some(Visitor(1, 2 * window + 2)), rest, limit, window));
  }

  lemma LastOf(a: seq<bool>, b: seq<bool>)
    requires b != []
    ensures (a + b)[|a + b| - 1] == b[|b| - 1]
  {
  }

  lemma {:induction false} BurstLags(n: nat, t: int)
    ensures LagAtMost(Burst(n, t), 0)
  {
    if n > 0 {
      BurstLags(n - 1, t);
    }
  }

  /** The decision on the last request, once the burst has filled v's window. */
  lemma EndsWith(v: Visitor, limit: int, window: int)
    requires window >= 1 && limit >= 1 && window + 2 <= v.resetAt && v.count == 1
    ensures var ds := Decisions(Some(v), Rest(limit, window), limit, window);
      ds != [] && ds[|ds| - 1] == (2 * window + 2 > v.resetAt)
  {
    var last := Request(2 * window + 2, 2 * window + 2);
    var fill := Burst(limit - 1, window + 2);
    DecisionsJoin(Some(v), fill, [last], limit, window);
    BurstFills(v, limit - 1, window + 2, limit, window);
    var full := Some(v.(count := limit));
    assert Decisions(full, [last], limit, window) == [last.counted > v.resetAt] + [];
  }

  lemma {:induction false} NothingAdmitted(v: Option<Visitor>, es: seq<Event>, limit: int, window: int)
    requires limit <= 0 && (v.Some? ==> v.value.count >= 0)
    ensures var ds := Decisions(v, es, limit, window);
      |ds| == |WithoutSweeps(es)| && forall i :: 0 <= i < |ds| ==> !ds[i]
    decreases |es|
  {
    if es != [] {
      NothingAdmitted(Apply(v, es[0], window), es[1..], limit, window);
    }
  }

  lemma {:induction false} SweepsGone(es: seq<Event>)
    ensures WithoutSweeps(WithoutSweeps(es)) == WithoutSweeps(es)
  {
    if es != [] {
      SweepsGone(es[1..]);
      Cons(None, es[0], WithoutSweeps(es[1..]), 0, 0);
      assert [] + WithoutSweeps(es[1..]) == WithoutSweeps(es[1..]);
    }
  }

  /** Over all runs whose requests lag by at most d, eviction never changes a decision. */
  ghost predicate Invisible(limit: int, window: int, d: nat) {
    forall es, now :: Ordered(es, now) && LagAtMost(es, d) ==>
      Decisions(None, es, limit, window) == Decisions(None, WithoutSweeps(es), limit, window)
  }

  /** That is so if and only if there is no lag, or nothing is ever admitted anyway. */
  lemma EvictionInvisibleExactly(limit: int, window: int, d: nat)
    requires window >= 1
    ensures Invisible(limit, window, d) <==> d == 0 || limit <= 0
  {
    if d == 0 || limit <= 0 {
      forall es, now | Ordered(es, now) && LagAtMost(es, d)
        ensures Decisions(None, es, limit, window) == Decisions(None, WithoutSweeps(es), limit, window)
      {
        if limit <= 0 {
          NothingAdmitted(None, es, limit, window);
          NothingAdmitted(None, WithoutSweeps(es), limit, window);
          SweepsGone(es);
        } else {
          OrderedReadings(es, now);
          EvictionIsInvisible(es, now, limit, window);
        }
      }
    } else {
      var es := SlowRequestSeesEviction(limit, window);
      assert Ordered(es, 0) && LagAtMost(es, d);
    }
  }

  lemma {:induction false} OrderedReadings(es: seq<Event>, now: int)
    requires Ordered(es, now)
    ensures forall i :: 0 <= i < |es| && es[i].Request? ==> es[i].looked <= es[i].counted
  {
    if es != [] {
      OrderedReadings(es[1..], TimeOf(es[0]));
    }
  }

  // ---------- the shared store ----------

  /** The visitors of all clients. Every limiter of the program uses the same ones. */
  class Visitors {
    var entries: map<Str, Visitor>

    constructor ()
      ensures entries == map[]
    {
      entries := map[];
    }

    ghost function Of(ip: Str): Option<Visitor>
      reads this
    {
      if ip in entries then Some(entries[ip]) else None
    }

    /** One sweep: every client sees the same eviction rule. */
    method Evict(now: int)
      modifies this
      ensures forall ip, window :: Of(ip) == Apply(old(Of(ip)), Sweep(now), window)
    {
      var left := entries.Keys;
      while left != {}
        invariant left <= old(entries).Keys && left <= entries.Keys <= old(entries).Keys
        invariant forall ip :: ip in entries ==> entries[ip] == old(entries)[ip]
        invariant forall ip :: ip in old(entries) && ip !in left ==>
          (ip in entries <==> !(now > old(entries)[ip].resetAt))
        decreases left
      {
        var ip :| ip in left;
        if now > entries[ip].resetAt {
          entries := entries - {ip};
        }
        left := left - {ip};
      }
    }
  }

  class Limiter {
    const limit: int
    const window: int
    const visitors: Visitors

    constructor (limit: int, window: int, visitors: Visitors)
      ensures this.limit == limit && this.window == window && this.visitors == visitors
    {
      this.limit, this.window, this.visitors := limit, window, visitors;
    }

    /** One request, as one atomic step: only its own client's visitor changes. */
    method Handle(ip: Str, looked: int, counted: int) returns (admitted: bool)
      modifies visitors
      ensures admitted == Admits(old(visitors.Of(ip)), Request(looked, counted), limit, window)
      ensures visitors.Of(ip) == Apply(old(visitors.Of(ip)), Request(looked, counted), window)
      ensures forall other :: other != ip ==> visitors.Of(other) == old(visitors.Of(other))
    {
      var vs := visitors.entries;
      if ip !in vs {
        vs := vs[ip := Visitor(0, looked + window)];
      }
      var v := vs[ip];
      if counted > v.resetAt {
        v := Visitor(0, counted + window);
      }
      v := v.(count := v.count + 1);
      visitors.entries := vs[ip := v];
      admitted := !(v.count > limit);
    }
  }
}
