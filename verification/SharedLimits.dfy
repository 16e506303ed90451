/** Several rate limiters, with limits and windows of their own, over the one map of visitors that they
    all share (middleware/ratelimit.go). */
module SharedLimits {
  import opened Bytes
  import opened RateLimit
  import opened RoundRobin

  datatype Setting = Setting(limit: int, window: int)

  /** An event at one of the limiters; a sweep may come from any. */
  datatype Turn = Turn(at: nat, e: Event)

  predicate Known(ts: seq<Turn>, settings: seq<Setting>) {
    forall i :: 0 <= i < |ts| ==> ts[i].at < |settings|
  }

  function EventsOf(ts: seq<Turn>): seq<Event> {
    seq(|ts|, i requires 0 <= i < |ts| => ts[i].e)
  }

  /** What one client's turns leave of its visitor. */
  function Left(v: Option<Visitor>, ts: seq<Turn>, settings: seq<Setting>): Option<Visitor>
    requires Known(ts, settings)
    decreases |ts|
  {
    if ts == [] then v else Left(Apply(v, ts[0].e, settings[ts[0].at].window), ts[1..], settings)
  }

  /** One client's requests that a limiter for which `of` holds admits with their counting time in [a, b]. */
  function AdmittedBy(v: Option<Visitor>, ts: seq<Turn>, settings: seq<Setting>, of: nat -> bool, a: int, b: int): nat
    requires Known(ts, settings)
    decreases |ts|
  {
    if ts == [] then 0
    else
      var t := ts[0];
      var s := settings[t.at];
      (if of(t.at) && Admits(v, t.e, s.limit, s.window) && a <= TimeOf(t.e) <= b then 1 else 0)
      + AdmittedBy(Apply(v, t.e, s.window), ts[1..], settings, of, a, b)
  }

  // ---------- what holds in spite of sharing ----------

  /** No limiter that counts has a limit above this one. */
  predicate LimitsUpTo(settings: seq<Setting>, of: nat -> bool, limit: int) {
    forall i :: 0 <= i < |settings| && of(i) ==> settings[i].limit <= limit
  }

  /** No window is below this one. */
  predicate WindowsFrom(settings: seq<Setting>, window: int) {
    forall i :: 0 <= i < |settings| ==> settings[i].window >= window
  }

  lemma {:induction false} SharedWithinBudget(v: Option<Visitor>, ts: seq<Turn>, settings: seq<Setting>,
                                              of: nat -> bool, now: int, limit: int, window: int, a: int, b: int)
    requires Known(ts, settings) && LimitsUpTo(settings, of, limit) && WindowsFrom(settings, window) && window > 0
    requires Ordered(EventsOf(ts), now) && b - a <= window && (v.Some? ==> v.value.count >= 0)
    ensures AdmittedBy(v, ts, settings, of, a, b) <= Budget(v, now, limit, a, b)
    decreases |ts|
  {
    if ts != [] {
      var t, s := ts[0], settings[ts[0].at];
      assert EventsOf(ts)[1..] == EventsOf(ts[1..]);
      SharedWithinBudget(Apply(v, t.e, s.window), ts[1..], settings, of, TimeOf(t.e), limit, window, a, b);
    }
  }

  /** In any closed interval as long as the smallest window of all, any set of limiters together admits
      at most twice the largest limit in the set of one client's requests: one limiter at most twice its
      own limit. */
  lemma TwiceTheLargestLimit(ts: seq<Turn>, settings: seq<Setting>, of: nat -> bool, now: int,
                             limit: int, window: int, a: int, b: int)
    requires Known(ts, settings) && LimitsUpTo(settings, of, limit) && WindowsFrom(settings, window) && window > 0
    requires Ordered(EventsOf(ts), now) && b - a <= window
    ensures AdmittedBy(None, ts, settings, of, a, b) <= 2 * Pos(limit)
  {
    SharedWithinBudget(None, ts, settings, of, now, limit, window, a, b);
  }

  // ---------- a limiter's own limit in its own window ----------

  function Is(own: nat): nat -> bool {
    (i: nat) => i == own
  }

  /** The other windows are at most one shorter than the own one. */
  predicate OthersLongEnough(settings: seq<Setting>, own: nat)
    requires own < |settings|
  {
    forall j :: 0 <= j < |settings| && j != own ==> settings[j].window >= settings[own].window - 1
  }

  lemma {:induction false} OwnWithinBudget(v: Option<Visitor>, ts: seq<Turn>, settings: seq<Setting>, own: nat,
                                           now: int, a: int, b: int)
    requires own < |settings| && WindowsFrom(settings, 1) && OthersLongEnough(settings, own)
    requires Known(ts, settings) && Ordered(EventsOf(ts), now) && b - a <= settings[own].window
    requires v.Some? ==> v.value.count >= 0
    ensures AdmittedBy(v, ts, settings, Is(own), a, b) <= Budget(v, now, settings[own].limit, a, b)
    decreases |ts|
  {
    if ts != [] {
      var t, s := ts[0], settings[ts[0].at];
      assert EventsOf(ts)[1..] == EventsOf(ts[1..]);
      OwnWithinBudget(Apply(v, t.e, s.window), ts[1..], settings, own, TimeOf(t.e), a, b);
    }
  }

  /** As Budget, for a limiter that admits only requests that open a window: its own windows follow each
      other at its own distance, whatever the others do. */
  function OpenersLeft(v: Option<Visitor>, now: int, a: int, b: int): nat {
    if now > b then 0
    else match v
      case None => if now >= a then 1 else 2
      case Some(w) => if w.resetAt >= b then 0 else if w.resetAt >= a then 1 else 2
  }

  lemma {:induction false} OpenersWithin(v: Option<Visitor>, ts: seq<Turn>, settings: seq<Setting>, own: nat,
                                         now: int, a: int, b: int)
    requires own < |settings| && WindowsFrom(settings, 1) && settings[own].limit <= 1
    requires Known(ts, settings) && Ordered(EventsOf(ts), now) && b - a <= settings[own].window
    requires v.Some? ==> v.value.count >= 1
    ensures AdmittedBy(v, ts, settings, Is(own), a, b) <=
            if settings[own].limit <= 0 then 0 else OpenersLeft(v, now, a, b)
    decreases |ts|
  {
    if ts != [] {
      var t, s := ts[0], settings[ts[0].at];
      assert EventsOf(ts)[1..] == EventsOf(ts[1..]);
      OpenersWithin(Apply(v, t.e, s.window), ts[1..], settings, own, TimeOf(t.e), a, b);
    }
  }


  // ---------- runs that spend several windows ----------

  /** n prompt requests at the limiter `own`, all at t. */
  function Filling(own: nat, n: nat, t: int): seq<Turn> {
    if n == 0 then [] else [Turn(own, Request(t, t))] + Filling(own, n - 1, t)
  }

  lemma {:induction false} FillingFills(v: Visitor, settings: seq<Setting>, own: nat, n: nat, t: int, a: int, b: int)
    requires own < |settings| && t <= v.resetAt && a <= t <= b && v.count + n <= settings[own].limit
    ensures Known(Filling(own, n, t), settings)
    ensures AdmittedBy(Some(v), Filling(own, n, t), settings, Is(own), a, b) == n
    ensures Left(Some(v), Filling(own, n, t), settings) == Some(v.(count := v.count + n))
    decreases n
  {
    if n > 0 {
      FillingFills(v.(count := v.count + 1), settings, own, n - 1, t, a, b);
      assert Filling(own, n, t)[1..] == Filling(own, n - 1, t);
    }
  }

  lemma {:induction false} TurnsJoin(v: Option<Visitor>, xs: seq<Turn>, ys: seq<Turn>, settings: seq<Setting>,
                                     of: nat -> bool, a: int, b: int)
    requires Known(xs, settings) && Known(ys, settings)
    ensures Known(xs + ys, settings)
    ensures AdmittedBy(v, xs + ys, settings, of, a, b) ==
            AdmittedBy(v, xs, settings, of, a, b) + AdmittedBy(Left(v, xs, settings), ys, settings, of, a, b)
    ensures Left(v, xs + ys, settings) == Left(Left(v, xs, settings), ys, settings)
    decreases |xs|
  {
    if xs == [] {
      assert xs + ys == ys;
    } else {
      assert (xs + ys)[1..] == xs[1..] + ys;
      TurnsJoin(Apply(v, xs[0].e, settings[xs[0].at].window), xs[1..], ys, settings, of, a, b);
    }
  }

  lemma {:induction false} LastIsLatest(xs: seq<Turn>, from: int)
    requires xs != [] && Ordered(EventsOf(xs), from)
    ensures from <= TimeOf(xs[|xs| - 1].e)
  {
    if |xs| > 1 {
      assert EventsOf(xs)[1..] == EventsOf(xs[1..]);
      LastIsLatest(xs[1..], TimeOf(xs[0].e));
    }
  }

  lemma {:induction false} OrderedJoin(xs: seq<Turn>, ys: seq<Turn>, from: int, mid: int)
    requires Ordered(EventsOf(xs), from) && Ordered(EventsOf(ys), mid) && from <= mid
    requires xs != [] ==> TimeOf(xs[|xs| - 1].e) <= mid
    ensures Ordered(EventsOf(xs + ys), from)
    decreases |xs|
  {
    if xs == [] {
      assert xs + ys == ys;
    } else {
      var t := TimeOf(xs[0].e);
      assert EventsOf(xs)[1..] == EventsOf(xs[1..]) && EventsOf(xs + ys)[1..] == EventsOf(xs[1..] + ys);
      if |xs| > 1 {
        LastIsLatest(xs[1..], t);
        OrderedJoin(xs[1..], ys, t, mid);
      } else {
        assert xs[1..] + ys == ys;
      }
    }
  }

  lemma {:induction false} FillingIsOrdered(own: nat, n: nat, t: int)
    ensures Ordered(EventsOf(Filling(own, n, t)), t)
    ensures n > 0 ==> |Filling(own, n, t)| > 0 && TimeOf(Filling(own, n, t)[|Filling(own, n, t)| - 1].e) == t
  {
    if n > 0 {
      FillingIsOrdered(own, n - 1, t);
      assert EventsOf(Filling(own, n, t))[1..] == EventsOf(Filling(own, n - 1, t));
      if n > 1 {
        assert Filling(own, n, t)[|Filling(own, n, t)| - 1] == Filling(own, n - 1, t)[|Filling(own, n - 1, t)| - 1];
      }
    }
  }

  /** A request opens a window, and the limiter `own` spends what is left of it at once. */
  function Round(opener: Turn, own: nat, n: nat): seq<Turn> {
    [opener] + Filling(own, n, TimeOf(opener.e))
  }

  /** What a round that opens a window admits and leaves. */
  lemma RoundAdmits(v: Option<Visitor>, opener: Turn, settings: seq<Setting>, own: nat, n: nat, a: int, b: int)
    requires own < |settings| && opener.at < |settings| && opener.e.Request? && a <= opener.e.counted <= b
    requires opener.e.looked <= opener.e.counted
    requires var w := settings[opener.at].window;
      && w > 0 && Opens(v, opener.e)
      && (v.Some? || opener.e.counted <= opener.e.looked + w)
    requires settings[own].limit == 1 + n
    ensures var round, w := Round(opener, own, n), settings[opener.at].window;
      && Known(round, settings) && Ordered(EventsOf(round), opener.e.looked)
      && TimeOf(round[|round| - 1].e) == opener.e.counted
      && AdmittedBy(v, round, settings, Is(own), a, b) == n + (if opener.at == own then 1 else 0)
      && Left(v, round, settings) ==
           Some(Visitor(1 + n, (if v.Some? then opener.e.counted else opener.e.looked) + w))
  {
    var t, w := opener.e.counted, settings[opener.at].window;
    var fill := Filling(own, n, t);
    var first := Visitor(1, (if v.Some? then t else opener.e.looked) + w);
    assert Apply(v, opener.e, w) == Some(first);
    FillingFills(first, settings, own, n, t, a, b);
    FillingIsOrdered(own, n, t);
    InFront(v, opener, fill, settings, Is(own), a, b);
  }

  /** One turn before others. */
  lemma InFront(v: Option<Visitor>, t: Turn, ts: seq<Turn>, settings: seq<Setting>, of: nat -> bool, a: int, b: int)
    requires t.at < |settings| && Known(ts, settings)
    ensures Known([t] + ts, settings)
    ensures var s, v' := settings[t.at], Apply(v, t.e, settings[t.at].window);
      && Left(v, [t] + ts, settings) == Left(v', ts, settings)
      && AdmittedBy(v, [t] + ts, settings, of, a, b) ==
           (if of(t.at) && Admits(v, t.e, s.limit, s.window) && a <= TimeOf(t.e) <= b then 1 else 0)
           + AdmittedBy(v', ts, settings, of, a, b)
    ensures forall from :: from <= Earliest(t.e) <= TimeOf(t.e) && Ordered(EventsOf(ts), TimeOf(t.e)) ==>
      Ordered(EventsOf([t] + ts), from)
    ensures ([t] + ts)[|ts|] == if ts == [] then t else ts[|ts| - 1]
  {
    assert ([t] + ts)[1..] == ts && EventsOf([t] + ts)[1..] == EventsOf(ts);
  }

  /** Next round after a run, once the run's last window is over. */
  lemma OneRoundMore(ts: seq<Turn>, settings: seq<Setting>, own: nat, n: nat, opener: Turn, v: Visitor, k: nat,
                     from: int, a: int, b: int)
    requires own < |settings| && opener.at < |settings| && opener.e.Request? && a <= opener.e.counted <= b
    requires opener.e.looked == opener.e.counted > v.resetAt && settings[opener.at].window > 0
    requires settings[own].limit == 1 + n
    requires Known(ts, settings) && Ordered(EventsOf(ts), from) && Left(None, ts, settings) == Some(v)
    requires ts != [] && TimeOf(ts[|ts| - 1].e) <= opener.e.counted && from <= opener.e.counted
    requires AdmittedBy(None, ts, settings, Is(own), a, b) == k
    ensures var more, w := ts + Round(opener, own, n), settings[opener.at].window;
      && Known(more, settings) && Ordered(EventsOf(more), from) && more != []
      && TimeOf(more[|more| - 1].e) == opener.e.counted
      && AdmittedBy(None, more, settings, Is(own), a, b) == k + n + (if opener.at == own then 1 else 0)
      && Left(None, more, settings) == Some(Visitor(1 + n, opener.e.counted + w))
  {
    var round := Round(opener, own, n);
    RoundAdmits(Some(v), opener, settings, own, n, a, b);
    TurnsJoin(None, ts, round, settings, Is(own), a, b);
    OrderedJoin(ts, round, from, opener.e.counted);
  }

  // ---------- exactly when the own bound holds ----------

  /** Three windows meet one interval: an own one that a slow request opened early and that is spent at its
      end, a short one of another limiter that the own one fills up, and an own one again. */
  lemma ThreeWindows(settings: seq<Setting>, own: nat, other: nat) returns (ts: seq<Turn>)
    requires own < |settings| && other < |settings| && own != other
    requires settings[own].limit >= 2 && 0 < settings[other].window <= settings[own].window - 2
    ensures Known(ts, settings) && Ordered(EventsOf(ts), 0)
    ensures var w := settings[own].window;
      AdmittedBy(None, ts, settings, Is(own), w, w + w) == 3 * settings[own].limit - 1
  {
    var l, w, w' := settings[own].limit, settings[own].window, settings[other].window;
    var two := TwoOfThree(settings, own, other);
    var third := Turn(own, Request(w + w' + 2, w + w' + 2));
    OneRoundMore(two, settings, own, l - 1, third, Visitor(l, w + 1 + w'), 2 * l - 1, 0, w, w + w);
    ts := two + Round(third, own, l - 1);
  }

  /** The first two of them. */
  lemma TwoOfThree(settings: seq<Setting>, own: nat, other: nat) returns (ts: seq<Turn>)
    requires own < |settings| && other < |settings| && own != other
    requires settings[own].limit >= 2 && 0 < settings[other].window && 0 < settings[own].window
    ensures Known(ts, settings) && Ordered(EventsOf(ts), 0) && ts != []
    ensures var l, w := settings[own].limit, settings[own].window;
      && TimeOf(ts[|ts| - 1].e) == w + 1
      && Left(None, ts, settings) == Some(Visitor(l, w + 1 + settings[other].window))
      && AdmittedBy(None, ts, settings, Is(own), w, w + w) == 2 * l - 1
  {
    var l, w := settings[own].limit, settings[own].window;
    var first, second := Turn(own, Request(0, w)), Turn(other, Request(w + 1, w + 1));
    RoundAdmits(None, first, settings, own, l - 1, w, w + w);
    ts := Round(first, own, l - 1);
    OneRoundMore(ts, settings, own, l - 1, second, Visitor(l, w), l, 0, w, w + w);
    ts := ts + Round(second, own, l - 1);
  }

  /** On every run, the limiter `own` admits at most twice its limit in any closed interval as
      long as its own window. */
  ghost predicate KeepsOwnBound(settings: seq<Setting>, own: nat)
    requires own < |settings|
  {
    forall ts, now, a, b :: Known(ts, settings) && Ordered(EventsOf(ts), now) && b - a <= settings[own].window ==>
      AdmittedBy(None, ts, settings, Is(own), a, b) <= 2 * Pos(settings[own].limit)
  }

  /** A limiter keeps its own bound next to others if and only if its limit is at most one, or every other
      window is at most one shorter than its own. */
  lemma OwnBoundExactly(settings: seq<Setting>, own: nat)
    requires own < |settings| && WindowsFrom(settings, 1)
    ensures KeepsOwnBound(settings, own) <==> settings[own].limit <= 1 || OthersLongEnough(settings, own)
  {
    var w := settings[own].window;
    if settings[own].limit <= 1 {
      forall ts, now, a, b | Known(ts, settings) && Ordered(EventsOf(ts), now) && b - a <= w
        ensures AdmittedBy(None, ts, settings, Is(own), a, b) <= 2 * Pos(settings[own].limit)
      {
        OpenersWithin(None, ts, settings, own, now, a, b);
      }
    } else if OthersLongEnough(settings, own) {
      forall ts, now, a, b | Known(ts, settings) && Ordered(EventsOf(ts), now) && b - a <= w
        ensures AdmittedBy(None, ts, settings, Is(own), a, b) <= 2 * Pos(settings[own].limit)
      {
        OwnWithinBudget(None, ts, settings, own, now, a, b);
      }
    } else {
      var j :| 0 <= j < |settings| && j != own && settings[j].window < w - 1;
      var ts := ThreeWindows(settings, own, j);
      assert Known(ts, settings) && Ordered(EventsOf(ts), 0);
      assert AdmittedBy(None, ts, settings, Is(own), w, w + w) > 2 * Pos(settings[own].limit);
    }
  }

  /** n windows of another limiter, one right after the other, each filled up by the limiter `own`. */
  lemma {:induction false} FilledRounds(settings: seq<Setting>, own: nat, other: nat, n: nat, b: int)
    returns (ts: seq<Turn>)
    requires own < |settings| && other < |settings| && own != other && n >= 1
    requires settings[own].limit >= 1 && settings[other].window > 0
    requires Times(n - 1, settings[other].window + 1) <= b
    ensures Known(ts, settings) && Ordered(EventsOf(ts), 0) && ts != []
    ensures var t := Times(n - 1, settings[other].window + 1);
      && TimeOf(ts[|ts| - 1].e) == t
      && Left(None, ts, settings) == Some(Visitor(settings[own].limit, t + settings[other].window))
    ensures AdmittedBy(None, ts, settings, Is(own), 0, b) == Times(n, settings[own].limit - 1)
  {
    var l, w := settings[own].limit, settings[other].window;
    var t := Times(n - 1, w + 1);
    var opener := Turn(other, Request(t, t));
    if n == 1 {
      ts := Round(opener, own, l - 1);
      RoundAdmits(None, opener, settings, own, l - 1, 0, b);
    } else {
      var before := Times(n - 2, w + 1);
      ts := FilledRounds(settings, own, other, n - 1, b);
      OneRoundMore(ts, settings, own, l - 1, opener, Visitor(l, before + w), Times(n - 1, l - 1), 0, 0, b);
      ts := ts + Round(opener, own, l - 1);
    }
  }

  /** How far the own bound may fail: n times the own limit less one are admitted within n - 1 windows of
      another limiter, however long the own window is that all of them fall into. */
  lemma ManyWindowsInOne(settings: seq<Setting>, own: nat, other: nat, n: nat) returns (ts: seq<Turn>)
    requires own < |settings| && other < |settings| && own != other && n >= 1
    requires settings[own].limit >= 1 && settings[other].window > 0
    ensures Known(ts, settings) && Ordered(EventsOf(ts), 0)
    ensures AdmittedBy(None, ts, settings, Is(own), 0, (n - 1) * (settings[other].window + 1)) ==
            n * (settings[own].limit - 1)
  {
    TimesIs(n - 1, settings[other].window + 1);
    TimesIs(n, settings[own].limit - 1);
    ts := FilledRounds(settings, own, other, n, (n - 1) * (settings[other].window + 1));
  }
}
