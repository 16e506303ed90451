/** Connection accounting of the TCP proxy (proxy/tcp.go) as interleaved steps: accept loops that
    check the cap and then count, and handlers that uncount when they unwind. */
module TcpAccounting {
  import opened Bytes

  /** Where an accept loop is. Past the check it holds an accepted connection, which it takes
      through the wait group, the active and the total counter before starting its handler. */
  datatype Loop = AtAccept | PassedCheck | AfterWait | AfterActive | AfterTotal | Ended

  /** Where a handler is. Its client connection is closed last of all before active.Add(-1), so it counts
      as open up to then. */
  datatype Phase =
    | Running
    | Relaying(target: nat)  // target.active.Add(1) done
    | Unwound                // target.active.Add(-1) done, the client perhaps still open
    | Uncounted              // client closed, active.Add(-1) done
    | Finished               // conns.Done() done

  datatype State = State(loops: seq<Loop>, conns: seq<Phase>, active: int, total: int, wait: int, targets: seq<int>)

  datatype Step =
    | Reject(loop: nat) | Pass(loop: nat) | WaitAdd(loop: nat) | ActiveAdd(loop: nat) | TotalAdd(loop: nat)
    | Spawn(loop: nat) | EndLoop(loop: nat)
    | Dialed(conn: nat, target: nat) | GaveUp(conn: nat)
    | RelayDone(conn: nat) | ActiveSub(conn: nat) | WaitDone(conn: nat)

  function Init(loops: nat, targets: nat): State {
    State(seq(loops, _ => AtAccept), [], 0, 0, 0, seq(targets, _ => 0))
  }

  predicate Full(s: State, max: int) {
    max > 0 && s.active >= max
  }

  predicate LoopAt(s: State, k: nat, at: Loop) {
    k < |s.loops| && s.loops[k] == at
  }

  predicate ConnAt(s: State, i: nat, at: Phase) {
    i < |s.conns| && s.conns[i] == at
  }

  function MoveLoop(s: State, k: nat, from: Loop, to: Loop): Option<State> {
    if LoopAt(s, k, from) then Some(s.(loops := s.loops[k := to])) else None
  }

  function MoveConn(s: State, i: nat, from: Phase, to: Phase): Option<State> {
    if ConnAt(s, i, from) then Some(s.(conns := s.conns[i := to])) else None
  }

  function AddTarget(s: State, t: nat, d: int): State
    requires t < |s.targets|
  {
    s.(targets := s.targets[t := s.targets[t] + d])
  }

  /** One instruction of one goroutine; None when it is not that goroutine's next one. A handler
      that gives up was turned away by the hook, found no target or failed to dial. */
  function Do(s: State, step: Step, max: int): Option<State> {
    match step
    case Reject(k) => if LoopAt(s, k, AtAccept) && Full(s, max) then Some(s) else None
    case Pass(k) => if Full(s, max) then None else MoveLoop(s, k, AtAccept, PassedCheck)
    case WaitAdd(k) => MoveLoop(s.(wait := s.wait + 1), k, PassedCheck, AfterWait)
    case ActiveAdd(k) => MoveLoop(s.(active := s.active + 1), k, AfterWait, AfterActive)
    case TotalAdd(k) => MoveLoop(s.(total := s.total + 1), k, AfterActive, AfterTotal)
    case Spawn(k) => MoveLoop(s.(conns := s.conns + [Running]), k, AfterTotal, AtAccept)
    case EndLoop(k) => MoveLoop(s, k, AtAccept, Ended)
    case Dialed(i, t) => if t < |s.targets| then MoveConn(AddTarget(s, t, 1), i, Running, Relaying(t)) else None
    case GaveUp(i) => MoveConn(s, i, Running, Unwound)
    case RelayDone(i) =>
      if i < |s.conns| && s.conns[i].Relaying? && s.conns[i].target < |s.targets|
      then MoveConn(AddTarget(s, s.conns[i].target, -1), i, s.conns[i], Unwound) else None
    case ActiveSub(i) => MoveConn(s.(active := s.active - 1), i, Unwound, Uncounted)
    case WaitDone(i) => MoveConn(s.(wait := s.wait - 1), i, Uncounted, Finished)
  }

  /** A run: every step is enabled where it is taken. */
  function Exec(s: State, steps: seq<Step>, max: int): Option<State> {
    if steps == [] then Some(s)
    else
      var before := Exec(s, steps[..|steps| - 1], max);
      if before.None? then None else Do(before.value, steps[|steps| - 1], max)
  }

  /** A loop with a connection turns it away if and only if there is a positive cap that is reached, and
      lets it pass otherwise: without a cap, always. */
  lemma AcceptExactly(s: State, k: nat, max: int)
    requires k < |s.loops| && s.loops[k] == AtAccept
    ensures Do(s, Reject(k), max) == if max > 0 && s.active >= max then Some(s) else None
    ensures Do(s, Pass(k), max).Some? <==> !(max > 0 && s.active >= max)
    ensures max <= 0 ==> Do(s, Pass(k), max) == Some(s.(loops := s.loops[k := PassedCheck]))
  {
  }

  /** A handler can always take its next step. */
  lemma HandlerGoesOn(s: State, i: nat, t: nat, max: int)
    requires i < |s.conns| && t < |s.targets|
    ensures s.conns[i] == Running ==> Do(s, GaveUp(i), max).Some? && Do(s, Dialed(i, t), max).Some?
    ensures s.conns[i] == Relaying(t) ==> Do(s, RelayDone(i), max).Some?
    ensures s.conns[i] == Unwound ==> Do(s, ActiveSub(i), max).Some?
    ensures s.conns[i] == Uncounted ==> Do(s, WaitDone(i), max).Some?
  {
  }

  // ---------- counting ----------

  function B(b: bool): nat {
    if b then 1 else 0
  }

  function Count<T>(xs: seq<T>, p: T -> bool): (n: nat)
    ensures n <= |xs|
  {
    if xs == [] then 0 else Count(xs[..|xs| - 1], p) + B(p(xs[|xs| - 1]))
  }

  lemma {:induction false} CountSet<T>(xs: seq<T>, i: nat, x: T, p: T -> bool)
    requires i < |xs|
    ensures Count(xs[i := x], p) == Count(xs, p) - B(p(xs[i])) + B(p(x))
  {
    var n := |xs| - 1;
    if i < n {
      CountSet(xs[..n], i, x, p);
      assert xs[i := x][..n] == xs[..n][i := x];
    } else {
      assert xs[i := x][..n] == xs[..n];
    }
  }

  lemma CountAdd<T>(xs: seq<T>, x: T, p: T -> bool)
    ensures Count(xs + [x], p) == Count(xs, p) + B(p(x))
  {
    assert (xs + [x])[..|xs|] == xs;
  }

  lemma {:induction false} CountNone<T>(xs: seq<T>, p: T -> bool)
    requires Count(xs, p) == 0
    ensures forall i :: 0 <= i < |xs| ==> !p(xs[i])
  {
    if xs != [] {
      CountNone(xs[..|xs| - 1], p);
    }
  }

  lemma {:induction false} CountLeq<T>(xs: seq<T>, p: T -> bool, q: T -> bool)
    requires forall x :: x in xs && p(x) ==> q(x)
    ensures Count(xs, p) <= Count(xs, q)
  {
    if xs != [] {
      CountLeq(xs[..|xs| - 1], p, q);
    }
  }

  const Pending: Loop -> bool := (l: Loop) => l.PassedCheck? || l.AfterWait?
  const InActive: Loop -> bool := (l: Loop) => l.AfterActive? || l.AfterTotal?
  const InWait: Loop -> bool := (l: Loop) => l.AfterWait? || l.AfterActive? || l.AfterTotal?
  const InTotal: Loop -> bool := (l: Loop) => l.AfterTotal?
  const Live: Phase -> bool := (c: Phase) => c.Running? || c.Relaying? || c.Unwound?
  const Unfinished: Phase -> bool := (c: Phase) => !c.Finished?

  function RelaysTo(t: nat): Phase -> bool {
    (c: Phase) => c == Relaying(t)
  }

  /** Client connections that are open and were not turned away. */
  function OpenConnections(s: State): nat {
    Count(s.loops, Pending) + Count(s.loops, InActive) + Count(s.conns, Live)
  }

  /** Every counter counts what it is meant to. */
  ghost predicate Counted(s: State) {
    && s.active == Count(s.loops, InActive) + Count(s.conns, Live)
    && s.wait == Count(s.loops, InWait) + Count(s.conns, Unfinished)
    && s.total == Count(s.loops, InTotal) + |s.conns|
    && (forall t :: 0 <= t < |s.targets| ==> s.targets[t] == Count(s.conns, RelaysTo(t)))
    && (forall i :: 0 <= i < |s.conns| && s.conns[i].Relaying? ==> s.conns[i].target < |s.targets|)
  }

  /** With n accept loops, at most n - 1 connections slip in past the cap. */
  ghost predicate Capped(s: State, max: int) {
    max > 0 ==> s.active + Count(s.loops, Pending) <= max + |s.loops| - 1
  }

  lemma LoopMoved(s: State, k: nat, to: Loop)
    requires k < |s.loops|
    ensures var l, from := s.loops[k := to], s.loops[k];
      && Count(l, Pending) == Count(s.loops, Pending) - B(Pending(from)) + B(Pending(to))
      && Count(l, InActive) == Count(s.loops, InActive) - B(InActive(from)) + B(InActive(to))
      && Count(l, InWait) == Count(s.loops, InWait) - B(InWait(from)) + B(InWait(to))
      && Count(l, InTotal) == Count(s.loops, InTotal) - B(InTotal(from)) + B(InTotal(to))
  {
    CountSet(s.loops, k, to, Pending);
    CountSet(s.loops, k, to, InActive);
    CountSet(s.loops, k, to, InWait);
    CountSet(s.loops, k, to, InTotal);
  }

  lemma ConnMoved(s: State, i: nat, to: Phase)
    requires i < |s.conns|
    ensures var c, from := s.conns[i := to], s.conns[i];
      && Count(c, Live) == Count(s.conns, Live) - B(Live(from)) + B(Live(to))
      && Count(c, Unfinished) == Count(s.conns, Unfinished) - B(Unfinished(from)) + B(Unfinished(to))
      && forall t :: Count(c, RelaysTo(t)) ==
           Count(s.conns, RelaysTo(t)) - B(from == Relaying(t)) + B(to == Relaying(t))
  {
    CountSet(s.conns, i, to, Live);
    CountSet(s.conns, i, to, Unfinished);
    forall t: nat ensures Count(s.conns[i := to], RelaysTo(t)) ==
      Count(s.conns, RelaysTo(t)) - B(s.conns[i] == Relaying(t)) + B(to == Relaying(t))
    {
      CountSet(s.conns, i, to, RelaysTo(t));
    }
  }

  lemma ConnAdded(s: State)
    ensures var c := s.conns + [Running];
      && Count(c, Live) == Count(s.conns, Live) + 1
      && Count(c, Unfinished) == Count(s.conns, Unfinished) + 1
      && forall t :: Count(c, RelaysTo(t)) == Count(s.conns, RelaysTo(t))
  {
    CountAdd(s.conns, Running, Live);
    CountAdd(s.conns, Running, Unfinished);
    forall t: nat ensures Count(s.conns + [Running], RelaysTo(t)) == Count(s.conns, RelaysTo(t)) {
      CountAdd(s.conns, Running, RelaysTo(t));
    }
  }

  lemma LoopStepKeeps(s: State, step: Step, max: int)
    requires Counted(s) && Capped(s, max) && Do(s, step, max).Some? && !IsConnStep(step)
    ensures Counted(Do(s, step, max).value) && Capped(Do(s, step, max).value, max)
    ensures |Do(s, step, max).value.loops| == |s.loops| && |Do(s, step, max).value.targets| == |s.targets|
  {
    var s' := Do(s, step, max).value;
    if !step.Reject? {
      LoopMoved(s, step.loop, s'.loops[step.loop]);
    }
    if step.Spawn? {
      ConnAdded(s);
    }
    if step.Pass? {
      CountSpare(s.loops, step.loop, Pending);
    }
  }

  /** An element that does not satisfy p leaves the count below the length. */
  lemma {:induction false} CountSpare<T>(xs: seq<T>, i: nat, p: T -> bool)
    requires i < |xs| && !p(xs[i])
    ensures Count(xs, p) <= |xs| - 1
  {
    if i < |xs| - 1 {
      CountSpare(xs[..|xs| - 1], i, p);
    }
  }

  predicate IsConnStep(step: Step) {
    step.Dialed? || step.GaveUp? || step.RelayDone? || step.ActiveSub? || step.WaitDone?
  }

  lemma ConnStepKeeps(s: State, step: Step, max: int)
    requires Counted(s) && Capped(s, max) && Do(s, step, max).Some? && IsConnStep(step)
    ensures Counted(Do(s, step, max).value) && Capped(Do(s, step, max).value, max)
    ensures |Do(s, step, max).value.loops| == |s.loops| && |Do(s, step, max).value.targets| == |s.targets|
  {
    var s' := Do(s, step, max).value;
    ConnMoved(s, step.conn, s'.conns[step.conn]);
    TargetsFollow(s, step, max);
  }

  lemma TargetsFollow(s: State, step: Step, max: int)
    requires Counted(s) && Do(s, step, max).Some? && IsConnStep(step)
    ensures var s' := Do(s, step, max).value;
      forall t :: 0 <= t < |s.targets| ==>
        s'.targets[t] == s.targets[t] - B(s.conns[step.conn] == Relaying(t)) + B(s'.conns[step.conn] == Relaying(t))
  {
  }

  lemma {:induction false} InitCounts(loops: nat, targets: nat)
    ensures Counted(Init(loops, targets))
    ensures Count(Init(loops, targets).loops, Pending) == 0
    ensures loops > 0 ==> forall max :: Capped(Init(loops, targets), max)
  {
    NoneAtStart(loops, Pending);
    NoneAtStart(loops, InActive);
    NoneAtStart(loops, InWait);
    NoneAtStart(loops, InTotal);
  }

  lemma {:induction false} NoneAtStart(loops: nat, p: Loop -> bool)
    requires !p(AtAccept)
    ensures Count(seq(loops, _ => AtAccept), p) == 0
  {
    if loops > 0 {
      assert seq(loops, _ => AtAccept)[..loops - 1] == seq(loops - 1, _ => AtAccept);
      NoneAtStart(loops - 1, p);
    }
  }

  lemma {:induction false} RunKeeps(loops: nat, targets: nat, steps: seq<Step>, max: int)
    requires loops > 0 && Exec(Init(loops, targets), steps, max).Some?
    ensures var s := Exec(Init(loops, targets), steps, max).value;
      Counted(s) && Capped(s, max) && |s.loops| == loops && |s.targets| == targets
  {
    if steps == [] {
      InitCounts(loops, targets);
    } else {
      var init, step := steps[..|steps| - 1], steps[|steps| - 1];
      RunKeeps(loops, targets, init, max);
      var s := Exec(Init(loops, targets), init, max).value;
      if IsConnStep(step) {
        ConnStepKeeps(s, step, max);
      } else {
        LoopStepKeeps(s, step, max);
      }
    }
  }

  // ---------- what follows for every run ----------

  /** In every reachable state the counters are exact, and a positive cap is exceeded by at most
      the number of accept loops beyond the first: never, with a single one. */
  lemma CapHolds(loops: nat, targets: nat, steps: seq<Step>, max: int)
    requires loops > 0 && Exec(Init(loops, targets), steps, max).Some?
    ensures var s := Exec(Init(loops, targets), steps, max).value;
      && Counted(s)
      && (max > 0 ==> OpenConnections(s) <= max + loops - 1)
      && (max > 0 && loops == 1 ==> OpenConnections(s) <= max && s.active <= max)
  {
    RunKeeps(loops, targets, steps, max);
    var s := Exec(Init(loops, targets), steps, max).value;
  }

  /** When the wait group drains, nothing is left behind in any counter, and every connection
      ever counted has finished. */
  lemma DrainedIsClean(loops: nat, targets: nat, steps: seq<Step>, max: int)
    requires loops > 0 && Exec(Init(loops, targets), steps, max).Some?
    ensures var s := Exec(Init(loops, targets), steps, max).value;
      s.wait == 0 ==>
        && s.active == 0 && s.total == |s.conns|
        && (forall t :: 0 <= t < |s.targets| ==> s.targets[t] == 0)
        && (forall i :: 0 <= i < |s.conns| ==> s.conns[i].Finished?)
  {
    RunKeeps(loops, targets, steps, max);
    var s := Exec(Init(loops, targets), steps, max).value;
    if s.wait == 0 {
      CountLeq(s.loops, InActive, InWait);
      CountLeq(s.loops, InTotal, InWait);
      CountLeq(s.conns, Live, Unfinished);
      CountNone(s.conns, Unfinished);
      forall t: nat | t < |s.targets| ensures s.targets[t] == 0 {
        CountLeq(s.conns, RelaysTo(t), Unfinished);
      }
    }
  }

  const JustActive: Loop -> bool := (l: Loop) => l.AfterActive?
  const Uncounting: Phase -> bool := (c: Phase) => c.Uncounted? || c.Finished?

  /** active is the connections counted as accepted minus those that have finished; an accept
      loop between its two increments accounts for the only difference. */
  lemma ActiveIsAcceptedMinusFinished(loops: nat, targets: nat, steps: seq<Step>, max: int)
    requires loops > 0 && Exec(Init(loops, targets), steps, max).Some?
    ensures var s := Exec(Init(loops, targets), steps, max).value;
      s.active == s.total - Count(s.conns, Uncounting) + Count(s.loops, JustActive)
  {
    RunKeeps(loops, targets, steps, max);
    var s := Exec(Init(loops, targets), steps, max).value;
    CountParts(s.conns, Live, Uncounting, Anything);
    CountParts(s.loops, JustActive, InTotal, InActive);
    CountAll(s.conns);
  }

  const Anything: Phase -> bool := (c: Phase) => true

  lemma {:induction false} CountAll(cs: seq<Phase>)
    ensures Count(cs, Anything) == |cs|
  {
    if cs != [] {
      CountAll(cs[..|cs| - 1]);
    }
  }

  lemma {:induction false} CountParts<T>(xs: seq<T>, p: T -> bool, q: T -> bool, whole: T -> bool)
    requires forall x :: x in xs ==> (whole(x) <==> p(x) || q(x)) && !(p(x) && q(x))
    ensures Count(xs, whole) == Count(xs, p) + Count(xs, q)
  {
    if xs != [] {
      CountParts(xs[..|xs| - 1], p, q, whole);
    }
  }

  // ---------- the bound is reached ----------

  lemma ExecNext(s: State, steps: seq<Step>, step: Step, max: int)
    requires Exec(s, steps, max).Some?
    ensures Exec(s, steps + [step], max) == Do(Exec(s, steps, max).value, step, max)
  {
    assert (steps + [step])[..|steps|] == steps;
  }

  /** n connections accepted and running, and the first j accept loops past the check. */
  function Reached(loops: nat, targets: nat, n: nat, j: nat): State {
    State(seq(loops, i => if i < j then PassedCheck else AtAccept), seq(n, _ => Running), n, n, n, seq(targets, _ => 0))
  }

  /** The first accept loop at some point, the others waiting for a connection. */
  function FirstAt(loops: nat, l: Loop): seq<Loop>
    requires loops > 0
  {
    [l] + seq(loops - 1, _ => AtAccept)
  }

  lemma Moves(s: State, loops: nat, from: Loop, to: Loop)
    requires loops > 0 && s.loops == FirstAt(loops, from)
    ensures MoveLoop(s, 0, from, to) == Some(s.(loops := FirstAt(loops, to)))
  {
    assert s.loops[0 := to] == FirstAt(loops, to);
  }

  lemma Extends(s: State, steps: seq<Step>, r: State, step: Step, r': State, max: int)
    requires Exec(s, steps, max) == Some(r) && Do(r, step, max) == Some(r')
    ensures Exec(s, steps + [step], max) == Some(r')
  {
    ExecNext(s, steps, step, max);
  }

  /** One more connection taken all the way by the first accept loop. */
  lemma OneMoreRunning(s: State, r: State, loops: nat, max: int, steps: seq<Step>) returns (more: seq<Step>)
    requires loops > 0 && (max <= 0 || r.active < max)
    requires Exec(s, steps, max) == Some(r) && r.loops == FirstAt(loops, AtAccept)
    ensures Exec(s, more, max) == Some(
      State(r.loops, r.conns + [Running], r.active + 1, r.total + 1, r.wait + 1, r.targets))
  {
    Moves(r, loops, AtAccept, PassedCheck);
    var r1 := r.(loops := FirstAt(loops, PassedCheck));
    Extends(s, steps, r, Pass(0), r1, max);
    Moves(r1.(wait := r.wait + 1), loops, PassedCheck, AfterWait);
    var r2 := r1.(loops := FirstAt(loops, AfterWait), wait := r.wait + 1);
    Extends(s, steps + [Pass(0)], r1, WaitAdd(0), r2, max);
    more := CountsAndSpawns(s, r2, loops, max, steps + [Pass(0)] + [WaitAdd(0)]);
  }

  lemma CountsAndSpawns(s: State, r: State, loops: nat, max: int, steps: seq<Step>) returns (more: seq<Step>)
    requires loops > 0 && Exec(s, steps, max) == Some(r) && r.loops == FirstAt(loops, AfterWait)
    ensures Exec(s, more, max) == Some(
      State(FirstAt(loops, AtAccept), r.conns + [Running], r.active + 1, r.total + 1, r.wait, r.targets))
  {
    Moves(r.(active := r.active + 1), loops, AfterWait, AfterActive);
    var r1 := r.(loops := FirstAt(loops, AfterActive), active := r.active + 1);
    Extends(s, steps, r, ActiveAdd(0), r1, max);
    Moves(r1.(total := r.total + 1), loops, AfterActive, AfterTotal);
    var r2 := r1.(loops := FirstAt(loops, AfterTotal), total := r.total + 1);
    Extends(s, steps + [ActiveAdd(0)], r1, TotalAdd(0), r2, max);
    Moves(r2.(conns := r.conns + [Running]), loops, AfterTotal, AtAccept);
    var r3 := r2.(loops := FirstAt(loops, AtAccept), conns := r.conns + [Running]);
    Extends(s, steps + [ActiveAdd(0)] + [TotalAdd(0)], r2, Spawn(0), r3, max);
    more := steps + [ActiveAdd(0)] + [TotalAdd(0)] + [Spawn(0)];
  }

  lemma {:induction false} AllRunning(loops: nat, targets: nat, max: int, n: nat) returns (steps: seq<Step>)
    requires loops > 0 && (max <= 0 || n <= max)
    ensures Exec(Init(loops, targets), steps, max) == Some(Reached(loops, targets, n, 0))
  {
    if n == 0 {
      steps := [];
      assert Init(loops, targets).loops == Reached(loops, targets, 0, 0).loops;
      assert Init(loops, targets).conns == Reached(loops, targets, 0, 0).conns;
    } else {
      steps := AllRunning(loops, targets, max, n - 1);
      ReachedNext(loops, targets, n - 1);
      steps := OneMoreRunning(Init(loops, targets), Reached(loops, targets, n - 1, 0), loops, max, steps);
    }
  }

  lemma ReachedNext(loops: nat, targets: nat, n: nat)
    requires loops > 0
    ensures var r := Reached(loops, targets, n, 0);
      && r.loops == FirstAt(loops, AtAccept)
      && State(r.loops, r.conns + [Running], n + 1, n + 1, n + 1, r.targets) == Reached(loops, targets, n + 1, 0)
  {
    var r, r' := Reached(loops, targets, n, 0), Reached(loops, targets, n + 1, 0);
    assert r.loops == r'.loops && r.conns + [Running] == r'.conns && r.targets == r'.targets;
  }

  lemma OneMorePasses(loops: nat, targets: nat, max: int, n: nat, j: nat)
    requires j < loops && n < max
    ensures Do(Reached(loops, targets, n, j), Pass(j), max) == Some(Reached(loops, targets, n, j + 1))
  {
    assert Reached(loops, targets, n, j).loops[j := PassedCheck] == Reached(loops, targets, n, j + 1).loops;
  }

  /** While none has counted yet, one accept loop after the other may pass the check. */
  lemma {:induction false} AllPass(loops: nat, targets: nat, max: int, j: nat) returns (steps: seq<Step>)
    requires loops > 0 && max > 0 && j <= loops
    ensures Exec(Init(loops, targets), steps, max) == Some(Reached(loops, targets, max - 1, j))
  {
    if j == 0 {
      steps := AllRunning(loops, targets, max, max - 1);
    } else {
      steps := AllPass(loops, targets, max, j - 1);
      ExecNext(Init(loops, targets), steps, Pass(j - 1), max);
      OneMorePasses(loops, targets, max, max - 1, j - 1);
      steps := steps + [Pass(j - 1)];
    }
  }

  lemma {:induction false} CountEvery<T>(xs: seq<T>, p: T -> bool)
    requires forall i :: 0 <= i < |xs| ==> p(xs[i])
    ensures Count(xs, p) == |xs|
  {
    if xs != [] {
      CountEvery(xs[..|xs| - 1], p);
    }
  }

  lemma {:induction false} CountNever<T>(xs: seq<T>, p: T -> bool)
    requires forall i :: 0 <= i < |xs| ==> !p(xs[i])
    ensures Count(xs, p) == 0
  {
    if xs != [] {
      CountNever(xs[..|xs| - 1], p);
    }
  }

  /** The bound is tight for every number of accept loops and every cap: all loops may pass the check
      while one connection is missing to the cap. */
  lemma CapIsReached(loops: nat, targets: nat, max: int) returns (steps: seq<Step>)
    requires loops > 0 && max > 0
    ensures var s := Exec(Init(loops, targets), steps, max);
      s.Some? && OpenConnections(s.value) == max + loops - 1
  {
    steps := AllPass(loops, targets, max, loops);
    var s := Reached(loops, targets, max - 1, loops);
    CountEvery(s.loops, Pending);
    CountNever(s.loops, InActive);
    CountEvery(s.conns, Live);
  }

  /** Without a cap, any number of connections may be open at once. */
  lemma UnlimitedIsReached(loops: nat, targets: nat, max: int, n: nat) returns (steps: seq<Step>)
    requires loops > 0 && max <= 0
    ensures var s := Exec(Init(loops, targets), steps, max);
      s.Some? && OpenConnections(s.value) == n == s.value.active
  {
    steps := AllRunning(loops, targets, max, n);
    var s := Reached(loops, targets, n, 0);
    CountNever(s.loops, Pending);
    CountNever(s.loops, InActive);
    CountEvery(s.conns, Live);
  }

  // ---------- every run can be drained ----------

  /** Steps a loop and its connection still need to end. */
  function LoopNeeds(l: Loop): nat {
    match l
    case Ended => 0
    case AtAccept => 1
    case AfterTotal => 5
    case AfterActive => 6
    case AfterWait => 7
    case PassedCheck => 8
  }

  function ConnNeeds(c: Phase): nat {
    match c
    case Running => 3
    case Relaying(_) => 3
    case Unwound => 2
    case Uncounted => 1
    case Finished => 0
  }

  function Sum<T>(xs: seq<T>, f: T -> nat): nat {
    if xs == [] then 0 else Sum(xs[..|xs| - 1], f) + f(xs[|xs| - 1])
  }

  lemma {:induction false} SumSet<T>(xs: seq<T>, i: nat, x: T, f: T -> nat)
    requires i < |xs|
    ensures Sum(xs[i := x], f) == Sum(xs, f) - f(xs[i]) + f(x)
  {
    var n := |xs| - 1;
    if i < n {
      SumSet(xs[..n], i, x, f);
      assert xs[i := x][..n] == xs[..n][i := x];
    } else {
      assert xs[i := x][..n] == xs[..n];
    }
  }

  lemma SumAdd<T>(xs: seq<T>, x: T, f: T -> nat)
    ensures Sum(xs + [x], f) == Sum(xs, f) + f(x)
  {
    assert (xs + [x])[..|xs|] == xs;
  }

  lemma {:induction false} SumPositive<T>(xs: seq<T>, f: T -> nat) returns (i: nat)
    requires Sum(xs, f) > 0
    ensures i < |xs| && f(xs[i]) > 0
  {
    var n := |xs| - 1;
    if f(xs[n]) > 0 {
      i := n;
    } else {
      i := SumPositive(xs[..n], f);
    }
  }

  lemma {:induction false} SumZero<T>(xs: seq<T>, f: T -> nat)
    requires Sum(xs, f) == 0
    ensures forall i :: 0 <= i < |xs| ==> f(xs[i]) == 0
  {
    if xs != [] {
      SumZero(xs[..|xs| - 1], f);
    }
  }

  const OfLoop: Loop -> nat := (l: Loop) => LoopNeeds(l)
  const OfConn: Phase -> nat := (c: Phase) => ConnNeeds(c)

  function Needs(s: State): nat {
    Sum(s.loops, OfLoop) + Sum(s.conns, OfConn)
  }

  lemma SomeLoopStep(s: State, max: int) returns (step: Step)
    requires Sum(s.loops, OfLoop) > 0
    ensures Do(s, step, max).Some? && Needs(Do(s, step, max).value) == Needs(s) - 1
  {
    var k := SumPositive(s.loops, OfLoop);
    match s.loops[k]
    case AtAccept => step := EndLoop(k); SumSet(s.loops, k, Ended, OfLoop);
    case PassedCheck => step := WaitAdd(k); SumSet(s.loops, k, AfterWait, OfLoop);
    case AfterWait => step := ActiveAdd(k); SumSet(s.loops, k, AfterActive, OfLoop);
    case AfterActive => step := TotalAdd(k); SumSet(s.loops, k, AfterTotal, OfLoop);
    case AfterTotal =>
      step := Spawn(k);
      SumSet(s.loops, k, AtAccept, OfLoop);
      SumAdd(s.conns, Running, OfConn);
  }

  lemma SomeConnStep(s: State, max: int) returns (step: Step)
    requires Sum(s.conns, OfConn) > 0
    requires forall i :: 0 <= i < |s.conns| && s.conns[i].Relaying? ==> s.conns[i].target < |s.targets|
    ensures Do(s, step, max).Some? && Needs(Do(s, step, max).value) == Needs(s) - 1
  {
    var i := SumPositive(s.conns, OfConn);
    match s.conns[i]
    case Running => step := GaveUp(i); SumSet(s.conns, i, Unwound, OfConn);
    case Relaying(_) => step := RelayDone(i); SumSet(s.conns, i, Unwound, OfConn);
    case Unwound => step := ActiveSub(i); SumSet(s.conns, i, Uncounted, OfConn);
    case Uncounted => step := WaitDone(i); SumSet(s.conns, i, Finished, OfConn);
  }

  /** As long as anything is unfinished, some step gets it on. */
  lemma SomeStep(s: State, max: int) returns (step: Step)
    requires Needs(s) > 0
    requires forall i :: 0 <= i < |s.conns| && s.conns[i].Relaying? ==> s.conns[i].target < |s.targets|
    ensures Do(s, step, max).Some? && Needs(Do(s, step, max).value) == Needs(s) - 1
  {
    if Sum(s.loops, OfLoop) > 0 {
      step := SomeLoopStep(s, max);
    } else {
      step := SomeConnStep(s, max);
    }
  }

  /** Whatever has happened, the run can go on to the end: all loops ended, all connections finished, the
      wait group drained. So Stop's wait is never stuck by the accounting itself. */
  lemma {:induction false} CanBeDrained(loops: nat, targets: nat, steps: seq<Step>, max: int)
    returns (all: seq<Step>)
    requires loops > 0 && Exec(Init(loops, targets), steps, max).Some?
    ensures steps <= all && Exec(Init(loops, targets), all, max).Some?
    ensures var s := Exec(Init(loops, targets), all, max).value;
      && s.wait == 0 && (forall k :: 0 <= k < |s.loops| ==> s.loops[k] == Ended)
      && (forall i :: 0 <= i < |s.conns| ==> s.conns[i] == Finished)
    decreases Needs(Exec(Init(loops, targets), steps, max).value)
  {
    RunKeeps(loops, targets, steps, max);
    var s := Exec(Init(loops, targets), steps, max).value;
    if Needs(s) == 0 {
      all := steps;
      SumZero(s.loops, OfLoop);
      SumZero(s.conns, OfConn);
      assert forall k :: 0 <= k < |s.loops| ==> OfLoop(s.loops[k]) == 0;
      assert forall i :: 0 <= i < |s.conns| ==> OfConn(s.conns[i]) == 0;
      CountNever(s.loops, InWait);
      CountNever(s.conns, Unfinished);
    } else {
      var step := SomeStep(s, max);
      ExecNext(Init(loops, targets), steps, step, max);
      all := CanBeDrained(loops, targets, steps + [step], max);
    }
  }

  function SumTo(xs: seq<int>, n: nat): int
    requires n <= |xs|
  {
    if n == 0 then 0 else SumTo(xs, n - 1) + xs[n - 1]
  }

  const IsRelaying: Phase -> bool := (c: Phase) => c.Relaying?

  function RelaysBelow(n: nat): Phase -> bool {
    (c: Phase) => c.Relaying? && c.target < n
  }

  lemma {:induction false} SumCounts(s: State, n: nat)
    requires Counted(s) && n <= |s.targets|
    ensures SumTo(s.targets, n) == Count(s.conns, RelaysBelow(n))
    decreases n
  {
    if n == 0 {
      CountLeq(s.conns, RelaysBelow(0), (c: Phase) => false);
      NeverCounts(s.conns);
    } else {
      SumCounts(s, n - 1);
      CountSplit(s.conns, n - 1);
    }
  }

  lemma {:induction false} NeverCounts(cs: seq<Phase>)
    ensures Count(cs, (c: Phase) => false) == 0
  {
    if cs != [] {
      NeverCounts(cs[..|cs| - 1]);
    }
  }

  lemma {:induction false} CountSplit(cs: seq<Phase>, n: nat)
    ensures Count(cs, RelaysBelow(n + 1)) == Count(cs, RelaysBelow(n)) + Count(cs, RelaysTo(n))
  {
    if cs != [] {
      CountSplit(cs[..|cs| - 1], n);
    }
  }

  /** The targets' active counts sum to the connections in the relay phase. */
  lemma TargetsSumToRelays(loops: nat, targets: nat, steps: seq<Step>, max: int)
    requires loops > 0 && Exec(Init(loops, targets), steps, max).Some?
    ensures var s := Exec(Init(loops, targets), steps, max).value;
      SumTo(s.targets, |s.targets|) == Count(s.conns, IsRelaying)
  {
    RunKeeps(loops, targets, steps, max);
    var s := Exec(Init(loops, targets), steps, max).value;
    SumCounts(s, |s.targets|);
    CountLeq(s.conns, IsRelaying, RelaysBelow(|s.targets|));
    CountLeq(s.conns, RelaysBelow(|s.targets|), IsRelaying);
  }
}
