/** What the router promises, stated on the list of declarations alone: which chain serves a
    request, and what happens when none does. */
module RouterSpec {
  import opened Bytes
  import opened Handlers
  import opened RadixTree
  import opened RouteScan

  const GET: Str := [71, 69, 84]
  const HEAD: Str := [72, 69, 65, 68]
  const OPTIONS: Str := [79, 80, 84, 73, 79, 78, 83]

  datatype Decl = Decl(verb: Str, path: Str, handler: Handler, mws: seq<Middleware>, noAuth: bool)

  datatype State = State(
    globals: seq<Middleware>, auth: Option<Middleware>, decls: seq<Decl>, strict: bool, caseSensitive: bool)
  {
    function FoldCase(): bool {
      !caseSensitive
    }
  }

  /** The arguments of the router's `run`, plus whether the body is dropped afterwards. */
  datatype Reply = Reply(handler: Handler, params: Option<map<Str, Str>>, allowed: seq<Str>, dropBody: bool)

  // ---------- paths ----------

  function Rooted(path: Str): Str {
    if path == [] then [SLASH] else if path[0] != SLASH then [SLASH] + path else path
  }

  function TrimSlashes(s: Str): Str {
    if s != [] && s[|s| - 1] == SLASH then TrimSlashes(s[..|s| - 1]) else s
  }

  function MatchPath(path: Str, strict: bool): Str {
    if !strict && |path| > 1 && path[|path| - 1] == SLASH then
      var t := TrimSlashes(path);
      if t == [] then [SLASH] else t
    else path
  }

  function RequestPath(path: Str, strict: bool): (r: Str)
    ensures r != []
  {
    var p := MatchPath(path, strict);
    if p == [] then [SLASH] else p
  }

  // ---------- declaring ----------

  datatype Event =
    | UseMiddleware(ms: seq<Middleware>)
    | SetAuth(m: Middleware)
    | Declare(verb: Str, path: Str, handler: Handler, mws: seq<Middleware>)
    | OptOut(k: nat)

  function Apply(st: State, e: Event): State {
    match e
    case UseMiddleware(ms) => st.(globals := st.globals + ms)
    case SetAuth(m) => st.(auth := Some(m))
    case Declare(v, p, h, ms) => st.(decls := st.decls + [Decl(v, Rooted(p), h, ms, false)])
    case OptOut(k) =>
      if k < |st.decls| then st.(decls := st.decls[k := st.decls[k].(noAuth := true)]) else st
  }

  // ---------- compiled routes ----------

  /** Globals first, then auth unless the route opted out, then the route's own. */
  function ChainOf(st: State, d: Decl): seq<Middleware> {
    st.globals + (if st.auth.Some? && !d.noAuth then [st.auth.value] else []) + d.mws
  }

  function RouteOf(st: State, d: Decl): Route {
    var p := MatchPath(d.path, st.strict);
    Route(if p == [] then [] else p[1..], WrapAll(ChainOf(st, d), d.handler))
  }

  /** Which of the first n declarations are for this verb. */
  function DeclsFor(st: State, verb: Str, n: nat): seq<nat>
    requires n <= |st.decls|
  {
    if n == 0 then []
    else DeclsFor(st, verb, n - 1) + if st.decls[n - 1].verb == verb then [n - 1] else []
  }

  function RoutesFor(st: State, verb: Str, n: nat): seq<Route>
    requires n <= |st.decls|
  {
    if n == 0 then []
    else RoutesFor(st, verb, n - 1) + if st.decls[n - 1].verb == verb then [RouteOf(st, st.decls[n - 1])] else []
  }

  lemma {:induction false} DeclsForAreRoutes(st: State, verb: Str, n: nat)
    requires n <= |st.decls|
    ensures |RoutesFor(st, verb, n)| == |DeclsFor(st, verb, n)|
    ensures forall i :: 0 <= i < |DeclsFor(st, verb, n)| ==>
      var k := DeclsFor(st, verb, n)[i];
      k < n && st.decls[k].verb == verb && RoutesFor(st, verb, n)[i] == RouteOf(st, st.decls[k])
  {
    if n > 0 {
      DeclsForAreRoutes(st, verb, n - 1);
    }
  }

  /** The verbs of the first n declarations. */
  function Verbs(st: State, n: nat): set<Str>
    requires n <= |st.decls|
  {
    if n == 0 then {} else Verbs(st, n - 1) + {st.decls[n - 1].verb}
  }

  lemma {:induction false} NoRoutesYet(st: State, verb: Str, n: nat)
    requires n <= |st.decls|
    ensures verb !in Verbs(st, n) ==> RoutesFor(st, verb, n) == []
  {
    if n > 0 {
      NoRoutesYet(st, verb, n - 1);
    }
  }

  /** Which route of a table serves a normalised path: for "/" only one declared as "/", for
      anything else the one the linear scan picks for what follows the first byte. */
  function PickRoute(rs: seq<Route>, path: Str, ci: bool): (i: Option<nat>)
    requires path != []
    ensures i.Some? ==> i.value < |rs|
  {
    if path == [SLASH] then
      var i := LastExact(rs, [], ci);
      if i < |rs| then Some(i) else None
    else Scan(rs, path[1..], ci)
  }

  /** The declaration that serves a normalised path. */
  function Winner(st: State, verb: Str, path: Str): (w: Option<nat>)
    requires path != []
    ensures w.Some? ==> w.value < |st.decls| && st.decls[w.value].verb == verb
  {
    DeclsForAreRoutes(st, verb, |st.decls|);
    var i := PickRoute(RoutesFor(st, verb, |st.decls|), path, st.FoldCase());
    if i.None? then None else Some(DeclsFor(st, verb, |st.decls|)[i.value])
  }

  /** What a route table answers for a normalised path. */
  function LookupIn(rs: seq<Route>, path: Str, ci: bool): Option<Hit>
    requires path != []
  {
    if path == [SLASH] then
      var i := LastExact(rs, [], ci);
      if i < |rs| then Some(Hit(rs[i].handler, [])) else None
    else ScanSearch(rs, path[1..], ci)
  }

  lemma LookupInPicks(rs: seq<Route>, path: Str, ci: bool)
    requires path != []
    ensures var i := PickRoute(rs, path, ci);
      if i.None? then LookupIn(rs, path, ci).None?
      else LookupIn(rs, path, ci).Some? && LookupIn(rs, path, ci).value.handler == rs[i.value].handler
  {
  }

  function Lookup(st: State, verb: Str, path: Str): Option<Hit>
    requires path != []
  {
    LookupIn(RoutesFor(st, verb, |st.decls|), path, st.FoldCase())
  }

  // ---------- allowed methods ----------

  /** Byte-wise string order, as slices.Sort uses it. */
  predicate Before(a: Str, b: Str) {
    if a == [] || b == [] then a == [] && b != []
    else a[0] < b[0] || (a[0] == b[0] && Before(a[1..], b[1..]))
  }

  lemma {:induction false} BeforeTotal(a: Str, b: Str)
    ensures a == b || Before(a, b) || Before(b, a)
    ensures !(Before(a, b) && Before(b, a)) && (Before(a, b) ==> a != b)
  {
    if a != [] && b != [] && a[0] == b[0] {
      BeforeTotal(a[1..], b[1..]);
      assert a == [a[0]] + a[1..] && b == [b[0]] + b[1..];
    }
  }

  /** Where two strings first differ, the smaller byte goes first; a beginning goes before the whole. */
  lemma {:induction false} BeforeIs(common: Str, a: Str, b: Str)
    requires a != [] && b != [] ==> a[0] != b[0]
    ensures Before(common + a, common + b) <==> b != [] && (a == [] || a[0] < b[0])
  {
    if common == [] {
      assert common + a == a && common + b == b;
    } else {
      assert (common + a)[1..] == common[1..] + a && (common + b)[1..] == common[1..] + b;
      BeforeIs(common[1..], a, b);
    }
  }

  lemma {:induction false} BeforeTransitive(a: Str, b: Str, c: Str)
    requires Before(a, b) && Before(b, c)
    ensures Before(a, c)
  {
    if a != [] && a[0] == b[0] == c[0] {
      BeforeTransitive(a[1..], b[1..], c[1..]);
    }
  }

  ghost predicate StrictlySorted(xs: seq<Str>) {
    forall i, j :: 0 <= i < j < |xs| ==> Before(xs[i], xs[j])
  }

  /** Insertion into a sorted list without repetitions. */
  function AddSorted(x: Str, xs: seq<Str>): (r: seq<Str>)
    requires StrictlySorted(xs)
    ensures StrictlySorted(r) && forall y :: y in r <==> y == x || y in xs
  {
    if xs == [] then [x]
    else if x == xs[0] then xs
    else if Before(x, xs[0]) then
      assert StrictlySorted([x] + xs) by {
        forall j | 0 <= j < |xs| ensures Before(x, xs[j]) {
          if j > 0 { BeforeTransitive(x, xs[0], xs[j]); }
        }
      }
      [x] + xs
    else
      var r := AddSorted(x, xs[1..]);
      assert StrictlySorted([xs[0]] + r) by {
        BeforeTotal(x, xs[0]);
        forall j | 0 <= j < |r| ensures Before(xs[0], r[j]) {
          assert r[j] in r;
        }
      }
      [xs[0]] + r
  }

  /** The verbs among the first n declarations that answer path, in order. */
  function Answering(st: State, path: Str, n: nat): (r: seq<Str>)
    requires path != [] && n <= |st.decls|
    ensures StrictlySorted(r)
    ensures forall v :: v in r <==> v in Verbs(st, n) && Lookup(st, v, path).Some?
  {
    if n == 0 then []
    else
      var rest := Answering(st, path, n - 1);
      var v := st.decls[n - 1].verb;
      if Lookup(st, v, path).Some? then AddSorted(v, rest) else rest
  }

  /** Two sorted lists of the same elements are the same list. */
  lemma {:induction false} SortedUnique(xs: seq<Str>, ys: seq<Str>)
    requires StrictlySorted(xs) && StrictlySorted(ys)
    requires forall y :: y in xs <==> y in ys
    ensures xs == ys
  {
    assert xs == [] <==> ys == [] by {
      if xs != [] { assert xs[0] in xs; }
      if ys != [] { assert ys[0] in ys; }
    }
    if xs != [] {
      assert xs[0] in ys && ys[0] in xs;
      BeforeTotal(xs[0], ys[0]);
      assert xs[0] == ys[0];
      forall y ensures y in xs[1..] <==> y in ys[1..] {
        BeforeTotal(xs[0], xs[0]);
        assert y in xs <==> y == xs[0] || y in xs[1..];
        assert y in ys <==> y == ys[0] || y in ys[1..];
      }
      SortedUnique(xs[1..], ys[1..]);
    }
  }

  function WithOptions(allowed: seq<Str>): seq<Str> {
    if OPTIONS in allowed then allowed else allowed + [OPTIONS]
  }

  // ---------- dispatch ----------

  /** The reply to a request for a normalised path. */
  function DispatchPath(st: State, verb: Str, path: Str): Reply
    requires path != []
  {
    var hit := Lookup(st, verb, path);
    var allowed := Answering(st, path, |st.decls|);
    if hit.Some? then Reply(hit.value.handler, Params(hit.value.caps), [], false)
    else if allowed == [] then Reply(WrapAll(st.globals, NotFoundReply), None, [], false)
    else if verb == OPTIONS then Reply(WrapAll(st.globals, OptionsReply), None, WithOptions(allowed), false)
    else if verb == HEAD && GET in allowed then
      var get := Lookup(st, GET, path).value;
      Reply(get.handler, Params(get.caps), [], true)
    else Reply(WrapAll(st.globals, NotAllowedReply), None, WithOptions(allowed), false)
  }

  function Dispatch(st: State, verb: Str, rawPath: Str): Reply {
    DispatchPath(st, verb, RequestPath(rawPath, st.strict))
  }
}
