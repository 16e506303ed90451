/** What the router's contract means end to end: who serves, with which middleware, and what
    does not matter (order of declarations, case, trailing slashes). */
module RouterLaws {
  import opened Bytes
  import opened Handlers
  import opened Pattern
  import opened PatternLaws
  import opened RadixTree
  import opened RouteScan
  import opened RouterSpec

  // ---------- declaring ----------

  function Run(st: State, es: seq<Event>): State {
    if es == [] then st else Apply(Run(st, es[..|es| - 1]), es[|es| - 1])
  }

  /** Every middleware ever passed to Use, in order, whenever that was. */
  function AllUsed(es: seq<Event>): seq<Middleware> {
    if es == [] then []
    else
      var e := es[|es| - 1];
      AllUsed(es[..|es| - 1]) + if e.UseMiddleware? then e.ms else []
  }

  function LastAuth(es: seq<Event>): Option<Middleware> {
    if es == [] then None
    else
      var e := es[|es| - 1];
      if e.SetAuth? then Some(e.m) else LastAuth(es[..|es| - 1])
  }

  function Declarations(es: seq<Event>): seq<Event> {
    if es == [] then []
    else
      var e := es[|es| - 1];
      Declarations(es[..|es| - 1]) + if e.Declare? then [e] else []
  }

  /** Declaration k was opted out at some point after it was made. */
  function OptedOut(es: seq<Event>, k: nat): bool {
    if es == [] then false
    else
      var init, e := es[..|es| - 1], es[|es| - 1];
      OptedOut(init, k) || (e == OptOut(k) && k < |Declarations(init)|)
  }

  /** Whatever the interleaving, only these four summaries of it matter. */
  lemma {:induction false} RunSummary(es: seq<Event>, strict: bool, cs: bool)
    ensures var st := Run(State([], None, [], strict, cs), es);
      var ds := Declarations(es);
      && st.globals == AllUsed(es) && st.auth == LastAuth(es)
      && st.strict == strict && st.caseSensitive == cs
      && |st.decls| == |ds|
      && forall k :: 0 <= k < |ds| ==>
           ds[k].Declare? &&
           st.decls[k] == Decl(ds[k].verb, Rooted(ds[k].path), ds[k].handler, ds[k].mws, OptedOut(es, k))
    ensures forall k :: k >= |Declarations(es)| ==> !OptedOut(es, k)
  {
    if es != [] {
      RunSummary(es[..|es| - 1], strict, cs);
    }
  }

  // ---------- serving ----------

  /** The handler found is the winner's own, wrapped in exactly its chain. */
  lemma LookupIsWinner(st: State, verb: Str, path: Str)
    requires path != []
    ensures Lookup(st, verb, path).Some? <==> Winner(st, verb, path).Some?
    ensures Winner(st, verb, path).Some? ==>
      var d := st.decls[Winner(st, verb, path).value];
      var h := Lookup(st, verb, path).value.handler;
      d.verb == verb && Layers(h) == ChainOf(st, d) + Layers(d.handler) && BaseOf(h) == BaseOf(d.handler)
  {
    DeclsForAreRoutes(st, verb, |st.decls|);
    LookupInPicks(RoutesFor(st, verb, |st.decls|), path, st.FoldCase());
    var w := Winner(st, verb, path);
    if w.Some? {
      var d := st.decls[w.value];
      WrapAllRuns(ChainOf(st, d), d.handler);
    }
  }

  /** End to end. After any interleaving of Use, authentication set-up, declarations and
      opt-outs, a served request runs every global middleware, then authentication unless that
      route opted out, then the route's own middleware, then the route's handler; the route is
      the one the linear scan over that verb's declarations picks. */
  lemma EndToEnd(es: seq<Event>, strict: bool, cs: bool, verb: Str, rawPath: Str)
    ensures var st := Run(State([], None, [], strict, cs), es);
      var w := Winner(st, verb, RequestPath(rawPath, strict));
      w.Some? ==>
        var k := w.value;
        k < |Declarations(es)| && Declarations(es)[k].Declare? && Declarations(es)[k].verb == verb &&
        var d := Declarations(es)[k];
        var h := Dispatch(st, verb, rawPath).handler;
        && Layers(h) ==
             AllUsed(es)
             + (if LastAuth(es).Some? && !OptedOut(es, k) then [LastAuth(es).value] else [])
             + d.mws + Layers(d.handler)
        && BaseOf(h) == BaseOf(d.handler)
  {
    RunSummary(es, strict, cs);
    var st := Run(State([], None, [], strict, cs), es);
    LookupIsWinner(st, verb, RequestPath(rawPath, strict));
  }

  // ---------- not serving ----------

  /** The answering list holds exactly the verbs that serve the path, for all verbs there are. */
  lemma AnsweringIsExact(st: State, path: Str, verb: Str)
    requires path != []
    ensures verb in Answering(st, path, |st.decls|) <==> Lookup(st, verb, path).Some?
  {
    if verb !in Verbs(st, |st.decls|) {
      NoRoutesYet(st, verb, |st.decls|);
    }
  }

  lemma AnsweringNonEmpty(st: State, path: Str)
    requires path != []
    ensures Answering(st, path, |st.decls|) == [] <==> forall v :: Lookup(st, v, path).None?
  {
    var allowed := Answering(st, path, |st.decls|);
    forall v ensures v in allowed <==> Lookup(st, v, path).Some? {
      AnsweringIsExact(st, path, v);
    }
    assert allowed != [] ==> Lookup(st, allowed[0], path).Some?;
  }

  /** An unserved request gets the 404 reply exactly when no verb serves its path. */
  lemma NotFoundExactly(st: State, verb: Str, rawPath: Str)
    requires Lookup(st, verb, RequestPath(rawPath, st.strict)).None?
    ensures Dispatch(st, verb, rawPath) == Reply(WrapAll(st.globals, NotFoundReply), None, [], false) <==>
            forall v :: Lookup(st, v, RequestPath(rawPath, st.strict)).None?
  {
    AnsweringNonEmpty(st, RequestPath(rawPath, st.strict));
  }

  /** HEAD without a route of its own gets GET's whole answer, minus the body; the second lookup
      of GET never comes back empty. */
  lemma HeadBorrowsGet(st: State, rawPath: Str)
    requires var path := RequestPath(rawPath, st.strict);
      Lookup(st, HEAD, path).None? && Lookup(st, GET, path).Some?
    ensures Dispatch(st, HEAD, rawPath) == Dispatch(st, GET, rawPath).(dropBody := true)
  {
    AnsweringIsExact(st, RequestPath(rawPath, st.strict), GET);
  }

  /** Any other unserved request on a path that some verb serves is told which verbs do: the
      sorted list of exactly those, with OPTIONS added at the end if it is not among them. */
  lemma OthersGetTheAllowList(st: State, verb: Str, rawPath: Str, v: Str)
    requires var path := RequestPath(rawPath, st.strict);
      && Lookup(st, verb, path).None? && Lookup(st, v, path).Some?
      && !(verb == HEAD && Lookup(st, GET, path).Some?)
    ensures var path := RequestPath(rawPath, st.strict);
      var reply, served := Dispatch(st, verb, rawPath), Answering(st, path, |st.decls|);
      && reply.handler == WrapAll(st.globals, if verb == OPTIONS then OptionsReply else NotAllowedReply)
      && reply.allowed == (if OPTIONS in served then served else served + [OPTIONS])
      && StrictlySorted(served) && v in served && verb !in served && !reply.dropBody
  {
    var path := RequestPath(rawPath, st.strict);
    AnsweringIsExact(st, path, v);
    AnsweringIsExact(st, path, verb);
    AnsweringIsExact(st, path, GET);
  }

  /** "/" is served only by a route declared as "/": a catch-all below the root matches the empty
      rest in a search, but the router never searches for it. The two answers agree exactly when
      there is a "/" route or no bare catch-all. */
  lemma {:induction false} SlashNeedsItsOwnRoute(rs: seq<Route>, ci: bool)
    ensures LookupIn(rs, [SLASH], ci).Some? <==> LastExact(rs, [], ci) < |rs|
    ensures ScanSearch(rs, [], ci).Some? <==>
            LastExact(rs, [], ci) < |rs| || LastExact(rs, [CatchAll], ci) < |rs|
  {
    ScanIsLeast(rs, [], ci);
    var best := Scan(rs, [], ci);
    LastExactIs(rs, [], ci);
    LastExactIs(rs, [CatchAll], ci);
    var i, j := LastExact(rs, [], ci), LastExact(rs, [CatchAll], ci);
    assert i < |rs| ==> RouteMatches(rs[i], [], ci);
    assert j < |rs| ==> RouteMatches(rs[j], [], ci);
    if best.Some? {
      ParseIsProper(rs[best.value].path, ci);
      var p := PatternOf(rs[best.value], ci);
      assert p == [] || p == [CatchAll];
    }
  }

  // ---------- what does not matter ----------

  /** Declaring pairwise different patterns in another order changes neither the handler nor
      the captured values. */
  lemma OrderDoesNotMatter(rs: seq<Route>, rs': seq<Route>, path: Str, ci: bool)
    requires forall r :: r in rs <==> r in rs'
    requires forall r, r' :: r in rs && r' in rs && PatternOf(r, ci) == PatternOf(r', ci) ==> r == r'
    ensures var a, b := Scan(rs, path, ci), Scan(rs', path, ci);
      if a.None? then b.None? else b.Some? && rs[a.value] == rs'[b.value]
  {
    ScanIsLeast(rs, path, ci);
    ScanIsLeast(rs', path, ci);
    var a, b := Scan(rs, path, ci), Scan(rs', path, ci);
    if a.Some? {
      assert rs[a.value] in rs';
    }
    if b.Some? {
      assert rs'[b.value] in rs;
    }
    if a.Some? && b.Some? {
      LessTotal(PatternOf(rs[a.value], ci), PatternOf(rs'[b.value], ci));
    }
  }

  function Slashes(k: nat): Str {
    if k == 0 then [] else Slashes(k - 1) + [SLASH]
  }

  lemma {:induction false} TrimIgnoresSlashes(path: Str, k: nat)
    ensures TrimSlashes(path + Slashes(k)) == TrimSlashes(path)
  {
    if k == 0 {
      assert path + [] == path;
    } else {
      TrimIgnoresSlashes(path, k - 1);
      var s := path + Slashes(k);
      assert s[..|s| - 1] == path + Slashes(k - 1);
    }
  }

  lemma LaxRequestPath(path: Str)
    ensures RequestPath(path, false) == if TrimSlashes(path) == [] then [SLASH] else TrimSlashes(path)
  {
    if |path| == 1 {
      assert path == [path[0]];
      assert path[..0] == [];
    }
  }

  /** Without StrictSlash, trailing slashes on the request do not change the reply. */
  lemma TrailingSlashesDoNotMatter(st: State, verb: Str, path: Str, k: nat)
    requires !st.strict
    ensures Dispatch(st, verb, path + Slashes(k)) == Dispatch(st, verb, path)
  {
    LaxRequestPath(path);
    LaxRequestPath(path + Slashes(k));
    TrimIgnoresSlashes(path, k);
  }

  lemma {:induction false} ScanFolded(rs: seq<Route>, p: Str, q: Str)
    requires SameFolded(p, q, true)
    ensures Scan(rs, p, true) == Scan(rs, q, true)
  {
    if rs != [] {
      var n := |rs| - 1;
      ScanFolded(rs[..n], p, q);
      MatchesFolded(PatternOf(rs[n], true), p, q);
    }
  }

  lemma {:induction false} TrimFolded(p: Str, q: Str)
    requires SameFolded(p, q, true)
    ensures SameFolded(TrimSlashes(p), TrimSlashes(q), true)
  {
    if p != [] {
      var n := |p| - 1;
      assert Fold(p[n], true) == Fold(q[n], true);
      if p[n] == SLASH {
        TrimFolded(p[..n], q[..n]);
      }
    }
  }

  lemma RequestPathFolded(p: Str, q: Str, strict: bool)
    requires SameFolded(p, q, true)
    ensures SameFolded(RequestPath(p, strict), RequestPath(q, strict), true)
  {
    if p != [] {
      assert Fold(p[|p| - 1], true) == Fold(q[|p| - 1], true);
    }
    TrimFolded(p, q);
  }

  /** Without CaseSensitive, requests that differ in ASCII case go to the same route, under the
      same keys, and capture the same values up to case. */
  lemma CaseDoesNotMatter(st: State, verb: Str, p: Str, q: Str)
    requires !st.caseSensitive && SameFolded(p, q, true)
    ensures var a := Lookup(st, verb, RequestPath(p, st.strict));
      var b := Lookup(st, verb, RequestPath(q, st.strict));
      if a.None? then b.None?
      else
        && b.Some? && a.value.handler == b.value.handler && |a.value.caps| == |b.value.caps|
        && forall i :: 0 <= i < |a.value.caps| ==>
             a.value.caps[i].key == b.value.caps[i].key &&
             SameFolded(a.value.caps[i].value, b.value.caps[i].value, true)
  {
    RequestPathFolded(p, q, st.strict);
    var p', q' := RequestPath(p, st.strict), RequestPath(q, st.strict);
    assert Fold(p'[0], true) == Fold(q'[0], true);
    var rs := RoutesFor(st, verb, |st.decls|);
    if p' != [SLASH] {
      assert SameFolded(p'[1..], q'[1..], true);
      ScanFolded(rs, p'[1..], q'[1..]);
      var best := Scan(rs, p'[1..], true);
      if best.Some? {
        var toks := PatternOf(rs[best.value], true);
        MatchesFolded(toks, p'[1..], q'[1..]);
        PairFolded(KeysFrom(rs, toks, 0, true), Values(toks, p'[1..]), Values(toks, q'[1..]));
      }
    }
  }

  lemma {:induction false} PairFolded(keys: seq<Str>, vs: seq<Str>, ws: seq<Str>)
    requires |vs| == |ws| && forall i :: 0 <= i < |vs| ==> SameFolded(vs[i], ws[i], true)
    ensures |Pair(keys, vs)| == |Pair(keys, ws)|
    ensures forall i :: 0 <= i < |Pair(keys, vs)| ==>
      Pair(keys, vs)[i].key == Pair(keys, ws)[i].key &&
      SameFolded(Pair(keys, vs)[i].value, Pair(keys, ws)[i].value, true)
  {
    if keys != [] && vs != [] {
      PairFolded(keys[1..], vs[1..], ws[1..]);
    }
  }

  /** A capture spells the path: substituting the values a lookup captured into the winning
      pattern gives back the searched path, up to case in the literals. */
  lemma CapturesSpellThePath(rs: seq<Route>, path: Str, ci: bool)
    requires Scan(rs, path, ci).Some?
    ensures var toks := PatternOf(rs[Scan(rs, path, ci).value], ci);
      var caps := ScanSearch(rs, path, ci).value.caps;
      && SameFolded(Rebuild(toks, Values(toks, path)), path, ci)
      && (!ci ==> Rebuild(toks, Values(toks, path)) == path)
      && |caps| == |Values(toks, path)|
      && forall i :: 0 <= i < |caps| ==> caps[i].value == Values(toks, path)[i]
  {
    var r := rs[Scan(rs, path, ci).value];
    var toks := PatternOf(r, ci);
    ScanIsLeast(rs, path, ci);
    ParseIsProper(r.path, ci);
    RebuildAfterMatch(toks, path, ci);
    OneKeyPerValue(rs, toks, 0, path, ci);
    PairValues(KeysFrom(rs, toks, 0, ci), Values(toks, path));
  }

  lemma {:induction false} OneKeyPerValue(rs: seq<Route>, toks: seq<Token>, n: nat, path: Str, ci: bool)
    requires n <= |toks| && Proper(toks[n..], ci) && Matches(toks[n..], path, ci)
    ensures |KeysFrom(rs, toks, n, ci)| == |Values(toks[n..], path)|
    decreases |toks| - n
  {
    if n < |toks| {
      assert toks[n..][1..] == toks[n + 1..];
      match toks[n]
      case Lit(_) => OneKeyPerValue(rs, toks, n + 1, path[1..], ci);
      case Param => OneKeyPerValue(rs, toks, n + 1, path[SegmentLen(path)..], ci);
      case CatchAll =>
        assert KeysFrom(rs, toks, n + 1, ci) == [];
    }
  }

  lemma {:induction false} PairValues(keys: seq<Str>, vs: seq<Str>)
    requires |keys| == |vs|
    ensures |Pair(keys, vs)| == |vs|
    ensures forall i :: 0 <= i < |vs| ==> Pair(keys, vs)[i] == Capture(keys[i], vs[i])
  {
    if vs != [] {
      PairValues(keys[1..], vs[1..]);
    }
  }
}
