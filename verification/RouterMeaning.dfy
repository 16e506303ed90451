/** What the router serves, told by the declared paths alone: no tables, no route without its first
    slash, only the tokens of each declared path as a whole. */
module RouterMeaning {
  import opened Bytes
  import opened Handlers
  import opened Pattern
  import opened PatternLaws
  import opened RadixTree
  import opened RouteScan
  import opened RouterSpec
  import opened RouterLaws

  // ---------- paths ----------

  lemma {:induction false} TrimSlashesIs(path: Str) returns (k: nat)
    ensures path == TrimSlashes(path) + Slashes(k)
    ensures TrimSlashes(path) == [] || TrimSlashes(path)[|TrimSlashes(path)| - 1] != SLASH
  {
    if path != [] && path[|path| - 1] == SLASH {
      var n := |path| - 1;
      k := TrimSlashesIs(path[..n]);
      assert path == path[..n] + [SLASH];
      assert (TrimSlashes(path) + Slashes(k)) + [SLASH] == TrimSlashes(path) + (Slashes(k) + [SLASH]);
      k := k + 1;
    } else {
      k := 0;
      assert path + [] == path;
    }
  }

  /** A path as it stands under StrictSlash; otherwise without its trailing slashes, "/" if nothing is left. */
  function Normal(path: Str, strict: bool): Str {
    if strict then path else if TrimSlashes(path) == [] then [SLASH] else TrimSlashes(path)
  }

  /** The path looked up for a request is the request's own, normalised; an empty one counts as "/". */
  lemma RequestPathIs(rawPath: Str, strict: bool)
    ensures RequestPath(rawPath, strict) == if rawPath == [] then [SLASH] else Normal(rawPath, strict)
  {
    if !strict {
      LaxRequestPath(rawPath);
    }
  }

  lemma RootedIs(path: Str)
    ensures Rooted(path) != [] && Rooted(path)[0] == SLASH
    ensures if path != [] && path[0] == SLASH then Rooted(path) == path else Rooted(path) == [SLASH] + path
  {
  }

  // ---------- tokens of a declared path ----------

  /** The tokens of a declared path as a whole, its first '/' included. */
  function Full(st: State, d: Decl): seq<Token> {
    Tokens(Parse(Normal(d.path, st.strict), st.FoldCase()))
  }

  /** Every declared path starts with '/', as addRoute sees to. */
  ghost predicate AllRooted(st: State) {
    forall k :: 0 <= k < |st.decls| ==> st.decls[k].path != [] && st.decls[k].path[0] == SLASH
  }

  lemma DeclaredIsRooted(es: seq<Event>, strict: bool, cs: bool)
    ensures AllRooted(Run(State([], None, [], strict, cs), es))
  {
    RunSummary(es, strict, cs);
  }

  lemma {:induction false} TrimKeepsFirst(path: Str)
    ensures TrimSlashes(path) != [] ==> path != [] && TrimSlashes(path)[0] == path[0]
  {
    if path != [] && path[|path| - 1] == SLASH {
      TrimKeepsFirst(path[..|path| - 1]);
    }
  }

  lemma TokensBehindSlash(q: Str, ci: bool)
    requires q != [] && q[0] == SLASH
    ensures Tokens(Parse(q, ci)) == [Lit(SLASH)] + Tokens(Parse(q[1..], ci))
  {
    assert Parse(q, ci) == [PLit(SLASH)] + Parse(q[1..], ci);
    TokensInFront(PLit(SLASH), Parse(q[1..], ci));
  }

  lemma TokensInFront(p: Piece, ps: seq<Piece>)
    ensures Tokens([p] + ps) == [TokenOf(p)] + Tokens(ps)
  {
  }

  lemma NormalIsMatchPath(path: Str, strict: bool)
    requires path != [] && path[0] == SLASH
    ensures Normal(path, strict) != [] && Normal(path, strict)[0] == SLASH
    ensures MatchPath(path, strict) == Normal(path, strict)
  {
    RequestPathIs(path, strict);
    TrimKeepsFirst(path);
  }

  /** The route built from a declaration is the declared path behind its first '/'. */
  lemma FullIsRoute(st: State, d: Decl)
    requires d.path != [] && d.path[0] == SLASH
    ensures Full(st, d) == [Lit(SLASH)] + PatternOf(RouteOf(st, d), st.FoldCase())
  {
    NormalIsMatchPath(d.path, st.strict);
    TokensBehindSlash(Normal(d.path, st.strict), st.FoldCase());
  }

  lemma MatchBehindSlash(toks: seq<Token>, s: Str, ci: bool)
    ensures Matches([Lit(SLASH)] + toks, [SLASH] + s, ci) == Matches(toks, s, ci)
    ensures Values([Lit(SLASH)] + toks, [SLASH] + s) == Values(toks, s)
  {
    assert ([Lit(SLASH)] + toks)[1..] == toks && ([SLASH] + s)[1..] == s;
  }

  // ---------- which declaration serves ----------

  /** Declaration k is for this verb and its path matches. "/" is matched by a declared "/" only, not by a
      catch-all; the first byte of the path is not looked at. */
  predicate CanServe(st: State, verb: Str, path: Str, k: nat)
    requires path != []
  {
    && k < |st.decls| && st.decls[k].verb == verb
    && if path == [SLASH] then Full(st, st.decls[k]) == [Lit(SLASH)]
       else Matches(Full(st, st.decls[k]), [SLASH] + path[1..], st.FoldCase())
  }

  /** It can serve, none that can goes before it, and it is the last of its tokens. */
  ghost predicate Wins(st: State, verb: Str, path: Str, k: nat)
    requires path != []
  {
    && CanServe(st, verb, path, k)
    && forall j: nat :: CanServe(st, verb, path, j) ==>
         Yields(st, j, k)
  }

  /** The declarations for a verb, in order and complete. */
  lemma {:induction false} DeclsForIs(st: State, verb: Str, n: nat)
    requires n <= |st.decls|
    ensures forall i :: 0 <= i < |DeclsFor(st, verb, n)| ==>
      DeclsFor(st, verb, n)[i] < n && st.decls[DeclsFor(st, verb, n)[i]].verb == verb
    ensures forall i, j :: 0 <= i < j < |DeclsFor(st, verb, n)| ==> DeclsFor(st, verb, n)[i] < DeclsFor(st, verb, n)[j]
    ensures forall k :: 0 <= k < n && st.decls[k].verb == verb ==> k in DeclsFor(st, verb, n)
  {
    if n > 0 {
      DeclsForIs(st, verb, n - 1);
    }
  }

  /** Route i of the verb's table can answer just when its declaration can serve. */
  lemma CanServeIs(st: State, verb: Str, path: Str, i: nat)
    requires AllRooted(st) && path != [] && i < |RoutesFor(st, verb, |st.decls|)|
    ensures var rs, ks := RoutesFor(st, verb, |st.decls|), DeclsFor(st, verb, |st.decls|);
      && |ks| == |rs| && ks[i] < |st.decls|
      && Full(st, st.decls[ks[i]]) == [Lit(SLASH)] + PatternOf(rs[i], st.FoldCase())
      && (CanServe(st, verb, path, ks[i]) <==>
            if path == [SLASH] then PatternOf(rs[i], st.FoldCase()) == []
            else RouteMatches(rs[i], path[1..], st.FoldCase()))
  {
    var ks, ci := DeclsFor(st, verb, |st.decls|), st.FoldCase();
    DeclsForAreRoutes(st, verb, |st.decls|);
    var d := st.decls[ks[i]];
    FullIsRoute(st, d);
    var pat := PatternOf(RouteOf(st, d), ci);
    MatchBehindSlash(pat, path[1..], ci);
    assert [Lit(SLASH)] + pat == [Lit(SLASH)] <==> pat == [] by {
      assert |[Lit(SLASH)] + pat| == 1 + |pat|;
    }
  }

  /** A route of the table that can answer, such that none that can goes before it and no later one has
      its pattern. */
  ghost predicate WinsTable(rs: seq<Route>, path: Str, ci: bool, i: nat)
    requires path != []
  {
    && i < |rs| && Answers(rs[i], path, ci)
    && forall j :: 0 <= j < |rs| && Answers(rs[j], path, ci) ==>
         !Less(PatternOf(rs[j], ci), PatternOf(rs[i], ci)) && (j > i ==> PatternOf(rs[j], ci) != PatternOf(rs[i], ci))
  }

  predicate Answers(r: Route, path: Str, ci: bool)
    requires path != []
  {
    if path == [SLASH] then PatternOf(r, ci) == [] else RouteMatches(r, path[1..], ci)
  }

  lemma PickWinsTable(rs: seq<Route>, path: Str, ci: bool)
    requires path != []
    ensures match PickRoute(rs, path, ci)
      case None => forall j :: 0 <= j < |rs| ==> !Answers(rs[j], path, ci)
      case Some(i) => WinsTable(rs, path, ci, i)
  {
    if path == [SLASH] {
      LastExactIs(rs, [], ci);
    } else {
      ScanIsLeast(rs, path[1..], ci);
    }
  }

  lemma WinnerWins(st: State, verb: Str, path: Str)
    requires AllRooted(st) && path != []
    ensures match Winner(st, verb, path)
      case None => forall k: nat :: !CanServe(st, verb, path, k)
      case Some(k) => Wins(st, verb, path, k)
  {
    var rs, ks := RoutesFor(st, verb, |st.decls|), DeclsFor(st, verb, |st.decls|);
    DeclsForAreRoutes(st, verb, |st.decls|);
    PickWinsTable(rs, path, st.FoldCase());
    var w := PickRoute(rs, path, st.FoldCase());
    forall j: nat | CanServe(st, verb, path, j) ensures w.Some? && Yields(st, j, ks[w.value]) {
      var i := TableHas(st, verb, path, j);
      if w.Some? {
        YieldsInTable(st, verb, path, i, w.value);
      }
    }
    if w.Some? {
      CanServeIs(st, verb, path, w.value);
      var k := ks[w.value];
      assert forall j: nat :: CanServe(st, verb, path, j) ==> Yields(st, j, k);
    }
  }

  /** Declaration j does not go before k and is not a later one of the same tokens. */
  predicate Yields(st: State, j: nat, k: nat)
    requires j < |st.decls| && k < |st.decls|
  {
    !Less(Full(st, st.decls[j]), Full(st, st.decls[k])) && (j > k ==> Full(st, st.decls[j]) != Full(st, st.decls[k]))
  }

  /** A declaration that can serve is in the verb's table. */
  lemma TableHas(st: State, verb: Str, path: Str, j: nat) returns (i: nat)
    requires AllRooted(st) && path != [] && CanServe(st, verb, path, j)
    ensures var rs, ks := RoutesFor(st, verb, |st.decls|), DeclsFor(st, verb, |st.decls|);
      |ks| == |rs| && i < |rs| && ks[i] == j && Answers(rs[i], path, st.FoldCase())
  {
    DeclsForAreRoutes(st, verb, |st.decls|);
    DeclsForIs(st, verb, |st.decls|);
    i :| i < |DeclsFor(st, verb, |st.decls|)| && DeclsFor(st, verb, |st.decls|)[i] == j;
    CanServeIs(st, verb, path, i);
  }

  lemma YieldsInTable(st: State, verb: Str, path: Str, i: nat, w: nat)
    requires AllRooted(st) && path != []
    requires var rs := RoutesFor(st, verb, |st.decls|);
      i < |rs| && Answers(rs[i], path, st.FoldCase()) && WinsTable(rs, path, st.FoldCase(), w)
    ensures var ks := DeclsFor(st, verb, |st.decls|);
      |ks| == |RoutesFor(st, verb, |st.decls|)| && ks[i] < |st.decls| && ks[w] < |st.decls| && Yields(st, ks[i], ks[w])
  {
    var rs, ks, ci := RoutesFor(st, verb, |st.decls|), DeclsFor(st, verb, |st.decls|), st.FoldCase();
    CanServeIs(st, verb, path, i);
    CanServeIs(st, verb, path, w);
    DeclsForIs(st, verb, |st.decls|);
    LessAfterPrefix([Lit(SLASH)], PatternOf(rs[i], ci), PatternOf(rs[w], ci));
    BehindSlash(PatternOf(rs[i], ci), PatternOf(rs[w], ci));
    assert ks[i] > ks[w] ==> i > w by {
      if i < w {
        assert ks[i] < ks[w];
      }
    }
  }

  lemma BehindSlash(p: seq<Token>, q: seq<Token>)
    ensures [Lit(SLASH)] + p == [Lit(SLASH)] + q ==> p == q
  {
    assert ([Lit(SLASH)] + p)[1..] == p && ([Lit(SLASH)] + q)[1..] == q;
  }

  /** Who serves, exactly: a declaration serves if and only if it can, none that can goes before it, and it
      is the last of its tokens; nobody serves if and only if nobody can. */
  lemma WinnerExactly(st: State, verb: Str, path: Str, k: nat)
    requires AllRooted(st) && path != []
    ensures Winner(st, verb, path) == Some(k) <==> Wins(st, verb, path, k)
    ensures Winner(st, verb, path) == None <==> forall j: nat :: !CanServe(st, verb, path, j)
  {
    WinnerWins(st, verb, path);
    var w := Winner(st, verb, path);
    if w.Some? && Wins(st, verb, path, k) {
      LessTotal(Full(st, st.decls[k]), Full(st, st.decls[w.value]));
    }
  }

  // ---------- paths without wildcards ----------

  /** No ':' and no '*'. */
  predicate Plain(path: Str) {
    forall i :: 0 <= i < |path| ==> IsLiteral(path[i])
  }

  lemma {:induction false} PlainTokens(path: Str, ci: bool)
    requires Plain(path)
    ensures Tokens(Parse(path, ci)) == LitTokens(path, ci)
  {
    if path != [] {
      PlainTokens(path[1..], ci);
      assert Parse(path, ci) == [PLit(Fold(path[0], ci))] + Parse(path[1..], ci);
      assert LitTokens(path, ci) == [Lit(Fold(path[0], ci))] + LitTokens(path[1..], ci);
    }
  }

  /** A plain path matches itself, up to case when folding, and nothing else. */
  lemma PlainMatchesItself(p: Str, q: Str, ci: bool)
    requires Plain(p)
    ensures Matches(Tokens(Parse(p, ci)), q, ci) <==> SameFolded(p, q, ci)
  {
    PlainTokens(p, ci);
    MatchesAfterLits(p, [], q, ci);
    assert LitTokens(p, ci) + [] == LitTokens(p, ci);
  }

  /** Where a plain declared path and a request path meet: normalised both, they are equal up to case. */
  lemma PlainCanServe(st: State, verb: Str, path: Str, k: nat)
    requires AllRooted(st) && path != [] && k < |st.decls| && st.decls[k].verb == verb
    requires Plain(st.decls[k].path)
    ensures CanServe(st, verb, path, k) <==>
            SameFolded(Normal(st.decls[k].path, st.strict), [SLASH] + path[1..], st.FoldCase())
  {
    var q, ci := Normal(st.decls[k].path, st.strict), st.FoldCase();
    PlainNormal(st.decls[k].path, st.strict);
    NormalIsMatchPath(st.decls[k].path, st.strict);
    PlainMatchesItself(q, [SLASH] + path[1..], ci);
    if path == [SLASH] {
      PlainTokens(q, ci);
      assert [SLASH] + path[1..] == [SLASH];
      assert |q| == 1 ==> q == [SLASH] && LitTokens(q, ci) == [Lit(SLASH)];
    }
  }

  lemma PlainNormal(path: Str, strict: bool)
    requires Plain(path)
    ensures Plain(Normal(path, strict))
  {
    var k := TrimSlashesIs(path);
    assert forall i :: 0 <= i < |TrimSlashes(path)| ==> TrimSlashes(path)[i] == path[i];
  }

  /** Nothing that matches the same path goes before a plain pattern. */
  lemma {:induction false} NothingBeforePlain(p: Str, toks: seq<Token>, path: Str, ci: bool)
    requires Matches(LitTokens(p, ci), path, ci) && Matches(toks, path, ci)
    ensures !Less(toks, LitTokens(p, ci))
  {
    if p != [] && toks != [] && toks[0] == Lit(Fold(p[0], ci)) {
      assert LitTokens(p, ci)[1..] == LitTokens(p[1..], ci);
      NothingBeforePlain(p[1..], toks[1..], path[1..], ci);
    }
  }

  /** A declared path without wildcards is served at itself, by its own declaration or a later one of the
      same tokens, whatever wildcard routes there are beside it. */
  lemma PlainPathIsServed(st: State, k: nat)
    requires AllRooted(st) && k < |st.decls| && Plain(st.decls[k].path)
    ensures var d := st.decls[k];
      var w := Winner(st, d.verb, RequestPath(d.path, st.strict));
      w.Some? && w.value >= k && Full(st, st.decls[w.value]) == Full(st, d)
  {
    var d, ci := st.decls[k], st.FoldCase();
    var path := RequestPath(d.path, st.strict);
    RequestPathIs(d.path, st.strict);
    NormalIsMatchPath(d.path, st.strict);
    assert [SLASH] + path[1..] == path;
    PlainCanServe(st, d.verb, path, k);
    WinnerWins(st, d.verb, path);
    var w := Winner(st, d.verb, path).value;
    assert Yields(st, k, w);
    PlainNormal(d.path, st.strict);
    PlainTokens(path, ci);
    if path != [SLASH] {
      NothingBeforePlain(path, Full(st, st.decls[w]), path, ci);
    }
    LessTotal(Full(st, d), Full(st, st.decls[w]));
  }

  /** With CaseSensitive a plain declared path is met by no other request path than itself; without it, by
      all that differ from it in the case of ASCII letters only. */
  lemma CaseSensitiveIsExact(st: State, verb: Str, path: Str, k: nat)
    requires AllRooted(st) && path != [] && k < |st.decls| && st.decls[k].verb == verb
    requires Plain(st.decls[k].path)
    ensures var p, q := Normal(st.decls[k].path, st.strict), [SLASH] + path[1..];
      && (st.caseSensitive ==> (CanServe(st, verb, path, k) <==> p == q))
      && (!st.caseSensitive ==> (CanServe(st, verb, path, k) <==>
            |p| == |q| && forall i :: 0 <= i < |p| ==> LowerASCII(p[i]) == LowerASCII(q[i])))
  {
    PlainCanServe(st, verb, path, k);
  }

  /** With StrictSlash a plain path does not serve itself with a '/' more or less at the end. */
  lemma StrictSlashTellsApart(st: State, verb: Str, path: Str, k: nat)
    requires AllRooted(st) && st.strict && k < |st.decls| && st.decls[k].verb == verb
    requires Plain(st.decls[k].path) && path != []
    ensures CanServe(st, verb, path, k) <==> SameFolded(st.decls[k].path, [SLASH] + path[1..], st.FoldCase())
    ensures CanServe(st, verb, path, k) ==> |path| == |st.decls[k].path|
  {
    PlainCanServe(st, verb, path, k);
  }

  // ---------- the whole reply ----------

  /** The keys under which the winner's captures come, in order. */
  function KeysOf(st: State, verb: Str, k: nat): seq<Str>
    requires k < |st.decls|
  {
    KeysFrom(RoutesFor(st, verb, |st.decls|), PatternOf(RouteOf(st, st.decls[k]), st.FoldCase()), 0, st.FoldCase())
  }

  /** What the winner of a path captures, by place. */
  lemma LookupCaptures(st: State, verb: Str, path: Str)
    requires AllRooted(st) && path != [] && Winner(st, verb, path).Some?
    ensures Lookup(st, verb, path).Some?
    ensures var k, caps := Winner(st, verb, path).value, Lookup(st, verb, path).value.caps;
      var values := Values(Full(st, st.decls[k]), [SLASH] + path[1..]);
      && |caps| == |values| == |KeysOf(st, verb, k)|
      && forall i :: 0 <= i < |caps| ==> caps[i] == Capture(KeysOf(st, verb, k)[i], values[i])
  {
    var rs, ks, ci := RoutesFor(st, verb, |st.decls|), DeclsFor(st, verb, |st.decls|), st.FoldCase();
    DeclsForAreRoutes(st, verb, |st.decls|);
    var i := PickRoute(rs, path, ci).value;
    var d := st.decls[ks[i]];
    FullIsRoute(st, d);
    var pat := PatternOf(rs[i], ci);
    MatchBehindSlash(pat, path[1..], ci);
    ParseIsProper(rs[i].path, ci);
    if path == [SLASH] {
      LastExactIs(rs, [], ci);
    } else {
      ScanIsLeast(rs, path[1..], ci);
      OneKeyPerValue(rs, pat, 0, path[1..], ci);
      PairValues(KeysFrom(rs, pat, 0, ci), Values(pat, path[1..]));
    }
  }

  /** The reply to a served request, all of it: the winner's handler, no Allow list, the body kept, and a
      parameter map that is nil just when the route has no wildcards; with different keys it holds under
      each key the value captured at that key's place. */
  lemma ServedReply(st: State, verb: Str, rawPath: Str)
    requires AllRooted(st) && Winner(st, verb, RequestPath(rawPath, st.strict)).Some?
    ensures var path, reply := RequestPath(rawPath, st.strict), Dispatch(st, verb, rawPath);
      var k := Winner(st, verb, path).value;
      var keys, values := KeysOf(st, verb, k), Values(Full(st, st.decls[k]), [SLASH] + path[1..]);
      && reply.allowed == [] && !reply.dropBody
      && reply.handler == WrapAll(ChainOf(st, st.decls[k]), st.decls[k].handler)
      && |keys| == |values| && (reply.params.None? <==> values == [])
      && (reply.params.Some? ==> forall key :: key in reply.params.value <==> key in keys)
      && (NoRepeats(keys) ==> forall i :: 0 <= i < |keys| ==>
            keys[i] in reply.params.value && reply.params.value[keys[i]] == values[i])
  {
    var path := RequestPath(rawPath, st.strict);
    var k := Winner(st, verb, path).value;
    LookupCaptures(st, verb, path);
    DeclsForAreRoutes(st, verb, |st.decls|);
    LookupInPicks(RoutesFor(st, verb, |st.decls|), path, st.FoldCase());
    var caps, keys := Lookup(st, verb, path).value.caps, KeysOf(st, verb, k);
    MapOfPairs(caps, keys, Values(Full(st, st.decls[k]), [SLASH] + path[1..]));
  }

  lemma MapOfPairs(caps: seq<Capture>, keys: seq<Str>, values: seq<Str>)
    requires |caps| == |keys| == |values|
    requires forall i :: 0 <= i < |caps| ==> caps[i] == Capture(keys[i], values[i])
    ensures forall key :: key in ToMap(caps) <==> key in keys
    ensures NoRepeats(keys) ==> forall i :: 0 <= i < |keys| ==>
      keys[i] in ToMap(caps) && ToMap(caps)[keys[i]] == values[i]
  {
    ToMapIs(caps);
  }
}
