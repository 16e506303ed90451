/** The router's meaning without a tree: a linear scan over the declared routes.
    The radix tree built from the same routes gives exactly the same answers. */
module RouteScan {
  import opened Bytes
  import opened Handlers
  import opened Pattern
  import opened RadixTree
  import opened TreeInsert
  import opened TreeSearch

  datatype Route = Route(path: Str, handler: Handler)

  function PiecesOf(r: Route, ci: bool): seq<Piece> {
    Parse(r.path, ci)
  }

  function PatternOf(r: Route, ci: bool): seq<Token> {
    Tokens(PiecesOf(r, ci))
  }

  predicate RouteMatches(r: Route, path: Str, ci: bool) {
    Matches(PatternOf(r, ci), path, ci)
  }

  /** Index of the route that serves path: the matching one of highest priority,
      the last registered among equals. */
  function Scan(routes: seq<Route>, path: Str, ci: bool): (best: Option<nat>)
    ensures best.Some? ==> best.value < |routes|
  {
    if routes == [] then None
    else
      var n := |routes| - 1;
      var best := Scan(routes[..n], path, ci);
      if RouteMatches(routes[n], path, ci) &&
         (best.None? || !Less(PatternOf(routes[best.value], ci), PatternOf(routes[n], ci)))
      then Some(n) else best
  }

  /** First and last route, by index, on whose way toks lies. */
  function FirstThrough(routes: seq<Route>, toks: seq<Token>, ci: bool): (i: nat)
    ensures i <= |routes|
    ensures i < |routes| ==> Passes(toks, PiecesOf(routes[i], ci))
  {
    if routes == [] || Passes(toks, PiecesOf(routes[0], ci)) then 0
    else 1 + FirstThrough(routes[1..], toks, ci)
  }

  function LastThrough(routes: seq<Route>, toks: seq<Token>, ci: bool): (i: nat)
    ensures i <= |routes|
    ensures i < |routes| ==> Passes(toks, PiecesOf(routes[i], ci))
  {
    if routes == [] then 0
    else
      var n := |routes| - 1;
      if Passes(toks, PiecesOf(routes[n], ci)) then n
      else
        var i := LastThrough(routes[..n], toks, ci);
        if i == n then |routes| else i
  }

  /** Last route, by index, whose pattern is toks. */
  function LastExact(routes: seq<Route>, toks: seq<Token>, ci: bool): (i: nat)
    ensures i <= |routes|
  {
    if routes == [] then 0
    else
      var n := |routes| - 1;
      if PatternOf(routes[n], ci) == toks then n
      else
        var i := LastExact(routes[..n], toks, ci);
        if i == n then |routes| else i
  }

  lemma {:induction false} LastExactIs(routes: seq<Route>, toks: seq<Token>, ci: bool)
    ensures var i := LastExact(routes, toks, ci);
      && (i < |routes| ==> PatternOf(routes[i], ci) == toks)
      && (forall j :: i < j < |routes| ==> PatternOf(routes[j], ci) != toks)
      && (i == |routes| ==> forall j :: 0 <= j < |routes| ==> PatternOf(routes[j], ci) != toks)
  {
    if routes != [] {
      var n := |routes| - 1;
      LastExactIs(routes[..n], toks, ci);
      assert forall j :: 0 <= j < n ==> routes[..n][j] == routes[j];
    }
  }

  function KeyIn(r: Route, at: nat, ci: bool): Str {
    var ps := PiecesOf(r, ci);
    if at >= |ps| || ps[at].PLit? then [] else ps[at].key
  }

  /** The name a wildcard position goes by: a parameter is named by the first route that
      passes through it, a catch-all by the last. */
  function KeyFor(routes: seq<Route>, toks: seq<Token>, ci: bool): Str
    requires toks != []
  {
    var i := if toks[|toks| - 1] == Param then FirstThrough(routes, toks, ci) else LastThrough(routes, toks, ci);
    if i < |routes| then KeyIn(routes[i], |toks| - 1, ci) else []
  }

  function KeyOf(p: Piece): Str {
    match p
    case PLit(_) => []
    case PParam(key) => key
    case PCatchAll(key) => key
  }

  lemma {:induction false} FirstThroughIs(routes: seq<Route>, toks: seq<Token>, i: nat, ci: bool)
    requires i < |routes| && Passes(toks, PiecesOf(routes[i], ci))
    requires forall j :: 0 <= j < i ==> !Passes(toks, PiecesOf(routes[j], ci))
    ensures FirstThrough(routes, toks, ci) == i
  {
    if i > 0 {
      FirstThroughIs(routes[1..], toks, i - 1, ci);
    }
  }

  lemma {:induction false} LastThroughIs(routes: seq<Route>, toks: seq<Token>, i: nat, ci: bool)
    requires i < |routes| && Passes(toks, PiecesOf(routes[i], ci))
    requires forall j :: i < j < |routes| ==> !Passes(toks, PiecesOf(routes[j], ci))
    ensures LastThrough(routes, toks, ci) == i
  {
    if i < |routes| - 1 {
      LastThroughIs(routes[..|routes| - 1], toks, i, ci);
    }
  }

  /** A parameter is named as in the first route through its place, a catch-all as in the last. */
  lemma KeyForIs(routes: seq<Route>, toks: seq<Token>, i: nat, ci: bool)
    requires toks != [] && !toks[|toks| - 1].Lit? && i < |routes| && Passes(toks, PiecesOf(routes[i], ci))
    requires toks[|toks| - 1] == Param ==> forall j :: 0 <= j < i ==> !Passes(toks, PiecesOf(routes[j], ci))
    requires toks[|toks| - 1] == CatchAll ==> forall j :: i < j < |routes| ==> !Passes(toks, PiecesOf(routes[j], ci))
    ensures KeyFor(routes, toks, ci) == KeyOf(PiecesOf(routes[i], ci)[|toks| - 1])
  {
    var last := PiecesOf(routes[i], ci)[|toks| - 1];
    assert TokenOf(last) == toks[|toks| - 1];
    if toks[|toks| - 1] == Param {
      FirstThroughIs(routes, toks, i, ci);
    } else {
      LastThroughIs(routes, toks, i, ci);
    }
  }

  /** The keys of the wildcards of a pattern, from position n on. */
  function KeysFrom(routes: seq<Route>, toks: seq<Token>, n: nat, ci: bool): seq<Str>
    requires n <= |toks|
    decreases |toks| - n
  {
    if n == |toks| then []
    else (if toks[n].Lit? then [] else [KeyFor(routes, toks[..n + 1], ci)]) + KeysFrom(routes, toks, n + 1, ci)
  }

  function Pair(keys: seq<Str>, values: seq<Str>): seq<Capture> {
    if keys == [] || values == [] then [] else [Capture(keys[0], values[0])] + Pair(keys[1..], values[1..])
  }

  /** What a lookup answers, by linear scan. */
  function ScanSearch(routes: seq<Route>, path: Str, ci: bool): Option<Hit> {
    var best := Scan(routes, path, ci);
    if best.None? then None
    else
      var r := routes[best.value];
      Some(Hit(r.handler, Pair(KeysFrom(routes, PatternOf(r, ci), 0, ci), Values(PatternOf(r, ci), path))))
  }

  /** Scan picks a matching route such that no matching route goes before it and no later
      matching route has the same pattern; it finds nothing only when nothing matches. */
  lemma {:induction false} ScanIsLeast(routes: seq<Route>, path: Str, ci: bool)
    ensures match Scan(routes, path, ci)
      case None => forall j :: 0 <= j < |routes| ==> !RouteMatches(routes[j], path, ci)
      case Some(i) =>
        && RouteMatches(routes[i], path, ci)
        && (forall j :: 0 <= j < |routes| && RouteMatches(routes[j], path, ci) ==>
              !Less(PatternOf(routes[j], ci), PatternOf(routes[i], ci)))
        && (forall j :: i < j < |routes| ==> PatternOf(routes[j], ci) != PatternOf(routes[i], ci))
  {
    if routes != [] {
      var n := |routes| - 1;
      ScanIsLeast(routes[..n], path, ci);
      var best := Scan(routes[..n], path, ci);
      var pn := PatternOf(routes[n], ci);
      if RouteMatches(routes[n], path, ci) {
        LessTotal(pn, pn);
        if best.Some? {
          var pb := PatternOf(routes[best.value], ci);
          LessTotal(pb, pn);
          forall j | 0 <= j < n && RouteMatches(routes[j], path, ci)
            ensures !Less(pb, pn) ==> !Less(PatternOf(routes[j], ci), pn)
          {
            assert routes[..n][j] == routes[j];
            LessTotal(PatternOf(routes[j], ci), pb);
            if !Less(pb, pn) && Less(PatternOf(routes[j], ci), pn) && pb != pn {
              LessTransitive(PatternOf(routes[j], ci), pn, pb);
            }
          }
        }
      }
      assert forall j :: 0 <= j < n ==> routes[..n][j] == routes[j];
    }
  }

  // ---------- the tree of a route list ----------

  function BuildTree(routes: seq<Route>, ci: bool): Tree {
    if routes == [] then ROOT
    else
      var n := |routes| - 1;
      InsertTree(BuildTree(routes[..n], ci), routes[n].path, routes[n].handler, ci)
  }

  lemma BuildTreeSnoc(routes: seq<Route>, r: Route, ci: bool)
    ensures BuildTree(routes + [r], ci) == InsertTree(BuildTree(routes, ci), r.path, r.handler, ci)
  {
    assert (routes + [r])[..|routes|] == routes;
  }

  lemma {:induction false} BuiltTreeIsWellFormed(routes: seq<Route>, ci: bool)
    ensures WellFormed(BuildTree(routes, ci), ci)
    ensures BuildTree(routes, ci).kind == Static && BuildTree(routes, ci).path == []
  {
    if routes != [] {
      var n := |routes| - 1;
      BuiltTreeIsWellFormed(routes[..n], ci);
      InsertKeepsShape(BuildTree(routes[..n], ci), routes[n].path, routes[n].handler, ci);
    }
  }

  /** Every token sequence holds the handler of the last route with exactly these tokens. */
  lemma {:induction false} BuiltHandler(routes: seq<Route>, toks: seq<Token>, ci: bool)
    ensures var i := LastExact(routes, toks, ci);
      At(BuildTree(routes, ci), toks, ci).handler == if i < |routes| then Some(routes[i].handler) else None
  {
    if routes != [] {
      var n := |routes| - 1;
      BuiltHandler(routes[..n], toks, ci);
      InsertAt(BuildTree(routes[..n], ci), routes[n].path, routes[n].handler, ci, toks);
    }
  }

  lemma UpdatedKey(e: Entry, toks: seq<Token>, r: Route, ci: bool)
    requires toks != [] && !toks[|toks| - 1].Lit?
    ensures Update(e, toks, PiecesOf(r, ci), r.handler).key ==
      if Passes(toks, PiecesOf(r, ci)) && (e.key.None? || toks[|toks| - 1] != Param)
      then Some(KeyIn(r, |toks| - 1, ci)) else e.key
  {
    var pieces := PiecesOf(r, ci);
    if Passes(toks, pieces) {
      assert TokenOf(pieces[|toks| - 1]) == toks[|toks| - 1];
    }
  }

  /** Every wildcard position on some route's way has the key KeyFor says. */
  lemma {:induction false} BuiltKey(routes: seq<Route>, toks: seq<Token>, ci: bool)
    requires toks != [] && !toks[|toks| - 1].Lit?
    ensures At(BuildTree(routes, ci), toks, ci).key ==
      if FirstThrough(routes, toks, ci) < |routes| then Some(KeyFor(routes, toks, ci)) else None
  {
    if routes != [] {
      var n := |routes| - 1;
      BuiltKey(routes[..n], toks, ci);
      InsertAt(BuildTree(routes[..n], ci), routes[n].path, routes[n].handler, ci, toks);
      KeyForSnoc(routes, toks, ci);
      UpdatedKey(At(BuildTree(routes[..n], ci), toks, ci), toks, routes[n], ci);
    }
  }

  /** One more route renames a catch-all position it passes through, a parameter only if it is new. */
  lemma KeyForSnoc(routes: seq<Route>, toks: seq<Token>, ci: bool)
    requires toks != [] && routes != []
    ensures var n := |routes| - 1;
      var before := FirstThrough(routes[..n], toks, ci) < n;
      var passes := Passes(toks, PiecesOf(routes[n], ci));
      && (FirstThrough(routes, toks, ci) < |routes| <==> before || passes)
      && (passes && (!before || toks[|toks| - 1] != Param) ==>
            KeyFor(routes, toks, ci) == KeyIn(routes[n], |toks| - 1, ci))
      && (before && (!passes || toks[|toks| - 1] == Param) ==>
            KeyFor(routes, toks, ci) == KeyFor(routes[..n], toks, ci))
  {
    FirstThroughSnoc(routes, toks, ci);
    LastThroughAgrees(routes[..|routes| - 1], toks, ci);
  }

  lemma {:induction false} FirstThroughSnoc(routes: seq<Route>, toks: seq<Token>, ci: bool)
    requires routes != []
    ensures var n := |routes| - 1;
      var i := FirstThrough(routes[..n], toks, ci);
      FirstThrough(routes, toks, ci) ==
      if i < n || Passes(toks, PiecesOf(routes[n], ci)) then i else n + 1
  {
    var n := |routes| - 1;
    if n > 0 && !Passes(toks, PiecesOf(routes[0], ci)) {
      FirstThroughSnoc(routes[1..], toks, ci);
      assert routes[1..][..n - 1] == routes[..n][1..];
    }
  }

  lemma {:induction false} LastThroughAgrees(routes: seq<Route>, toks: seq<Token>, ci: bool)
    ensures LastThrough(routes, toks, ci) < |routes| <==> FirstThrough(routes, toks, ci) < |routes|
  {
    if routes != [] {
      LastThroughAgrees(routes[..|routes| - 1], toks, ci);
      FirstThroughSnoc(routes, toks, ci);
    }
  }

  // ---------- keys along a walk ----------

  /** The keys stored along toks, from position n on. */
  function StoredKeys(r: Tree, toks: seq<Token>, n: nat, ci: bool): seq<Str>
    requires n <= |toks|
    decreases |toks| - n
  {
    if n == |toks| then []
    else
      var key := At(r, toks[..n + 1], ci).key;
      (if toks[n].Lit? || key.None? then [] else [key.value]) + StoredKeys(r, toks, n + 1, ci)
  }

  lemma {:induction false} StoredKeysSkip(r: Tree, toks: seq<Token>, n: nat, m: nat, ci: bool)
    requires n <= m <= |toks| && forall i :: n <= i < m ==> toks[i].Lit?
    ensures StoredKeys(r, toks, n, ci) == StoredKeys(r, toks, m, ci)
    decreases m - n
  {
    if n < m {
      StoredKeysSkip(r, toks, n + 1, m, ci);
    }
  }

  /** Walking from t, a node of r reached by pre, meets the keys that r stores. */
  lemma {:induction false} WalkMeetsStoredKeys(r: Tree, pre: seq<Token>, t: Tree, toks: seq<Token>, ci: bool)
    requires forall u :: u != [] ==> At(r, pre + u, ci) == At(t, u, ci)
    requires At(t, toks, ci).handler.Some?
    ensures WalkKeys(t, toks, ci) == StoredKeys(r, pre + toks, |pre|, ci)
    decreases |toks|, t
  {
    if toks != [] {
      var c := t.children[IndexOf(t.children, toks[0], ci)];
      var all := pre + toks;
      match c.kind
      case Static =>
        var n := |c.path|;
        var pre', rest := pre + toks[..n], toks[n..];
        assert all == pre' + rest;
        ReachBelow(r, pre, t, c, n, toks, ci);
        WalkMeetsStoredKeys(r, pre', c, rest, ci);
        assert forall i :: |pre| <= i < |pre'| ==> all[i] == toks[..n][i - |pre|];
        StoredKeysSkip(r, all, |pre|, |pre'|, ci);
      case ParamKind =>
        var pre', rest := pre + [Param], toks[1..];
        assert all == pre' + rest;
        assert toks[..1] == [Param];
        ReachBelow(r, pre, t, c, 1, toks, ci);
        assert all[..|pre| + 1] == pre + [Param];
        assert At(r, pre + [Param], ci) == At(t, [Param], ci) == Entry(c.handler, Some(c.key));
        assert rest == [] ==> At(c, rest, ci).handler == At(t, toks, ci).handler;
        WalkMeetsStoredKeys(r, pre', c, rest, ci);
      case CatchAllKind =>
        assert all[..|pre| + 1] == pre + [CatchAll];
        assert all == pre + [CatchAll];
    }
  }

  lemma ReachBelow(r: Tree, pre: seq<Token>, t: Tree, c: Tree, n: nat, toks: seq<Token>, ci: bool)
    requires forall u :: u != [] ==> At(r, pre + u, ci) == At(t, u, ci)
    requires toks != []
    requires var i := IndexOf(t.children, toks[0], ci); i < |t.children| && c == t.children[i]
    requires c.kind != CatchAllKind && n == (if c.kind == Static then |c.path| else 1)
    requires c.kind == Static ==> LitPrefix(c.path, toks, ci)
    ensures forall u :: u != [] ==> At(r, (pre + toks[..n]) + u, ci) == At(c, u, ci)
  {
    forall u: seq<Token> | u != [] ensures At(r, (pre + toks[..n]) + u, ci) == At(c, u, ci) {
      assert (pre + toks[..n]) + u == pre + (toks[..n] + u);
      StepBelow(t, c, n, toks, u, ci);
    }
  }

  /** Replacing what follows a child's label keeps leading into that child. */
  lemma StepBelow(t: Tree, c: Tree, n: nat, toks: seq<Token>, u: seq<Token>, ci: bool)
    requires toks != [] && u != []
    requires var i := IndexOf(t.children, toks[0], ci); i < |t.children| && c == t.children[i]
    requires c.kind != CatchAllKind && n == (if c.kind == Static then |c.path| else 1)
    requires c.kind == Static ==> LitPrefix(c.path, toks, ci)
    ensures At(t, toks[..n] + u, ci) == At(c, u, ci)
  {
    var v := toks[..n] + u;
    assert v[..n] == toks[..n] && v[n..] == u && v[0] == toks[0];
  }

  /** Position k of toks, if a wildcard, is stored under the key KeyFor says. */
  predicate KeyAgrees(r: Tree, routes: seq<Route>, toks: seq<Token>, k: nat, ci: bool)
    requires k < |toks|
  {
    toks[k].Lit? || At(r, toks[..k + 1], ci).key == Some(KeyFor(routes, toks[..k + 1], ci))
  }

  lemma StoredKeysAreDeclared(routes: seq<Route>, i: nat, ci: bool)
    requires i < |routes|
    ensures StoredKeys(BuildTree(routes, ci), PatternOf(routes[i], ci), 0, ci) ==
            KeysFrom(routes, PatternOf(routes[i], ci), 0, ci)
  {
    var r, toks := BuildTree(routes, ci), PatternOf(routes[i], ci);
    forall k | 0 <= k < |toks| ensures KeyAgrees(r, routes, toks, k, ci) {
      if !toks[k].Lit? {
        StoredKeyIsDeclared(routes, i, k, ci);
      }
    }
    SameKeys(r, routes, toks, 0, ci);
  }

  lemma {:induction false} SameKeys(r: Tree, routes: seq<Route>, toks: seq<Token>, n: nat, ci: bool)
    requires n <= |toks| && forall k :: n <= k < |toks| ==> KeyAgrees(r, routes, toks, k, ci)
    ensures StoredKeys(r, toks, n, ci) == KeysFrom(routes, toks, n, ci)
    decreases |toks| - n
  {
    if n < |toks| {
      assert KeyAgrees(r, routes, toks, n, ci);
      SameKeys(r, routes, toks, n + 1, ci);
    }
  }

  lemma StoredKeyIsDeclared(routes: seq<Route>, i: nat, n: nat, ci: bool)
    requires i < |routes| && n < |PatternOf(routes[i], ci)| && !PatternOf(routes[i], ci)[n].Lit?
    ensures var way := PatternOf(routes[i], ci)[..n + 1];
      At(BuildTree(routes, ci), way, ci).key == Some(KeyFor(routes, way, ci))
  {
    var way := PatternOf(routes[i], ci)[..n + 1];
    PassesBeginning(routes[i], n + 1, ci);
    ThroughExists(routes, i, way, ci);
    BuiltKey(routes, way, ci);
  }

  lemma PassesBeginning(r: Route, n: nat, ci: bool)
    requires 0 < n <= |PatternOf(r, ci)|
    ensures Passes(PatternOf(r, ci)[..n], PiecesOf(r, ci))
  {
    assert PatternOf(r, ci)[..n] == Tokens(PiecesOf(r, ci)[..n]);
  }

  lemma {:induction false} ThroughExists(routes: seq<Route>, i: nat, toks: seq<Token>, ci: bool)
    requires i < |routes| && Passes(toks, PiecesOf(routes[i], ci))
    ensures FirstThrough(routes, toks, ci) < |routes|
  {
    if i > 0 && !Passes(toks, PiecesOf(routes[0], ci)) {
      ThroughExists(routes[1..], i - 1, toks, ci);
    }
  }

  lemma {:induction false} BindsIsPair(caps: seq<Capture>, keys: seq<Str>, values: seq<Str>)
    requires Binds(caps, keys, values)
    ensures caps == Pair(keys, values)
  {
    if caps != [] {
      BindsIsPair(caps[1..], keys[1..], values[1..]);
      assert caps == [caps[0]] + caps[1..];
    }
  }

  /** Tree and scan agree on whether a route serves the path, and on which. */
  lemma SearchFindsScan(routes: seq<Route>, path: Str, ci: bool)
    ensures var r := MatchBelow(BuildTree(routes, ci), path, ci);
      match Scan(routes, path, ci)
      case None => r.None?
      case Some(i) =>
        && r.Some? && r.value.handler == routes[i].handler
        && Binds(r.value.caps, WalkKeys(BuildTree(routes, ci), PatternOf(routes[i], ci), ci),
                 Values(PatternOf(routes[i], ci), path))
        && At(BuildTree(routes, ci), PatternOf(routes[i], ci), ci).handler.Some?
  {
    var t := BuildTree(routes, ci);
    BuiltTreeIsWellFormed(routes, ci);
    ScanIsLeast(routes, path, ci);
    var win := BelowLeast(t, path, ci);
    BuiltHandler(routes, win, ci);
    LastExactIs(routes, win, ci);
    var w := LastExact(routes, win, ci);
    assert w < |routes| ==> RouteMatches(routes[w], path, ci) == Matches(win, path, ci);
    var best := Scan(routes, path, ci);
    if best.Some? {
      var p := PatternOf(routes[best.value], ci);
      BuiltHandler(routes, p, ci);
      LastExactIs(routes, p, ci);
      assert IsRouteBelow(t, p, path, ci);
      ScanWinnerIsLast(routes, win, path, ci);
      LessTotal(win, p);
    }
  }

  /** A stored matching pattern does not go before the one Scan picks. */
  lemma {:induction false} ScanWinnerIsLast(routes: seq<Route>, win: seq<Token>, path: Str, ci: bool)
    requires Scan(routes, path, ci).Some?
    ensures var i := Scan(routes, path, ci).value;
      var p := PatternOf(routes[i], ci);
      && (LastExact(routes, win, ci) < |routes| && Matches(win, path, ci) ==> !Less(win, p))
      && LastExact(routes, p, ci) == i
  {
    ScanIsLeast(routes, path, ci);
    LastExactIs(routes, PatternOf(routes[Scan(routes, path, ci).value], ci), ci);
    LastExactIs(routes, win, ci);
    var w := LastExact(routes, win, ci);
    if w < |routes| && Matches(win, path, ci) {
      assert RouteMatches(routes[w], path, ci);
    }
  }

  /** The main theorem: for every list of registrations and every path, searching the radix
      tree answers exactly as the linear scan does, handler, values and keys alike. */
  lemma TreeSearchIsScan(routes: seq<Route>, path: Str, ci: bool)
    ensures MatchBelow(BuildTree(routes, ci), path, ci) == ScanSearch(routes, path, ci)
  {
    var t := BuildTree(routes, ci);
    SearchFindsScan(routes, path, ci);
    var best := Scan(routes, path, ci);
    if best.Some? {
      var p := PatternOf(routes[best.value], ci);
      assert forall u: seq<Token> :: [] + u == u;
      WalkMeetsStoredKeys(t, [], t, p, ci);
      StoredKeysAreDeclared(routes, best.value, ci);
      BindsIsPair(MatchBelow(t, path, ci).value.caps, WalkKeys(t, p, ci), Values(p, path));
    }
  }
}
