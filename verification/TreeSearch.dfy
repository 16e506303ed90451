/** Backtracking search loses nothing: it finds the least matching pattern stored in the tree. */
module TreeSearch {
  import opened Bytes
  import opened Pattern
  import opened RadixTree
  import opened TreeInsert

  /** The keys of the wildcard nodes on the way to toks. */
  function WalkKeys(t: Tree, toks: seq<Token>, ci: bool): seq<Str>
    decreases t, 0
  {
    if toks == [] then []
    else
      var i := IndexOf(t.children, toks[0], ci);
      if i < |t.children| then NodeKeys(t.children[i], toks, ci) else []
  }

  function NodeKeys(c: Tree, toks: seq<Token>, ci: bool): seq<Str>
    requires toks != []
    decreases c, 1
  {
    match c.kind
    case Static => if |c.path| <= |toks| then WalkKeys(c, toks[|c.path|..], ci) else []
    case ParamKind => [c.key] + WalkKeys(c, toks[1..], ci)
    case CatchAllKind => [c.key]
  }

  /** The captures pair the keys with the values, in order. */
  ghost predicate Binds(caps: seq<Capture>, keys: seq<Str>, values: seq<Str>) {
    |caps| == |keys| == |values| && forall i :: 0 <= i < |caps| ==> caps[i] == Capture(keys[i], values[i])
  }

  ghost predicate IsRouteBelow(t: Tree, toks: seq<Token>, path: Str, ci: bool) {
    At(t, toks, ci).handler.Some? && Matches(toks, path, ci)
  }

  ghost predicate IsRouteAbove(c: Tree, toks: seq<Token>, path: Str, ci: bool) {
    Find(c, toks, ci).handler.Some? && Matches(toks, path, ci)
  }

  function Class(tok: Token): nat {
    match tok
    case Lit(_) => 0
    case Param => 1
    case CatchAll => 2
  }

  /** The token by which a child of kind number w can be entered on this path. */
  function EntryToken(w: nat, path: Str, ci: bool): Token
    requires w < 3 && path != []
  {
    if w == 0 then Lit(Fold(path[0], ci)) else if w == 1 then Param else CatchAll
  }

  lemma MismatchFails(c: Tree, path: Str, ci: bool)
    requires ChildShape(c) && c.kind == Static && path != [] && !HeadIs(c, Lit(Fold(path[0], ci)), ci)
    ensures MatchNode(c, path, ci) == None
  {
  }

  /** Of each kind at most one child can match, namely the one its entry token leads to. */
  lemma {:induction false} KindResult(cs: seq<Tree>, w: nat, path: Str, ci: bool)
    requires w < 3 && path != [] && DistinctHeads(cs, ci)
    requires forall i :: 0 <= i < |cs| ==> ChildShape(cs[i])
    ensures var i := IndexOf(cs, EntryToken(w, path, ci), ci);
      MatchKind(cs, KindAt(w), path, ci) == if i < |cs| then MatchNode(cs[i], path, ci) else None
  {
    if cs != [] {
      var tok := EntryToken(w, path, ci);
      var rest := cs[1..];
      KindResult(rest, w, path, ci);
      if HeadIs(cs[0], tok, ci) {
        assert IndexOf(rest, tok, ci) == |rest|;
      } else if cs[0].kind == Static && w == 0 {
        MismatchFails(cs[0], path, ci);
      }
    }
  }

  lemma {:induction false} EmptyRestResult(cs: seq<Tree>, ci: bool)
    requires forall i :: 0 <= i < |cs| ==> ChildShape(cs[i])
    ensures var i := IndexOf(cs, CatchAll, ci);
      EmptyRest(cs) == if i < |cs| then MatchNode(cs[i], [], ci) else None
  {
    if cs != [] {
      EmptyRestResult(cs[1..], ci);
    }
  }

  /** Search below a node: the least route stored below it that matches, or none matches. */
  lemma {:induction false} BelowLeast(t: Tree, path: Str, ci: bool) returns (win: seq<Token>)
    requires WellFormed(t, ci)
    ensures match MatchBelow(t, path, ci)
      case None => forall u :: !IsRouteBelow(t, u, path, ci)
      case Some(hit) =>
        && At(t, win, ci).handler == Some(hit.handler) && Matches(win, path, ci)
        && Binds(hit.caps, WalkKeys(t, win, ci), Values(win, path))
        && forall u :: IsRouteBelow(t, u, path, ci) ==> !Less(u, win)
    decreases t, 1, 0
  {
    if path != [] {
      win := TryLeast(t, 0, path, ci);
    } else if t.handler.Some? {
      win := [];
    } else {
      win := [CatchAll];
      EmptyRestResult(t.children, ci);
    }
  }

  lemma {:induction false} TryLeast(t: Tree, w: nat, path: Str, ci: bool) returns (win: seq<Token>)
    requires WellFormed(t, ci) && w <= 3 && path != []
    ensures match TryFrom(t.children, w, path, ci)
      case None => forall u :: u != [] && Class(u[0]) >= w ==> !IsRouteBelow(t, u, path, ci)
      case Some(hit) =>
        && At(t, win, ci).handler == Some(hit.handler) && Matches(win, path, ci)
        && Binds(hit.caps, WalkKeys(t, win, ci), Values(win, path))
        && win != [] && Class(win[0]) >= w
        && forall u :: u != [] && Class(u[0]) >= w && IsRouteBelow(t, u, path, ci) ==> !Less(u, win)
    decreases t, 0, 3 - w
  {
    win := [];
    if w < 3 {
      KindResult(t.children, w, path, ci);
      RoutesEnterByToken(t, w, path, ci);
      var i := IndexOf(t.children, EntryToken(w, path, ci), ci);
      if i < |t.children| {
        win := NodeLeast(t.children[i], path, ci);
        var r := MatchNode(t.children[i], path, ci);
        if r.Some? {
          ChildWins(t, w, i, win, r.value, path, ci);
          return;
        }
      }
      win := TryLeast(t, w + 1, path, ci);
    }
  }

  /** The winner below the child that class w enters wins among all classes from w on. */
  lemma ChildWins(t: Tree, w: nat, i: nat, win: seq<Token>, hit: Hit, path: Str, ci: bool)
    requires w < 3 && path != [] && i == IndexOf(t.children, EntryToken(w, path, ci), ci) < |t.children|
    requires ChildShape(t.children[i]) && Find(t.children[i], win, ci).handler == Some(hit.handler)
    requires win != [] && Matches(win, path, ci)
    requires Binds(hit.caps, NodeKeys(t.children[i], win, ci), Values(win, path))
    requires forall u :: IsRouteAbove(t.children[i], u, path, ci) ==> !Less(u, win)
    ensures At(t, win, ci).handler == Some(hit.handler) && Class(win[0]) == w
    ensures Binds(hit.caps, WalkKeys(t, win, ci), Values(win, path))
    ensures forall u :: u != [] && Class(u[0]) >= w && IsRouteBelow(t, u, path, ci) ==> !Less(u, win)
  {
    FindEntered(t.children[i], win, ci);
    assert win[0] == EntryToken(w, path, ci);
    forall u | u != [] && Class(u[0]) >= w && IsRouteBelow(t, u, path, ci) ensures !Less(u, win) {
      if Class(u[0]) == w {
        RoutesEnterByToken(t, w, path, ci);
        assert IsRouteAbove(t.children[i], u, path, ci);
      }
    }
  }

  /** A matching route of class w goes through the child its entry token leads to. */
  lemma RoutesEnterByToken(t: Tree, w: nat, path: Str, ci: bool)
    requires w < 3 && path != []
    ensures forall u :: u != [] && Class(u[0]) == w && IsRouteBelow(t, u, path, ci) ==>
      var i := IndexOf(t.children, EntryToken(w, path, ci), ci);
      u[0] == EntryToken(w, path, ci) && i < |t.children| && IsRouteAbove(t.children[i], u, path, ci)
  {
    forall u | u != [] && Class(u[0]) == w && IsRouteBelow(t, u, path, ci)
      ensures var i := IndexOf(t.children, EntryToken(w, path, ci), ci);
        u[0] == EntryToken(w, path, ci) && i < |t.children| && IsRouteAbove(t.children[i], u, path, ci)
    {
      assert u[0] == EntryToken(w, path, ci);
    }
  }

  /** Only sequences that start with its head token are stored under a child. */
  lemma FindEntered(c: Tree, toks: seq<Token>, ci: bool)
    requires ChildShape(c) && Find(c, toks, ci).handler.Some?
    ensures toks != [] && HeadIs(c, toks[0], ci)
  {
    if c.kind == Static && toks != [] && !HeadIs(c, toks[0], ci) {
      FindElsewhere(c, toks, ci);
    }
  }

  /** Search at a child: its label first, then below it. */
  lemma {:induction false} NodeLeast(c: Tree, path: Str, ci: bool) returns (win: seq<Token>)
    requires ChildShape(c) && WellFormed(c, ci) && path != []
    ensures match MatchNode(c, path, ci)
      case None => forall u :: !IsRouteAbove(c, u, path, ci)
      case Some(hit) =>
        && Find(c, win, ci).handler == Some(hit.handler) && Matches(win, path, ci)
        && win != [] && Binds(hit.caps, NodeKeys(c, win, ci), Values(win, path))
        && forall u :: IsRouteAbove(c, u, path, ci) ==> !Less(u, win)
    decreases c, 2, 0
  {
    match c.kind
    case Static =>
      win := StaticLeast(c, path, ci);
    case ParamKind =>
      win := ParamLeast(c, path, ci);
    case CatchAllKind =>
      win := [CatchAll];
  }

  lemma {:induction false} StaticLeast(c: Tree, path: Str, ci: bool) returns (win: seq<Token>)
    requires c.kind == Static && ChildShape(c) && WellFormed(c, ci) && path != []
    ensures match MatchNode(c, path, ci)
      case None => forall u :: !IsRouteAbove(c, u, path, ci)
      case Some(hit) =>
        && Find(c, win, ci).handler == Some(hit.handler) && Matches(win, path, ci)
        && win != [] && Binds(hit.caps, NodeKeys(c, win, ci), Values(win, path))
        && forall u :: IsRouteAbove(c, u, path, ci) ==> !Less(u, win)
    decreases c, 1, 1
  {
    var lits, n := LitTokens(c.path, ci), |c.path|;
    forall u | IsRouteAbove(c, u, path, ci)
      ensures u == lits + u[n..] && IsFoldedPrefix(c.path, path, ci) && IsRouteBelow(c, u[n..], path[n..], ci)
    {
      RouteThroughStatic(c, u, path, ci);
    }
    win := [];
    if IsFoldedPrefix(c.path, path, ci) {
      var w := BelowLeast(c, path[n..], ci);
      win := lits + w;
      MatchesAfterLits(c.path, w, path, ci);
      assert win[..n] == lits && win[n..] == w;
      forall u | IsRouteAbove(c, u, path, ci) && MatchNode(c, path, ci).Some? ensures !Less(u, win) {
        LessAfterPrefix(lits, u[n..], w);
      }
    }
  }

  lemma RouteThroughStatic(c: Tree, u: seq<Token>, path: Str, ci: bool)
    requires c.kind == Static && IsRouteAbove(c, u, path, ci)
    ensures |c.path| <= |u| && u == LitTokens(c.path, ci) + u[|c.path|..]
    ensures IsFoldedPrefix(c.path, path, ci) && IsRouteBelow(c, u[|c.path|..], path[|c.path|..], ci)
  {
    assert u == LitTokens(c.path, ci) + u[|c.path|..];
    MatchesAfterLits(c.path, u[|c.path|..], path, ci);
  }

  lemma RouteThroughParam(c: Tree, u: seq<Token>, path: Str, ci: bool)
    requires c.kind == ParamKind && IsRouteAbove(c, u, path, ci)
    ensures u != [] && u[0] == Param && SegmentLen(path) > 0
    ensures IsRouteBelow(c, u[1..], path[SegmentLen(path)..], ci)
  {
    assert |u| == 1 ==> u[1..] == [];
  }

  lemma {:induction false} ParamLeast(c: Tree, path: Str, ci: bool) returns (win: seq<Token>)
    requires c.kind == ParamKind && ChildShape(c) && WellFormed(c, ci) && path != []
    ensures match MatchNode(c, path, ci)
      case None => forall u :: !IsRouteAbove(c, u, path, ci)
      case Some(hit) =>
        && Find(c, win, ci).handler == Some(hit.handler) && Matches(win, path, ci)
        && win != [] && Binds(hit.caps, NodeKeys(c, win, ci), Values(win, path))
        && forall u :: IsRouteAbove(c, u, path, ci) ==> !Less(u, win)
    decreases c, 1, 1
  {
    var n := SegmentLen(path);
    forall u | IsRouteAbove(c, u, path, ci)
      ensures u != [] && u[0] == Param && n > 0 && IsRouteBelow(c, u[1..], path[n..], ci)
    {
      RouteThroughParam(c, u, path, ci);
    }
    win := [];
    if n > 0 {
      var w := BelowLeast(c, path[n..], ci);
      win := [Param] + w;
      if MatchNode(c, path, ci).Some? {
        ParamHit(c, w, path, ci);
        forall u | IsRouteAbove(c, u, path, ci) ensures !Less(u, win) {
          assert win[1..] == w && !Less(u[1..], w);
        }
      }
    }
  }

  /** A hit below a parameter, seen from above it. */
  lemma ParamHit(c: Tree, w: seq<Token>, path: Str, ci: bool)
    requires c.kind == ParamKind && SegmentLen(path) > 0 && MatchNode(c, path, ci).Some?
    requires var n := SegmentLen(path);
      var hit := MatchBelow(c, path[n..], ci);
      hit.Some? && At(c, w, ci).handler == Some(hit.value.handler) && Matches(w, path[n..], ci)
      && Binds(hit.value.caps, WalkKeys(c, w, ci), Values(w, path[n..]))
    ensures var win, hit := [Param] + w, MatchNode(c, path, ci).value;
      && Find(c, win, ci).handler == Some(hit.handler) && Matches(win, path, ci)
      && Binds(hit.caps, NodeKeys(c, win, ci), Values(win, path))
  {
    assert ([Param] + w)[1..] == w;
  }
}
