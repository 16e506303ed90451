/** Inserting changes the meaning of a tree at the inserted pattern only, and keeps its shape. */
module TreeInsert {
  import opened Bytes
  import opened Handlers
  import opened Pattern
  import opened RadixTree

  /** Whether toks is a non-empty beginning of the pattern made of pieces. */
  predicate Passes(toks: seq<Token>, pieces: seq<Piece>) {
    0 < |toks| <= |pieces| && toks == Tokens(pieces[..|toks|])
  }

  /** What one more route does to the entry at toks: its own tokens get the new handler; a
      parameter on its way keeps the key it has, a catch-all takes the new one. */
  function Update(e: Entry, toks: seq<Token>, pieces: seq<Piece>, h: Handler): Entry {
    Entry(
      if toks == Tokens(pieces) then Some(h) else e.handler,
      if !Passes(toks, pieces) then e.key
      else match pieces[|toks| - 1]
        case PLit(_) => e.key
        case PParam(k) => if e.key.Some? then e.key else Some(k)
        case PCatchAll(k) => Some(k))
  }

  /** Tokens already walked can be dropped from both sides. */
  lemma UpdateAfterPrefix(e: Entry, n: nat, toks: seq<Token>, pieces: seq<Piece>, h: Handler)
    requires n <= |pieces| && n <= |toks| && toks[..n] == Tokens(pieces[..n])
    requires n < |toks| || forall i :: 0 <= i < n ==> pieces[i].PLit?
    ensures Update(e, toks, pieces, h) == Update(e, toks[n..], pieces[n..], h)
  {
    assert forall i :: 0 <= i < n ==> toks[i] == toks[..n][i] == Tokens(pieces[..n])[i] == TokenOf(pieces[i]);
    assert toks == Tokens(pieces) <==> toks[n..] == Tokens(pieces[n..]) by {
      if toks[n..] == Tokens(pieces[n..]) {
        forall i | 0 <= i < |toks| ensures toks[i] == TokenOf(pieces[i]) {
          if n <= i {
            assert toks[i] == toks[n..][i - n] == Tokens(pieces[n..])[i - n];
          }
        }
      }
    }
    if n < |toks| <= |pieces| {
      var m := |toks|;
      assert pieces[n..][..m - n] == pieces[n..m];
      if toks[n..] == Tokens(pieces[n..m]) {
        forall i | 0 <= i < m ensures toks[i] == TokenOf(pieces[..m][i]) {
          if n <= i {
            assert toks[i] == toks[n..][i - n] == Tokens(pieces[n..m])[i - n];
          }
        }
        assert toks == Tokens(pieces[..m]);
      }
      assert toks == Tokens(pieces[..m]) ==> toks[n..] == Tokens(pieces[n..m]);
    }
  }

  /** A pattern that starts elsewhere leaves the entry alone. */
  lemma UpdateElsewhere(e: Entry, toks: seq<Token>, pieces: seq<Piece>, h: Handler)
    requires pieces != [] && (toks == [] || toks[0] != TokenOf(pieces[0]))
    ensures Update(e, toks, pieces, h) == e
  {
    assert Tokens(pieces)[0] == TokenOf(pieces[0]);
  }

  function LitPieces(s: Str, ci: bool): seq<Piece> {
    seq(|s|, i requires 0 <= i < |s| => PLit(Fold(s[i], ci)))
  }

  lemma {:induction false} ParseLiterals(path: Str, n: nat, ci: bool)
    requires n <= |path| && forall i :: 0 <= i < n ==> IsLiteral(path[i])
    ensures Parse(path, ci) == LitPieces(path[..n], ci) + Parse(path[n..], ci)
    decreases n
  {
    if n > 0 {
      ParseLiterals(path[1..], n - 1, ci);
      assert path[1..][n - 1..] == path[n..];
      var first, some, rest := [PLit(Fold(path[0], ci))], LitPieces(path[1..][..n - 1], ci), Parse(path[n..], ci);
      assert LitPieces(path[..n], ci) == first + some;
      assert first + (some + rest) == (first + some) + rest;
    } else {
      assert path[0..] == path;
    }
  }

  // ---------- children lists ----------

  lemma IndexOfReplaced(cs: seq<Tree>, i: nat, c: Tree, tok: Token, ci: bool)
    requires i < |cs| && forall k :: HeadIs(cs[i], k, ci) == HeadIs(c, k, ci)
    ensures IndexOf(cs[i := c], tok, ci) == IndexOf(cs, tok, ci)
  {
    assert forall j :: 0 <= j < |cs| ==> HeadIs(cs[i := c][j], tok, ci) == HeadIs(cs[j], tok, ci);
  }

  lemma IndexOfAppended(cs: seq<Tree>, c: Tree, tok: Token, ci: bool)
    ensures var i := IndexOf(cs, tok, ci);
      IndexOf(cs + [c], tok, ci) == if i < |cs| || HeadIs(c, tok, ci) then i else i + 1
  {
    assert forall j :: 0 <= j < |cs| ==> HeadIs((cs + [c])[j], tok, ci) == HeadIs(cs[j], tok, ci);
    assert HeadIs((cs + [c])[|cs|], tok, ci) == HeadIs(c, tok, ci);
  }

  /** Replacing one child, with the same head, shows only through that head. */
  lemma AtReplaced(t: Tree, i: nat, c: Tree, toks: seq<Token>, ci: bool)
    requires i < |t.children| && toks != []
    requires forall k :: HeadIs(t.children[i], k, ci) == HeadIs(c, k, ci)
    ensures var t' := t.(children := t.children[i := c]);
      At(t', toks, ci) == if IndexOf(t.children, toks[0], ci) == i then Find(c, toks, ci) else At(t, toks, ci)
  {
    IndexOfReplaced(t.children, i, c, toks[0], ci);
  }

  lemma AtAppended(t: Tree, c: Tree, toks: seq<Token>, ci: bool)
    requires toks != []
    ensures var t' := t.(children := t.children + [c]);
      At(t', toks, ci) ==
      if IndexOf(t.children, toks[0], ci) == |t.children| && HeadIs(c, toks[0], ci) then Find(c, toks, ci)
      else At(t, toks, ci)
  {
    IndexOfAppended(t.children, c, toks[0], ci);
  }

  // ---------- insert, read through At ----------

  /** A child without the token's head holds nothing under it. */
  lemma FindElsewhere(c: Tree, toks: seq<Token>, ci: bool)
    requires toks != [] && !HeadIs(c, toks[0], ci) && (c.kind == Static ==> c.path != [])
    ensures Find(c, toks, ci) == ABSENT
  {
  }

  /** Splitting a label changes nothing. */
  lemma SplitFind(c: Tree, n: nat, toks: seq<Token>, ci: bool)
    requires c.kind == Static && 0 < n < |c.path|
    ensures Find(SplitTree(c, n), toks, ci) == Find(c, toks, ci)
  {
    var s := SplitTree(c, n);
    var d := s.children[0];
    if LitPrefix(c.path[..n], toks, ci) {
      var rest := toks[n..];
      LitPrefixSplit(c.path, n, toks, ci);
      if rest != [] {
        if HeadIs(d, rest[0], ci) {
          assert IndexOf(s.children, rest[0], ci) == 0;
          assert Find(s, toks, ci) == At(s, rest, ci) == Find(d, rest, ci);
          if LitPrefix(c.path, toks, ci) {
            assert toks[|c.path|..] == rest[|d.path|..];
            AtSameBelow(c, d, toks[|c.path|..], ci);
          }
        } else {
          FindElsewhere(d, rest, ci);
        }
      }
    }
  }

  lemma LitPrefixSplit(s: Str, n: nat, toks: seq<Token>, ci: bool)
    requires n <= |s| && LitPrefix(s[..n], toks, ci)
    ensures LitPrefix(s, toks, ci) <==> LitPrefix(s[n..], toks[n..], ci)
  {
    assert LitTokens(s, ci) == LitTokens(s[..n], ci) + LitTokens(s[n..], ci);
    if |s| <= |toks| {
      assert toks[..|s|] == toks[..n] + toks[n..][..|s| - n];
    }
  }

  /** At looks only at the children and the handler. */
  lemma AtSameBelow(c: Tree, d: Tree, toks: seq<Token>, ci: bool)
    requires c.children == d.children && c.handler == d.handler
    ensures At(c, toks, ci) == At(d, toks, ci)
  {
  }

  /** One step through a static child: labels walked, the insertion continues below it. */
  lemma FindStatic(target: Tree, c': Tree, path: Str, toks: seq<Token>, h: Handler, ci: bool)
    requires target.kind == Static && c'.path == target.path && c'.kind == Static
    requires 0 < |target.path| <= |path|
    requires forall i :: 0 <= i < |target.path| ==> Fold(target.path[i], ci) == Fold(path[i], ci)
    requires forall i :: 0 <= i < |target.path| ==> IsLiteral(path[i])
    requires toks != []
    requires |target.path| <= |toks| ==>
      At(c', toks[|target.path|..], ci) ==
      Update(At(target, toks[|target.path|..], ci), toks[|target.path|..], Parse(path[|target.path|..], ci), h)
    ensures Find(c', toks, ci) == Update(Find(target, toks, ci), toks, Parse(path, ci), h)
  {
    var l := |target.path|;
    var pieces := Parse(path, ci);
    ParseLiterals(path, l, ci);
    assert pieces[..l] == LitPieces(path[..l], ci) && pieces[l..] == Parse(path[l..], ci);
    assert forall i :: 0 <= i < l ==> pieces[i] == pieces[..l][i] == PLit(Fold(path[i], ci));
    assert Tokens(pieces[..l]) == LitTokens(target.path, ci);
    if LitPrefix(target.path, toks, ci) {
      UpdateAfterPrefix(At(target, toks[l..], ci), l, toks, pieces, h);
    } else {
      assert l <= |toks| ==> exists j :: 0 <= j < l && toks[j] != TokenOf(pieces[j]);
    }
  }

  /** One step through a parameter child. A fresh leaf has this route's own key. */
  lemma FindParam(c: Tree, c': Tree, path: Str, toks: seq<Token>, h: Handler, ci: bool)
    requires c.kind == ParamKind && c'.kind == ParamKind && c'.key == c.key
    requires path != [] && path[0] == COLON && toks != [] && toks[0] == Param
    requires var n := 1 + SegmentLen(path[1..]);
      At(c', toks[1..], ci) == Update(At(c, toks[1..], ci), toks[1..], Parse(path[n..], ci), h)
    ensures Find(c', toks, ci) == Update(Find(c, toks, ci), toks, Parse(path, ci), h)
  {
    var n := 1 + SegmentLen(path[1..]);
    var pieces := Parse(path, ci);
    assert pieces == [PParam(path[1..n])] + Parse(path[n..], ci);
    assert pieces[1..] == Parse(path[n..], ci);
    assert toks[..1] == Tokens(pieces[..1]);
    if |toks| > 1 {
      UpdateAfterPrefix(At(c, toks[1..], ci), 1, toks, pieces, h);
    } else {
      assert toks == Tokens(pieces) <==> pieces[1..] == [];
    }
  }

  /** The insertion theorem: after inserting path, every entry is the old one updated by
      the route's tokens, across splits, shared prefixes and wildcard children. */
  lemma {:induction false} InsertAt(t: Tree, path: Str, h: Handler, ci: bool, toks: seq<Token>)
    ensures At(InsertTree(t, path, h, ci), toks, ci) == Update(At(t, toks, ci), toks, Parse(path, ci), h)
    decreases |path|
  {
    var pieces := Parse(path, ci);
    if path == [] {
      if toks != [] {
        assert At(t.(handler := Some(h)), toks, ci) == At(t, toks, ci);
      }
    } else if toks == [] || toks[0] != TokenOf(pieces[0]) {
      InsertAtElsewhere(t, path, h, ci, toks);
    } else if path[0] == COLON {
      InsertAtParam(t, path, h, ci, toks);
    } else if path[0] == STAR {
      InsertAtCatchAll(t, path, h, ci, toks);
    } else {
      InsertAtLiteral(t, path, h, ci, toks);
    }
  }

  lemma {:induction false} InsertAtElsewhere(t: Tree, path: Str, h: Handler, ci: bool, toks: seq<Token>)
    requires path != []
    requires toks == [] || toks[0] != TokenOf(Parse(path, ci)[0])
    ensures At(InsertTree(t, path, h, ci), toks, ci) == Update(At(t, toks, ci), toks, Parse(path, ci), h)
  {
    UpdateElsewhere(At(t, toks, ci), toks, Parse(path, ci), h);
    var i, c' := InsertTouches(t, path, h, ci);
    if toks != [] {
      if i < |t.children| {
        AtReplaced(t, i, c', toks, ci);
      } else {
        AtAppended(t, c', toks, ci);
      }
    }
  }

  /** Insertion replaces or appends exactly one child: the one entered by the first token. */
  lemma InsertTouches(t: Tree, path: Str, h: Handler, ci: bool) returns (i: nat, c': Tree)
    requires path != []
    ensures var head := TokenOf(Parse(path, ci)[0]);
      && i == IndexOf(t.children, head, ci)
      && HeadIs(c', head, ci)
    ensures i < |t.children| ==> c'.kind == t.children[i].kind
    ensures i == |t.children| ==> InsertTree(t, path, h, ci) == t.(children := t.children + [c'])
    ensures i < |t.children| ==> InsertTree(t, path, h, ci) == t.(children := t.children[i := c'])
  {
    i := IndexOf(t.children, TokenOf(Parse(path, ci)[0]), ci);
    c' := InsertTree(t, path, h, ci).children[i];
  }

  lemma {:induction false} InsertAtParam(t: Tree, path: Str, h: Handler, ci: bool, toks: seq<Token>)
    requires path != [] && path[0] == COLON && toks != [] && toks[0] == Param
    ensures At(InsertTree(t, path, h, ci), toks, ci) == Update(At(t, toks, ci), toks, Parse(path, ci), h)
    decreases |path|, 0
  {
    var n := 1 + SegmentLen(path[1..]);
    var i := IndexOf(t.children, Param, ci);
    var c := if i < |t.children| then t.children[i] else Tree([], ParamKind, [], None, path[1..n]);
    var c' := InsertTree(c, path[n..], h, ci);
    InsertAt(c, path[n..], h, ci, toks[1..]);
    FindParam(c, c', path, toks, h, ci);
    if i < |t.children| {
      AtReplaced(t, i, c', toks, ci);
    } else {
      AtAppended(t, c', toks, ci);
      UpdateFreshParam(c, path, toks, h, ci);
    }
  }

  /** A parameter leaf holds its key already; setting it again makes no difference. */
  lemma UpdateFreshParam(c: Tree, path: Str, toks: seq<Token>, h: Handler, ci: bool)
    requires path != [] && path[0] == COLON && toks != [] && toks[0] == Param
    requires c == Tree([], ParamKind, [], None, path[1..1 + SegmentLen(path[1..])])
    ensures Update(Find(c, toks, ci), toks, Parse(path, ci), h) == Update(ABSENT, toks, Parse(path, ci), h)
  {
    var pieces := Parse(path, ci);
    assert pieces[0] == PParam(path[1..1 + SegmentLen(path[1..])]);
    if |toks| == 1 {
      assert toks == Tokens(pieces[..1]);
    }
  }

  lemma InsertAtCatchAll(t: Tree, path: Str, h: Handler, ci: bool, toks: seq<Token>)
    requires path != [] && path[0] == STAR && toks != [] && toks[0] == CatchAll
    ensures At(InsertTree(t, path, h, ci), toks, ci) == Update(At(t, toks, ci), toks, Parse(path, ci), h)
  {
    var i := IndexOf(t.children, CatchAll, ci);
    var pieces := Parse(path, ci);
    assert pieces == [PCatchAll(path[1..])];
    assert pieces[..1] == pieces;
    assert Tokens(pieces) == [CatchAll];
    if i < |t.children| {
      AtReplaced(t, i, t.children[i].(handler := Some(h), key := path[1..]), toks, ci);
    } else {
      AtAppended(t, Tree([], CatchAllKind, [], Some(h), path[1..]), toks, ci);
    }
  }

  lemma {:induction false} InsertAtLiteral(t: Tree, path: Str, h: Handler, ci: bool, toks: seq<Token>)
    requires path != [] && IsLiteral(path[0]) && toks != [] && toks[0] == Lit(Fold(path[0], ci))
    ensures At(InsertTree(t, path, h, ci), toks, ci) == Update(At(t, toks, ci), toks, Parse(path, ci), h)
    decreases |path|, 1
  {
    var n := LiteralLen(path);
    var i := IndexOf(t.children, toks[0], ci);
    if i < |t.children| {
      var c := t.children[i];
      var l := CommonPrefix(c.path, path[..n], ci);
      var target := if l == |c.path| then c else SplitTree(c, l);
      InsertThroughLabel(target, path, h, ci, toks);
      if l < |c.path| {
        SplitFind(c, l, toks, ci);
      }
      AtReplaced(t, i, InsertTree(target, path[l..], h, ci), toks, ci);
    } else {
      var leaf := Tree(path[..n], Static, [], None, []);
      InsertThroughLabel(leaf, path, h, ci, toks);
      AtAppended(t, InsertTree(leaf, path[n..], h, ci), toks, ci);
    }
  }

  /** Inserting what follows a node's label below it inserts the whole path at the node. */
  lemma {:induction false} InsertThroughLabel(target: Tree, path: Str, h: Handler, ci: bool, toks: seq<Token>)
    requires target.kind == Static && 0 < |target.path| <= |path| && toks != []
    requires forall i :: 0 <= i < |target.path| ==> Fold(target.path[i], ci) == Fold(path[i], ci)
    requires forall i :: 0 <= i < |target.path| ==> IsLiteral(path[i])
    ensures Find(InsertTree(target, path[|target.path|..], h, ci), toks, ci) ==
            Update(Find(target, toks, ci), toks, Parse(path, ci), h)
    decreases |path|, 0
  {
    var l := |target.path|;
    if l <= |toks| {
      InsertAt(target, path[l..], h, ci, toks[l..]);
    }
    FindStatic(target, InsertTree(target, path[l..], h, ci), path, toks, h, ci);
  }

  // ---------- insert keeps the shape ----------

  /** Where `insert` may be called: never on a catch-all, and below a parameter only with
      an empty rest or one that starts with '/'. */
  predicate Insertable(t: Tree, path: Str) {
    match t.kind
    case Static => true
    case ParamKind => ChildShape(t) && (path == [] || path[0] == SLASH)
    case CatchAllKind => false
  }

  lemma DistinctReplaced(cs: seq<Tree>, i: nat, c: Tree, ci: bool)
    requires i < |cs| && DistinctHeads(cs, ci)
    requires forall k :: HeadIs(c, k, ci) ==> HeadIs(cs[i], k, ci)
    ensures DistinctHeads(cs[i := c], ci)
  {
  }

  lemma DistinctAppended(cs: seq<Tree>, c: Tree, tok: Token, ci: bool)
    requires DistinctHeads(cs, ci) && IndexOf(cs, tok, ci) == |cs|
    requires forall k :: HeadIs(c, k, ci) ==> k == tok
    ensures DistinctHeads(cs + [c], ci)
  {
  }

  lemma SplitKeepsShape(c: Tree, n: nat, ci: bool)
    requires ChildShape(c) && WellFormed(c, ci) && c.kind == Static && 0 < n < |c.path|
    ensures ChildShape(SplitTree(c, n)) && WellFormed(SplitTree(c, n), ci)
  {
    var s := SplitTree(c, n);
    assert ChildShape(s.children[0]);
    assert WellFormed(s.children[0], ci);
  }

  /** The invariant of the whole tree survives every insertion. */
  lemma {:induction false} InsertKeepsShape(t: Tree, path: Str, h: Handler, ci: bool)
    requires WellFormed(t, ci) && Insertable(t, path)
    ensures WellFormed(InsertTree(t, path, h, ci), ci)
    ensures ChildShape(t) ==> ChildShape(InsertTree(t, path, h, ci))
    decreases |path|
  {
    if path == [] {
    } else if path[0] == STAR {
      InsertCatchAllKeepsShape(t, path, h, ci);
    } else {
      InsertBelowKeepsShape(t, path, h, ci);
    }
  }

  lemma InsertCatchAllKeepsShape(t: Tree, path: Str, h: Handler, ci: bool)
    requires WellFormed(t, ci) && t.kind == Static && path != [] && path[0] == STAR
    ensures WellFormed(InsertTree(t, path, h, ci), ci)
    ensures ChildShape(t) ==> ChildShape(InsertTree(t, path, h, ci))
  {
    var i := IndexOf(t.children, CatchAll, ci);
    if i < |t.children| {
      DistinctReplaced(t.children, i, t.children[i].(handler := Some(h), key := path[1..]), ci);
    } else {
      DistinctAppended(t.children, Tree([], CatchAllKind, [], Some(h), path[1..]), CatchAll, ci);
    }
  }

  lemma {:induction false} InsertBelowKeepsShape(t: Tree, path: Str, h: Handler, ci: bool)
    requires WellFormed(t, ci) && Insertable(t, path) && path != [] && path[0] != STAR
    ensures WellFormed(InsertTree(t, path, h, ci), ci)
    ensures ChildShape(t) ==> ChildShape(InsertTree(t, path, h, ci))
    decreases |path|, 0
  {
    var tok := TokenOf(Parse(path, ci)[0]);
    var i := IndexOf(t.children, tok, ci);
    var target, rest := Target(t, path, ci);
    InsertKeepsShape(target, rest, h, ci);
    var c' := InsertTree(target, rest, h, ci);
    assert ChildShape(c') && WellFormed(c', ci);
    if i < |t.children| {
      DistinctReplaced(t.children, i, c', ci);
      assert InsertTree(t, path, h, ci) == t.(children := t.children[i := c']);
    } else {
      DistinctAppended(t.children, c', tok, ci);
      assert InsertTree(t, path, h, ci) == t.(children := t.children + [c']);
    }
  }

  /** The child `insert` descends into, already split or freshly made, and what is left to insert. */
  lemma Target(t: Tree, path: Str, ci: bool) returns (target: Tree, rest: Str)
    requires WellFormed(t, ci) && Insertable(t, path) && path != [] && path[0] != STAR
    ensures |rest| < |path| && Insertable(target, rest) && ChildShape(target) && WellFormed(target, ci)
    ensures var tok := TokenOf(Parse(path, ci)[0]);
      && HeadIs(target, tok, ci)
      && (t.kind == ParamKind ==> target.kind == Static && target.path[0] == SLASH)
    ensures var i := IndexOf(t.children, TokenOf(Parse(path, ci)[0]), ci);
      && (t.kind == ParamKind && t.children != [] ==> i == 0)
      && (i < |t.children| ==> forall h ::
            InsertTree(t, path, h, ci) == t.(children := t.children[i := InsertTree(target, rest, h, ci)]))
      && (i == |t.children| ==> forall h ::
            InsertTree(t, path, h, ci) == t.(children := t.children + [InsertTree(target, rest, h, ci)]))
  {
    var tok := TokenOf(Parse(path, ci)[0]);
    var i := IndexOf(t.children, tok, ci);
    if path[0] == COLON {
      var n := 1 + SegmentLen(path[1..]);
      rest := path[n..];
      target := if i < |t.children| then t.children[i] else Tree([], ParamKind, [], None, path[1..n]);
    } else {
      var n := LiteralLen(path);
      if t.kind == ParamKind && t.children != [] {
        assert HeadIs(t.children[0], tok, ci);
      }
      if i < |t.children| {
        var c := t.children[i];
        var l := CommonPrefix(c.path, path[..n], ci);
        rest := path[l..];
        if l == |c.path| {
          target := c;
        } else {
          target := SplitTree(c, l);
          SplitKeepsShape(c, l, ci);
        }
      } else {
        rest := path[n..];
        target := Tree(path[..n], Static, [], None, []);
      }
    }
  }
}
