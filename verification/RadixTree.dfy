/** The value of a radix tree: what `insert` and `match` of node.go compute, and the
    abstraction of a tree to a table from token sequences to handlers and keys. */
module RadixTree {
  import opened Bytes
  import opened Handlers
  import opened Pattern

  datatype Kind = Static | ParamKind | CatchAllKind

  datatype Tree = Tree(path: Str, kind: Kind, children: seq<Tree>, handler: Option<Handler>, key: Str)

  datatype Capture = Capture(key: Str, value: Str)
  datatype Hit = Hit(handler: Handler, caps: seq<Capture>)

  const ROOT := Tree([], Static, [], None, [])

  /** The token that leads from a parent into this child. */
  predicate HeadIs(t: Tree, tok: Token, ci: bool) {
    match t.kind
    case Static => t.path != [] && tok == Lit(Fold(t.path[0], ci))
    case ParamKind => tok == Param
    case CatchAllKind => tok == CatchAll
  }

  /** Position of the first child entered by tok; |cs| when there is none. */
  function IndexOf(cs: seq<Tree>, tok: Token, ci: bool): (i: nat)
    ensures i <= |cs|
    ensures i < |cs| ==> HeadIs(cs[i], tok, ci)
    ensures forall j :: 0 <= j < i ==> !HeadIs(cs[j], tok, ci)
  {
    if cs == [] || HeadIs(cs[0], tok, ci) then 0 else 1 + IndexOf(cs[1..], tok, ci)
  }

  lemma IndexOfIs(cs: seq<Tree>, tok: Token, ci: bool, i: nat)
    requires i <= |cs| && (i < |cs| ==> HeadIs(cs[i], tok, ci))
    requires forall j :: 0 <= j < i ==> !HeadIs(cs[j], tok, ci)
    ensures IndexOf(cs, tok, ci) == i
  {
  }

  // ---------- insert ----------

  /** Splits a static node so that it keeps the first n bytes of its path. */
  function SplitTree(t: Tree, n: nat): (r: Tree)
    requires n <= |t.path|
  {
    Tree(t.path[..n], t.kind, [Tree(t.path[n..], Static, t.children, t.handler, [])], None, t.key)
  }

  function InsertTree(t: Tree, path: Str, h: Handler, ci: bool): (r: Tree)
    ensures r.path == t.path && r.kind == t.kind && r.key == t.key
    decreases |path|
  {
    if path == [] then t.(handler := Some(h))
    else if path[0] == COLON then
      var n := 1 + SegmentLen(path[1..]);
      var i := IndexOf(t.children, Param, ci);
      if i < |t.children| then t.(children := t.children[i := InsertTree(t.children[i], path[n..], h, ci)])
      else t.(children := t.children + [InsertTree(Tree([], ParamKind, [], None, path[1..n]), path[n..], h, ci)])
    else if path[0] == STAR then
      var i := IndexOf(t.children, CatchAll, ci);
      if i < |t.children| then t.(children := t.children[i := t.children[i].(handler := Some(h), key := path[1..])])
      else t.(children := t.children + [Tree([], CatchAllKind, [], Some(h), path[1..])])
    else
      var n := LiteralLen(path);
      var i := IndexOf(t.children, Lit(Fold(path[0], ci)), ci);
      if i < |t.children| then
        var c := t.children[i];
        var l := CommonPrefix(c.path, path[..n], ci);
        assert l > 0;
        var target := if l == |c.path| then c else SplitTree(c, l);
        t.(children := t.children[i := InsertTree(target, path[l..], h, ci)])
      else
        t.(children := t.children + [InsertTree(Tree(path[..n], Static, [], None, []), path[n..], h, ci)])
  }

  // ---------- match ----------

  function KindAt(w: nat): Kind
    requires w < 3
  {
    if w == 0 then Static else if w == 1 then ParamKind else CatchAllKind
  }

  function MatchNode(t: Tree, path: Str, ci: bool): Option<Hit>
    decreases t, 3, 0
  {
    match t.kind
    case Static =>
      if IsFoldedPrefix(t.path, path, ci) then MatchBelow(t, path[|t.path|..], ci) else None
    case ParamKind =>
      var n := SegmentLen(path);
      if n == 0 then None
      else
        var r := MatchBelow(t, path[n..], ci);
        if r.None? then None else Some(Hit(r.value.handler, [Capture(t.key, path[..n])] + r.value.caps))
    case CatchAllKind =>
      if t.handler.None? then None else Some(Hit(t.handler.value, [Capture(t.key, path)]))
  }

  function MatchBelow(t: Tree, path: Str, ci: bool): Option<Hit>
    decreases t, 2, 0
  {
    if path == [] then
      if t.handler.Some? then Some(Hit(t.handler.value, [])) else EmptyRest(t.children)
    else TryFrom(t.children, 0, path, ci)
  }

  /** The end of the path at a node without a handler: a catch-all below it takes the empty rest. */
  function EmptyRest(cs: seq<Tree>): Option<Hit> {
    if cs == [] then None
    else if cs[0].kind == CatchAllKind && cs[0].handler.Some?
    then Some(Hit(cs[0].handler.value, [Capture(cs[0].key, [])]))
    else EmptyRest(cs[1..])
  }

  /** The kinds in priority order, starting with number w. */
  function TryFrom(cs: seq<Tree>, w: nat, path: Str, ci: bool): Option<Hit>
    requires w <= 3
    decreases cs, 1, 3 - w
  {
    if w == 3 then None
    else
      var r := MatchKind(cs, KindAt(w), path, ci);
      if r.Some? then r else TryFrom(cs, w + 1, path, ci)
  }

  /** The first child of the wanted kind that matches. */
  function MatchKind(cs: seq<Tree>, want: Kind, path: Str, ci: bool): Option<Hit>
    decreases cs, 0, 0
  {
    if cs == [] then None
    else
      var r := if cs[0].kind == want then MatchNode(cs[0], path, ci) else None;
      if r.Some? then r else MatchKind(cs[1..], want, path, ci)
  }

  /** Captures as the parameter map handed to the handler. */
  function ToMap(caps: seq<Capture>): map<Str, Str> {
    if caps == [] then map[]
    else
      var n := |caps| - 1;
      ToMap(caps[..n])[caps[n].key := caps[n].value]
  }

  /** A key of the map is the key of some capture, and its value is that of the last capture with this key. */
  lemma {:induction false} ToMapIs(caps: seq<Capture>)
    ensures forall k :: k in ToMap(caps) <==> exists i :: 0 <= i < |caps| && caps[i].key == k
    ensures forall i :: 0 <= i < |caps| && (forall j :: i < j < |caps| ==> caps[j].key != caps[i].key) ==>
      caps[i].key in ToMap(caps) && ToMap(caps)[caps[i].key] == caps[i].value
  {
    if caps != [] {
      var n := |caps| - 1;
      ToMapIs(caps[..n]);
      assert caps == caps[..n] + [caps[n]];
    }
  }

  function Params(caps: seq<Capture>): Option<map<Str, Str>> {
    if caps == [] then None else Some(ToMap(caps))
  }

  // ---------- abstraction ----------

  /** What a tree stores under one token sequence: the handler of a route with exactly
      these tokens, and the key of the wildcard the sequence ends in. */
  datatype Entry = Entry(handler: Option<Handler>, key: Option<Str>)

  const ABSENT := Entry(None, None)

  predicate LitPrefix(s: Str, toks: seq<Token>, ci: bool) {
    |s| <= |toks| && toks[..|s|] == LitTokens(s, ci)
  }

  /** The entry at toks, counted from just below t. */
  function At(t: Tree, toks: seq<Token>, ci: bool): Entry
    decreases t, 0
  {
    if toks == [] then Entry(t.handler, None)
    else
      var i := IndexOf(t.children, toks[0], ci);
      if i < |t.children| then Find(t.children[i], toks, ci) else ABSENT
  }

  /** The entry at toks, counted from above c: c's own label comes first. */
  function Find(c: Tree, toks: seq<Token>, ci: bool): Entry
    decreases c, 1
  {
    match c.kind
    case Static => if LitPrefix(c.path, toks, ci) then At(c, toks[|c.path|..], ci) else ABSENT
    case ParamKind =>
      if toks == [] || toks[0] != Param then ABSENT
      else if |toks| == 1 then Entry(c.handler, Some(c.key))
      else At(c, toks[1..], ci)
    case CatchAllKind => if toks == [CatchAll] then Entry(c.handler, Some(c.key)) else ABSENT
  }

  // ---------- shape ----------

  predicate ChildShape(c: Tree) {
    match c.kind
    case Static => c.path != [] && (forall i :: 0 <= i < |c.path| ==> IsLiteral(c.path[i]))
    case ParamKind =>
      |c.children| <= 1 &&
      (forall d :: d in c.children ==> d.kind == Static && d.path != [] && d.path[0] == SLASH)
    case CatchAllKind => c.children == [] && c.handler.Some?
  }

  /** No token leads into two siblings: static siblings differ in their folded first
      byte, and there is at most one parameter and one catch-all among them. */
  ghost predicate DistinctHeads(cs: seq<Tree>, ci: bool) {
    forall i, j, tok :: 0 <= i < j < |cs| && HeadIs(cs[i], tok, ci) ==> !HeadIs(cs[j], tok, ci)
  }

  /** The representation invariant below t. */
  ghost predicate WellFormed(t: Tree, ci: bool) {
    && DistinctHeads(t.children, ci)
    && (forall i :: 0 <= i < |t.children| ==> ChildShape(t.children[i]) && WellFormed(t.children[i], ci))
  }
}
