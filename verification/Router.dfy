/** The router object of router.go: declarations accumulate in fields, `Build` compiles them
    into one radix tree per verb, and `HandleRequest` answers as RouterSpec.Dispatch says. */
module Router {
  import opened Bytes
  import opened Handlers
  import opened RadixTree
  import opened RadixNode
  import opened RouteScan
  import opened RouterSpec

  /** Route metadata; the Route handle given to the caller shares it with the router. */
  class RouteInfo {
    var noAuth: bool

    constructor ()
      ensures !noAuth
    {
      noAuth := false;
    }

    method NoAuth()
      modifies this
      ensures noAuth
    {
      noAuth := true;
    }
  }

  datatype RouteEntry = RouteEntry(verb: Str, path: Str, handler: Handler, mws: seq<Middleware>, info: RouteInfo)

  datatype Fallbacks = Fallbacks(notFound: Handler, notAllowed: Handler, options: Handler)

  function FallbacksOf(globals: seq<Middleware>): Fallbacks {
    Fallbacks(WrapAll(globals, NotFoundReply), WrapAll(globals, NotAllowedReply), WrapAll(globals, OptionsReply))
  }

  /** The trees, verb by verb, have these values, live within nodes and share none of them. */
  ghost predicate TreesAre(trees: map<Str, Node>, models: map<Str, Tree>, nodes: set<Node>)
    reads nodes
  {
    && trees.Keys == models.Keys
    && (forall m :: m in trees ==> trees[m] in nodes && trees[m].Repr <= nodes)
    && (forall m :: m in trees ==> trees[m].Valid() && trees[m].Model == models[m])
    && (forall m, m' :: m in trees && m' in trees && m != m' ==> trees[m].Repr !! trees[m'].Repr)
  }

  /** The same for all verbs but one; the nodes of that one do not matter. */
  ghost predicate OthersAre(trees: map<Str, Node>, models: map<Str, Tree>, verb: Str, others: set<Node>)
    reads others
  {
    && trees.Keys == models.Keys
    && (forall m :: m in trees && m != verb ==> trees[m] in others && trees[m].Repr <= others)
    && (forall m :: m in trees && m != verb ==> trees[m].Valid() && trees[m].Model == models[m])
    && (forall m, m' :: m in trees && m' in trees && m != m' && m != verb && m' != verb ==>
          trees[m].Repr !! trees[m'].Repr)
  }

  lemma TakenApart(trees: map<Str, Node>, models: map<Str, Tree>, nodes: set<Node>, verb: Str)
    requires TreesAre(trees, models, nodes) && verb in trees
    ensures OthersAre(trees, models, verb, nodes - trees[verb].Repr)
  {
    var others := nodes - trees[verb].Repr;
    forall m | m in trees && m != verb ensures trees[m] in others && trees[m].Repr <= others {
    }
  }

  lemma PutTogether(trees: map<Str, Node>, models: map<Str, Tree>, others: set<Node>, verb: Str, grown: Tree)
    requires verb in trees && OthersAre(trees, models, verb, others)
    requires trees[verb].Valid() && trees[verb].Model == grown && trees[verb].Repr !! others
    ensures TreesAre(trees, models[verb := grown], others + trees[verb].Repr)
  {
  }

  /** Inserts into one tree of the table; the others keep their values. */
  method InsertInto(trees: map<Str, Node>, ghost models: map<Str, Tree>, ghost nodes: set<Node>,
                    verb: Str, path: Str, h: Handler, ci: bool, ghost grown: Tree)
    returns (ghost nodes': set<Node>)
    requires TreesAre(trees, models, nodes) && verb in trees
    requires grown == InsertTree(models[verb], path, h, ci)
    modifies nodes
    ensures TreesAre(trees, models[verb := grown], nodes')
    ensures nodes <= nodes' && fresh(nodes' - nodes)
  {
    var t := trees[verb];
    ghost var others := nodes - t.Repr;
    TakenApart(trees, models, nodes, verb);
    ghost var held := OthersAre(trees, models, verb, others);
    t.Insert(path, h, ci);
    nodes' := nodes + t.Repr;
    assert held == OthersAre(trees, models, verb, others);
    PutTogether(trees, models, others, verb, grown);
  }

  /** A table in which verb has a tree, an empty one if it is new. */
  method WithRoot(trees: map<Str, Node>, ghost models: map<Str, Tree>, ghost nodes: set<Node>, verb: Str)
    returns (ts: map<Str, Node>, ghost base: map<Str, Tree>, ghost nodes': set<Node>)
    requires TreesAre(trees, models, nodes)
    ensures base == if verb in models then models else models[verb := ROOT]
    ensures verb in ts && TreesAre(ts, base, nodes')
    ensures nodes <= nodes' && fresh(nodes' - nodes)
  {
    ts, base, nodes' := trees, models, nodes;
    if verb !in ts {
      var root := new Node([], Static, None, []);
      ts := ts[verb := root];
      base := base[verb := ROOT];
      nodes' := nodes + root.Repr;
    }
  }

  ghost function TreeFor(st: State, verb: Str, n: nat): Tree
    requires n <= |st.decls|
  {
    BuildTree(RoutesFor(st, verb, n), st.FoldCase())
  }

  /** One tree per verb seen so far, holding exactly that verb's routes. */
  ghost function ModelsOf(st: State, n: nat): map<Str, Tree>
    requires n <= |st.decls|
  {
    map m | m in Verbs(st, n) :: TreeFor(st, m, n)
  }

  lemma ModelStep(st: State, n: nat, m: Str)
    requires n < |st.decls|
    ensures var r := RouteOf(st, st.decls[n]);
      TreeFor(st, m, n + 1) ==
      if m == st.decls[n].verb then InsertTree(TreeFor(st, m, n), r.path, r.handler, st.FoldCase())
      else TreeFor(st, m, n)
  {
    if m == st.decls[n].verb {
      BuildTreeSnoc(RoutesFor(st, m, n), RouteOf(st, st.decls[n]), st.FoldCase());
    } else {
      assert RoutesFor(st, m, n + 1) == RoutesFor(st, m, n);
    }
  }

  /** The next declaration changes the tree of its own verb only, which may be new. */
  lemma ModelsStep(st: State, n: nat, base: map<Str, Tree>, grown: Tree)
    requires n < |st.decls|
    requires var v := st.decls[n].verb;
      var before := ModelsOf(st, n);
      base == if v in before then before else before[v := ROOT]
    requires var r := RouteOf(st, st.decls[n]);
      grown == InsertTree(base[st.decls[n].verb], r.path, r.handler, st.FoldCase())
    ensures ModelsOf(st, n + 1) == base[st.decls[n].verb := grown]
  {
    var v := st.decls[n].verb;
    var after := ModelsOf(st, n + 1);
    NoRoutesYet(st, v, n);
    assert base[v] == TreeFor(st, v, n);
    assert after.Keys == base[v := grown].Keys;
    forall m | m in after ensures after[m] == base[v := grown][m] {
      ModelStep(st, n, m);
    }
  }

  lemma NoRepeatsGrows(xs: seq<Str>, x: Str)
    requires NoRepeats(xs) && x !in xs
    ensures NoRepeats(xs + [x])
  {
  }

  /** slices.Sort on strings. */
  method SortStrings(xs: seq<Str>) returns (r: seq<Str>)
    requires NoRepeats(xs)
    ensures StrictlySorted(r) && forall y :: y in r <==> y in xs
  {
    r := [];
    for i := 0 to |xs|
      invariant StrictlySorted(r) && forall y :: y in r <==> y in xs[..i]
    {
      r := AddSorted(xs[i], r);
    }
    assert xs[..|xs|] == xs;
  }

  /** appendIfMissing(allowed, "OPTIONS") */
  method AppendIfMissing(list: seq<Str>, s: Str) returns (r: seq<Str>)
    ensures r == if s in list then list else list + [s]
  {
    for i := 0 to |list|
      invariant s !in list[..i]
    {
      if list[i] == s {
        return list;
      }
    }
    return list + [s];
  }

  class Router {
    const strictSlash: bool
    const caseSensitive: bool
    var trees: map<Str, Node>
    var middlewares: seq<Middleware>
    var authMiddleware: Option<Middleware>
    var entries: seq<RouteEntry>
    var fallback: Fallbacks
    var built: bool

    ghost var Frozen: State        // what was compiled, once built
    ghost var Nodes: set<Node>     // the nodes of the compiled trees

    ghost function Declared(): State
      reads `middlewares, `authMiddleware, `entries, set e | e in entries :: e.info
    {
      var es := entries;
      State(middlewares, authMiddleware,
        seq(|es|, i requires 0 <= i < |es| reads set e | e in es :: e.info =>
          Decl(es[i].verb, es[i].path, es[i].handler, es[i].mws, es[i].info.noAuth)),
        strictSlash, caseSensitive)
    }

    /** The declarations are well kept. */
    ghost predicate Valid()
      reads `entries
    {
      && (forall i, j :: 0 <= i < j < |entries| ==> entries[i].info != entries[j].info)
      && (forall i :: 0 <= i < |entries| ==> entries[i].path != [] && entries[i].path[0] == SLASH)
    }

    /** The compiled tables are those of Frozen. Declaring more routes or middleware does not
        touch them. */
    ghost predicate Ready()
      reads `trees, `fallback, `Frozen, `Nodes, Nodes
    {
      && TreesAre(trees, ModelsOf(Frozen, |Frozen.decls|), Nodes)
      && fallback == FallbacksOf(Frozen.globals)
      && Frozen.strict == strictSlash && Frozen.caseSensitive == caseSensitive
    }

    constructor (strictSlash: bool, caseSensitive: bool)
      ensures Valid() && !built
      ensures Declared() == State([], None, [], strictSlash, caseSensitive)
    {
      this.strictSlash, this.caseSensitive := strictSlash, caseSensitive;
      trees, middlewares, authMiddleware, entries, built := map[], [], None, [], false;
      fallback := FallbacksOf([]);
      Frozen, Nodes := State([], None, [], strictSlash, caseSensitive), {};
    }

    method Use(m: seq<Middleware>)
      requires Valid()
      modifies `middlewares
      ensures Valid()
      ensures Declared() == Apply(old(Declared()), UseMiddleware(m))
    {
      middlewares := middlewares + m;
      assert Declared().decls == old(Declared()).decls;
    }

    method SetAuthMiddleware(m: Middleware)
      requires Valid()
      modifies `authMiddleware
      ensures Valid()
      ensures Declared() == Apply(old(Declared()), SetAuth(m))
    {
      authMiddleware := Some(m);
      assert Declared().decls == old(Declared()).decls;
    }

    method AddRoute(verb: Str, path: Str, h: Handler, m: seq<Middleware>) returns (info: RouteInfo)
      requires Valid()
      modifies `entries
      ensures Valid() && fresh(info)
      ensures entries == old(entries) + [RouteEntry(verb, Rooted(path), h, m, info)]
      ensures Declared() == Apply(old(Declared()), Declare(verb, path, h, m))
    {
      var p := path;
      if p == [] {
        p := [SLASH];
      }
      if p[0] != SLASH {
        p := [SLASH] + p;
      }
      info := new RouteInfo();
      entries := entries + [RouteEntry(verb, p, h, m, info)];
      assert Declared().decls == old(Declared()).decls + [Decl(verb, Rooted(path), h, m, false)];
    }

    /** Opting declaration k out of authentication, through the handle AddRoute returned for it. */
    method OptOut(k: nat)
      requires Valid() && k < |entries|
      modifies entries[k].info
      ensures Valid()
      ensures Declared() == Apply(old(Declared()), RouterSpec.OptOut(k))
    {
      entries[k].info.NoAuth();
      ghost var ds := old(Declared()).decls;
      assert Declared().decls == ds[k := ds[k].(noAuth := true)];
    }

    /** The chain of one declaration, compiled. */
    method CompileEntry(e: RouteEntry) returns (h: Handler)
      ensures h == WrapAll(middlewares +
        (if authMiddleware.Some? && !e.info.noAuth then [authMiddleware.value] else []) + e.mws, e.handler)
    {
      var chain := middlewares;
      if authMiddleware.Some? && !e.info.noAuth {
        chain := chain + [authMiddleware.value];
      }
      chain := chain + e.mws;
      h := Handlers.Compile(chain, e.handler);
      assert middlewares + [] == middlewares;
    }

    /** Declaration i as a route of its tree: "/" is the root itself, anything else is what
        follows the first '/'. */
    method CompileRoute(i: nat) returns (r: Route)
      requires i < |entries| && entries[i].path != []
      ensures r == RouteOf(Declared(), Declared().decls[i])
    {
      var e := entries[i];
      var h := CompileEntry(e);
      var path := MatchPath(e.path, strictSlash);
      if path == [SLASH] {
        r := Route([], h);
      } else {
        r := Route(path[1..], h);
      }
    }

    /** One turn of the build loop. */
    method BuildRoute(trees: map<Str, Node>, ghost nodes: set<Node>, ghost i: nat, ghost st: State, r: Route, verb: Str)
      returns (ts: map<Str, Node>, ghost nodes': set<Node>)
      requires i < |st.decls| && r == RouteOf(st, st.decls[i]) && verb == st.decls[i].verb
      requires TreesAre(trees, ModelsOf(st, i), nodes) && st.caseSensitive == caseSensitive
      modifies nodes
      ensures TreesAre(ts, ModelsOf(st, i + 1), nodes')
      ensures nodes <= nodes' && fresh(nodes' - nodes)
    {
      ghost var base;
      ts, base, nodes' := WithRoot(trees, ModelsOf(st, i), nodes, verb);
      ghost var grown := InsertTree(base[verb], r.path, r.handler, !caseSensitive);
      nodes' := InsertInto(ts, base, nodes', verb, r.path, r.handler, !caseSensitive, grown);
      ModelsStep(st, i, base, grown);
    }

    method BuildTrees(ghost st: State) returns (ts: map<Str, Node>, ghost nodes: set<Node>)
      requires Valid() && st == Declared()
      ensures TreesAre(ts, ModelsOf(st, |st.decls|), nodes)
      ensures fresh(nodes)
    {
      ts, nodes := map[], {};
      for i := 0 to |entries|
        invariant fresh(nodes) && Declared() == st
        invariant TreesAre(ts, ModelsOf(st, i), nodes)
      {
        var r := CompileRoute(i);
        ts, nodes := BuildRoute(ts, nodes, i, st, r, entries[i].verb);
      }
    }

    /** Compiles the declarations once; later calls change nothing. */
    method Build()
      requires Valid() && (built ==> Ready())
      modifies `trees, `fallback, `built, `Frozen, `Nodes
      ensures built && Ready() && Declared() == old(Declared())
      ensures Frozen == if old(built) then old(Frozen) else old(Declared())
    {
      if !built {
        Compile();
        built := true;
      }
    }

    method Compile()
      requires Valid()
      modifies `trees, `fallback, `Frozen, `Nodes
      ensures Ready() && Frozen == old(Declared()) == Declared()
    {
      ghost var st := Declared();
      var ts;
      ghost var ns;
      ts, ns := BuildTrees(st);
      var fs := BuildFallbacks();
      Store(ts, fs, st, ns);
    }

    method Store(ts: map<Str, Node>, fs: Fallbacks, ghost st: State, ghost nodes: set<Node>)
      requires TreesAre(ts, ModelsOf(st, |st.decls|), nodes) && fs == FallbacksOf(st.globals)
      requires st.strict == strictSlash && st.caseSensitive == caseSensitive
      modifies `trees, `fallback, `Frozen, `Nodes
      ensures Ready() && Frozen == st
    {
      ghost var held := TreesAre(ts, ModelsOf(st, |st.decls|), nodes);
      trees, fallback, Frozen, Nodes := ts, fs, st, nodes;
      assert held == TreesAre(ts, ModelsOf(st, |st.decls|), nodes);
    }

    method BuildFallbacks() returns (fs: Fallbacks)
      ensures fs == FallbacksOf(middlewares)
    {
      var notFound := Handlers.Compile(middlewares, NotFoundReply);
      var notAllowed := Handlers.Compile(middlewares, NotAllowedReply);
      var options := Handlers.Compile(middlewares, OptionsReply);
      fs := Fallbacks(notFound, notAllowed, options);
    }

    /** One tree's answer for a normalised path: the root's own handler for "/", a search otherwise. */
    method LookupTree(root: Node, path: Str, ghost rs: seq<Route>)
      returns (h: Option<Handler>, params: Option<map<Str, Str>>)
      requires path != [] && root.Valid() && root.Model == BuildTree(rs, !caseSensitive)
      ensures var hit := LookupIn(rs, path, !caseSensitive);
        if hit.None? then h.None? else h == Some(hit.value.handler) && params == Params(hit.value.caps)
    {
      BuiltTreeIsWellFormed(rs, !caseSensitive);
      if path == [SLASH] {
        BuiltHandler(rs, [], !caseSensitive);
        return root.handler, None;
      }
      TreeSearchIsScan(rs, path[1..], !caseSensitive);
      ghost var visits;
      h, params, visits := root.Search(path[1..], !caseSensitive);
    }

    /** The verbs whose tree answers path, sorted. */
    method AllowedMethods(path: Str) returns (allowed: seq<Str>)
      requires Ready() && path != []
      ensures allowed == Answering(Frozen, path, |Frozen.decls|)
    {
      ghost var yes := set m | m in trees && Lookup(Frozen, m, path).Some?;
      var found := CollectAnswering(path, yes);
      allowed := SortStrings(found);
      SortedUnique(allowed, Answering(Frozen, path, |Frozen.decls|));
    }

    /** The walk over the map of trees, in an arbitrary order. */
    method CollectAnswering(path: Str, ghost yes: set<Str>) returns (found: seq<Str>)
      requires Ready() && path != [] && yes <= trees.Keys
      requires forall m :: m in trees ==> (m in yes <==> Lookup(Frozen, m, path).Some?)
      ensures forall m :: m in found <==> m in yes
      ensures NoRepeats(found)
    {
      found := [];
      ghost var ready := Ready();
      var left := trees.Keys;
      while left != {}
        invariant ready == Ready()
        invariant left <= trees.Keys && (forall m :: m in found <==> m in yes && m !in left)
        invariant NoRepeats(found)
        decreases left
      {
        var verb :| verb in left;
        var answers := Answers(verb, path);
        if answers {
          NoRepeatsGrows(found, verb);
          found := found + [verb];
        }
        left := left - {verb};
      }
    }

    method Answers(verb: Str, path: Str) returns (yes: bool)
      requires Ready() && path != []
      ensures yes <==> Lookup(Frozen, verb, path).Some?
    {
      var h, _ := LookupVerb(verb, path);
      yes := h.Some?;
    }

    /** HandleRequest, up to the call of the chosen handler. */
    method HandleRequest(verb: Str, rawPath: Str) returns (reply: Reply)
      requires Valid() && (built ==> Ready())
      modifies `trees, `fallback, `built, `Frozen, `Nodes
      ensures built && Ready() && Declared() == old(Declared())
      ensures Frozen == if old(built) then old(Frozen) else old(Declared())
      ensures reply == Dispatch(Frozen, verb, rawPath)
    {
      Build();
      var path := MatchPath(rawPath, strictSlash);
      if path == [] {
        path := [SLASH];
      }
      reply := Answer(verb, path);
    }

    /** The answer of the tree kept for verb, if there is one. */
    method LookupVerb(verb: Str, path: Str) returns (h: Option<Handler>, params: Option<map<Str, Str>>)
      requires Ready() && path != []
      ensures var hit := Lookup(Frozen, verb, path);
        if hit.None? then h.None? else h == Some(hit.value.handler) && params == Params(hit.value.caps)
    {
      if verb !in trees {
        NoRoutesYet(Frozen, verb, |Frozen.decls|);
        return None, None;
      }
      h, params := LookupTree(trees[verb], path, RoutesFor(Frozen, verb, |Frozen.decls|));
    }

    method Answer(verb: Str, path: Str) returns (reply: Reply)
      requires Ready() && path != []
      ensures reply == DispatchPath(Frozen, verb, path)
    {
      ghost var ready := Ready();
      var h, params := LookupVerb(verb, path);
      if h.Some? {
        return Reply(h.value, params, [], false);
      }
      var allowed := AllowedMethods(path);
      if |allowed| > 0 {
        if verb == OPTIONS {
          allowed := AppendIfMissing(allowed, OPTIONS);
          return Reply(fallback.options, None, allowed, false);
        }
        if verb == HEAD && GET in allowed {
          assert ready == Ready();
          h, params := LookupVerb(GET, path);
          return Reply(h.value, params, [], true);
        }
        allowed := AppendIfMissing(allowed, OPTIONS);
        return Reply(fallback.notAllowed, None, allowed, false);
      }
      return Reply(fallback.notFound, None, [], false);
    }
  }
}
