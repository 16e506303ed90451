/** Scripts of calls and requests on real routers and groups: they end as GroupLaws says. */
module GroupRuns {
  import opened Bytes
  import opened Handlers
  import opened RouterSpec
  import opened RouterLaws
  import opened GroupLaws
  import G = Group
  import R = Router

  /** What the first request compiled is in place. */
  ghost predicate HasCompiled(w: World, router: R.Router)
    reads router, router.Nodes
  {
    && (router.built <==> w.frozen.Some?)
    && (router.built ==> router.Ready() && router.Frozen == w.frozen.value)
  }

  /** The objects have these values; the groups share the router and nothing else. */
  ghost predicate Matches(w: World, router: R.Router, groups: seq<G.Group>)
    reads router, router.Nodes, set e | e in router.entries :: e.info
    reads set g | g in groups :: g.middlewares
  {
    && router.Valid() && router.Declared() == w.router && HasCompiled(w, router)
    && HasGroups(w, router, groups)
  }

  ghost predicate HasGroups(w: World, router: R.Router, groups: seq<G.Group>)
    reads set g | g in groups :: g.middlewares
  {
    && |groups| == |w.groups|
    && forall g :: 0 <= g < |groups| ==>
         groups[g].router == router && groups[g].prefix == w.groups[g].prefix &&
         groups[g].middlewares[..] == w.groups[g].mws
  }

  lemma RunOne(st: State, e: Event)
    ensures Run(st, [e]) == Apply(st, e) && Run(st, []) == st
  {
    assert [e][..0] == [];
  }

  method CallRouter(router: R.Router, e: Event)
    requires router.Valid()
    modifies router`middlewares, router`authMiddleware, router`entries, set x | x in router.entries :: x.info
    ensures router.Valid() && router.Declared() == Apply(old(router.Declared()), e)
    ensures forall x :: x in router.entries ==> x in old(router.entries) || fresh(x.info)
  {
    match e
    case UseMiddleware(ms) => router.Use(ms);
    case SetAuth(m) => router.SetAuthMiddleware(m);
    case Declare(verb, path, h, ms) =>
      var info := router.AddRoute(verb, path, h, ms);
    case OptOut(k) =>
      if k < |router.entries| {
        router.OptOut(k);
      }
  }

  /** A call that declares something. Groups that were made before keep their values, and so does what a
      request has compiled. */
  method Declaring(c: Call, router: R.Router, groups: seq<G.Group>, ghost w: World) returns (groups': seq<G.Group>)
    requires Matches(w, router, groups) && !c.Request?
    modifies router`middlewares, router`authMiddleware, router`entries, set x | x in router.entries :: x.info
    ensures Matches(Step(w, c), router, groups')
    ensures groups <= groups' && forall x :: x in router.entries ==> x in old(router.entries) || fresh(x.info)
  {
    groups' := groups;
    ghost var held := HasCompiled(w, router);
    assert w.groups + [] == w.groups;
    match c {
      case OnRouter(e) =>
        RunOne(w.router, e);
        CallRouter(router, e);
      case RootGroup(prefix, ms) =>
        RunOne(w.router, OptOut(0));
        var own := new Middleware[|ms|](i requires 0 <= i < |ms| => ms[i]);
        var g := G.MakeGroup(router, prefix, own);
        groups' := groups + [g];
      case SubGroup(parent, prefix, ms) =>
        RunOne(w.router, OptOut(0));
        if parent < |groups| {
          var g := groups[parent].Sub(prefix, ms);
          groups' := groups + [g];
        }
      case DeclareIn(g, verb, path, h, ms) =>
        RunOne(w.router, Declare(verb, G.FullPath(if g < |groups| then w.groups[g].prefix else [], path), h,
                                 if g < |groups| then w.groups[g].mws + ms else []));
        if g < |groups| {
          var info := groups[g].Handle(verb, path, h, ms);
        }
    }
    assert held == HasCompiled(w, router);
  }

  /** A request. */
  method Answering(c: Call, router: R.Router, groups: seq<G.Group>, ghost w: World) returns (reply: Reply)
    requires Matches(w, router, groups) && c.Request?
    modifies router`trees, router`fallback, router`built, router`Frozen, router`Nodes
    ensures Matches(Step(w, c), router, groups) && router.entries == old(router.entries)
    ensures Step(w, c).replies == w.replies + [reply]
  {
    RunOne(w.router, OptOut(0));
    assert w.groups + [] == w.groups;
    reply := router.HandleRequest(c.verb, c.rawPath);
  }

  /** Any script of calls and requests on real objects: at the end each group's array holds what Play says,
      so no call on one group ever shows in another, and the replies are those of Play. */
  method Execute(calls: seq<Call>, strict: bool, cs: bool)
    returns (router: R.Router, groups: seq<G.Group>, replies: seq<Reply>)
    ensures Matches(Play(calls, strict, cs), router, groups) && fresh(router)
    ensures replies == Play(calls, strict, cs).replies
  {
    router := new R.Router(strict, cs);
    groups, replies := [], [];
    ghost var w := World(State([], None, [], strict, cs), [], None, []);
    assert calls[..0] == [];
    for i := 0 to |calls|
      invariant fresh(router) && forall x :: x in router.entries ==> fresh(x.info)
      invariant w == Play(calls[..i], strict, cs) && Matches(w, router, groups) && replies == w.replies
    {
      if calls[i].Request? {
        var reply := Answering(calls[i], router, groups, w);
        replies := replies + [reply];
      } else {
        groups := Declaring(calls[i], router, groups, w);
      }
      w := Step(w, calls[i]);
      assert calls[..i + 1][..i] == calls[..i];
    }
    assert calls[..|calls|] == calls;
  }
}
