/** What a request runs when its route was declared through groups, nested in any way, with calls on
    the router and on all the groups interleaved in any order. */
module GroupLaws {
  import opened Bytes
  import opened Handlers
  import opened RouterSpec
  import opened RouterLaws
  import G = Group

  // ---------- calls and their meaning ----------

  /** Groups are numbered in the order they are made. */
  datatype Call =
    | OnRouter(e: Event)
    | RootGroup(prefix: Str, ms: seq<Middleware>)
    | SubGroup(parent: nat, prefix: Str, ms: seq<Middleware>)
    | DeclareIn(group: nat, verb: Str, path: Str, handler: Handler, mws: seq<Middleware>)
    | Request(verb: Str, rawPath: Str)

  datatype GroupValue = GroupValue(prefix: Str, mws: seq<Middleware>)

  /** What was declared so far, what the first request compiled, and what was replied. */
  datatype World = World(router: State, groups: seq<GroupValue>, frozen: Option<State>, replies: seq<Reply>)

  /** The router call a call amounts to, if any. */
  function Routed(groups: seq<GroupValue>, c: Call): seq<Event> {
    match c
    case OnRouter(e) => [e]
    case DeclareIn(g, verb, path, h, ms) =>
      if g < |groups| then [Declare(verb, G.FullPath(groups[g].prefix, path), h, groups[g].mws + ms)] else []
    case _ => []
  }

  /** The group a call makes, if any. */
  function Made(groups: seq<GroupValue>, c: Call): seq<GroupValue> {
    match c
    case RootGroup(prefix, ms) => [GroupValue(Rooted(prefix), ms)]
    case SubGroup(g, prefix, ms) =>
      if g < |groups| then [GroupValue(G.Nested(groups[g].prefix, prefix), groups[g].mws + ms)] else []
    case _ => []
  }

  function Frozen(w: World, c: Call): Option<State> {
    if c.Request? && w.frozen.None? then Some(w.router) else w.frozen
  }

  function Replied(frozen: Option<State>, c: Call): seq<Reply> {
    if c.Request? && frozen.Some? then [Dispatch(frozen.value, c.verb, c.rawPath)] else []
  }

  function Step(w: World, c: Call): World {
    World(Run(w.router, Routed(w.groups, c)), w.groups + Made(w.groups, c),
          Frozen(w, c), w.replies + Replied(Frozen(w, c), c))
  }

  function Play(calls: seq<Call>, strict: bool, cs: bool): World {
    if calls == [] then World(State([], None, [], strict, cs), [], None, [])
    else Step(Play(calls[..|calls| - 1], strict, cs), calls[|calls| - 1])
  }

  // ---------- which calls made a group, a route ----------

  /** The calls that made groups, in order. */
  function Makers(calls: seq<Call>): seq<Call> {
    if calls == [] then []
    else
      var ms, c := Makers(calls[..|calls| - 1]), calls[|calls| - 1];
      ms + if c.RootGroup? || (c.SubGroup? && c.parent < |ms|) then [c] else []
  }

  /** A group's ancestors and itself, outermost first. */
  function Lineage(makers: seq<Call>, g: nat): seq<Call>
    requires g < |makers|
    decreases g
  {
    var c := makers[g];
    (if c.SubGroup? && c.parent < g then Lineage(makers, c.parent) else []) + [c]
  }

  /** All their middleware, in that order. */
  function MiddlewareOf(lineage: seq<Call>): seq<Middleware> {
    if lineage == [] then []
    else
      var c := lineage[|lineage| - 1];
      MiddlewareOf(lineage[..|lineage| - 1]) + if c.RootGroup? || c.SubGroup? then c.ms else []
  }

  /** The prefix they make up. */
  function PrefixOf(lineage: seq<Call>): Str {
    if lineage == [] then []
    else
      match lineage[|lineage| - 1]
      case RootGroup(prefix, _) => Rooted(prefix)
      case SubGroup(_, prefix, _) => G.Nested(PrefixOf(lineage[..|lineage| - 1]), prefix)
      case _ => []
  }

  /** The calls that declared routes, in order. */
  function Declarers(calls: seq<Call>): seq<Call> {
    if calls == [] then []
    else
      var init, c := calls[..|calls| - 1], calls[|calls| - 1];
      Declarers(init) +
      if (c.OnRouter? && c.e.Declare?) || (c.DeclareIn? && c.group < |Makers(init)|) then [c] else []
  }

  /** The router calls that all the calls amount to. */
  function Flat(calls: seq<Call>, strict: bool, cs: bool): seq<Event> {
    if calls == [] then []
    else
      var init := calls[..|calls| - 1];
      Flat(init, strict, cs) + Routed(Play(init, strict, cs).groups, calls[|calls| - 1])
  }

  lemma {:induction false} RunJoin(st: State, a: seq<Event>, b: seq<Event>)
    ensures Run(st, a + b) == Run(Run(st, a), b)
    decreases |b|
  {
    if b == [] {
      assert a + b == a;
    } else {
      assert (a + b)[..|a + b| - 1] == a + b[..|b| - 1];
      RunJoin(st, a, b[..|b| - 1]);
    }
  }

  lemma {:induction false} PlayIsRun(calls: seq<Call>, strict: bool, cs: bool)
    ensures Play(calls, strict, cs).router == Run(State([], None, [], strict, cs), Flat(calls, strict, cs))
  {
    if calls != [] {
      var init := calls[..|calls| - 1];
      PlayIsRun(init, strict, cs);
      RunJoin(State([], None, [], strict, cs), Flat(init, strict, cs),
              Routed(Play(init, strict, cs).groups, calls[|calls| - 1]));
    }
  }

  /** A later call does not change where a group comes from. */
  lemma {:induction false} LineageStays(makers: seq<Call>, more: seq<Call>, g: nat)
    requires g < |makers|
    ensures Lineage(makers + more, g) == Lineage(makers, g)
    decreases g
  {
    var c := makers[g];
    if c.SubGroup? && c.parent < g {
      LineageStays(makers, more, c.parent);
    }
  }

  function ValueOf(lineage: seq<Call>): GroupValue {
    GroupValue(PrefixOf(lineage), MiddlewareOf(lineage))
  }

  lemma ValueGrows(lineage: seq<Call>, c: Call)
    requires c.RootGroup? || c.SubGroup?
    ensures ValueOf(lineage + [c]) ==
            GroupValue(if c.RootGroup? then Rooted(c.prefix) else G.Nested(PrefixOf(lineage), c.prefix),
                       MiddlewareOf(lineage) + c.ms)
  {
    assert (lineage + [c])[..|lineage|] == lineage;
  }

  /** Whatever calls were made in between, each group has the prefix and the middleware of its own
      lineage, outermost first, and nothing of its siblings'. */
  lemma {:induction false} GroupsHoldTheirLineage(calls: seq<Call>, strict: bool, cs: bool)
    ensures |Play(calls, strict, cs).groups| == |Makers(calls)|
    ensures forall g :: 0 <= g < |Makers(calls)| ==>
      Play(calls, strict, cs).groups[g] == ValueOf(Lineage(Makers(calls), g))
  {
    if calls != [] {
      var init, c := calls[..|calls| - 1], calls[|calls| - 1];
      GroupsHoldTheirLineage(init, strict, cs);
      var before, after := Makers(init), Makers(calls);
      var new' := after[|before|..];
      assert after == before + new';
      forall g | 0 <= g < |before| ensures Lineage(after, g) == Lineage(before, g) {
        LineageStays(before, new', g);
      }
      if new' != [] {
        NewGroupHoldsItsLineage(before, Play(init, strict, cs).groups, c);
      }
    }
  }

  lemma NewGroupHoldsItsLineage(makers: seq<Call>, groups: seq<GroupValue>, c: Call)
    requires c.RootGroup? || (c.SubGroup? && c.parent < |makers|)
    requires |groups| == |makers| && forall g :: 0 <= g < |makers| ==> groups[g] == ValueOf(Lineage(makers, g))
    ensures Made(groups, c) == [ValueOf(Lineage(makers + [c], |makers|))]
  {
    if c.SubGroup? {
      LineageStays(makers, [c], c.parent);
      ValueGrows(Lineage(makers, c.parent), c);
    } else {
      ValueGrows([], c);
      assert [] + [c] == [c] && [] + c.ms == c.ms;
    }
  }

  /** The middleware that the groups on the way to a declaration add to its own. */
  function GroupMiddleware(makers: seq<Call>, d: Call): seq<Middleware> {
    if d.DeclareIn? && d.group < |makers| then MiddlewareOf(Lineage(makers, d.group)) else []
  }

  function OwnMiddleware(d: Call): seq<Middleware> {
    match d
    case OnRouter(Declare(_, _, _, ms)) => ms
    case DeclareIn(_, _, _, _, ms) => ms
    case _ => []
  }

  function OwnHandler(d: Call): Handler {
    match d
    case OnRouter(Declare(_, _, h, _)) => h
    case DeclareIn(_, _, _, h, _) => h
    case _ => NotFoundReply
  }

  function OwnVerb(d: Call): Str {
    match d
    case OnRouter(Declare(verb, _, _, _)) => verb
    case DeclareIn(_, verb, _, _, _) => verb
    case _ => []
  }

  lemma DeclarationsJoin(a: seq<Event>, b: seq<Event>)
    requires |b| <= 1
    ensures Declarations(a + b) == Declarations(a) + if b != [] && b[0].Declare? then b else []
  {
    if b == [] {
      assert a + b == a;
    } else {
      assert (a + b)[..|a|] == a && b == [b[0]];
    }
  }

  /** A declaration has the verb and the handler of its call, the path under the prefix of its groups,
      and the middleware of its groups before its own. */
  ghost predicate ComesFrom(e: Event, makers: seq<Call>, d: Call) {
    match d
    case OnRouter(own) => own.Declare? && e == own
    case DeclareIn(g, verb, path, h, ms) =>
      && g < |makers|
      && e == Declare(verb, G.FullPath(PrefixOf(Lineage(makers, g)), path), h, GroupMiddleware(makers, d) + ms)
    case _ => false
  }

  lemma ComesFromStays(e: Event, makers: seq<Call>, more: seq<Call>, d: Call)
    requires ComesFrom(e, makers, d)
    ensures ComesFrom(e, makers + more, d)
  {
    if d.DeclareIn? {
      LineageStays(makers, more, d.group);
    }
  }

  /** The last call's declaration, if it makes one. */
  lemma LastComesFrom(init: seq<Call>, c: Call, strict: bool, cs: bool)
    ensures var last := Routed(Play(init, strict, cs).groups, c);
      if (c.OnRouter? && c.e.Declare?) || (c.DeclareIn? && c.group < |Makers(init)|)
      then |last| == 1 && ComesFrom(last[0], Makers(init), c)
      else last == [] || (|last| == 1 && !last[0].Declare?)
  {
    GroupsHoldTheirLineage(init, strict, cs);
  }

  lemma {:induction false} DeclarationsComeFrom(calls: seq<Call>, strict: bool, cs: bool)
    ensures |Declarations(Flat(calls, strict, cs))| == |Declarers(calls)|
    ensures forall k :: 0 <= k < |Declarers(calls)| ==>
      ComesFrom(Declarations(Flat(calls, strict, cs))[k], Makers(calls), Declarers(calls)[k])
  {
    if calls != [] {
      var init, c := calls[..|calls| - 1], calls[|calls| - 1];
      DeclarationsComeFrom(init, strict, cs);
      LastComesFrom(init, c, strict, cs);
      DeclarationsJoin(Flat(init, strict, cs), Routed(Play(init, strict, cs).groups, c));
      var ds, before := Declarations(Flat(calls, strict, cs)), Makers(init);
      var more := Makers(calls)[|before|..];
      assert Makers(calls) == before + more;
      forall k | 0 <= k < |Declarers(calls)| ensures ComesFrom(ds[k], Makers(calls), Declarers(calls)[k]) {
        ComesFromStays(ds[k], before, more, Declarers(calls)[k]);
      }
    }
  }

  lemma ComesFromMeans(e: Event, makers: seq<Call>, d: Call)
    requires ComesFrom(e, makers, d)
    ensures e.Declare? && e.verb == OwnVerb(d) && e.handler == OwnHandler(d)
    ensures e.mws == GroupMiddleware(makers, d) + OwnMiddleware(d)
  {
  }

  /** End to end, with groups. After any interleaving of calls on the router and on its groups, a served
      request runs every global middleware, then authentication unless the route opted out, then the
      middleware of the groups the route was declared through, outermost first, then the route's own,
      then its handler. */
  lemma EndToEndThroughGroups(calls: seq<Call>, strict: bool, cs: bool, verb: Str, rawPath: Str)
    ensures var st, es := Play(calls, strict, cs).router, Flat(calls, strict, cs);
      var w := Winner(st, verb, RequestPath(rawPath, strict));
      w.Some? ==>
        w.value < |Declarers(calls)| &&
        var d := Declarers(calls)[w.value];
        var h := Dispatch(st, verb, rawPath).handler;
        && OwnVerb(d) == verb
        && Layers(h) ==
             AllUsed(es)
             + (if LastAuth(es).Some? && !OptedOut(es, w.value) then [LastAuth(es).value] else [])
             + (GroupMiddleware(Makers(calls), d) + OwnMiddleware(d)) + Layers(OwnHandler(d))
        && BaseOf(h) == BaseOf(OwnHandler(d))
  {
    PlayIsRun(calls, strict, cs);
    EndToEnd(Flat(calls, strict, cs), strict, cs, verb, rawPath);
    var w := Winner(Play(calls, strict, cs).router, verb, RequestPath(rawPath, strict));
    if w.Some? {
      OriginOf(calls, strict, cs, w.value);
    }
  }

  lemma OriginOf(calls: seq<Call>, strict: bool, cs: bool, k: nat)
    requires k < |Declarations(Flat(calls, strict, cs))|
    ensures k < |Declarers(calls)|
    ensures var e, d := Declarations(Flat(calls, strict, cs))[k], Declarers(calls)[k];
      && e.Declare? && e.verb == OwnVerb(d) && e.handler == OwnHandler(d)
      && e.mws == GroupMiddleware(Makers(calls), d) + OwnMiddleware(d)
  {
    DeclarationsComeFrom(calls, strict, cs);
    ComesFromMeans(Declarations(Flat(calls, strict, cs))[k], Makers(calls), Declarers(calls)[k]);
  }

  // ---------- requests among the calls ----------

  /** The first request; the number of calls when there is none. */
  function FirstRequest(calls: seq<Call>): (i: nat)
    ensures i <= |calls|
    ensures i < |calls| ==> calls[i].Request?
  {
    if calls == [] then 0
    else
      var n := |calls| - 1;
      var i := FirstRequest(calls[..n]);
      if i < n || calls[n].Request? then i else n + 1
  }

  function Requests(calls: seq<Call>): seq<Call> {
    if calls == [] then []
    else
      var c := calls[|calls| - 1];
      Requests(calls[..|calls| - 1]) + if c.Request? then [c] else []
  }

  /** The declarations made before the first request. */
  function Compiled(calls: seq<Call>, strict: bool, cs: bool): State {
    Play(calls[..FirstRequest(calls)], strict, cs).router
  }

  /** The first request freezes the declarations: every request is answered by what was declared before the
      first one, whatever was declared, grouped or opted out in between. */
  lemma {:induction false} FirstRequestFreezes(calls: seq<Call>, strict: bool, cs: bool)
    ensures var w := Play(calls, strict, cs);
      && w.frozen == (if FirstRequest(calls) < |calls| then Some(Compiled(calls, strict, cs)) else None)
      && |w.replies| == |Requests(calls)|
      && forall k :: 0 <= k < |Requests(calls)| ==>
           var c := Requests(calls)[k];
           c.Request? && w.replies[k] == Dispatch(Compiled(calls, strict, cs), c.verb, c.rawPath)
  {
    if calls != [] {
      var init := calls[..|calls| - 1];
      FirstRequestFreezes(init, strict, cs);
      if FirstRequest(init) < |init| {
        assert calls[..FirstRequest(calls)] == init[..FirstRequest(init)];
      } else {
        assert init[..|init|] == init;
        NoRequests(init);
        assert calls[|calls| - 1].Request? ==> calls[..FirstRequest(calls)] == init;
      }
    }
  }

  lemma {:induction false} NoRequests(calls: seq<Call>)
    requires FirstRequest(calls) == |calls|
    ensures Requests(calls) == []
  {
    if calls != [] {
      NoRequests(calls[..|calls| - 1]);
    }
  }

  /** End to end for every request of a run: it runs the globals, authentication, group middleware and own
      middleware as they were declared before the first request. */
  lemma EveryReplyEndToEnd(calls: seq<Call>, strict: bool, cs: bool, k: nat)
    requires k < |Requests(calls)|
    ensures |Play(calls, strict, cs).replies| == |Requests(calls)| && Requests(calls)[k].Request?
    ensures var before, c := calls[..FirstRequest(calls)], Requests(calls)[k];
      var w := Winner(Play(before, strict, cs).router, c.verb, RequestPath(c.rawPath, strict));
      var es := Flat(before, strict, cs);
      w.Some? ==>
        w.value < |Declarers(before)| &&
        var d := Declarers(before)[w.value];
        var h := Play(calls, strict, cs).replies[k].handler;
        && OwnVerb(d) == c.verb
        && Layers(h) ==
             AllUsed(es)
             + (if LastAuth(es).Some? && !OptedOut(es, w.value) then [LastAuth(es).value] else [])
             + (GroupMiddleware(Makers(before), d) + OwnMiddleware(d)) + Layers(OwnHandler(d))
        && BaseOf(h) == BaseOf(OwnHandler(d))
  {
    FirstRequestFreezes(calls, strict, cs);
    var c := Requests(calls)[k];
    EndToEndThroughGroups(calls[..FirstRequest(calls)], strict, cs, c.verb, c.rawPath);
  }
}
