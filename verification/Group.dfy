/** Route groups (group.go): nested prefixes and middleware. Slices share backing arrays in the
    source, so `Merge` is modelled on arrays: a fresh one per group keeps siblings apart. */
module Group {
  import opened Bytes
  import opened Handlers
  import opened RouterSpec
  import opened R = Router

  function TrimSuffixSlash(s: Str): Str {
    if s != [] && s[|s| - 1] == SLASH then s[..|s| - 1] else s
  }

  function TrimPrefixSlash(s: Str): Str {
    if s != [] && s[0] == SLASH then s[1..] else s
  }

  /** Prefix of a group nested in one with this prefix. */
  function Nested(prefix: Str, child: Str): Str {
    TrimSuffixSlash(prefix) + [SLASH] + TrimPrefixSlash(child)
  }

  /** Path of a route declared in a group with this prefix. */
  function FullPath(prefix: Str, path: Str): Str {
    var p := TrimSuffixSlash(prefix);
    if path == [] || path == [SLASH] then (if p == [] then [SLASH] else p)
    else p + [SLASH] + TrimPrefixSlash(path)
  }

  function NestAll(prefix: Str, children: seq<Str>): Str
    decreases |children|
  {
    if children == [] then prefix else NestAll(Nested(prefix, children[0]), children[1..])
  }

  /** The segment a nested prefix or a route path adds: one '/' in front, one dropped at the end. */
  function Segment(child: Str): Str {
    TrimSuffixSlash([SLASH] + TrimPrefixSlash(child))
  }

  function Segments(children: seq<Str>): Str {
    if children == [] then [] else Segment(children[0]) + Segments(children[1..])
  }

  lemma TrimSuffixOfJoin(a: Str, b: Str)
    requires b != []
    ensures TrimSuffixSlash(a + b) == a + TrimSuffixSlash(b)
  {
  }

  /** However deep the nesting, the outer prefix gains one segment per level. */
  lemma {:induction false} NestedPrefixIsJoined(prefix: Str, children: seq<Str>)
    ensures TrimSuffixSlash(NestAll(prefix, children)) == TrimSuffixSlash(prefix) + Segments(children)
    decreases |children|
  {
    if children != [] {
      var child := [SLASH] + TrimPrefixSlash(children[0]);
      assert Nested(prefix, children[0]) == TrimSuffixSlash(prefix) + child;
      TrimSuffixOfJoin(TrimSuffixSlash(prefix), child);
      NestedPrefixIsJoined(Nested(prefix, children[0]), children[1..]);
    }
  }

  /** The path of a route in nested groups: the joined prefix, then the route's own path. */
  lemma NestedPathIsJoined(prefix: Str, children: seq<Str>, path: Str)
    ensures var joined := TrimSuffixSlash(prefix) + Segments(children);
      FullPath(NestAll(prefix, children), path) ==
      if path != [] && path != [SLASH] then joined + [SLASH] + TrimPrefixSlash(path)
      else if joined == [] then [SLASH] else joined
  {
    NestedPrefixIsJoined(prefix, children);
  }

  /** No two slashes in a row. */
  predicate NoEmptySegment(path: Str) {
    forall i :: 0 <= i < |path| - 1 ==> path[i] != SLASH || path[i + 1] != SLASH
  }

  /** Prefixes and paths without empty segments make prefixes and paths without any. */
  lemma JoiningMakesNoEmptySegment(prefix: Str, child: Str)
    requires NoEmptySegment(prefix) && NoEmptySegment(child)
    ensures NoEmptySegment(Nested(prefix, child)) && NoEmptySegment(FullPath(prefix, child))
  {
    var p, c := TrimSuffixSlash(prefix), TrimPrefixSlash(child);
    assert p == [] || p[|p| - 1] != SLASH by {
      assert prefix != [] && prefix[|prefix| - 1] == SLASH && |prefix| > 1 ==> prefix[|prefix| - 2] != SLASH;
    }
    assert c == [] || c[0] != SLASH by {
      assert |child| > 1 && child[0] == SLASH ==> child[0 + 1] != SLASH;
    }
    var path := p + [SLASH] + c;
    forall i | 0 <= i < |path| - 1 ensures path[i] != SLASH || path[i + 1] != SLASH {
      if i + 1 < |p| {
        assert path[i] == prefix[i] && path[i + 1] == prefix[i + 1];
      } else if i > |p| {
        var j := i - |p| - 1 + (|child| - |c|);
        assert path[i] == child[j] && path[i + 1] == child[j + 1];
      }
    }
  }

  /** The joined path in the ordinary cases: one slash between prefix and path, wherever it was written. */
  lemma JoinIs(prefix: Str, path: Str)
    requires prefix == [] || prefix[|prefix| - 1] != SLASH
    requires path != [] && path[0] != SLASH
    ensures FullPath(prefix, path) == prefix + [SLASH] + path == FullPath(prefix, [SLASH] + path)
    ensures FullPath(prefix + [SLASH], path) == prefix + [SLASH] + path == FullPath(prefix + [SLASH], [SLASH] + path)
    ensures Nested(prefix, path) == prefix + [SLASH] + path == Nested(prefix + [SLASH], [SLASH] + path)
  {
    assert (prefix + [SLASH])[..|prefix|] == prefix && ([SLASH] + path)[1..] == path;
  }

  class Group {
    const prefix: Str
    const router: Router
    const middlewares: array<Middleware>

    constructor (prefix: Str, router: Router, middlewares: array<Middleware>)
      ensures this.prefix == prefix && this.router == router && this.middlewares == middlewares
    {
      this.prefix, this.router, this.middlewares := prefix, router, middlewares;
    }

    /** merge: the group's middleware and then m, in an array nobody else holds. */
    method Merge(m: seq<Middleware>) returns (merged: array<Middleware>)
      ensures fresh(merged) && merged[..] == middlewares[..] + m
    {
      var n := middlewares.Length;
      merged := new Middleware[n + |m|];
      for i := 0 to n
        invariant merged[..i] == middlewares[..i] && middlewares[..] == old(middlewares[..])
      {
        merged[i] := middlewares[i];
      }
      assert merged[..n] == middlewares[..];
      for i := 0 to |m|
        invariant merged[..n] == middlewares[..] == old(middlewares[..])
        invariant merged[n..n + i] == m[..i]
      {
        merged[n + i] := m[i];
        assert merged[n..n + i + 1] == merged[n..n + i] + [m[i]];
      }
      assert merged[..] == merged[..n] + merged[n..n + |m|];
    }

    /** A nested group. It holds its own array, so nothing done to it or to a sibling can show here. */
    method Sub(prefix: Str, m: seq<Middleware>) returns (g: Group)
      ensures fresh(g) && fresh(g.middlewares) && g.router == router
      ensures g.prefix == Nested(this.prefix, prefix)
      ensures g.middlewares[..] == middlewares[..] + m
    {
      var merged := Merge(m);
      g := new Group(Nested(this.prefix, prefix), router, merged);
    }

    /** GET, POST and the others: declares a route of the group. */
    method Handle(verb: Str, path: Str, h: Handler, m: seq<Middleware>) returns (info: RouteInfo)
      requires router.Valid()
      modifies router`entries
      ensures router.Valid() && fresh(info)
      ensures router.entries ==
        old(router.entries) + [RouteEntry(verb, Rooted(FullPath(prefix, path)), h, middlewares[..] + m, info)]
      ensures router.Declared() ==
        Apply(old(router.Declared()), Declare(verb, FullPath(prefix, path), h, middlewares[..] + m))
    {
      var merged := Merge(m);
      info := router.AddRoute(verb, FullPath(prefix, path), h, merged[..]);
    }
  }

  /** A group of the application itself (app.go): the prefix gets a leading '/', the middleware is the
      caller's own array. */
  method MakeGroup(router: Router, prefix: Str, m: array<Middleware>) returns (g: Group)
    ensures fresh(g) && g.router == router
    ensures g.prefix == Rooted(prefix) && g.middlewares == m
  {
    g := new Group(Rooted(prefix), router, m);
  }
}
