/** The mutable node of node.go. `Insert` rewrites nodes in place and `Match` walks them with
    one shared capture buffer; both are proved to compute what RadixTree says. */
module RadixNode {
  import opened Bytes
  import opened Handlers
  import opened RadixTree
  import opened SearchCost
  import Pattern

  /** A Go slice of captures: the first len elements of a backing array that other slices may share. */
  datatype CaptureSlice = CaptureSlice(arr: array<Capture>, len: nat) {
    ghost predicate Valid() {
      len <= arr.Length
    }

    ghost function View(): seq<Capture>
      requires Valid()
      reads arr
    {
      arr[..len]
    }

    /** s[:n] */
    function Truncated(n: nat): CaptureSlice
      requires n <= len
    {
      CaptureSlice(arr, n)
    }
  }

  /** append(s, c): writes into the backing array while it has room, copies it otherwise. */
  method Append(s: CaptureSlice, c: Capture) returns (r: CaptureSlice)
    requires s.Valid()
    modifies s.arr
    ensures r.Valid() && r.View() == old(s.View()) + [c]
    ensures r.arr == s.arr || fresh(r.arr)
    ensures s.View() == old(s.View())
  {
    if s.len < s.arr.Length {
      s.arr[s.len] := c;
      r := CaptureSlice(s.arr, s.len + 1);
    } else {
      var bigger := new Capture[2 * s.len + 1];
      for i := 0 to s.len
        invariant bigger[..i] == s.arr[..i] && s.arr[..] == old(s.arr[..])
      {
        bigger[i] := s.arr[i];
      }
      bigger[s.len] := c;
      r := CaptureSlice(bigger, s.len + 1);
    }
  }

  /** What comes before the first '/', and the rest from it on. */
  method CutSegment(s: Str) returns (segment: Str, rest: Str)
    ensures segment == s[..SegmentLen(s)] && rest == s[SegmentLen(s)..]
  {
    var end := IndexSlash(s);
    if end == -1 {
      return s, [];
    }
    return s[..end], s[end..];
  }

  /** Captures become a map, later bindings of a key replacing earlier ones; without captures
      there is no map. */
  method CapturesToMap(caps: CaptureSlice) returns (params: Option<map<Str, Str>>)
    requires caps.Valid()
    ensures params == Params(caps.View())
  {
    if caps.len == 0 {
      return None;
    }
    ghost var view := caps.View();
    var m: map<Str, Str> := map[];
    for i := 0 to caps.len
      invariant m == ToMap(view[..i])
    {
      m := m[caps.arr[i].key := caps.arr[i].value];
      assert view[..i + 1][..i] == view[..i];
    }
    assert view[..caps.len] == view;
    params := Some(m);
  }

  lemma Regroup<T>(a: seq<T>, b: seq<T>, c: seq<T>)
    ensures a + (b + c) == (a + b) + c
    ensures c == [] ==> (a + b) + c == a + b
  {
  }

  class Node {
    var path: Str
    var kind: Kind
    var children: seq<Node>
    var handler: Option<Handler>
    var paramKey: Str

    ghost var Model: Tree
    ghost var Repr: set<Node>

    ghost predicate Valid()
      reads this, Repr
      decreases Repr
    {
      && this in Repr
      && (forall i :: 0 <= i < |children| ==>
            && children[i] in Repr && children[i].Repr <= Repr && this !in children[i].Repr
            && children[i].Valid())
      && (forall i, j :: 0 <= i < j < |children| ==> children[i].Repr !! children[j].Repr)
      && Model.path == path && Model.kind == kind && Model.handler == handler && Model.key == paramKey
      && |Model.children| == |children|
      && (forall i :: 0 <= i < |children| ==> Model.children[i] == children[i].Model)
    }

    constructor (path: Str, kind: Kind, handler: Option<Handler>, paramKey: Str)
      ensures Valid() && fresh(Repr)
      ensures Model == Tree(path, kind, [], handler, paramKey)
    {
      this.path, this.kind, this.children := path, kind, [];
      this.handler, this.paramKey := handler, paramKey;
      Model := Tree(path, kind, [], handler, paramKey);
      Repr := {this};
    }

    /** The lower half of a split: the handler and the children of another node. */
    constructor TakingOver(n: Node, path: Str)
      requires n.Valid()
      ensures Valid() && fresh(this) && Repr == {this} + (n.Repr - {n})
      ensures Model == Tree(path, Static, n.Model.children, n.handler, [])
    {
      this.path, this.kind, this.children := path, Static, n.children;
      this.handler, this.paramKey := n.handler, [];
      Model := Tree(path, Static, n.Model.children, n.handler, []);
      Repr := {this} + (n.Repr - {n});
    }

    /** Moves everything below the first n bytes of the label into a new child. */
    method Split(n: nat)
      requires Valid() && kind == Static && n <= |path|
      modifies this
      ensures Valid() && fresh(Repr - old(Repr))
      ensures Model == SplitTree(old(Model), n)
    {
      var split := new Node.TakingOver(this, path[n..]);
      ghost var held := split.Valid();
      path := path[..n];
      children := [split];
      handler := None;
      Repr := Repr + {split};
      Model := SplitTree(old(Model), n);
      assert held == split.Valid();
    }

    /** Re-establishes the invariant after child i was changed in place. */
    ghost method Refresh(i: nat)
      requires i < |children| && children[i] != this && |Model.children| == |children|
      modifies `Model, `Repr
      ensures Model == old(Model).(children := old(Model).children[i := children[i].Model])
      ensures Repr == old(Repr) + children[i].Repr
    {
      Model := Model.(children := Model.children[i := children[i].Model]);
      Repr := Repr + children[i].Repr;
    }

    method InsertBelow(i: nat, rest: Str, h: Handler, ci: bool)
      requires Valid() && i < |children|
      modifies Repr
      ensures Valid() && fresh(Repr - old(Repr))
      ensures var cs := old(Model).children;
        Model == old(Model).(children := cs[i := InsertTree(cs[i], rest, h, ci)])
      decreases |rest|, 2
    {
      children[i].Insert(rest, h, ci);
      assert forall j :: 0 <= j < |children| && j != i ==>
        children[j].Valid() && children[j].Repr == old(children[j].Repr) && children[j].Model == old(children[j].Model);
      Refresh(i);
    }

    method SplitChild(i: nat, n: nat)
      requires Valid() && i < |children| && Model.children[i].kind == Static
      requires n <= |Model.children[i].path|
      modifies Repr
      ensures Valid() && fresh(Repr - old(Repr)) && children == old(children)
      ensures Model == old(Model).(children := old(Model).children[i := SplitTree(old(Model).children[i], n)])
    {
      children[i].Split(n);
      Refresh(i);
    }

    method AppendChild(child: Node)
      requires Valid() && child.Valid() && child.Repr !! Repr
      modifies this
      ensures Valid() && Repr == old(Repr) + child.Repr && children == old(children) + [child]
      ensures Model == old(Model).(children := old(Model).children + [child.Model])
    {
      children := children + [child];
      Model := Model.(children := Model.children + [child.Model]);
      Repr := Repr + child.Repr;
    }

    /** A new last child with the route's rest below it. */
    method AppendNew(path: Str, kind: Kind, key: Str, rest: Str, h: Handler, ci: bool)
      requires Valid()
      modifies Repr
      ensures Valid() && fresh(Repr - old(Repr))
      ensures Model == old(Model).(children :=
        old(Model).children + [InsertTree(Tree(path, kind, [], None, key), rest, h, ci)])
      decreases |rest|, 2
    {
      var child := new Node(path, kind, None, key);
      child.Insert(rest, h, ci);
      AppendChild(child);
    }

    /** insert of node.go, branch by branch. */
    method Insert(path: Str, h: Handler, ci: bool)
      requires Valid()
      modifies Repr
      ensures Valid() && fresh(Repr - old(Repr))
      ensures Model == InsertTree(old(Model), path, h, ci)
      decreases |path|, 1
    {
      if path == [] {
        handler := Some(h);
        Model := Model.(handler := Some(h));
      } else if path[0] == COLON {
        InsertParam(path, h, ci);
      } else if path[0] == STAR {
        InsertCatchAll(path, h, ci);
      } else {
        InsertLiteral(path, h, ci);
      }
    }

    /** The first child of the wanted wildcard kind. */
    method FirstOfKind(want: Kind, ghost tok: Pattern.Token, ci: bool) returns (i: nat)
      requires Valid() && want != Static
      requires tok == if want == ParamKind then Pattern.Param else Pattern.CatchAll
      ensures i == IndexOf(Model.children, tok, ci) <= |children|
    {
      for k := 0 to |children|
        invariant forall j :: 0 <= j < k ==> !HeadIs(Model.children[j], tok, ci)
      {
        if children[k].kind == want {
          IndexOfIs(Model.children, tok, ci, k);
          return k;
        }
      }
      IndexOfIs(Model.children, tok, ci, |children|);
      return |children|;
    }

    method InsertParam(path: Str, h: Handler, ci: bool)
      requires Valid() && path != [] && path[0] == COLON
      modifies Repr
      ensures Valid() && fresh(Repr - old(Repr))
      ensures Model == InsertTree(old(Model), path, h, ci)
      decreases |path|, 0
    {
      var key, rest := CutSegment(path[1..]);
      assert key == path[1..1 + SegmentLen(path[1..])] && rest == path[1 + SegmentLen(path[1..])..];
      var i := FirstOfKind(ParamKind, Pattern.Param, ci);
      if i < |children| {
        InsertBelow(i, rest, h, ci);
      } else {
        AppendNew([], ParamKind, key, rest, h, ci);
      }
    }

    method InsertCatchAll(path: Str, h: Handler, ci: bool)
      requires Valid() && path != [] && path[0] == STAR
      modifies Repr
      ensures Valid() && fresh(Repr - old(Repr))
      ensures Model == InsertTree(old(Model), path, h, ci)
    {
      var key := path[1..];
      var i := FirstOfKind(CatchAllKind, Pattern.CatchAll, ci);
      if i < |children| {
        RebindChild(i, key, h);
      } else {
        var child := new Node([], CatchAllKind, Some(h), key);
        AppendChild(child);
      }
    }

    /** The last catch-all registration wins. */
    method RebindChild(i: nat, key: Str, h: Handler)
      requires Valid() && i < |children|
      modifies Repr
      ensures Valid() && fresh(Repr - old(Repr))
      ensures var cs := old(Model).children;
        Model == old(Model).(children := cs[i := cs[i].(handler := Some(h), key := key)])
    {
      children[i].Rebind(key, h);
      Refresh(i);
    }

    method Rebind(key: Str, h: Handler)
      requires Valid()
      modifies this
      ensures Valid() && Repr == old(Repr)
      ensures Model == old(Model).(handler := Some(h), key := key)
    {
      paramKey := key;
      handler := Some(h);
      Model := Model.(handler := Some(h), key := key);
    }

    /** The first static child that shares a non-empty beginning with staticPart, and its length. */
    method FirstShared(staticPart: Str, ci: bool) returns (i: nat, lcp: nat)
      requires Valid() && staticPart != []
      ensures i == IndexOf(Model.children, Pattern.Lit(Fold(staticPart[0], ci)), ci) <= |children|
      ensures i < |children| ==>
        Model.children[i].kind == Static && lcp == CommonPrefix(Model.children[i].path, staticPart, ci) > 0
    {
      ghost var tok := Pattern.Lit(Fold(staticPart[0], ci));
      for k := 0 to |children|
        invariant forall j :: 0 <= j < k ==> !HeadIs(Model.children[j], tok, ci)
      {
        if children[k].kind != Static {
          continue;
        }
        lcp := FindCommonPrefix(children[k].path, staticPart, ci);
        if lcp == 0 {
          continue;
        }
        IndexOfIs(Model.children, tok, ci, k);
        return k, lcp;
      }
      IndexOfIs(Model.children, tok, ci, |children|);
      return |children|, 0;
    }

    /** Descends into a static child, cutting its label first when the path leaves it midway. */
    method InsertIntoStatic(i: nat, lcp: nat, rest: Str, h: Handler, ci: bool)
      requires Valid() && i < |children| && Model.children[i].kind == Static
      requires lcp <= |Model.children[i].path|
      modifies Repr
      ensures Valid() && fresh(Repr - old(Repr))
      ensures var c := old(Model).children[i];
        var target := if lcp == |c.path| then c else SplitTree(c, lcp);
        Model == old(Model).(children := old(Model).children[i := InsertTree(target, rest, h, ci)])
      decreases |rest|, 3
    {
      if lcp < |children[i].path| {
        SplitChild(i, lcp);
      }
      InsertBelow(i, rest, h, ci);
    }

    method InsertLiteral(path: Str, h: Handler, ci: bool)
      requires Valid() && path != [] && IsLiteral(path[0])
      modifies Repr
      ensures Valid() && fresh(Repr - old(Repr))
      ensures Model == InsertTree(old(Model), path, h, ci)
      decreases |path|, 0
    {
      var n := LiteralLen(path);
      var staticPart, rest := path[..n], path[n..];
      var i, lcp := FirstShared(staticPart, ci);
      if i < |children| {
        assert staticPart[lcp..] + rest == path[lcp..];
        InsertIntoStatic(i, lcp, staticPart[lcp..] + rest, h, ci);
      } else {
        AppendNew(staticPart, Static, [], rest, h, ci);
      }
    }

    // ---------- match ----------

    /** match of node.go. A failed branch may leave anything behind the mark; the bindings
        in front of it survive, and a hit extends them by exactly the captures of the hit.
        `visits` lists the places of the nodes that this method is called on, itself at `at`. */
    method Match(path: Str, caps: CaptureSlice, ci: bool, ghost at: Place)
      returns (h: Option<Handler>, out: CaptureSlice, ghost visits: seq<Place>)
      requires Valid() && caps.Valid()
      modifies caps.arr
      ensures caps.View() == old(caps.View())
      ensures out.Valid() && (out.arr == caps.arr || fresh(out.arr))
      ensures var r := MatchNode(Model, path, ci);
        if r.None? then h.None?
        else h == Some(r.value.handler) && out.View() == old(caps.View()) + r.value.caps
      ensures visits == VisitsNode(Model, at, path, ci)
      decreases Repr, 3
    {
      match kind
      case Static =>
        var yes := HasPrefix(path, this.path, ci);
        if !yes {
          return None, caps, [at];
        }
        h, out, visits := MatchRest(path[|this.path|..], caps, ci, at);
        visits := [at] + visits;
      case ParamKind =>
        h, out, visits := MatchParam(path, caps, ci, at);
      case CatchAllKind =>
        h := handler;
        out := Append(caps, Capture(paramKey, path));
        visits := [at];
    }

    method MatchParam(path: Str, caps: CaptureSlice, ci: bool, ghost at: Place)
      returns (h: Option<Handler>, out: CaptureSlice, ghost visits: seq<Place>)
      requires Valid() && caps.Valid() && kind == ParamKind
      modifies caps.arr
      ensures caps.View() == old(caps.View())
      ensures out.Valid() && (out.arr == caps.arr || fresh(out.arr))
      ensures var r := MatchNode(Model, path, ci);
        if r.None? then h.None?
        else h == Some(r.value.handler) && out.View() == old(caps.View()) + r.value.caps
      ensures visits == VisitsNode(Model, at, path, ci)
      decreases Repr, 2
    {
      var value, rest := CutSegment(path);
      if value == [] {
        return None, caps, [at];
      }
      var longer := Append(caps, Capture(paramKey, value));
      h, out, visits := MatchRest(rest, longer, ci, at);
      visits := [at] + visits;
      assert longer.View()[..caps.len] == old(caps.View());
    }

    method MatchRest(path: Str, caps: CaptureSlice, ci: bool, ghost at: Place)
      returns (h: Option<Handler>, out: CaptureSlice, ghost visits: seq<Place>)
      requires Valid() && caps.Valid()
      modifies caps.arr
      ensures caps.View() == old(caps.View())
      ensures out.Valid() && (out.arr == caps.arr || fresh(out.arr))
      ensures var r := MatchBelow(Model, path, ci);
        if r.None? then h.None?
        else h == Some(r.value.handler) && out.View() == old(caps.View()) + r.value.caps
      ensures visits == VisitsBelow(Model, at, path, ci)
      decreases Repr, 1
    {
      visits := [];
      if path == [] {
        h, out := MatchEmptyRest(caps);
        return;
      }
      var mark := caps.len;
      var w := 0;
      while w < 3
        invariant w <= 3 && Valid() && caps.View() == old(caps.View())
        invariant TryFrom(Model.children, 0, path, ci) == TryFrom(Model.children, w, path, ci)
        invariant VisitsFrom(Model.children, at, 0, path, ci) == visits + VisitsFrom(Model.children, at, w, path, ci)
      {
        ghost var more;
        h, out, more := MatchOfKind(KindAt(w), path, caps.Truncated(mark), ci, at);
        Regroup(visits, more, if h.Some? then [] else VisitsFrom(Model.children, at, w + 1, path, ci));
        visits := visits + more;
        if h.Some? {
          return;
        }
        w := w + 1;
      }
      h, out := None, caps;
    }

    /** The children of one kind, in order, until one of them matches. */
    method MatchOfKind(want: Kind, path: Str, caps: CaptureSlice, ci: bool, ghost at: Place)
      returns (h: Option<Handler>, out: CaptureSlice, ghost visits: seq<Place>)
      requires Valid() && caps.Valid()
      modifies caps.arr
      ensures caps.View() == old(caps.View())
      ensures out.Valid() && (out.arr == caps.arr || fresh(out.arr))
      ensures var r := MatchKind(Model.children, want, path, ci);
        if r.None? then h.None?
        else h == Some(r.value.handler) && out.View() == old(caps.View()) + r.value.caps
      ensures visits == VisitsKind(Model.children, 0, at, want, path, ci)
      decreases Repr, 0
    {
      visits := [];
      var k := 0;
      while k < |children|
        invariant k <= |children| && Valid() && caps.View() == old(caps.View())
        invariant MatchKind(Model.children, want, path, ci) == MatchKind(Model.children[k..], want, path, ci)
        invariant VisitsKind(Model.children, 0, at, want, path, ci) ==
                  visits + VisitsKind(Model.children[k..], k, at, want, path, ci)
      {
        ghost var cs := Model.children[k..];
        assert cs[0] == children[k].Model && cs[1..] == Model.children[k + 1..];
        if children[k].kind == want {
          ghost var more;
          h, out, more := children[k].Match(path, caps, ci, at + [k]);
          Regroup(visits, more,
            if h.Some? then [] else VisitsKind(Model.children[k + 1..], k + 1, at, want, path, ci));
          visits := visits + more;
          if h.Some? {
            return;
          }
        }
        k := k + 1;
      }
      h, out := None, caps;
    }

    /** The end of the path: the node itself, or a bare catch-all child. */
    method MatchEmptyRest(caps: CaptureSlice) returns (h: Option<Handler>, out: CaptureSlice)
      requires Valid() && caps.Valid()
      modifies caps.arr
      ensures caps.View() == old(caps.View())
      ensures out.Valid() && (out.arr == caps.arr || fresh(out.arr))
      ensures forall ci :: var r := MatchBelow(Model, [], ci);
        if r.None? then h.None?
        else h == Some(r.value.handler) && out.View() == old(caps.View()) + r.value.caps
    {
      if handler.Some? {
        return handler, caps;
      }
      for k := 0 to |children|
        invariant EmptyRest(Model.children) == EmptyRest(Model.children[k..])
      {
        var c := children[k];
        if c.kind == CatchAllKind && c.handler.Some? {
          h := c.handler;
          out := Append(caps, Capture(c.paramKey, []));
          return;
        }
      }
      return None, caps;
    }

    /** search of node.go. */
    method Search(path: Str, ci: bool)
      returns (h: Option<Handler>, params: Option<map<Str, Str>>, ghost visits: seq<Place>)
      requires Valid()
      ensures var r := MatchNode(Model, path, ci);
        if r.None? then h.None? && params.None?
        else h == Some(r.value.handler) && params == Params(r.value.caps)
      ensures NoRepeats(visits) && |visits| <= Size(Model)
      ensures forall i :: 0 <= i < |visits| ==> IsNode(Model, visits[i])
    {
      var scratch := new Capture[8];
      var caps;
      h, caps, visits := Match(path, CaptureSlice(scratch, 0), ci, []);
      VisitsOnce(Model, [], path, ci);
      VisitsAtMostSize(Model, [], path, ci);
      if h.None? {
        return None, None, visits;
      }
      assert caps.View() == MatchNode(Model, path, ci).value.caps;
      params := CapturesToMap(caps);
    }
  }
}
