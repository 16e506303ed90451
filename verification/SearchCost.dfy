/** How much of the tree a search looks at. It backtracks, but never into the same node twice. */
module SearchCost {
  import opened Bytes
  import opened RadixTree

  /** A node's place in a tree: the indices of the children to follow from the root. */
  type Place = seq<nat>

  // The calls of match made by a search, by the place of their node, along MatchNode's own recursion.

  function VisitsNode(t: Tree, at: Place, path: Str, ci: bool): seq<Place>
    decreases t, 3, 0
  {
    [at] + match t.kind
           case Static => if IsFoldedPrefix(t.path, path, ci) then VisitsBelow(t, at, path[|t.path|..], ci) else []
           case ParamKind =>
             if SegmentLen(path) == 0 then [] else VisitsBelow(t, at, path[SegmentLen(path)..], ci)
           case CatchAllKind => []
  }

  function VisitsBelow(t: Tree, at: Place, path: Str, ci: bool): seq<Place>
    decreases t, 2, 0
  {
    if path == [] then [] else VisitsFrom(t.children, at, 0, path, ci)
  }

  function VisitsFrom(cs: seq<Tree>, at: Place, w: nat, path: Str, ci: bool): seq<Place>
    requires w <= 3
    decreases cs, 1, 3 - w
  {
    if w == 3 then []
    else
      VisitsKind(cs, 0, at, KindAt(w), path, ci) +
      if MatchKind(cs, KindAt(w), path, ci).Some? then [] else VisitsFrom(cs, at, w + 1, path, ci)
  }

  /** cs are the children from number k on. */
  function VisitsKind(cs: seq<Tree>, k: nat, at: Place, want: Kind, path: Str, ci: bool): seq<Place>
    decreases cs, 0, 0
  {
    if cs == [] then []
    else if cs[0].kind != want then VisitsKind(cs[1..], k + 1, at, want, path, ci)
    else VisitsNode(cs[0], at + [k], path, ci) +
         if MatchNode(cs[0], path, ci).Some? then [] else VisitsKind(cs[1..], k + 1, at, want, path, ci)
  }

  // ---------- no node twice ----------

  predicate IsNode(t: Tree, p: Place) {
    p == [] || (p[0] < |t.children| && IsNode(t.children[p[0]], p[1..]))
  }

  /** p is a node of the tree t, which itself is at `at`. */
  predicate Inside(t: Tree, at: Place, p: Place) {
    |at| <= |p| && p[..|at|] == at && IsNode(t, p[|at|..])
  }

  /** p is a node of one of the children cs, number k and following, of the node at `at`. */
  predicate InsideChild(cs: seq<Tree>, k: nat, at: Place, p: Place) {
    && |at| < |p| && p[..|at|] == at && k <= p[|at|] < k + |cs|
    && IsNode(cs[p[|at|] - k], p[|at| + 1..])
  }

  /** The kind of that child. */
  function KindOf(cs: seq<Tree>, k: nat, at: Place, p: Place): Kind
    requires InsideChild(cs, k, at, p)
  {
    cs[p[|at|] - k].kind
  }

  lemma JoinDifferent(a: seq<Place>, b: seq<Place>)
    requires NoRepeats(a) && NoRepeats(b) && forall i, j :: 0 <= i < |a| && 0 <= j < |b| ==> a[i] != b[j]
    ensures NoRepeats(a + b)
  {
  }

  /** However much a search backtracks, it calls match at most once for each node of the tree, and for
      nothing else. */
  lemma {:induction false} VisitsOnce(t: Tree, at: Place, path: Str, ci: bool)
    ensures NoRepeats(VisitsNode(t, at, path, ci))
    ensures forall i :: 0 <= i < |VisitsNode(t, at, path, ci)| ==> Inside(t, at, VisitsNode(t, at, path, ci)[i])
    decreases t, 2, 0
  {
    var rest := if t.kind == Static && |t.path| <= |path| then path[|t.path|..] else path[SegmentLen(path)..];
    FromOnce(t.children, at, 0, rest, ci);
    var below := VisitsFrom(t.children, at, 0, rest, ci);
    forall i | 0 <= i < |below| ensures Inside(t, at, below[i]) && below[i] != at {
      var p := below[i];
      assert p[|at|..][1..] == p[|at| + 1..];
    }
    JoinDifferent([at], below);
  }

  lemma {:induction false} FromOnce(cs: seq<Tree>, at: Place, w: nat, path: Str, ci: bool)
    requires w <= 3
    ensures var ps := VisitsFrom(cs, at, w, path, ci);
      && NoRepeats(ps)
      && forall i :: 0 <= i < |ps| ==>
           InsideChild(cs, 0, at, ps[i]) && exists v :: w <= v < 3 && KindOf(cs, 0, at, ps[i]) == KindAt(v)
    decreases cs, 1, 3 - w
  {
    if w < 3 {
      KindOnce(cs, 0, at, KindAt(w), path, ci);
      FromOnce(cs, at, w + 1, path, ci);
      JoinDifferent(VisitsKind(cs, 0, at, KindAt(w), path, ci), VisitsFrom(cs, at, w + 1, path, ci));
    }
  }

  lemma {:induction false} KindOnce(cs: seq<Tree>, k: nat, at: Place, want: Kind, path: Str, ci: bool)
    ensures var ps := VisitsKind(cs, k, at, want, path, ci);
      && NoRepeats(ps)
      && forall i :: 0 <= i < |ps| ==> InsideChild(cs, k, at, ps[i]) && KindOf(cs, k, at, ps[i]) == want
    decreases cs, 0, 0
  {
    if cs != [] {
      KindOnce(cs[1..], k + 1, at, want, path, ci);
      var later := VisitsKind(cs[1..], k + 1, at, want, path, ci);
      if cs[0].kind == want {
        VisitsOnce(cs[0], at + [k], path, ci);
        var first := VisitsNode(cs[0], at + [k], path, ci);
        forall i | 0 <= i < |first| ensures InsideChild(cs, k, at, first[i]) && first[i][|at|] == k {
          var p := first[i];
          assert p[..|at| + 1] == at + [k];
          assert p[..|at|] == p[..|at| + 1][..|at|] && p[|at|] == p[..|at| + 1][|at|];
        }
        JoinDifferent(first, later);
      }
    }
  }

  // ---------- so there are at most as many as nodes ----------

  /** The nodes of a tree. */
  function Size(t: Tree): nat {
    1 + SizeAll(t.children)
  }

  function SizeAll(cs: seq<Tree>): nat {
    if cs == [] then 0 else Size(cs[0]) + SizeAll(cs[1..])
  }

  /** The nodes below the children of one kind. */
  function SizeKind(cs: seq<Tree>, want: Kind): nat {
    if cs == [] then 0 else (if cs[0].kind == want then Size(cs[0]) else 0) + SizeKind(cs[1..], want)
  }

  lemma {:induction false} KindsMakeAll(cs: seq<Tree>)
    ensures SizeAll(cs) == SizeKind(cs, Static) + SizeKind(cs, ParamKind) + SizeKind(cs, CatchAllKind)
  {
    if cs != [] {
      KindsMakeAll(cs[1..]);
    }
  }

  lemma {:induction false} VisitsAtMostSize(t: Tree, at: Place, path: Str, ci: bool)
    ensures |VisitsNode(t, at, path, ci)| <= Size(t)
    decreases t, 2
  {
    var rest := if t.kind == Static && |t.path| <= |path| then path[|t.path|..] else path[SegmentLen(path)..];
    KindAtMostSize(t.children, 0, at, Static, rest, ci);
    KindAtMostSize(t.children, 0, at, ParamKind, rest, ci);
    KindAtMostSize(t.children, 0, at, CatchAllKind, rest, ci);
    KindsMakeAll(t.children);
    assert |VisitsFrom(t.children, at, 3, rest, ci)| == 0;
    assert |VisitsFrom(t.children, at, 2, rest, ci)| <= SizeKind(t.children, CatchAllKind);
    assert |VisitsFrom(t.children, at, 1, rest, ci)| <=
           SizeKind(t.children, ParamKind) + SizeKind(t.children, CatchAllKind);
    assert |VisitsFrom(t.children, at, 0, rest, ci)| <= SizeAll(t.children);
  }

  lemma {:induction false} KindAtMostSize(cs: seq<Tree>, k: nat, at: Place, want: Kind, path: Str, ci: bool)
    ensures |VisitsKind(cs, k, at, want, path, ci)| <= SizeKind(cs, want)
    decreases cs, 1
  {
    if cs != [] {
      VisitsAtMostSize(cs[0], at + [k], path, ci);
      KindAtMostSize(cs[1..], k + 1, at, want, path, ci);
    }
  }
}
