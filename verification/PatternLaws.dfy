/** Matching and substitution are inverse to each other, and matching ignores what folding ignores. */
module PatternLaws {
  import opened Bytes
  import opened Pattern

  /** Substitutes values for the wildcards of a pattern. */
  function Rebuild(toks: seq<Token>, values: seq<Str>): Str {
    if toks == [] then []
    else match toks[0]
      case Lit(b) => [b] + Rebuild(toks[1..], values)
      case _ => if values == [] then [] else values[0] + Rebuild(toks[1..], values[1..])
  }

  /** The shape the tokeniser gives: a catch-all ends the pattern, a parameter ends its
      segment, and literals are folded. */
  predicate Proper(toks: seq<Token>, ci: bool) {
    if toks == [] then true
    else match toks[0]
      case Lit(b) => Fold(b, ci) == b && Proper(toks[1..], ci)
      case Param => (|toks| > 1 ==> toks[1] == Lit(SLASH)) && Proper(toks[1..], ci)
      case CatchAll => |toks| == 1
  }

  lemma {:induction false} ParseIsProper(path: Str, ci: bool)
    ensures Proper(Tokens(Parse(path, ci)), ci)
    decreases |path|
  {
    if path != [] {
      var ps := Parse(path, ci);
      var n := if path[0] == COLON then 1 + SegmentLen(path[1..]) else 1;
      if path[0] != STAR {
        ParseIsProper(path[n..], ci);
        assert Tokens(ps)[1..] == Tokens(Parse(path[n..], ci));
        if path[0] == COLON && n < |path| {
          assert path[n..][0] == SLASH;
          assert Tokens(ps)[1] == Tokens(Parse(path[n..], ci))[0];
        }
      }
    }
  }

  /** One value per wildcard; a parameter's value is a non-empty segment. */
  predicate Admissible(toks: seq<Token>, values: seq<Str>) {
    if toks == [] then values == []
    else match toks[0]
      case Lit(_) => Admissible(toks[1..], values)
      case Param => values != [] && values[0] != [] && SLASH !in values[0] && Admissible(toks[1..], values[1..])
      case CatchAll => |values| == 1
  }

  /** Substituting what a match captured gives the path back: exactly in the wildcards, up to
      case in the literals. */
  lemma {:induction false} RebuildAfterMatch(toks: seq<Token>, path: Str, ci: bool)
    requires Proper(toks, ci) && Matches(toks, path, ci)
    ensures Admissible(toks, Values(toks, path))
    ensures SameFolded(Rebuild(toks, Values(toks, path)), path, ci)
    ensures !ci ==> Rebuild(toks, Values(toks, path)) == path
  {
    if toks != [] {
      var vs := Values(toks, path);
      match toks[0]
      case Lit(b) =>
        RebuildAfterMatch(toks[1..], path[1..], ci);
        SameFoldedAppend([b], Rebuild(toks[1..], vs), path[..1], path[1..], ci);
        assert path == path[..1] + path[1..];
      case Param =>
        var n := SegmentLen(path);
        RebuildAfterMatch(toks[1..], path[n..], ci);
        assert vs[1..] == Values(toks[1..], path[n..]);
        SameFoldedAppend(path[..n], Rebuild(toks[1..], vs[1..]), path[..n], path[n..], ci);
        assert path == path[..n] + path[n..];
      case CatchAll =>
        assert Rebuild(toks, vs) == path + [] == path;
    }
  }

  lemma SameFoldedAppend(a: Str, b: Str, c: Str, d: Str, ci: bool)
    requires SameFolded(a, c, ci) && SameFolded(b, d, ci)
    ensures SameFolded(a + b, c + d, ci)
  {
  }

  lemma {:induction false} SegmentLenAt(v: Str, rest: Str)
    requires SLASH !in v && (rest == [] || rest[0] == SLASH)
    ensures SegmentLen(v + rest) == |v|
  {
    if v == [] {
      assert v + rest == rest;
    } else {
      assert (v + rest)[1..] == v[1..] + rest;
      SegmentLenAt(v[1..], rest);
    }
  }

  /** A path made from a pattern matches it and gives the same values back. */
  lemma {:induction false} MatchAfterRebuild(toks: seq<Token>, values: seq<Str>, ci: bool)
    requires Proper(toks, ci) && Admissible(toks, values)
    ensures Matches(toks, Rebuild(toks, values), ci)
    ensures Values(toks, Rebuild(toks, values)) == values
  {
    if toks != [] {
      match toks[0]
      case Lit(b) =>
        MatchAfterRebuild(toks[1..], values, ci);
        assert ([b] + Rebuild(toks[1..], values))[1..] == Rebuild(toks[1..], values);
      case Param =>
        MatchAfterRebuild(toks[1..], values[1..], ci);
        var rest := Rebuild(toks[1..], values[1..]);
        SegmentLenAt(values[0], rest);
        assert (values[0] + rest)[|values[0]|..] == rest && (values[0] + rest)[..|values[0]|] == values[0];
      case CatchAll =>
        assert Rebuild(toks, values) == values[0] + [] == values[0];
        assert values == [values[0]];
    }
  }

  lemma SegmentLenFolded(p: Str, q: Str)
    requires SameFolded(p, q, true)
    ensures SegmentLen(p) == SegmentLen(q)
  {
    var m, n := SegmentLen(p), SegmentLen(q);
    assert m < |p| ==> Fold(p[m], true) == Fold(q[m], true) == SLASH;
    assert n < |q| ==> Fold(q[n], true) == Fold(p[n], true) == SLASH;
  }

  /** Paths that differ in ASCII case only match the same patterns, with values that differ
      in case only. */
  lemma {:induction false} MatchesFolded(toks: seq<Token>, p: Str, q: Str)
    requires SameFolded(p, q, true)
    ensures Matches(toks, p, true) == Matches(toks, q, true)
    ensures |Values(toks, p)| == |Values(toks, q)|
    ensures forall i :: 0 <= i < |Values(toks, p)| ==> SameFolded(Values(toks, p)[i], Values(toks, q)[i], true)
  {
    if toks != [] {
      match toks[0]
      case Lit(b) =>
        if p != [] {
          MatchesFolded(toks[1..], p[1..], q[1..]);
        }
      case Param =>
        SegmentLenFolded(p, q);
        var n := SegmentLen(p);
        MatchesFolded(toks[1..], p[n..], q[n..]);
      case CatchAll =>
    }
  }

  /** Matching, exactly: a path matches if and only if it is the pattern with admissible values put in, up
      to case in the literals. */
  lemma MatchesExactly(toks: seq<Token>, path: Str, ci: bool)
    requires Proper(toks, ci)
    ensures Matches(toks, path, ci) <==>
            exists values :: Admissible(toks, values) && SameFolded(Rebuild(toks, values), path, ci)
  {
    if Matches(toks, path, ci) {
      RebuildAfterMatch(toks, path, ci);
    }
    if values :| Admissible(toks, values) && SameFolded(Rebuild(toks, values), path, ci) {
      MatchAfterRebuild(toks, values, ci);
      if ci {
        MatchesFolded(toks, Rebuild(toks, values), path);
      } else {
        assert Rebuild(toks, values) == path;
      }
    }
  }
}
