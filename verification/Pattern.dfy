/** What a route pattern means, independently of any tree: its tokens, the paths it
    matches, the values it captures, and the priority between patterns. */
module Pattern {
  import opened Bytes

  datatype Token = Lit(b: Byte) | Param | CatchAll

  /** A token together with the key a wildcard was declared with. */
  datatype Piece = PLit(b: Byte) | PParam(key: Str) | PCatchAll(key: Str)

  function TokenOf(p: Piece): Token {
    match p
    case PLit(b) => Lit(b)
    case PParam(_) => Param
    case PCatchAll(_) => CatchAll
  }

  function Tokens(ps: seq<Piece>): (ts: seq<Token>)
    ensures |ts| == |ps|
  {
    seq(|ps|, i requires 0 <= i < |ps| => TokenOf(ps[i]))
  }

  /** The tokeniser: ":key" up to the next '/', "*key" to the end, anything else a literal byte. */
  function Parse(path: Str, ci: bool): seq<Piece>
    decreases |path|
  {
    if path == [] then []
    else if path[0] == COLON then
      var n := 1 + SegmentLen(path[1..]);
      [PParam(path[1..n])] + Parse(path[n..], ci)
    else if path[0] == STAR then [PCatchAll(path[1..])]
    else [PLit(Fold(path[0], ci))] + Parse(path[1..], ci)
  }

  function LitTokens(s: Str, ci: bool): (ts: seq<Token>)
    ensures |ts| == |s|
  {
    seq(|s|, i requires 0 <= i < |s| => Lit(Fold(s[i], ci)))
  }

  predicate Matches(toks: seq<Token>, path: Str, ci: bool) {
    if toks == [] then path == []
    else match toks[0]
      case Lit(b) => path != [] && Fold(path[0], ci) == b && Matches(toks[1..], path[1..], ci)
      case Param => SegmentLen(path) > 0 && Matches(toks[1..], path[SegmentLen(path)..], ci)
      case CatchAll => true
  }

  /** The substrings of path that the wildcards of a matching pattern bind. */
  function Values(toks: seq<Token>, path: Str): seq<Str> {
    if toks == [] then []
    else match toks[0]
      case Lit(_) => if path == [] then [] else Values(toks[1..], path[1..])
      case Param => [path[..SegmentLen(path)]] + Values(toks[1..], path[SegmentLen(path)..])
      case CatchAll => [path]
  }

  function Rank(t: Token): nat {
    match t
    case Lit(b) => b
    case Param => 256
    case CatchAll => 257
  }

  /** Priority: token by token, literal before parameter before catch-all, end of pattern first. */
  predicate Less(p: seq<Token>, q: seq<Token>) {
    if p == [] || q == [] then p == [] && q != []
    else Rank(p[0]) < Rank(q[0]) || (p[0] == q[0] && Less(p[1..], q[1..]))
  }

  lemma {:induction false} LessTotal(p: seq<Token>, q: seq<Token>)
    ensures p == q || Less(p, q) || Less(q, p)
    ensures !(Less(p, q) && Less(q, p)) && (Less(p, q) ==> p != q)
  {
    if p != [] && q != [] {
      if p[0] == q[0] {
        LessTotal(p[1..], q[1..]);
        assert p == [p[0]] + p[1..] && q == [q[0]] + q[1..];
      } else {
        assert Rank(p[0]) != Rank(q[0]);
      }
    }
  }

  lemma {:induction false} LessTransitive(p: seq<Token>, q: seq<Token>, r: seq<Token>)
    requires Less(p, q) && Less(q, r)
    ensures Less(p, r)
  {
    if p != [] && p[0] == q[0] == r[0] {
      LessTransitive(p[1..], q[1..], r[1..]);
    }
  }

  /** A shared prefix does not influence priority. */
  lemma {:induction false} LessAfterPrefix(pre: seq<Token>, p: seq<Token>, q: seq<Token>)
    ensures Less(pre + p, pre + q) == Less(p, q)
  {
    if pre == [] {
      assert pre + p == p && pre + q == q;
    } else {
      assert (pre + p)[1..] == pre[1..] + p && (pre + q)[1..] == pre[1..] + q;
      LessAfterPrefix(pre[1..], p, q);
    }
  }

  /** A run of literals is one folded prefix test; the rest decides and captures. */
  lemma {:induction false} MatchesAfterLits(s: Str, rest: seq<Token>, path: Str, ci: bool)
    ensures Matches(LitTokens(s, ci) + rest, path, ci) <==>
            (IsFoldedPrefix(s, path, ci) && Matches(rest, path[|s|..], ci))
    ensures IsFoldedPrefix(s, path, ci) ==> Values(LitTokens(s, ci) + rest, path) == Values(rest, path[|s|..])
  {
    var toks := LitTokens(s, ci) + rest;
    if s == [] {
      assert toks == rest && path[0..] == path;
    } else if path != [] {
      assert toks[1..] == LitTokens(s[1..], ci) + rest;
      MatchesAfterLits(s[1..], rest, path[1..], ci);
      FoldedPrefixTail(s, path, ci);
      if |s| <= |path| {
        assert path[1..][|s| - 1..] == path[|s|..];
      }
    }
  }

  lemma FoldedPrefixTail(s: Str, path: Str, ci: bool)
    requires s != [] && path != []
    ensures IsFoldedPrefix(s, path, ci) <==>
            Fold(path[0], ci) == Fold(s[0], ci) && IsFoldedPrefix(s[1..], path[1..], ci)
  {
    if IsFoldedPrefix(s[1..], path[1..], ci) {
      assert forall i :: 1 <= i < |s| ==> Fold(path[i], ci) == Fold(path[1..][i - 1], ci) == Fold(s[1..][i - 1], ci);
    }
  }

  /** The priority, case by case: the end of a pattern before anything else, a literal before a parameter,
      a parameter before a catch-all; and nothing turns it round. */
  lemma PriorityIs(b: Byte, p: seq<Token>, q: seq<Token>)
    ensures Less([Lit(b)] + p, [Param] + q) && !Less([Param] + q, [Lit(b)] + p)
    ensures Less([Lit(b)] + p, [CatchAll] + q) && !Less([CatchAll] + q, [Lit(b)] + p)
    ensures Less([Param] + p, [CatchAll] + q) && !Less([CatchAll] + q, [Param] + p)
    ensures p != [] ==> Less([], p) && !Less(p, [])
  {
    LessTotal([Lit(b)] + p, [Param] + q);
  }

  /** The text of pieces, as a route would be written. */
  function Text(ps: seq<Piece>): Str {
    if ps == [] then []
    else
      (match ps[0]
       case PLit(b) => [b]
       case PParam(key) => [COLON] + key
       case PCatchAll(key) => [STAR] + key) + Text(ps[1..])
  }

  /** Tokenising loses nothing but the case of literals: the pieces, written down, are the route again. */
  lemma {:induction false} ParseSpells(path: Str, ci: bool)
    ensures SameFolded(Text(Parse(path, ci)), path, ci)
    ensures !ci ==> Text(Parse(path, ci)) == path
    decreases |path|
  {
    if path != [] {
      var n := if path[0] == COLON then 1 + SegmentLen(path[1..]) else if path[0] == STAR then |path| else 1;
      assert path == path[..n] + path[n..];
      if path[0] == COLON {
        assert path[..n] == [COLON] + path[1..n];
      } else if path[0] == STAR {
        assert Text([PCatchAll(path[1..])]) == [STAR] + path[1..] + [] == path;
      }
      if path[0] != STAR {
        ParseSpells(path[n..], ci);
      }
    }
  }

  /** How piece i of a route may look: a literal is no wildcard mark, a parameter's key has no '/' and ends
      its segment, a catch-all comes last. */
  predicate WellPlaced(ps: seq<Piece>, i: nat)
    requires i < |ps|
  {
    match ps[i]
    case PLit(b) => IsLiteral(b)
    case PParam(key) => SLASH !in key && (i + 1 < |ps| ==> ps[i + 1] == PLit(SLASH))
    case PCatchAll(_) => i + 1 == |ps|
  }

  lemma {:induction false} ParsePieces(path: Str, ci: bool)
    ensures forall i :: 0 <= i < |Parse(path, ci)| ==> WellPlaced(Parse(path, ci), i)
    decreases |path|
  {
    if path != [] && path[0] != STAR {
      var n := if path[0] == COLON then 1 + SegmentLen(path[1..]) else 1;
      var ps, rest := Parse(path, ci), Parse(path[n..], ci);
      ParsePieces(path[n..], ci);
      assert ps == [ps[0]] + rest;
      if path[0] == COLON && n < |path| {
        assert path[n] == path[1..][n - 1] == SLASH && path[n..][0] == SLASH;
      }
      forall i | 0 <= i < |ps| ensures WellPlaced(ps, i) {
        assert i > 0 ==> WellPlaced(rest, i - 1);
      }
    }
  }
}
