/** Byte strings as the router sees them, and the two index loops of node.go. */
module Bytes {
  type Byte = b: int | 0 <= b < 256
  type Str = seq<Byte>

  const SLASH: Byte := 47
  const COLON: Byte := 58
  const STAR: Byte := 42

  datatype Option<+T> = None | Some(value: T)

  function Min(a: nat, b: nat): nat {
    if a < b then a else b
  }

  predicate NoRepeats<T(==)>(xs: seq<T>) {
    forall i, j :: 0 <= i < j < |xs| ==> xs[i] != xs[j]
  }

  function LowerASCII(b: Byte): Byte {
    if 65 <= b <= 90 then b + 32 else b
  }

  function Fold(b: Byte, ci: bool): Byte {
    if ci then LowerASCII(b) else b
  }

  /** Folding joins each capital letter 'A'..'Z' with its small one and no other two bytes; small letters
      stand for themselves. */
  lemma FoldsLettersOnly(a: Byte, b: Byte)
    ensures LowerASCII(a) == LowerASCII(b) <==>
            a == b || (65 <= a <= 90 && b == a + 32) || (65 <= b <= 90 && a == b + 32)
    ensures 97 <= a <= 122 ==> LowerASCII(a) == a
    ensures Fold(a, true) == LowerASCII(a) && Fold(a, false) == a
  {
  }

  /** Equality up to ASCII case when ci, plain equality otherwise. */
  ghost predicate SameFolded(s: Str, t: Str, ci: bool) {
    |s| == |t| && forall i :: 0 <= i < |s| ==> Fold(s[i], ci) == Fold(t[i], ci)
  }

  predicate IsFoldedPrefix(p: Str, s: Str, ci: bool) {
    |p| <= |s| && forall i :: 0 <= i < |p| ==> Fold(s[i], ci) == Fold(p[i], ci)
  }

  method HasPrefix(s: Str, prefix: Str, ci: bool) returns (yes: bool)
    ensures yes <==> IsFoldedPrefix(prefix, s, ci)
  {
    if |s| < |prefix| {
      return false;
    }
    if !ci {
      yes := s[..|prefix|] == prefix;
      assert yes ==> forall i :: 0 <= i < |prefix| ==> s[i] == s[..|prefix|][i];
      return;
    }
    for i := 0 to |prefix|
      invariant forall j :: 0 <= j < i ==> LowerASCII(s[j]) == LowerASCII(prefix[j])
    {
      if LowerASCII(s[i]) != LowerASCII(prefix[i]) {
        return false;
      }
    }
    return true;
  }

  /** How far two strings agree from their first byte on. */
  function CommonPrefix(a: Str, b: Str, ci: bool): (n: nat)
    ensures n <= |a| && n <= |b|
    ensures forall i :: 0 <= i < n ==> Fold(a[i], ci) == Fold(b[i], ci)
    ensures n < |a| && n < |b| ==> Fold(a[n], ci) != Fold(b[n], ci)
  {
    if a == [] || b == [] || Fold(a[0], ci) != Fold(b[0], ci) then 0
    else 1 + CommonPrefix(a[1..], b[1..], ci)
  }

  lemma {:induction false} CommonPrefixUnique(a: Str, b: Str, ci: bool, n: nat)
    requires n <= |a| && n <= |b|
    requires forall i :: 0 <= i < n ==> Fold(a[i], ci) == Fold(b[i], ci)
    requires n < |a| && n < |b| ==> Fold(a[n], ci) != Fold(b[n], ci)
    ensures n == CommonPrefix(a, b, ci)
  {
    if n > 0 {
      CommonPrefixUnique(a[1..], b[1..], ci, n - 1);
    }
  }

  method FindCommonPrefix(a: Str, b: Str, ci: bool) returns (n: nat)
    ensures n == CommonPrefix(a, b, ci)
  {
    var len := if |a| < |b| then |a| else |b|;
    for i := 0 to len
      invariant forall j :: 0 <= j < i ==> Fold(a[j], ci) == Fold(b[j], ci)
    {
      var x, y := a[i], b[i];
      if ci {
        x, y := LowerASCII(x), LowerASCII(y);
      }
      if x != y {
        CommonPrefixUnique(a, b, ci, i);
        return i;
      }
    }
    CommonPrefixUnique(a, b, ci, len);
    return len;
  }

  /** Length of the leading run of s that holds no '/': one path segment. */
  function SegmentLen(s: Str): (n: nat)
    ensures n <= |s|
    ensures forall i :: 0 <= i < n ==> s[i] != SLASH
    ensures n < |s| ==> s[n] == SLASH
  {
    if s == [] || s[0] == SLASH then 0 else 1 + SegmentLen(s[1..])
  }

  predicate IsLiteral(b: Byte) {
    b != COLON && b != STAR
  }

  /** Length of the leading run of s that holds neither ':' nor '*'. */
  function LiteralLen(s: Str): (n: nat)
    ensures n <= |s|
    ensures forall i :: 0 <= i < n ==> IsLiteral(s[i])
    ensures n < |s| ==> !IsLiteral(s[n])
  {
    if s == [] || !IsLiteral(s[0]) then 0 else 1 + LiteralLen(s[1..])
  }

  /** strings.IndexByte(s, '/'): -1 when there is none. */
  function IndexSlash(s: Str): (i: int)
    ensures i == -1 ==> SegmentLen(s) == |s|
    ensures i != -1 ==> 0 <= i < |s| && i == SegmentLen(s)
  {
    if SegmentLen(s) == |s| then -1 else SegmentLen(s)
  }
}
