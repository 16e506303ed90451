/** The client-key hash of proxy/balancer.go: 64-bit FNV-1a, whose multiplications wrap. */
module Fnv1a {
  import opened Bytes
  import opened RoundRobin

  const OFFSET: nat := 14695981039346656037
  const PRIME: nat := 1099511628211

  /** PRIME's inverse modulo 2^64, and the multiple of 2^64 by which their product passes 1. */
  const INVERSE: nat := 14886173955864302971
  const TURNS: nat := 887285111055

  function Pow2(n: nat): (p: nat)
    ensures p > 0
  {
    if n == 0 then 1 else 2 * Pow2(n - 1)
  }

  /** Exclusive or of the low n bits. */
  function Xor(x: nat, y: nat, n: nat): (r: nat)
    ensures r < Pow2(n)
  {
    if n == 0 then 0 else 2 * Xor(x / 2, y / 2, n - 1) + if x % 2 == y % 2 then 0 else 1
  }

  lemma Halves(x: nat, half: nat, bit: nat)
    requires x == 2 * half + bit && bit < 2
    ensures x / 2 == half && x % 2 == bit
  {
  }

  lemma {:induction false} XorTwice(x: nat, y: nat, n: nat)
    requires x < Pow2(n) && y < Pow2(n)
    ensures Xor(Xor(x, y, n), y, n) == x
  {
    if n > 0 {
      var half, bit := Xor(x / 2, y / 2, n - 1), if x % 2 == y % 2 then 0 else 1;
      XorTwice(x / 2, y / 2, n - 1);
      Halves(Xor(x, y, n), half, bit);
    }
  }

  lemma {:induction false} XorEitherWay(x: nat, y: nat, n: nat)
    ensures Xor(x, y, n) == Xor(y, x, n)
  {
    if n > 0 {
      XorEitherWay(x / 2, y / 2, n - 1);
    }
  }

  lemma {:induction false} Pow2Sum(a: nat, b: nat)
    ensures Pow2(a + b) == Pow2(a) * Pow2(b)
  {
    if a > 0 {
      Pow2Sum(a - 1, b);
      assert 2 * (Pow2(a - 1) * Pow2(b)) == (2 * Pow2(a - 1)) * Pow2(b);
    }
  }

  lemma WordSize()
    ensures Pow2(64) == WRAP
  {
    assert Pow2(4) == 16;
    Pow2Sum(4, 4);
    Pow2Sum(8, 8);
    Pow2Sum(16, 16);
    Pow2Sum(32, 32);
  }

  function Mix(h: nat, b: Byte): (r: nat)
    requires h < WRAP
    ensures r < WRAP
  {
    Xor(h, b, 64) * PRIME % WRAP
  }

  function HashFrom(h: nat, s: Str): (r: nat)
    requires h < WRAP
    ensures r < WRAP
  {
    if s == [] then h else Mix(HashFrom(h, s[..|s| - 1]), s[|s| - 1])
  }

  function Hash(s: Str): nat {
    HashFrom(OFFSET, s)
  }

  method Compute(s: Str) returns (h: nat)
    ensures h == Hash(s)
  {
    h := OFFSET;
    for i := 0 to |s|
      invariant h == HashFrom(OFFSET, s[..i]) < WRAP
    {
      h := Xor(h, s[i], 64);
      h := h * PRIME % WRAP;
      assert s[..i + 1][..i] == s[..i];
    }
    assert s[..|s|] == s;
  }

  /** Multiplying by an odd number loses nothing, even with wrap-around. */
  lemma Undo(x: nat)
    requires x < WRAP
    ensures (x * PRIME % WRAP) * INVERSE % WRAP == x
  {
    var q, r := x * PRIME / WRAP, x * PRIME % WRAP;
    assert PRIME * INVERSE == TURNS * WRAP + 1;
    assert r * INVERSE == WRAP * (x * TURNS - q * INVERSE) + x;
    ModUnique(r * INVERSE, x * TURNS - q * INVERSE, x, WRAP);
  }

  /** Different states stay different whatever byte comes next. */
  lemma StatesStayApart(h: nat, g: nat, b: Byte)
    requires h < WRAP && g < WRAP && h != g
    ensures Mix(h, b) != Mix(g, b)
  {
    WordSize();
    Undo(Xor(h, b, 64));
    Undo(Xor(g, b, 64));
    XorTwice(h, b, 64);
    XorTwice(g, b, 64);
  }

  lemma BytesTellApart(h: nat, x: Byte, y: Byte)
    requires h < WRAP && x != y
    ensures Mix(h, x) != Mix(h, y)
  {
    WordSize();
    Undo(Xor(h, x, 64));
    Undo(Xor(h, y, 64));
    XorEitherWay(h, x, 64);
    XorEitherWay(h, y, 64);
    XorTwice(x, h, 64);
    XorTwice(y, h, 64);
  }

  lemma {:induction false} HashJoin(h: nat, a: Str, b: Str)
    requires h < WRAP
    ensures HashFrom(h, a + b) == HashFrom(HashFrom(h, a), b)
    decreases |b|
  {
    if b == [] {
      assert a + b == a;
    } else {
      assert (a + b)[..|a + b| - 1] == a + b[..|b| - 1];
      HashJoin(h, a, b[..|b| - 1]);
    }
  }

  lemma {:induction false} TailsKeepApart(h: nat, g: nat, s: Str)
    requires h < WRAP && g < WRAP && h != g
    ensures HashFrom(h, s) != HashFrom(g, s)
  {
    if s != [] {
      TailsKeepApart(h, g, s[..|s| - 1]);
      StatesStayApart(HashFrom(h, s[..|s| - 1]), HashFrom(g, s[..|s| - 1]), s[|s| - 1]);
    }
  }

  /** Client keys that differ in one byte never collide. */
  lemma OneByteTellsApart(pre: Str, x: Byte, y: Byte, post: Str)
    requires x != y
    ensures Hash(pre + [x] + post) != Hash(pre + [y] + post)
  {
    var h := Hash(pre);
    HashJoin(OFFSET, pre, [x] + post);
    HashJoin(OFFSET, pre, [y] + post);
    HashJoin(h, [x], post);
    HashJoin(h, [y], post);
    BytesTellApart(h, x, y);
    TailsKeepApart(Mix(h, x), Mix(h, y), post);
    assert pre + [x] + post == pre + ([x] + post) && pre + [y] + post == pre + ([y] + post);
  }

  // ---------- a key worked out ----------

  /** Exclusive or with a number of k bits leaves the rest as it is. */
  function XorBelow(x: nat, y: nat, k: nat): nat {
    if k == 0 then x else 2 * XorBelow(x / 2, y / 2, k - 1) + if x % 2 == y % 2 then 0 else 1
  }

  lemma {:induction false} XorZero(x: nat, n: nat)
    requires x < Pow2(n)
    ensures Xor(x, 0, n) == x
  {
    if n > 0 {
      XorZero(x / 2, n - 1);
    }
  }

  lemma {:induction false} XorIsBelow(x: nat, y: nat, k: nat, n: nat)
    requires k <= n && x < Pow2(n) && y < Pow2(k)
    ensures Xor(x, y, n) == XorBelow(x, y, k)
  {
    if k == 0 {
      XorZero(x, n);
    } else {
      XorIsBelow(x / 2, y / 2, k - 1, n - 1);
    }
  }

  lemma MixIs(h: nat, b: Byte, x: nat, q: nat, r: nat)
    requires h < WRAP && XorBelow(h, b, 8) == x && x * PRIME == WRAP * q + r && r < WRAP
    ensures Mix(h, b) == r
  {
    ModUnique(x * PRIME, q, r, WRAP);
    WordSize();
    assert Pow2(8) == 256;
    XorIsBelow(h, b, 8, 64);
  }

  /** "::1", the loopback address as a client key. */
  const LOOPBACK: Str := [58, 58, 49]

  lemma LoopbackHash()
    ensures Hash(LOOPBACK) == 11892171635372837804
  {
    FirstByte();
    SecondByte();
    ThirdByte();
    HashOfThree(58, 58, 49);
  }

  lemma HashOfThree(a: Byte, b: Byte, c: Byte)
    ensures Hash([a, b, c]) == Mix(Mix(Mix(OFFSET, a), b), c)
  {
    HashGrows([], a);
    HashGrows([a], b);
    HashGrows([a, b], c);
    assert [] + [a] == [a] && [a] + [b] == [a, b] && [a, b] + [c] == [a, b, c];
  }

  lemma HashGrows(s: Str, b: Byte)
    ensures Hash(s + [b]) == Mix(Hash(s), b)
  {
    assert (s + [b])[..|s|] == s;
  }

  lemma FirstByte()
    ensures Mix(OFFSET, 58) == 12638146518625398189
  {
    FirstXor();
    MixIs(OFFSET, 58, 14695981039346656031, 875948729822, 12638146518625398189);
  }

  lemma FirstXor()
    ensures XorBelow(14695981039346656037, 58, 8) == 14695981039346656031
  {
    assert XorBelow(14695981039346656037, 58, 8) == 2 * XorBelow(7347990519673328018, 29, 7) + 1;
  }

  lemma SecondByte()
    ensures Mix(12638146518625398189, 58) == 584920427866486677
  {
    SecondXor();
    MixIs(12638146518625398189, 58, 12638146518625398167, 753292234160, 584920427866486677);
  }

  lemma SecondXor()
    ensures XorBelow(12638146518625398189, 58, 8) == 12638146518625398167
  {
    assert XorBelow(12638146518625398189, 58, 8) == 2 * XorBelow(6319073259312699094, 29, 7) + 1;
  }

  lemma ThirdByte()
    ensures Mix(584920427866486677, 49) == 11892171635372837804
  {
    ThirdXor();
    MixIs(584920427866486677, 49, 584920427866486692, 34863974338, 11892171635372837804);
  }

  lemma ThirdXor()
    ensures XorBelow(584920427866486677, 49, 8) == 584920427866486692
  {
    assert XorBelow(584920427866486677, 49, 8) == 2 * XorBelow(292460213933243338, 24, 7);
  }
}
