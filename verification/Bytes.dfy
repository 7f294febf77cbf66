/** Byte strings, fixed-size arrays and big-endian integers. */
module Bytes {
  type byte = x: int | 0 <= x < 256

  type Bytes = seq<byte>

  type Bytes12 = b: Bytes | |b| == 12 witness seq(12, i => 0)
  type Bytes16 = b: Bytes | |b| == 16 witness seq(16, i => 0)
  type Bytes32 = b: Bytes | |b| == 32 witness seq(32, i => 0)
  type Bytes48 = b: Bytes | |b| == 48 witness seq(48, i => 0)
  type Bytes64 = b: Bytes | |b| == 64 witness seq(64, i => 0)

  function Zeros(n: nat): (b: Bytes)
    ensures |b| == n
  {
    seq(n, i => 0)
  }

  function Pow256(width: nat): (p: nat)
    ensures p > 0
  {
    if width == 0 then 1 else 256 * Pow256(width - 1)
  }

  /** The big-endian form of `n` in `width` bytes; higher bytes are dropped. */
  function BigEndian(n: nat, width: nat): (b: Bytes)
    ensures |b| == width
  {
    if width == 0 then [] else BigEndian(n / 256, width - 1) + [n % 256]
  }

  function FromBigEndian(b: Bytes): nat
  {
    if b == [] then 0 else 256 * FromBigEndian(b[..|b| - 1]) + b[|b| - 1]
  }

  function U32(n: nat): (b: Bytes)
    ensures |b| == 4
  {
    BigEndian(n, 4)
  }

  const U32_END: nat := 0x1_0000_0000
  const U64_END: nat := 0x1_0000_0000_0000_0000

  lemma WordSizes()
    ensures Pow256(1) == 256 && Pow256(2) == 65536 && Pow256(4) == U32_END && Pow256(8) == U64_END
  {
    assert Pow256(3) == 256 * 65536;
    assert Pow256(5) == 256 * Pow256(4);
    assert Pow256(6) == 256 * Pow256(5);
    assert Pow256(7) == 256 * Pow256(6);
  }

  lemma {:induction false} ReadsBack(n: nat, width: nat)
    requires n < Pow256(width)
    ensures FromBigEndian(BigEndian(n, width)) == n
  {
    if width > 0 {
      ReadsBack(n / 256, width - 1);
      assert BigEndian(n, width)[..width - 1] == BigEndian(n / 256, width - 1);
    }
  }

  lemma {:induction false} WritesBack(b: Bytes)
    ensures FromBigEndian(b) < Pow256(|b|)
    ensures BigEndian(FromBigEndian(b), |b|) == b
  {
    if b != [] {
      WritesBack(b[..|b| - 1]);
      assert b == b[..|b| - 1] + [b[|b| - 1]];
    }
  }

  lemma BigEndianInjective(a: Bytes, b: Bytes)
    requires |a| == |b| && FromBigEndian(a) == FromBigEndian(b)
    ensures a == b
  {
    WritesBack(a);
    WritesBack(b);
  }

  lemma U32Injective(m: nat, n: nat)
    requires m < U32_END && n < U32_END && U32(m) == U32(n)
    ensures m == n
  {
    WordSizes();
    ReadsBack(m, 4);
    ReadsBack(n, 4);
  }

  // ----- sequences -----

  lemma ConcatAssociative<T>(a: seq<T>, b: seq<T>, c: seq<T>)
    ensures (a + b) + c == a + (b + c)
  {
  }

  /** Two ways to cut a sequence at the same place are the same. */
  lemma SameCut<T>(a: seq<T>, b: seq<T>, x: seq<T>, y: seq<T>)
    requires |a| == |b| && a + x == b + y
    ensures a == b && x == y
  {
    assert a == (a + x)[..|a|] && b == (b + y)[..|b|];
    assert x == (a + x)[|a|..] && y == (b + y)[|b|..];
  }

  lemma NestedSlices<T>(s: seq<T>, p: nat, m: nat, n: nat)
    requires p + m + n <= |s|
    ensures s[p..][m..] == s[p + m..]
    ensures s[p..][m..m + n] == s[p + m..p + m + n] == s[p..][m..][..n]
    ensures s[p..][m..][n..] == s[p + m + n..]
  {
  }
}
