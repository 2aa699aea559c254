/** Byte strings, big-endian numbers and the "this text occurs here" relation. */
module Bytes {

  type byte = b: int | 0 <= b < 256

  function Zeros(n: nat): (s: seq<byte>)
    ensures |s| == n && forall i :: 0 <= i < n ==> s[i] == 0
  {
    seq(n, i => 0)
  }

  /* ---------- big-endian numbers ---------- */

  function Pow256(k: nat): (p: nat)
    ensures p > 0
  {
    if k == 0 then 1 else 256 * Pow256(k - 1)
  }

  /** The number a byte string denotes, most significant byte first. */
  function FromBE(s: seq<byte>): nat {
    if s == [] then 0 else FromBE(s[..|s| - 1]) * 256 + s[|s| - 1]
  }

  /** `n` written in exactly `width` bytes; the high digits are lost when it does not fit. */
  function ToBE(n: nat, width: nat): (s: seq<byte>)
    ensures |s| == width
  {
    if width == 0 then [] else ToBE(n / 256, width - 1) + [n % 256]
  }

  lemma {:induction false} ToBEInverse(n: nat, width: nat)
    requires n < Pow256(width)
    ensures FromBE(ToBE(n, width)) == n
  {
    if width > 0 {
      ToBEInverse(n / 256, width - 1);
      assert ToBE(n, width)[..width - 1] == ToBE(n / 256, width - 1);
    }
  }

  lemma {:induction false} FromBEInverse(s: seq<byte>)
    ensures FromBE(s) < Pow256(|s|)
    ensures ToBE(FromBE(s), |s|) == s
  {
    if s != [] {
      var init := s[..|s| - 1];
      FromBEInverse(init);
      assert FromBE(s) / 256 == FromBE(init) && FromBE(s) % 256 == s[|s| - 1];
      assert s == init + [s[|s| - 1]];
    }
  }

  /** Only zeros denote zero. */
  lemma {:induction false} FromBEZero(s: seq<byte>)
    ensures FromBE(s) == 0 <==> s == Zeros(|s|)
  {
    if s != [] {
      FromBEZero(s[..|s| - 1]);
      assert s == s[..|s| - 1] + [s[|s| - 1]];
      assert Zeros(|s|) == Zeros(|s| - 1) + [0];
    }
  }

  lemma {:induction false} Pow256Monotone(j: nat, k: nat)
    requires j <= k
    ensures Pow256(j) <= Pow256(k)
  {
    if j < k {
      Pow256Monotone(j, k - 1);
    }
  }

  /** Eight bytes hold every number below 2^64, and so does any longer width. */
  lemma Fits64(n: nat, width: nat)
    requires n < 0x1_0000_0000_0000_0000 && 8 <= width
    ensures n < Pow256(width)
  {
    assert Pow256(2) == 0x1_0000;
    assert Pow256(4) == 0x1_0000_0000;
    assert Pow256(6) == 0x1_0000_0000_0000;
    assert Pow256(8) == 0x1_0000_0000_0000_0000;
    Pow256Monotone(8, width);
  }

  /* ---------- occurrence at a position ---------- */

  /** `s` occurs in `data` at position `p`. */
  ghost predicate At(data: seq<byte>, p: nat, s: seq<byte>) {
    p + |s| <= |data| && data[p..p + |s|] == s
  }

  lemma AtSplit(data: seq<byte>, p: nat, a: seq<byte>, b: seq<byte>)
    requires At(data, p, a + b)
    ensures At(data, p, a) && At(data, p + |a|, b)
  {
    assert data[p..p + |a|] == (a + b)[..|a|];
    assert data[p + |a|..p + |a| + |b|] == (a + b)[|a|..];
  }

  /** The same, when the second part's position is known by another name. */
  lemma AtSplitAs(data: seq<byte>, p: nat, a: seq<byte>, b: seq<byte>, q: nat)
    requires At(data, p, a + b) && q == p + |a|
    ensures At(data, p, a) && At(data, q, b)
  {
    AtSplit(data, p, a, b);
  }
}
