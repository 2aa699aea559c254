/**
  backend/internal/auth/frost.go: `expandMessageXMD`, against expand_message_xmd of section 5.3.1 of RFC 9380.
  The hash is any function to 32-byte strings.
 */
module ExpandMessage {
  import opened Outcomes
  import opened Bytes

  type Hash = seq<byte> -> seq<byte>

  ghost predicate Is32(h: Hash) {
    forall x :: |h(x)| == 32
  }

  /* ---------- the RFC's definition ---------- */

  /** I2OSP: it has no value for a number that does not fit. */
  function I2OSP(n: nat, width: nat): (s: seq<byte>)
    requires n < Pow256(width)
    ensures |s| == width
  {
    ToBE(n, width)
  }

  /** The low `width` bits of a ^ b. */
  function XorBits(a: nat, b: nat, width: nat): (r: nat)
    ensures r < Pow2(width)
  {
    if width == 0 then 0 else (a % 2 + b % 2) % 2 + 2 * XorBits(a / 2, b / 2, width - 1)
  }

  function Pow2(k: nat): (p: nat)
    ensures p > 0
  {
    if k == 0 then 1 else 2 * Pow2(k - 1)
  }

  function XorByte(a: byte, b: byte): byte {
    assert Pow2(8) == 256;
    XorBits(a, b, 8)
  }

  function StrXor(a: seq<byte>, b: seq<byte>): (r: seq<byte>)
    requires |a| == |b|
    ensures |r| == |a|
  {
    seq(|a|, i requires 0 <= i < |a| => XorByte(a[i], b[i]))
  }

  datatype Request = Request(hash: Hash, msg: seq<byte>, dst: seq<byte>, len: nat) {

    ghost predicate Valid() {
      Is32(hash) && |dst| <= 255 && len <= 255 * 32
    }

    function DstPrime(): seq<byte>
      requires |dst| <= 255
    {
      dst + I2OSP(|dst|, 1)
    }

    /** b_0, then b_1 … b_255. */
    ghost function Block(i: nat): (b: seq<byte>)
      requires Valid() && i <= 255
      ensures |b| == 32
    {
      Fits16(len);
      if i == 0 then hash(Zeros(64) + msg + I2OSP(len, 2) + I2OSP(0, 1) + DstPrime())
      else if i == 1 then hash(Block(0) + I2OSP(1, 1) + DstPrime())
      else hash(StrXor(Block(0), Block(i - 1)) + I2OSP(i, 1) + DstPrime())
    }

    /** b_1 || … || b_k. */
    ghost function Blocks(k: nat): (s: seq<byte>)
      requires Valid() && k <= 255
      ensures |s| == 32 * k
    {
      if k == 0 then [] else Blocks(k - 1) + Block(k)
    }

    /** The result: the first `len` bytes of the blocks. */
    ghost function Uniform(): (s: seq<byte>)
      requires Valid()
      ensures |s| == len
    {
      Blocks((len + 31) / 32)[..len]
    }

    lemma {:induction false} BlocksAt(k: nat, j: nat)
      requires Valid() && k <= 255 && j < 32 * k
      ensures Blocks(k)[j] == Block(j / 32 + 1)[j % 32]
      decreases k
    {
      if j < 32 * (k - 1) {
        BlocksAt(k - 1, j);
      }
    }

    /** Byte `j` of the output is byte `j % 32` of block `j / 32 + 1`. */
    lemma UniformAt(j: nat)
      requires Valid() && j < len
      ensures Uniform()[j] == Block(j / 32 + 1)[j % 32]
    {
      BlocksAt((len + 31) / 32, j);
    }
  }

  /** The first two blocks and each later one, in the bytes the code writes. */
  lemma FirstBlocks(q: Request, dstPrime: seq<byte>, lenBuf: seq<byte>)
    requires q.Valid() && dstPrime == q.dst + [|q.dst| % 256] && lenBuf == ToBE(q.len % 0x1_0000, 2)
    ensures q.Block(0) == q.hash(Zeros(64) + q.msg + lenBuf + [0] + dstPrime)
    ensures q.Block(1) == q.hash(q.Block(0) + [1] + dstPrime) == q.Blocks(1)
  {
    OneByte(0);
    OneByte(1);
    OneByte(|q.dst|);
    assert q.Blocks(0) == [];
    assert q.Blocks(1) == q.Blocks(0) + q.Block(1);
  }

  lemma NextBlock(q: Request, i: nat, dstPrime: seq<byte>, b0: seq<byte>, bi: seq<byte>)
    requires q.Valid() && 2 <= i <= 255 && dstPrime == q.dst + [|q.dst| % 256]
    requires b0 == q.Block(0) && bi == q.Block(i - 1)
    ensures q.Block(i) == q.hash(StrXor(b0, bi) + [i % 256] + dstPrime)
    ensures q.Blocks(i) == q.Blocks(i - 1) + q.Block(i)
  {
    OneByte(i);
    OneByte(|q.dst|);
  }

  /** At least one block is computed; for length 0 it is cut away again. */
  lemma Truncated(q: Request, ell: nat, out: seq<byte>)
    requires q.Valid() && ell == (q.len + 31) / 32
    requires out == q.Blocks(if ell == 0 then 1 else ell)
    ensures q.len <= |out| && out[..q.len] == q.Uniform()
  {
  }

  lemma OneByte(n: byte)
    ensures Pow256(1) == 256 && I2OSP(n, 1) == [n]
  {
  }

  lemma Fits16(n: nat)
    requires n <= 255 * 32
    ensures n < Pow256(2) && Pow256(1) == 256
  {
    assert Pow256(2) == 256 * Pow256(1);
  }

  /* ---------- exclusive or, bit by bit ---------- */

  /** Bit k of a number. */
  function Bit(n: nat, k: nat): nat {
    if k == 0 then n % 2 else Bit(n / 2, k - 1)
  }

  lemma {:induction false} XorBit(a: nat, b: nat, width: nat, k: nat)
    requires k < width
    ensures Bit(XorBits(a, b, width), k) == (Bit(a, k) + Bit(b, k)) % 2
  {
    var low, high := (a % 2 + b % 2) % 2, XorBits(a / 2, b / 2, width - 1);
    assert XorBits(a, b, width) == low + 2 * high;
    assert (low + 2 * high) % 2 == low && (low + 2 * high) / 2 == high;
    if k > 0 {
      XorBit(a / 2, b / 2, width - 1, k - 1);
    }
  }

  lemma {:induction false} BitsDetermine(m: nat, n: nat, width: nat)
    requires m < Pow2(width) && n < Pow2(width)
    requires forall k :: 0 <= k < width ==> Bit(m, k) == Bit(n, k)
    ensures m == n
  {
    if width > 0 {
      assert Bit(m, 0) == Bit(n, 0);
      forall k | 0 <= k < width - 1
        ensures Bit(m / 2, k) == Bit(n / 2, k)
      {
        assert Bit(m, k + 1) == Bit(n, k + 1);
      }
      BitsDetermine(m / 2, n / 2, width - 1);
    }
  }

  /** Every bit of the string is the sum, modulo 2, of the two strings' bits there. */
  ghost predicate IsXor(x: seq<byte>, a: seq<byte>, b: seq<byte>) {
    && |x| == |a| == |b|
    && forall j, k :: 0 <= j < |x| && 0 <= k < 8 ==> Bit(x[j], k) == (Bit(a[j], k) + Bit(b[j], k)) % 2
  }

  /** `StrXor` is the one string of which that is true. */
  lemma StrXorExactly(x: seq<byte>, a: seq<byte>, b: seq<byte>)
    requires |a| == |b|
    ensures x == StrXor(a, b) <==> IsXor(x, a, b)
  {
    var y := StrXor(a, b);
    hide XorBits, Bit, Pow2;
    assert Pow2(8) == 256 by { EightBits(); }
    forall j, k | 0 <= j < |a| && 0 <= k < 8
      ensures Bit(y[j], k) == (Bit(a[j], k) + Bit(b[j], k)) % 2
    {
      XorBit(a[j], b[j], 8, k);
    }
    if IsXor(x, a, b) {
      forall j | 0 <= j < |a|
        ensures x[j] == y[j]
      {
        assert forall k :: 0 <= k < 8 ==> Bit(x[j], k) == Bit(y[j], k);
        BitsDetermine(x[j], y[j], 8);
      }
    }
  }

  lemma EightBits()
    ensures Pow2(8) == 256
  {
  }

  /** Each block from the second on hashes the bitwise exclusive or of the first and the previous, then its number. */
  lemma BlockHashesXor(q: Request, i: nat, x: seq<byte>)
    requires q.Valid() && 2 <= i <= 255 && IsXor(x, q.Block(0), q.Block(i - 1))
    ensures q.Block(i) == q.hash(x + [i] + q.dst + [|q.dst|])
  {
    hide StrXor, IsXor;
    StrXorExactly(x, q.Block(0), q.Block(i - 1));
    NextBlock(q, i, q.dst + [|q.dst| % 256], q.Block(0), q.Block(i - 1));
    assert x + [i] + q.dst + [|q.dst|] == x + [i % 256] + (q.dst + [|q.dst| % 256]);
  }

  /* ---------- the loop ---------- */

  /** `xored[j] = b0[j] ^ bi[j]`. */
  method XorBlocks(b0: seq<byte>, bi: seq<byte>) returns (r: seq<byte>)
    requires |b0| == 32 && |bi| == 32
    ensures r == StrXor(b0, bi)
  {
    var xored: array<byte> := new byte[32](_ => 0);
    for j := 0 to 32
      invariant forall i :: 0 <= i < j ==> xored[i] == XorByte(b0[i], bi[i])
    {
      xored[j] := XorByte(b0[j], bi[j]);
    }
    r := xored[..];
  }

  /**
    `expandMessageXMD`. It refuses exactly the requests the RFC aborts on; otherwise it returns the RFC's bytes, and
    the block index it writes as one byte never wraps.
   */
  method ExpandMessageXMD(h: Hash, msg: seq<byte>, dst: seq<byte>, lenInBytes: nat) returns (r: Option<seq<byte>>)
    requires Is32(h)
    ensures r.Some? <==> |dst| <= 255 && lenInBytes <= 255 * 32
    ensures r.Some? ==> r.value == Request(h, msg, dst, lenInBytes).Uniform()
  {
    if |dst| > 255 {
      return None;
    }
    var ell := (lenInBytes + 31) / 32;
    if ell > 255 || lenInBytes > 65535 {
      return None;
    }
    ghost var q := Request(h, msg, dst, lenInBytes);
    assert q.Valid();
    hide Is32, StrXor, ToBE, Zeros, Request.Valid, Request.Block, Request.Blocks, Request.Uniform;
    var dstPrime := dst + [|dst| % 256];
    var lenBuf := ToBE(lenInBytes % 0x1_0000, 2);
    FirstBlocks(q, dstPrime, lenBuf);
    var b0 := h(Zeros(64) + msg + lenBuf + [0] + dstPrime);
    var bi := h(b0 + [1] + dstPrime);
    var out := bi;
    var i := 2;
    while i <= ell
      invariant 2 <= i && (i == 2 || i <= ell + 1)
      invariant bi == q.Block(i - 1) && out == q.Blocks(i - 1)
    {
      var xored := XorBlocks(b0, bi);
      NextBlock(q, i, dstPrime, b0, bi);
      bi := h(xored + [i % 256] + dstPrime);
      out := out + bi;
      i := i + 1;
    }
    Truncated(q, ell, out);
    return Some(out[..lenInBytes]);
  }
}
