/**
  The assumptions of `Frost` hold together, and its theorems are not about nothing: in the integers modulo 5, with a
  hash that depends on the message, two signatures that share a nonce are accepted under different challenges.
 */
module FrostWitness {
  import opened Outcomes
  import opened Bytes
  import opened ExpandMessage
  import opened Frost

  /* ---------- the integers modulo 5 ---------- */

  type Residue = n: int | 0 <= n < 5

  function Encode(p: Residue): seq<byte> {
    [2] + Zeros(31) + [p]
  }

  function Parse(b: seq<byte>): Option<Residue> {
    if |b| == 33 && 0 < b[32] < 5 && b == Encode(b[32]) then Some(b[32]) else None
  }

  function Plus(p: Residue, q: Residue): Residue {
    if p + q < 5 then p + q else p + q - 5
  }

  function Modulo5(): Curve<Residue> {
    Curve(5, 1, 0, Plus, Encode, Parse)
  }

  lemma FiveIsPrime()
    ensures Prime(5)
  {
    forall a: nat, b: nat | Product(a, b) == 5
      ensures a == 1 || b == 1
    {
      Factors(a, b);
    }
  }

  lemma Factors(a: nat, b: nat)
    requires a * b == 5
    ensures a == 1 || b == 1
  {
    if a >= 6 {
      MulGrows(a, b);
    } else {
      assert a == 0 || a == 1 || a == 2 || a == 3 || a == 4 || a == 5;
    }
  }

  lemma FiveTimes(p: Residue)
    ensures Times(Modulo5(), 5, p) == 0
  {
    var c := Modulo5();
    assert Times(c, 0, p) == 0;
    assert Times(c, 1, p) == p;
    assert Times(c, 2, p) == Plus(p, p);
    assert Times(c, 3, p) == Plus(p, Plus(p, p));
    assert Times(c, 4, p) == Plus(p, Plus(p, Plus(p, p)));
  }

  lemma Modulo5IsGroup()
    ensures ValidGroup(Modulo5())
  {
    hide Times;
    var c := Modulo5();
    assert forall p: Residue :: c.add(p, 0) == p;
    assert forall p: Residue, q: Residue :: c.add(p, q) == c.add(q, p);
    assert forall p: Residue, q: Residue, r: Residue :: c.add(c.add(p, q), r) == c.add(p, c.add(q, r));
    forall p: Residue
      ensures Times(c, 5, p) == 0
    {
      FiveTimes(p);
    }
  }

  lemma Modulo5IsEncoded()
    ensures ValidEncoding(Modulo5())
  {
  }

  lemma {:induction false} LawsAreConsistent()
    ensures Valid(Modulo5())
  {
    hide ValidGroup, ValidEncoding, Prime, Pow256;
    FiveIsPrime();
    Fits64(5, 32);
    Modulo5IsGroup();
    Modulo5IsEncoded();
  }

  /* ---------- a hash whose challenges depend on the message ---------- */

  function Tag(x: seq<byte>): byte {
    if 32 <= |x| < 128 then x[31] else if |x| % 2 == 0 then 1 else 2
  }

  function Tagged(x: seq<byte>): seq<byte> {
    Zeros(31) + [Tag(x)]
  }

  lemma TaggedIsHash()
    ensures Is32(Tagged)
  {
  }

  lemma {:induction false} ZerosAreZero(k: nat)
    ensures FromBE(Zeros(k)) == 0
  {
    if k > 0 {
      assert Zeros(k)[..k - 1] == Zeros(k - 1);
      ZerosAreZero(k - 1);
    }
  }

  /** 256 is 1 modulo 5, so zero bytes at the end do not change a residue. */
  lemma {:induction false} TrailingZeros(s: seq<byte>, k: nat)
    ensures FromBE(s + Zeros(k)) % 5 == FromBE(s) % 5
  {
    if k == 0 {
      assert s + Zeros(0) == s;
    } else {
      var t := s + Zeros(k);
      assert t[..|t| - 1] == s + Zeros(k - 1);
      TrailingZeros(s, k - 1);
    }
  }

  lemma TaggedUniform(q: Request)
    requires q.hash == Tagged && q.Valid() && q.dst == CHALLENGE_DST && q.len == 48 && |q.msg| >= 66
    ensures q.Uniform() == Zeros(31) + [if |q.msg| % 2 == 0 then 2 else 1] + Zeros(16)
  {
    hide Request.Block, Request.Blocks, Zeros, ToBE;
    var dstPrime := q.dst + [|q.dst| % 256];
    FirstBlocks(q, dstPrime, ToBE(48, 2));
    NextBlock(q, 2, dstPrime, q.Block(0), q.Block(1));
    assert |dstPrime| == 30;
    var v := q.Block(0)[31];
    assert v == if |q.msg| % 2 == 0 then 2 else 1;
    assert q.Block(1) == Zeros(31) + [v];
    var u := q.Uniform();
    assert u == q.Blocks(2)[..48] && q.Blocks(2) == q.Block(1) + q.Block(2);
    assert q.Block(2)[..16] == Zeros(16);
    assert u == q.Block(1) + q.Block(2)[..16];
  }

  lemma TaggedChallenge(r: seq<byte>, y: seq<byte>, msg: seq<byte>)
    requires |r| == 33 && |y| == 33
    ensures Is32(Tagged) && Challenge(Tagged, 5, r, y, msg) == if |msg| % 2 == 0 then 2 else 1
  {
    hide FromBE, Request.Uniform;
    TaggedIsHash();
    var q := Request(Tagged, r + y + msg, CHALLENGE_DST, 48);
    assert |CHALLENGE_DST| == 29;
    TaggedUniform(q);
    var head := Zeros(31) + [if |q.msg| % 2 == 0 then 2 else 1];
    TrailingZeros(head, 16);
    LastByte(head);
  }

  lemma LastByte(s: seq<byte>)
    requires |s| == 32 && s[..31] == Zeros(31)
    ensures FromBE(s) == s[31]
  {
    ZerosAreZero(31);
  }

  /* ---------- a reused nonce ---------- */

  /**
    With secret and nonce 1, the messages [] and [0] get the challenges 2 and 1 and the responses 3 and 2. Both
    signatures are accepted, they share the nonce point, and the secret is what `Extract` finds.
   */
  lemma {:induction false} ReusedNonceExists()
    ensures Valid(Modulo5()) && Is32(Tagged)
    ensures var c := Modulo5();
            var r := c.encode(1);
            && Compressed(r)
            && var sig, sig' := Signature(r, 3), Signature(r, 2);
               && sig[64] <= 1 && sig'[64] <= 1 && PointBytes(sig) == PointBytes(sig')
               && Accepts(c, Tagged, [], sig, r) && Accepts(c, Tagged, [0], sig', r)
               && Challenge(Tagged, 5, PointBytes(sig), r, []) == 2
               && Challenge(Tagged, 5, PointBytes(sig), r, [0]) == 1
               && Extract(5, FromBE(sig[32..64]), FromBE(sig'[32..64]), 2, 1) == 1
  {
    hide Valid, Prime, Challenge, Accepts, Signature, PointBytes, Extract, FromBE, Pow256, Encode;
    LawsAreConsistent();
    TaggedIsHash();
    var c := Modulo5();
    assert Times(c, 1, 1) == 1 by { TimesOne(c, 1); }
    hide Times;
    EncodedPoint(c, 1);
    var r := c.encode(1);
    var sig, sig' := Signature(r, 3), Signature(r, 2);
    TaggedChallenge(r, r, []);
    TaggedChallenge(r, r, [0]);
    SignedIsAccepted(c, Tagged, [], 1, 1);
    SignedIsAccepted(c, Tagged, [0], 1, 1);
    Fits64(3, 32);
    Fits64(2, 32);
    SignatureParts(r, 3);
    SignatureParts(r, 2);
    NonceReuseDeterminesKey(c, Tagged, [], [0], sig, sig', r, 1);
  }
}
