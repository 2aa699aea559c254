/**
  backend/internal/auth/frost.go: `VerifyFROST`, the Schnorr check of the FROST(secp256k1, SHA-256) ciphersuite
  (section 6.5 of RFC 9591), over any group of prime order with an injective point encoding.
 */
module Frost {
  import opened Outcomes
  import opened Bytes
  import opened ExpandMessage

  /* ---------- the group ---------- */

  function Product(a: nat, b: nat): nat {
    a * b
  }

  ghost predicate Prime(n: nat) {
    n > 1 && forall a: nat, b: nat :: Product(a, b) == n ==> a == 1 || b == 1
  }

  datatype Curve<!P> = Curve(
    order: nat, generator: P, infinity: P, add: (P, P) -> P, encode: P -> seq<byte>, parse: seq<byte> -> Option<P>)

  ghost predicate Valid<P(!new)>(c: Curve<P>) {
    Prime(c.order) && c.order < Pow256(32) && ValidGroup(c) && ValidEncoding(c)
  }

  ghost predicate ValidGroup<P(!new)>(c: Curve<P>) {
    && (forall p :: c.add(p, c.infinity) == p)
    && (forall p, q :: c.add(p, q) == c.add(q, p))
    && (forall p, q, r :: c.add(c.add(p, q), r) == c.add(p, c.add(q, r)))
    && (forall p :: Times(c, c.order, p) == c.infinity)
    && c.generator != c.infinity
  }

  ghost predicate ValidEncoding<P(!new)>(c: Curve<P>) {
    && (forall p :: p != c.infinity ==> Compressed(c.encode(p)) && c.parse(c.encode(p)) == Some(p))
    && (forall b, p :: c.parse(b) == Some(p) && |b| == 33 ==> c.encode(p) == b && p != c.infinity)
  }

  /** A parity prefix and 32 bytes of x-coordinate. */
  predicate Compressed(b: seq<byte>) {
    |b| == 33 && (b[0] == 2 || b[0] == 3)
  }

  /** Scalar multiplication, as repeated addition. */
  function Times<P(!new)>(c: Curve<P>, k: nat, p: P): P {
    if k == 0 then c.infinity else c.add(p, Times(c, k - 1, p))
  }

  /* The laws one instance at a time: together, as quantifiers, they would rewrite sums forever. */

  lemma AddInfinity<P(!new)>(c: Curve<P>, p: P)
    requires Valid(c)
    ensures c.add(p, c.infinity) == p && c.add(c.infinity, p) == p
  {
    assert c.add(c.infinity, p) == c.add(p, c.infinity);
  }

  lemma Associative<P(!new)>(c: Curve<P>, p: P, q: P, r: P)
    requires Valid(c)
    ensures c.add(c.add(p, q), r) == c.add(p, c.add(q, r))
  {
  }

  /** Two summands may trade places. */
  lemma Swap<P(!new)>(c: Curve<P>, p: P, q: P, r: P)
    requires Valid(c)
    ensures c.add(c.add(p, q), r) == c.add(c.add(p, r), q)
  {
    var qr, rq := c.add(q, r), c.add(r, q);
    assert qr == rq;
    assert c.add(c.add(p, q), r) == c.add(p, qr);
    assert c.add(c.add(p, r), q) == c.add(p, rq);
  }

  lemma OrderVanishes<P(!new)>(c: Curve<P>, p: P)
    requires Valid(c)
    ensures Times(c, c.order, p) == c.infinity
  {
  }

  lemma OrderFits<P(!new)>(c: Curve<P>)
    requires Valid(c)
    ensures Prime(c.order) && 1 < c.order < Pow256(32) && c.generator != c.infinity
  {
  }

  lemma TimesOne<P(!new)>(c: Curve<P>, p: P)
    requires Valid(c)
    ensures Times(c, 1, p) == p
  {
    AddInfinity(c, p);
    assert Times(c, 0, p) == c.infinity;
  }

  lemma {:induction false} TimesSum<P(!new)>(c: Curve<P>, j: nat, k: nat, p: P)
    requires Valid(c)
    ensures Times(c, j + k, p) == c.add(Times(c, j, p), Times(c, k, p))
    decreases j
  {
    hide Valid;
    if j > 0 {
      TimesSum(c, j - 1, k, p);
      Associative(c, p, Times(c, j - 1, p), Times(c, k, p));
    } else {
      AddInfinity(c, Times(c, k, p));
    }
  }

  lemma {:induction false} TimesProduct<P(!new)>(c: Curve<P>, j: nat, k: nat, p: P)
    requires Valid(c)
    ensures Times(c, Product(j, k), p) == Times(c, j, Times(c, k, p))
    decreases j
  {
    hide Valid;
    if j > 0 {
      TimesProduct(c, j - 1, k, p);
      assert Product(j, k) == k + Product(j - 1, k);
      TimesSum(c, k, Product(j - 1, k), p);
    }
  }

  lemma {:induction false} TimesInfinity<P(!new)>(c: Curve<P>, k: nat)
    requires Valid(c)
    ensures Times(c, k, c.infinity) == c.infinity
  {
    hide Valid;
    if k > 0 {
      TimesInfinity(c, k - 1);
      AddInfinity(c, c.infinity);
    }
  }

  /** Multiples of the order vanish, so scalars count modulo the order. */
  lemma TimesModulo<P(!new)>(c: Curve<P>, k: nat, m: nat, p: P)
    requires Valid(c)
    ensures Times(c, k + Product(m, c.order), p) == Times(c, k, p)
  {
    hide Valid, Product;
    TimesSum(c, k, Product(m, c.order), p);
    TimesProduct(c, m, c.order, p);
    OrderVanishes(c, p);
    TimesInfinity(c, m);
    AddInfinity(c, Times(c, k, p));
  }

  lemma TimesReduced<P(!new)>(c: Curve<P>, k: nat, p: P)
    requires Valid(c) && c.order > 0
    ensures Times(c, k % c.order, p) == Times(c, k, p)
  {
    hide Valid;
    TimesModulo(c, k % c.order, k / c.order, p);
    assert k == k % c.order + Product(k / c.order, c.order);
  }

  /* ---------- inverses modulo a prime ---------- */

  /** Extended Euclid: (g, s, t) with a * s + b * t == g. */
  function ExtendedGcd(a: nat, b: nat): (nat, int, int)
    decreases b
  {
    if b == 0 then (a, 1, 0)
    else
      var (g, s, t) := ExtendedGcd(b, a % b);
      (g, t, s - a / b * t)
  }

  lemma {:induction false} ExtendedGcdDivides(a: nat, b: nat) returns (j: nat, k: nat)
    ensures var (g, s, t) := ExtendedGcd(a, b);
            a * s + b * t == g && a == g * j && b == g * k
    decreases b
  {
    if b == 0 {
      j, k := 1, 0;
    } else {
      var r, q := a % b, a / b;
      var j', k' := ExtendedGcdDivides(b, r);
      var (g, s, t) := ExtendedGcd(b, r);
      Division(a, b);
      GcdStep(a, b, q, r, g, s, t, j', k');
      assert ExtendedGcd(a, b) == (g, t, s - q * t);
      j, k := q * j' + k', j';
    }
  }

  lemma Division(a: nat, b: nat)
    requires b > 0
    ensures a == a / b * b + a % b
  {
  }

  lemma GcdStep(a: nat, b: nat, q: nat, r: nat, g: nat, s: int, t: int, j: nat, k: nat)
    requires a == q * b + r && b * s + r * t == g && b == g * j && r == g * k
    ensures a * t + b * (s - q * t) == g
    ensures a == g * (q * j + k)
  {
    calc {
      a * t + b * (s - q * t);
      (q * b + r) * t + b * s - b * (q * t);
      q * b * t + r * t + b * s - b * q * t;
      b * s + r * t;
    }
    calc {
      g * (q * j + k);
      q * (g * j) + g * k;
      q * b + r;
    }
  }

  function Inverse(a: nat, n: nat): nat
    requires n > 0
  {
    ExtendedGcd(a, n).1 % n
  }

  /** In a prime modulus every nonzero residue has an inverse. */
  lemma {:induction false} InverseWorks(a: nat, n: nat) returns (m: nat)
    requires Prime(n) && 0 < a < n
    ensures Product(a, Inverse(a, n)) == 1 + Product(m, n)
  {
    var j, k := ExtendedGcdDivides(a, n);
    var (g, s, t) := ExtendedGcd(a, n);
    assert Product(g, k) == n;
    if g != 1 {
      assert k == 1;
      assert j == 0 || g * j >= g by { MulGrows(g, j); }
      assert false;
    }
    var q := s / n;
    assert s == q * n + s % n;
    var i := Inverse(a, n);
    var m' := -t - a * q;
    calc {
      a * i;
      a * (s - q * n);
      a * s - a * q * n;
      1 - n * t - a * q * n;
      1 + m' * n;
    }
    BelowMultiple(n, m', a * i);
    m := m';
  }

  lemma BelowMultiple(n: nat, m: int, x: nat)
    requires x == 1 + m * n && n > 1
    ensures m >= 0
  {
    if m < 0 {
      MulGrows(n, -m);
    }
  }

  lemma MulGrows(a: nat, b: int)
    ensures b >= 1 ==> a * b >= a
  {
    if b >= 1 {
      assert a * b == a + a * (b - 1);
    }
  }

  /** Below the order, no nonzero multiple of a finite point vanishes. */
  lemma OrderExact<P(!new)>(c: Curve<P>, k: nat, p: P)
    requires Valid(c) && 0 < k < c.order && p != c.infinity
    ensures Times(c, k, p) != c.infinity
  {
    hide Valid, Product, Inverse, Prime;
    OrderFits(c);
    var m := InverseWorks(k, c.order);
    var i := Inverse(k, c.order);
    TimesProduct(c, i, k, p);
    ProductCommutes(i, k);
    TimesModulo(c, 1, m, p);
    TimesInfinity(c, i);
    TimesOne(c, p);
  }

  lemma ProductCommutes(a: nat, b: nat)
    ensures Product(a, b) == Product(b, a)
  {
  }

  /** So a scalar below the order is determined by its multiple of any finite point. */
  lemma {:induction false} ScalarUnique<P(!new)>(c: Curve<P>, j: nat, k: nat, p: P)
    requires Valid(c) && j <= k < c.order && p != c.infinity
    requires Times(c, j, p) == Times(c, k, p)
    ensures j == k
  {
    hide Valid, Times;
    if j < k {
      var d, rest := k - j, c.order - j;
      TimesSum(c, d, j, p);
      TimesSum(c, j, rest, p);
      OrderVanishes(c, p);
      var dp, jp, rp := Times(c, d, p), Times(c, j, p), Times(c, rest, p);
      calc {
        dp;
        { AddInfinity(c, dp); }
        c.add(dp, c.add(jp, rp));
        { Associative(c, dp, jp, rp); }
        c.add(c.add(dp, jp), rp);
        c.add(jp, rp);
        c.infinity;
      }
      OrderExact(c, d, p);
    }
  }

  /* ---------- the verifier ---------- */

  function Ascii(s: string): seq<byte> {
    seq(|s|, i requires 0 <= i < |s| => if s[i] < '\U{100}' then s[i] as int else 0)
  }

  const CHALLENGE_DST: seq<byte> := Ascii("FROST-secp256k1-SHA256-v1chal")

  /** H2: 48 uniform bytes, reduced modulo the order at full width. */
  ghost function Challenge(h: Hash, order: nat, r: seq<byte>, y: seq<byte>, msg: seq<byte>): (c: nat)
    requires Is32(h) && order > 0
    ensures c < order
  {
    FromBE(Request(h, r + y + msg, CHALLENGE_DST, 48).Uniform()) % order
  }

  /** The ciphersuite's tag, byte for byte. */
  lemma ChallengeTag()
    ensures CHALLENGE_DST ==
            [70, 82, 79, 83, 84, 45, 115, 101, 99, 112, 50, 53, 54, 107, 49, 45] +
            [83, 72, 65, 50, 53, 54, 45, 118, 49, 99, 104, 97, 108]
  {
    assert Ascii("FROST-secp256k1-") == [70, 82, 79, 83, 84, 45, 115, 101, 99, 112, 50, 53, 54, 107, 49, 45];
    assert Ascii("SHA256-v1chal") == [83, 72, 65, 50, 53, 54, 45, 118, 49, 99, 104, 97, 108];
    assert "FROST-secp256k1-SHA256-v1chal" == "FROST-secp256k1-" + "SHA256-v1chal";
  }

  /** What is hashed is R, then the key, then the message; the result is one block of 32 bytes and half of the next. */
  lemma ChallengeExactly(h: Hash, order: nat, r: seq<byte>, y: seq<byte>, msg: seq<byte>)
    requires Is32(h) && order > 0
    ensures var q := Request(h, r + (y + msg), CHALLENGE_DST, 48);
            && q.Valid()
            && Challenge(h, order, r, y, msg) == FromBE(q.Block(1) + q.Block(2)[..16]) % order
  {
    hide FromBE, Request.Block;
    assert r + (y + msg) == r + y + msg;
    var q := Request(h, r + (y + msg), CHALLENGE_DST, 48);
    assert q.Blocks(0) == [] && q.Blocks(1) == q.Blocks(0) + q.Block(1);
    assert q.Blocks(2)[..48] == q.Block(1) + q.Block(2)[..16];
  }

  function PointBytes(sig: seq<byte>): seq<byte>
    requires |sig| == 65 && sig[64] <= 1
  {
    [2 + sig[64]] + sig[..32]
  }

  ghost predicate Accepts<P(!new)>(c: Curve<P>, h: Hash, msg: seq<byte>, sig: seq<byte>, key: seq<byte>)
    requires Is32(h) && Valid(c)
  {
    && |sig| == 65 && |key| == 33 && sig[64] <= 1
    && 0 < FromBE(sig[32..64]) < c.order
    && c.parse(PointBytes(sig)).Some? && c.parse(key).Some?
    && var e := Challenge(h, c.order, PointBytes(sig), key, msg);
       var r, y := c.parse(PointBytes(sig)).value, c.parse(key).value;
       e != 0 && Times(c, FromBE(sig[32..64]), c.generator) == c.add(r, Times(c, e, y))
  }

  datatype VerifyError = InvalidSignature | ExpandFailed

  /**
    `VerifyFROST`. Every refusal is the opaque ErrInvalidSignature: the expansion cannot fail, and the reduced
    challenge always fits the 32 bytes it is copied through.
   */
  method VerifyFROST<P(!new, ==)>(
    c: Curve<P>, h: Hash, message: seq<byte>, signature: seq<byte>, groupPublicKey: seq<byte>)
    returns (r: Result<(), VerifyError>)
    requires Is32(h) && Valid(c)
    ensures r.Success? <==> Accepts(c, h, message, signature, groupPublicKey)
    ensures r.Failure? ==> r.error == InvalidSignature
    ensures r.Success? ==>
              && |signature| == 65 && |groupPublicKey| == 33 && signature[64] in {0, 1}
              && 0 < FromBE(signature[32..64]) < c.order
  {
    hide Valid, Times, Request.Uniform, Prime, FromBE, ToBE, Pow256;
    if |signature| != 65 || |groupPublicKey| != 33 {
      return Failure(InvalidSignature);
    }
    var prefix: byte;
    if signature[64] == 0 {
      prefix := 0x02;
    } else if signature[64] == 1 {
      prefix := 0x03;
    } else {
      return Failure(InvalidSignature);
    }
    var rCompressed := [prefix] + signature[..32];
    assert rCompressed == PointBytes(signature);

    var z := FromBE(signature[32..64]);
    var overflow := z >= c.order;
    if overflow || z == 0 {
      return Failure(InvalidSignature);
    }
    var rPub := c.parse(rCompressed);
    if rPub.None? {
      return Failure(InvalidSignature);
    }
    var yPub := c.parse(groupPublicKey);
    if yPub.None? {
      return Failure(InvalidSignature);
    }
    var input := rCompressed + groupPublicKey;
    input := input + message;
    var uniform := ExpandMessageXMD(h, input, CHALLENGE_DST, 48);
    if uniform.None? {
      return Failure(ExpandFailed);
    }
    OrderFits(c);
    var cInt := FromBE(uniform.value) % c.order;
    var cBytes := ToBE(cInt, 32);
    ToBEInverse(cInt, 32);
    var e := FromBE(cBytes);
    assert e == Challenge(h, c.order, rCompressed, groupPublicKey, message) < c.order;
    hide Challenge;
    if e >= c.order || e == 0 {
      return Failure(InvalidSignature);
    }
    var lhs := Times(c, z, c.generator);
    var rhs := c.add(rPub.value, Times(c, e, yPub.value));
    if lhs != rhs {
      return Failure(InvalidSignature);
    }
    return Success(());
  }

  /* ---------- signatures ---------- */

  /** R.x || z || parity of R.y. */
  function Signature(r: seq<byte>, z: nat): (sig: seq<byte>)
    requires Compressed(r)
    ensures |sig| == 65
  {
    r[1..] + ToBE(z, 32) + [r[0] - 2]
  }

  lemma SignatureParts(r: seq<byte>, z: nat)
    requires Compressed(r) && z < Pow256(32)
    ensures var sig := Signature(r, z);
            sig[64] <= 1 && PointBytes(sig) == r && FromBE(sig[32..64]) == z
  {
    hide ToBE, FromBE, Pow256;
    var sig := Signature(r, z);
    assert sig[..32] == r[1..] && sig[32..64] == ToBE(z, 32);
    ToBEInverse(z, 32);
  }

  /**
    Completeness, exactly: with secret x, nonce k and z = k + e*x, the signature is accepted unless the challenge e
    or the response z happens to be zero.
   */
  lemma {:induction false} SignedIsAccepted<P(!new)>(c: Curve<P>, h: Hash, msg: seq<byte>, x: nat, k: nat)
    requires Is32(h) && Valid(c) && 0 < x < c.order && 0 < k < c.order
    ensures var r, y := c.encode(Times(c, k, c.generator)), c.encode(Times(c, x, c.generator));
            && Compressed(r)
            && var e := Challenge(h, c.order, r, y, msg);
               var z := (k + Product(e, x)) % c.order;
               Accepts(c, h, msg, Signature(r, z), y) <==> e != 0 && z != 0
  {
    hide Valid, Prime, Times, Challenge, Product, Signature, PointBytes, Accepts;
    OrderFits(c);
    var rp, yp := Times(c, k, c.generator), Times(c, x, c.generator);
    OrderExact(c, k, c.generator);
    OrderExact(c, x, c.generator);
    EncodedPoint(c, rp);
    EncodedPoint(c, yp);
    hide Compressed;
    var r, y := c.encode(rp), c.encode(yp);
    var e := Challenge(h, c.order, r, y, msg);
    SchnorrEquation(c, e, x, k);
    AcceptsSignature(c, h, msg, r, (k + Product(e, x)) % c.order, y);
  }

  /** zG = kG + e(xG) for z = k + e*x, reduced. */
  lemma SchnorrEquation<P(!new)>(c: Curve<P>, e: nat, x: nat, k: nat)
    requires Valid(c)
    ensures Times(c, (k + Product(e, x)) % c.order, c.generator) ==
            c.add(Times(c, k, c.generator), Times(c, e, Times(c, x, c.generator)))
  {
    hide Valid, Prime, Times, Product;
    OrderFits(c);
    TimesReduced(c, k + Product(e, x), c.generator);
    TimesSum(c, k, Product(e, x), c.generator);
    TimesProduct(c, e, x, c.generator);
  }

  lemma AcceptsSignature<P(!new)>(c: Curve<P>, h: Hash, msg: seq<byte>, r: seq<byte>, z: nat, y: seq<byte>)
    requires Is32(h) && Valid(c) && Compressed(r) && |y| == 33 && c.parse(r).Some? && c.parse(y).Some?
    requires z < c.order
    ensures var e := Challenge(h, c.order, r, y, msg);
            Accepts(c, h, msg, Signature(r, z), y) <==>
            z > 0 && e != 0 && Times(c, z, c.generator) == c.add(c.parse(r).value, Times(c, e, c.parse(y).value))
  {
    hide Valid, Prime, Times, Challenge, Signature, PointBytes;
    OrderFits(c);
    SignatureParts(r, z);
  }

  lemma EncodedPoint<P(!new)>(c: Curve<P>, p: P)
    requires Valid(c) && p != c.infinity
    ensures Compressed(c.encode(p)) && c.parse(c.encode(p)) == Some(p)
  {
  }

  /** For one nonce point, message and key, at most one response is accepted. */
  lemma {:induction false} ResponseUnique<P(!new)>(
    c: Curve<P>, h: Hash, msg: seq<byte>, sig: seq<byte>, sig': seq<byte>, key: seq<byte>)
    requires Is32(h) && Valid(c) && Accepts(c, h, msg, sig, key) && Accepts(c, h, msg, sig', key)
    requires sig[..32] == sig'[..32] && sig[64] == sig'[64]
    ensures sig == sig'
  {
    hide Valid, Times, Challenge, FromBE, Prime;
    var z, z' := FromBE(sig[32..64]), FromBE(sig'[32..64]);
    assert PointBytes(sig) == PointBytes(sig');
    OrderFits(c);
    if z <= z' {
      ScalarUnique(c, z, z', c.generator);
    } else {
      ScalarUnique(c, z', z, c.generator);
    }
    SamePieces(sig, sig');
  }

  lemma SamePieces(sig: seq<byte>, sig': seq<byte>)
    requires |sig| == 65 && |sig'| == 65 && sig[..32] == sig'[..32] && sig[64] == sig'[64]
    requires FromBE(sig[32..64]) == FromBE(sig'[32..64])
    ensures sig == sig'
  {
    hide FromBE, ToBE;
    FromBEInverse(sig[32..64]);
    FromBEInverse(sig'[32..64]);
    assert sig == sig[..32] + sig[32..64] + [sig[64]];
    assert sig' == sig'[..32] + sig'[32..64] + [sig'[64]];
  }

  /** The secret two responses to one nonce reveal: (z - z') / (e - e'). */
  function Extract(order: nat, z: nat, z': nat, e: nat, e': nat): nat
    requires order > 0 && z' <= order && e' <= order
  {
    Product(Inverse((e + (order - e')) % order, order), z + (order - z')) % order
  }

  /** Two accepted signatures that share the nonce point under different challenges determine the secret key. */
  lemma {:induction false} NonceReuseDeterminesKey<P(!new)>(
    c: Curve<P>, h: Hash, msg: seq<byte>, msg': seq<byte>, sig: seq<byte>, sig': seq<byte>, key: seq<byte>, x: nat)
    requires Is32(h) && Valid(c) && Accepts(c, h, msg, sig, key) && Accepts(c, h, msg', sig', key)
    requires PointBytes(sig) == PointBytes(sig')
    requires Challenge(h, c.order, PointBytes(sig), key, msg) != Challenge(h, c.order, PointBytes(sig), key, msg')
    ensures var e := Challenge(h, c.order, PointBytes(sig), key, msg);
            var e' := Challenge(h, c.order, PointBytes(sig), key, msg');
            var secret := Extract(c.order, FromBE(sig[32..64]), FromBE(sig'[32..64]), e, e');
            && c.parse(key) == Some(Times(c, secret, c.generator))
            && (x < c.order && c.parse(key) == Some(Times(c, x, c.generator)) ==> x == secret)
  {
    hide Valid, Times, Challenge;
    var r, y := c.parse(PointBytes(sig)).value, c.parse(key).value;
    var e := Challenge(h, c.order, PointBytes(sig), key, msg);
    var e' := Challenge(h, c.order, PointBytes(sig), key, msg');
    var z, z' := FromBE(sig[32..64]), FromBE(sig'[32..64]);
    ExtractWorks(c, r, y, z, z', e, e');
    var secret := Extract(c.order, z, z', e, e');
    OrderFits(c);
    if x < c.order && y == Times(c, x, c.generator) {
      if x <= secret {
        ScalarUnique(c, x, secret, c.generator);
      } else {
        ScalarUnique(c, secret, x, c.generator);
      }
    }
  }

  /** From z*G == R + e*Y and z'*G == R + e'*Y, without subtraction: (z - z')*G == (e - e')*Y. */
  lemma Difference<P(!new)>(c: Curve<P>, r: P, y: P, z: nat, z': nat, e: nat, e': nat)
    requires Valid(c) && z' <= c.order && e' <= c.order
    requires Times(c, z, c.generator) == c.add(r, Times(c, e, y))
    requires Times(c, z', c.generator) == c.add(r, Times(c, e', y))
    ensures Times(c, z + (c.order - z'), c.generator) == Times(c, e + (c.order - e'), y)
  {
    hide Valid, Times;
    var g := c.generator;
    var ey, ey', nz, ne := Times(c, e, y), Times(c, e', y), Times(c, c.order - z', g), Times(c, c.order - e', y);
    TimesSum(c, z, c.order - z', g);
    TimesSum(c, e, c.order - e', y);
    TimesSum(c, z', c.order - z', g);
    TimesSum(c, e', c.order - e', y);
    OrderVanishes(c, g);
    OrderVanishes(c, y);
    Cancel(c, r, ey, ey', nz, ne);
  }

  /** When n cancels r + b and m cancels b, r + a + n is a + m. */
  lemma Cancel<P(!new)>(c: Curve<P>, r: P, a: P, b: P, n: P, m: P)
    requires Valid(c) && c.add(c.add(r, b), n) == c.infinity && c.add(b, m) == c.infinity
    ensures c.add(c.add(r, a), n) == c.add(a, m)
  {
    hide Valid;
    var ran := c.add(c.add(r, a), n);
    calc {
      ran;
      { AddInfinity(c, ran); }
      c.add(ran, c.add(b, m));
      { Associative(c, ran, b, m); }
      c.add(c.add(ran, b), m);
      { Swap(c, c.add(r, a), n, b); }
      c.add(c.add(c.add(c.add(r, a), b), n), m);
      { Swap(c, r, a, b); Swap(c, c.add(r, b), a, n); }
      c.add(c.add(c.add(c.add(r, b), n), a), m);
      c.add(c.add(c.infinity, a), m);
      { AddInfinity(c, a); }
      c.add(a, m);
    }
  }

  lemma ExtractWorks<P(!new)>(c: Curve<P>, r: P, y: P, z: nat, z': nat, e: nat, e': nat)
    requires Valid(c) && z' < c.order && e < c.order && e' < c.order && e != e'
    requires Times(c, z, c.generator) == c.add(r, Times(c, e, y))
    requires Times(c, z', c.generator) == c.add(r, Times(c, e', y))
    ensures y == Times(c, Extract(c.order, z, z', e, e'), c.generator)
    ensures Extract(c.order, z, z', e, e') < c.order
  {
    hide Valid, Times, Product, Inverse, Prime;
    OrderFits(c);
    var n, g := c.order, c.generator;
    var d, f := z + (n - z'), e + (n - e');
    Difference(c, r, y, z, z', e, e');
    var a := f % n;
    DifferenceNonzero(n, e, e');
    var m := InverseWorks(a, n);
    var i := Inverse(a, n);
    calc {
      Times(c, Product(i, d) % n, g);
      { TimesReduced(c, Product(i, d), g); }
      Times(c, Product(i, d), g);
      { TimesProduct(c, i, d, g); }
      Times(c, i, Times(c, f, y));
      { TimesReduced(c, f, y); }
      Times(c, i, Times(c, a, y));
      { TimesProduct(c, i, a, y); ProductCommutes(i, a); }
      Times(c, 1 + Product(m, n), y);
      { TimesModulo(c, 1, m, y); TimesOne(c, y); }
      y;
    }
  }

  lemma DifferenceNonzero(n: nat, e: nat, e': nat)
    requires e < n && e' < n && e != e'
    ensures 0 < (e + (n - e')) % n < n
  {
    if e < e' {
      SmallResidue(e + (n - e'), n);
    } else {
      WrappedResidue(e - e', n);
    }
  }

  lemma SmallResidue(x: nat, n: nat)
    requires x < n
    ensures x % n == x
  {
  }

  lemma WrappedResidue(x: nat, n: nat)
    requires x < n
    ensures (x + n) % n == x
  {
    var q, r := (x + n) / n, (x + n) % n;
    assert x + n == n * q + r;
    OnceOver(n, q, r);
  }

  lemma OnceOver(n: nat, q: int, r: nat)
    requires n <= n * q + r < n + n && r < n
    ensures q == 1
  {
    Multiples(n, q);
  }

  lemma Multiples(n: nat, q: int)
    ensures q > 1 ==> n * q >= n + n
    ensures q < 1 ==> n * q <= 0
  {
    if q > 1 {
      MulGrows(n, q - 1);
      assert n * q == n + n * (q - 1);
    } else if q < 1 {
      MulGrows(n, 1 - q);
      assert n * q == n - n * (1 - q);
    }
  }
}
