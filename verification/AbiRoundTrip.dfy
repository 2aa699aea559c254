/** The decoders of chain/abi.go invert the canonical encoding, and never leave the return data. */
module AbiRoundTrip {
  import opened Outcomes
  import opened Bytes
  import opened AbiDecoder
  import Abi = AbiEncoding

  /** A number some word can hold and the platform reads as an int64. */
  ghost predicate Counts(n: nat) {
    n <= MAX_INT64
  }

  lemma WordValue(n: nat)
    requires Counts(n)
    ensures FromBE(Abi.Word(n)) == n
  {
    Fits64(n, 32);
    ToBEInverse(n, 32);
  }

  /* ---------- single accessors: exact outcomes ---------- */

  /** At a position below 2^63 - 32, reading a word is total: the word, or an error past the end. */
  lemma WordExact(d: Decoder, p: nat)
    requires p <= MAX_INT64 - 32
    ensures d.Word(p) == if p + 32 <= |d.data| then Ok(d.data[p..p + 32]) else Err
  {
  }

  /**
    What each scalar is read as: a number below 2^63; an offset no greater than the data; a truth value from a number
    below 256, true only for 1; an address from the last 20 bytes. Anything else is an error, and none of them panics.
   */
  lemma ScalarsExactly(d: Decoder, p: nat)
    requires p <= MAX_INT64 - 32
    ensures p + 32 > |d.data| ==>
              d.IntAt(p) == Err && d.OffsetAt(p) == Err && d.BoolAt(p) == Err && d.AddressAt(p) == Err
    ensures p + 32 <= |d.data| ==>
              var n := FromBE(d.data[p..p + 32]);
              && d.IntAt(p) == (if n < 0x8000_0000_0000_0000 then Ok(n) else Err)
              && d.OffsetAt(p) == (if n <= |d.data| then Ok(n) else Err)
              && d.BoolAt(p) == (if n < 256 then Ok(n == 1) else Err)
              && d.AddressAt(p) == Ok("0x" + Hex.Show(d.data[p + 12..p + 32]))
  {
    hide FromBE, Hex.Show;
    WordExact(d, p);
    if p + 32 <= |d.data| {
      var w := d.data[p..p + 32];
      LastByte(w);
      assert w[12..] == d.data[p + 12..p + 32];
    }
  }

  /** A word's number is below 256 exactly when all its bytes but the last are zero, and is the last byte then. */
  lemma LastByte(w: seq<byte>)
    requires |w| == 32
    ensures FromBE(w) < 256 <==> w[..31] == Zeros(31)
    ensures FromBE(w) < 256 ==> FromBE(w) == w[31]
  {
    FromBEZero(w[..31]);
  }

  /**
    `bytesAt` at a position the decoders reach. It yields the bytes exactly when they are there; it panics,
    against the promise that malformed data is only ever an error, exactly when the length word fits an int64
    but its end does not.
   */
  lemma BytesAtExact(d: Decoder, p: nat)
    requires p <= 4 * MAX_ALLOC
    ensures var len := if p + 32 <= |d.data| then FromBE(d.data[p..p + 32]) else 0;
            && (d.BytesAt(p).Ok? <==> p + 32 <= |d.data| && p + 32 + len <= |d.data|)
            && (d.BytesAt(p).Ok? ==> d.BytesAt(p).value == d.data[p + 32..p + 32 + len])
            && (d.BytesAt(p).Panic? <==> p + 32 <= |d.data| && len <= MAX_INT64 < p + 32 + len)
  {
    WordExact(d, p);
    if p + 32 <= |d.data| {
      var start, n: nat := p + 32, FromBE(d.data[p..p + 32]);
      if n <= MAX_INT64 < start + n {
        assert Wrap64(start + n) == start + n - 0x1_0000_0000_0000_0000 < 0;
        assert Wrap64(Wrap64(p + 32) + n) < 0;
      }
    }
  }

  /** The smallest return data on which it panics: one word, holding the largest int64. */
  lemma LargestLengthPanics()
    ensures Decoder(Abi.Word(MAX_INT64)).BytesAt(0) == Panic
  {
    var d := Decoder(Abi.Word(MAX_INT64));
    WordValue(MAX_INT64);
    assert d.data[0..32] == Abi.Word(MAX_INT64);
    BytesAtExact(d, 0);
  }

  lemma IntAtWord(d: Decoder, p: nat, n: nat)
    requires At(d.data, p, Abi.Word(n)) && Counts(n)
    ensures d.IntAt(p) == Ok(n)
    ensures n <= |d.data| ==> d.OffsetAt(p) == Ok(n)
  {
    WordExact(d, p);
    WordValue(n);
  }

  lemma BoolAtWord(d: Decoder, p: nat, b: bool)
    requires At(d.data, p, Abi.BoolWord(b))
    ensures d.BoolAt(p) == Ok(b)
  {
    WordExact(d, p);
    assert Abi.BoolWord(b)[..31] == Zeros(31);
  }

  lemma AddressAtWord(d: Decoder, p: nat, raw: seq<byte>)
    requires |raw| == 20 && At(d.data, p, Abi.AddressWord(raw))
    ensures d.AddressAt(p) == Ok(HexAddress(raw))
  {
    WordExact(d, p);
    assert Abi.AddressWord(raw)[12..] == raw;
  }

  lemma BytesAtEncoded(d: Decoder, p: nat, b: seq<byte>)
    requires At(d.data, p, Abi.Bytestring(b))
    ensures d.BytesAt(p) == Ok(b)
  {
    AtSplit(d.data, p, Abi.Word(|b|), b + Abi.Padding(b));
    AtSplit(d.data, p + 32, b, Abi.Padding(b));
    WordValue(|b|);
    BytesAtExact(d, p);
  }

  /* ---------- arrays ---------- */

  function HexAddresses(xs: seq<seq<byte>>): (r: seq<string>)
    ensures |r| == |xs| && forall i :: 0 <= i < |xs| ==> r[i] == HexAddress(xs[i])
  {
    seq(|xs|, i requires 0 <= i < |xs| => HexAddress(xs[i]))
  }

  /** The length word of an array, and where its elements start. */
  lemma ArrayHeader(d: Decoder, p: nat, cs: seq<Abi.Component>)
    requires Abi.WellFormed(cs) && At(d.data, p, Abi.Array(cs))
    ensures d.IntAt(p) == Ok(|cs|) && At(d.data, p + 32, Abi.Tuple(cs))
    ensures p + 32 + 32 * |cs| <= |d.data|
  {
    AtSplit(d.data, p, Abi.Word(|cs|), Abi.Tuple(cs));
    Abi.HeadsLength(cs, 32 * |cs|);
    IntAtWord(d, p, |cs|);
  }

  /** The offset word of a dynamic component, followed. */
  lemma FollowOffset(d: Decoder, p: nat, cs: seq<Abi.Component>, i: nat, slot: int64) returns (off: nat)
    requires Abi.WellFormed(cs) && i < |cs| && cs[i].Dynamic? && At(d.data, p, Abi.Tuple(cs))
    requires slot == p + 32 * i
    ensures d.OffsetAt(slot) == Ok(off)
    ensures p + off <= |d.data| && At(d.data, p + off, cs[i].tail)
  {
    off := Abi.ComponentOffset(cs, i);
    Abi.ComponentAt(d.data, p, cs, i);
    IntAtWord(d, p + 32 * i, off);
  }

  /** A slice with one word per element is long enough to have room for the decoded slice. */
  lemma MakeFits(n: nat, size: nat, data: Slice)
    requires 32 * n <= |data| && size <= 32
    ensures Make(n, size) == Ok(())
  {
    assert n * size <= n * 32;
  }

  lemma AddressSlot(d: Decoder, p: nat, xs: seq<seq<byte>>, i: nat)
    requires (forall x :: x in xs ==> |x| == 20) && i < |xs|
    requires At(d.data, p + 32, Abi.Tuple(Abi.Addresses(xs))) && p + 32 + 32 * |xs| <= |d.data|
    ensures d.AddressElement(p, i) == Ok(HexAddress(xs[i]))
  {
    Abi.ComponentAt(d.data, p + 32, Abi.Addresses(xs), i);
    var slot := p + 32 + 32 * i;
    assert Wrap64(p + 32 + i * 32) == slot;
    AddressAtWord(d, slot, xs[i]);
  }

  lemma ElementDecoded(d: Decoder, p: nat, xs: seq<seq<byte>>, i: nat)
    requires i < |xs| && At(d.data, p, Abi.Tuple(Abi.Bytestrings(xs))) && p + 32 * |xs| <= |d.data|
    ensures d.ElementAt(p, i) == Ok(xs[i])
  {
    var off := FollowOffset(d, p, Abi.Bytestrings(xs), i, Wrap64(p + i * 32));
    assert Wrap64(p + off) == p + off;
    BytesAtEncoded(d, p + off, xs[i]);
  }

  /** `stringArrayAt` reads back a `string[]` wherever it is encoded; `size` is the Go element size. */
  lemma BytestringsAtEncoded(d: Decoder, p: nat, xs: seq<seq<byte>>, size: nat)
    requires At(d.data, p, Abi.Array(Abi.Bytestrings(xs))) && size <= 32
    ensures d.BytestringsAt(p, size) == Ok(xs)
  {
    ArrayHeader(d, p, Abi.Bytestrings(xs));
    MakeFits(|xs|, size, d.data);
    forall i | 0 <= i < |xs|
      ensures d.Elements(p + 32)(i) == Ok(xs[i])
    {
      ElementDecoded(d, p + 32, xs, i);
    }
    CollectedAll(d.Elements(p + 32), xs);
  }

  /** The sole return value is one offset word away. */
  lemma ReturnedAt(d: Decoder, encoding: seq<byte>)
    requires d.data == Abi.Returned(encoding)
    ensures d.OffsetAt(0) == Ok(32) && At(d.data, 32, encoding)
  {
    var cs := [Abi.Dynamic(encoding)];
    assert At(d.data, 0, Abi.Tuple(cs));
    var off := FollowOffset(d, 0, cs, 0, 0);
    assert Abi.ComponentOffset(cs, 0) == 32;
    Abi.ComponentAt(d.data, 0, cs, 0);
    IntAtWord(d, 0, 32);
  }

  /** `address[]`: every list of addresses comes back, as lower-case hexadecimal. */
  lemma {:induction false} AddressArrayRoundTrip(xs: seq<seq<byte>>)
    requires forall x :: x in xs ==> |x| == 20
    requires |Abi.Returned(Abi.Array(Abi.Addresses(xs)))| <= MAX_ALLOC
    ensures Decoder(Abi.Returned(Abi.Array(Abi.Addresses(xs)))).Addresses() == Ok(HexAddresses(xs))
  {
    var d := Decoder(Abi.Returned(Abi.Array(Abi.Addresses(xs))));
    ReturnedAt(d, Abi.Array(Abi.Addresses(xs)));
    ArrayHeader(d, 32, Abi.Addresses(xs));
    forall i | 0 <= i < |xs|
      ensures d.AddressElements(32)(i) == Ok(HexAddresses(xs)[i])
    {
      AddressSlot(d, 32, xs, i);
    }
    CollectedAll(d.AddressElements(32), HexAddresses(xs));
  }

  /** `bytes[]`: every list of byte strings comes back unchanged. */
  lemma {:induction false} BytesArrayRoundTrip(xs: seq<seq<byte>>)
    requires |Abi.Returned(Abi.Array(Abi.Bytestrings(xs)))| <= MAX_ALLOC
    ensures var d := Decoder(Abi.Returned(Abi.Array(Abi.Bytestrings(xs))));
            (var base :- d.OffsetAt(0); d.BytestringsAt(base, 24)) == Ok(xs)
  {
    var d := Decoder(Abi.Returned(Abi.Array(Abi.Bytestrings(xs))));
    ReturnedAt(d, Abi.Array(Abi.Bytestrings(xs)));
    BytestringsAtEncoded(d, 32, xs, 24);
  }
}
