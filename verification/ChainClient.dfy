/** backend/internal/chain/client.go: the reads that decode nested values, and the one call with a dynamic argument. */
module ChainClient {
  import opened Outcomes
  import opened Bytes
  import opened AbiDecoder
  import opened AbiRoundTrip
  import opened Strings
  import Abi = AbiEncoding
  import Hex

  /* ---------- getIssuers(): (string,string[])[] ---------- */

  datatype Issuer = Issuer(issuer: seq<byte>, clientIDs: seq<seq<byte>>)

  /** The tuple at `tuple`, whose inner offsets are relative to its own start. */
  function IssuerAt(d: Decoder, tuple: int64): Outcome<Issuer> {
    var issuer :- IssuerNameAt(d, tuple);
    var clientIDs :- ClientIDsAt(d, tuple);
    Ok(Issuer(issuer, clientIDs))
  }

  function IssuerNameAt(d: Decoder, tuple: int64): Outcome<seq<byte>> {
    var issuerOff :- d.OffsetAt(tuple);
    d.BytesAt(Wrap64(tuple + issuerOff))
  }

  function ClientIDsAt(d: Decoder, tuple: int64): Outcome<seq<seq<byte>>> {
    var clientsOff :- d.OffsetAt(Wrap64(tuple + 32));
    d.BytestringsAt(Wrap64(tuple + clientsOff), 16)
  }

  function IssuerElement(d: Decoder, items: int64, i: nat): Outcome<Issuer> {
    var rel :- d.OffsetAt(Wrap64(items + i * 32));
    IssuerAt(d, Wrap64(items + rel))
  }

  function IssuerElements(d: Decoder, items: int64): nat -> Outcome<Issuer> {
    (i: nat) => IssuerElement(d, items, i)
  }

  function IssuersIn(d: Decoder): Outcome<seq<Issuer>> {
    var arrayBase :- d.OffsetAt(0);
    var n :- d.IntAt(arrayBase);
    var _ :- Make(n, 40);
    Collect(IssuerElements(d, Wrap64(arrayBase + 32)), 0, n)
  }

  method ReadIssuer(d: Decoder, items: int64, i: nat) returns (r: Outcome<Issuer>)
    ensures r == IssuerElement(d, items, i)
  {
    hide Decoder.OffsetAt, Decoder.BytesAt, Decoder.BytestringsAt, Wrap64;
    var rel :- d.OffsetAt(Wrap64(items + i * 32));
    var tuple: int := Wrap64(items + rel);
    var issuerOff: int :- d.OffsetAt(tuple);
    var issuer :- d.BytesAt(Wrap64(tuple + issuerOff));
    var clientsOff: int :- d.OffsetAt(Wrap64(tuple + 32));
    var clientIDs :- d.StringArrayAt(Wrap64(tuple + clientsOff));
    return Ok(Issuer(issuer, clientIDs));
  }

  /** `Issuers`, from the return data on. */
  method Issuers(raw: Slice) returns (r: Outcome<seq<Issuer>>)
    ensures r == IssuersIn(Decoder(raw))
  {
    hide Decoder.OffsetAt, Decoder.IntAt, Wrap64;
    var d := Decoder(raw);
    var arrayBase :- d.OffsetAt(0);
    var n :- d.IntAt(arrayBase);
    var items := Wrap64(arrayBase + 32);
    var _ :- Make(n, 40);
    var out: seq<Issuer> := [];
    hide IssuerElement;
    ghost var f := IssuerElements(d, items);
    PrependNothing(Collect(f, 0, n));
    for i := 0 to n
      invariant Collect(f, 0, n) == Prepend(out, Collect(f, i, n))
    {
      var issuer :- ReadIssuer(d, items, i);
      PrependStep(out, issuer, Collect(f, i + 1, n));
      out := out + [issuer];
    }
    assert out + [] == out;
    return Ok(out);
  }

  function IssuerTuple(x: Issuer): (cs: seq<Abi.Component>)
    ensures |cs| == 2 && Abi.WellFormed(cs)
  {
    [Abi.Dynamic(Abi.Bytestring(x.issuer)), Abi.Dynamic(Abi.Array(Abi.Bytestrings(x.clientIDs)))]
  }

  function IssuerTuples(xs: seq<Issuer>): (cs: seq<Abi.Component>)
    ensures |cs| == |xs| && forall i :: 0 <= i < |xs| ==> cs[i] == Abi.Dynamic(Abi.Tuple(IssuerTuple(xs[i])))
  {
    seq(|xs|, i requires 0 <= i < |xs| => Abi.Dynamic(Abi.Tuple(IssuerTuple(xs[i]))))
  }

  lemma IssuerDecoded(d: Decoder, p: nat, x: Issuer)
    requires At(d.data, p, Abi.Tuple(IssuerTuple(x)))
    ensures IssuerAt(d, p) == Ok(x)
  {
    IssuerFits(d, p, x);
    IssuerNameDecoded(d, p, x);
    ClientIDsDecoded(d, p, x);
  }

  lemma IssuerNameDecoded(d: Decoder, p: nat, x: Issuer)
    requires At(d.data, p, Abi.Tuple(IssuerTuple(x))) && p + 64 <= |d.data|
    ensures IssuerNameAt(d, p) == Ok(x.issuer)
  {
    var off := FollowOffset(d, p, IssuerTuple(x), 0, p);
    var q := p + off;
    assert Wrap64(q) == q;
    BytesAtEncoded(d, q, x.issuer);
  }

  lemma ClientIDsDecoded(d: Decoder, p: nat, x: Issuer)
    requires At(d.data, p, Abi.Tuple(IssuerTuple(x))) && p + 64 <= |d.data|
    ensures ClientIDsAt(d, p) == Ok(x.clientIDs)
  {
    var slot := Wrap64(p + 32);
    var off := FollowOffset(d, p, IssuerTuple(x), 1, slot);
    var q := p + off;
    assert Wrap64(q) == q;
    BytestringsAtEncoded(d, q, x.clientIDs, 16);
  }

  lemma IssuerFits(d: Decoder, p: nat, x: Issuer)
    requires At(d.data, p, Abi.Tuple(IssuerTuple(x)))
    ensures p + 64 <= |d.data|
  {
    Abi.HeadsLength(IssuerTuple(x), 64);
  }

  lemma IssuerElementDecoded(d: Decoder, p: nat, xs: seq<Issuer>, i: nat)
    requires i < |xs| && At(d.data, p, Abi.Tuple(IssuerTuples(xs))) && p + 32 * |xs| <= |d.data|
    ensures IssuerElement(d, p, i) == Ok(xs[i])
  {
    var off := FollowOffset(d, p, IssuerTuples(xs), i, Wrap64(p + i * 32));
    assert Wrap64(p + off) == p + off;
    IssuerDecoded(d, p + off, xs[i]);
  }

  /** Every tuple's encoding takes at least four words, so decoding never asks for more than the data's own size. */
  lemma IssuerTuplesLength(xs: seq<Issuer>)
    ensures 64 * |xs| <= |Abi.Tails(IssuerTuples(xs))|
  {
    if xs != [] {
      assert IssuerTuples(xs)[1..] == IssuerTuples(xs[1..]);
      IssuerTuplesLength(xs[1..]);
      Abi.HeadsLength(IssuerTuple(xs[0]), 64);
    }
  }

  /** An encoded list decodes element by element. */
  lemma {:induction false} IssuersCollected(d: Decoder, xs: seq<Issuer>)
    requires At(d.data, 64, Abi.Tuple(IssuerTuples(xs))) && 64 + 32 * |xs| <= |d.data|
    ensures Collect(IssuerElements(d, 64), 0, |xs|) == Ok(xs)
  {
    hide IssuerElement;
    forall i | 0 <= i < |xs|
      ensures IssuerElements(d, 64)(i) == Ok(xs[i])
    {
      IssuerElementDecoded(d, 64, xs, i);
    }
    CollectedAll(IssuerElements(d, 64), xs);
  }

  /** The decoded slice is not larger than the data. */
  lemma {:induction false} IssuersFit(d: Decoder, xs: seq<Issuer>)
    requires At(d.data, 64, Abi.Tuple(IssuerTuples(xs)))
    ensures Make(|xs|, 40) == Ok(())
  {
    Abi.TupleAt(d.data, 64, IssuerTuples(xs));
    IssuerTuplesLength(xs);
  }

  /** `(string,string[])[]`: every list of issuers and client ids comes back unchanged. */
  lemma {:induction false} IssuersRoundTrip(xs: seq<Issuer>)
    requires |Abi.Returned(Abi.Array(IssuerTuples(xs)))| <= MAX_ALLOC
    ensures IssuersIn(Decoder(Abi.Returned(Abi.Array(IssuerTuples(xs))))) == Ok(xs)
  {
    hide IssuerElements, Decoder.OffsetAt, Decoder.IntAt, Make, At, Abi.Array, Abi.Tuple;
    var cs := IssuerTuples(xs);
    var d := Decoder(Abi.Returned(Abi.Array(cs)));
    ReturnedAt(d, Abi.Array(cs));
    ArrayHeader(d, 32, cs);
    IssuersFit(d, xs);
    IssuersCollected(d, xs);
  }

  /* ---------- getAuthKeys() ---------- */

  /** `AuthKeys`, from the return data on. */
  method AuthKeys(raw: Slice) returns (r: Outcome<seq<string>>)
    ensures r == (var base :- Decoder(raw).OffsetAt(0);
                  var keys :- Decoder(raw).BytestringsAt(base, 24);
                  Ok(HexAddresses(keys)))
  {
    var keys :- Decoder(raw).BytesArray();
    var out: seq<string> := [];
    for i := 0 to |keys|
      invariant out == HexAddresses(keys)[..i]
    {
      var text := Hex.EncodeHex(keys[i]);
      out := out + ["0x" + text];
    }
    assert out == HexAddresses(keys);
    return Ok(out);
  }

  /* ---------- getNode(address) and getAuthResolver() ---------- */

  datatype NodeInfo = NodeInfo(pubKey: seq<byte>, isOpen: bool, registered: bool, registeredAt: int64, operator: string)

  /** `Node`, from the return data on: the tuple is dynamic, so the first word is the offset to its body. */
  function NodeIn(d: Decoder): Outcome<NodeInfo> {
    var base :- d.OffsetAt(0);
    NodeAt(d, base)
  }

  function NodeAt(d: Decoder, base: int64): Outcome<NodeInfo> {
    var pubKey :- PubKeyAt(d, base);
    var isOpen :- d.BoolAt(Wrap64(base + 32));
    var registered :- d.BoolAt(Wrap64(base + 64));
    var registeredAt :- d.IntAt(Wrap64(base + 96));
    var operator :- d.AddressAt(Wrap64(base + 128));
    Ok(NodeInfo(pubKey, isOpen, registered, registeredAt, operator))
  }

  function PubKeyAt(d: Decoder, base: int64): Outcome<seq<byte>> {
    var pubOff :- d.OffsetAt(base);
    d.BytesAt(Wrap64(base + pubOff))
  }

  function NodeTuple(pubKey: seq<byte>, isOpen: bool, registered: bool, at: nat, operator: seq<byte>):
      (cs: seq<Abi.Component>)
    requires |operator| == 20
    ensures |cs| == 5 && Abi.WellFormed(cs)
  {
    [Abi.Dynamic(Abi.Bytestring(pubKey)), Abi.Static(Abi.BoolWord(isOpen)), Abi.Static(Abi.BoolWord(registered)),
     Abi.Static(Abi.Word(at)), Abi.Static(Abi.AddressWord(operator))]
  }

  lemma {:induction false} NodeRoundTrip(
    pubKey: seq<byte>, isOpen: bool, registered: bool, at: int64, operator: seq<byte>)
    requires 0 <= at && |operator| == 20
    requires |Abi.Returned(Abi.Tuple(NodeTuple(pubKey, isOpen, registered, at, operator)))| <= MAX_ALLOC
    ensures NodeIn(Decoder(Abi.Returned(Abi.Tuple(NodeTuple(pubKey, isOpen, registered, at, operator)))))
         == Ok(NodeInfo(pubKey, isOpen, registered, at, HexAddress(operator)))
  {
    hide NodeAt;
    var cs := NodeTuple(pubKey, isOpen, registered, at, operator);
    var d := Decoder(Abi.Returned(Abi.Tuple(cs)));
    ReturnedAt(d, Abi.Tuple(cs));
    NodeDecoded(d, pubKey, isOpen, registered, at, operator);
  }

  lemma NodeDecoded(d: Decoder, pubKey: seq<byte>, isOpen: bool, registered: bool, at: int64, operator: seq<byte>)
    requires 0 <= at && |operator| == 20
    requires At(d.data, 32, Abi.Tuple(NodeTuple(pubKey, isOpen, registered, at, operator)))
    ensures NodeAt(d, 32) == Ok(NodeInfo(pubKey, isOpen, registered, at, HexAddress(operator)))
  {
    hide PubKeyAt, Decoder.BoolAt, Decoder.IntAt, Decoder.AddressAt;
    PubKeyDecoded(d, pubKey, isOpen, registered, at, operator);
    NodeWords(d, pubKey, isOpen, registered, at, operator);
  }

  lemma PubKeyDecoded(d: Decoder, pubKey: seq<byte>, isOpen: bool, registered: bool, at: int64, operator: seq<byte>)
    requires 0 <= at && |operator| == 20
    requires At(d.data, 32, Abi.Tuple(NodeTuple(pubKey, isOpen, registered, at, operator)))
    ensures PubKeyAt(d, 32) == Ok(pubKey)
  {
    hide Decoder.OffsetAt, Decoder.BytesAt;
    var pubOff := FollowOffset(d, 32, NodeTuple(pubKey, isOpen, registered, at, operator), 0, 32);
    BytesAtEncoded(d, 32 + pubOff, pubKey);
  }

  lemma NodeWords(d: Decoder, pubKey: seq<byte>, isOpen: bool, registered: bool, at: int64, operator: seq<byte>)
    requires 0 <= at && |operator| == 20
    requires At(d.data, 32, Abi.Tuple(NodeTuple(pubKey, isOpen, registered, at, operator)))
    ensures d.BoolAt(64) == Ok(isOpen) && d.BoolAt(96) == Ok(registered)
    ensures d.IntAt(128) == Ok(at) && d.AddressAt(160) == Ok(HexAddress(operator))
  {
    var cs := NodeTuple(pubKey, isOpen, registered, at, operator);
    assert d.BoolAt(64) == Ok(isOpen) by {
      Abi.StaticAt(d.data, 32, cs, 1, 64);
      BoolAtWord(d, 64, isOpen);
    }
    assert d.BoolAt(96) == Ok(registered) by {
      Abi.StaticAt(d.data, 32, cs, 2, 96);
      BoolAtWord(d, 96, registered);
    }
    assert d.IntAt(128) == Ok(at) by {
      Abi.StaticAt(d.data, 32, cs, 3, 128);
      IntAtWord(d, 128, at);
    }
    assert d.AddressAt(160) == Ok(HexAddress(operator)) by {
      Abi.StaticAt(d.data, 32, cs, 4, 160);
      AddressAtWord(d, 160, operator);
    }
  }

  datatype AuthResolver = AuthResolver(chainID: int64, resolver: string, requireCanonicalSubject: bool)

  /** `decodeAuthResolver`: three static words at `base`. */
  function ResolverAt(d: Decoder, base: int64): Outcome<AuthResolver> {
    var chainID :- d.IntAt(base);
    var resolver :- d.AddressAt(Wrap64(base + 32));
    var required :- d.BoolAt(Wrap64(base + 64));
    Ok(AuthResolver(chainID, resolver, required))
  }

  /** Static tuples are inlined, alone at 0 and behind the timelock word at 32. */
  lemma ResolverRoundTrip(d: Decoder, p: nat, chainID: int64, resolver: seq<byte>, required: bool)
    requires 0 <= chainID && |resolver| == 20
    requires At(d.data, p, Abi.Tuple([Abi.Static(Abi.Word(chainID)), Abi.Static(Abi.AddressWord(resolver)),
                                      Abi.Static(Abi.BoolWord(required))]))
    ensures ResolverAt(d, p) == Ok(AuthResolver(chainID, HexAddress(resolver), required))
  {
    var cs := [Abi.Static(Abi.Word(chainID)), Abi.Static(Abi.AddressWord(resolver)),
               Abi.Static(Abi.BoolWord(required))];
    Abi.StaticAt(d.data, p, cs, 0, p);
    Abi.StaticAt(d.data, p, cs, 1, p + 32);
    Abi.StaticAt(d.data, p, cs, 2, p + 64);
    IntAtWord(d, p, chainID);
    AddressAtWord(d, p + 32, resolver);
    BoolAtWord(d, p + 64, required);
  }

  /* ---------- getAddress(address,bytes,uint256) calldata ---------- */

  /** `big.Int.Bytes`: big-endian without leading zeros; zero is the empty string. */
  function Minimal(n: nat): seq<byte> {
    if n == 0 then [] else Minimal(n / 256) + [n % 256]
  }

  lemma {:induction false} MinimalPadded(n: nat, width: nat)
    requires n < Pow256(width)
    ensures |Minimal(n)| <= width && Zeros(width - |Minimal(n)|) + Minimal(n) == ToBE(n, width)
    decreases width
  {
    if width > 0 {
      MinimalPadded(n / 256, width - 1);
      if n == 0 {
        assert Zeros(width) == Zeros(width - 1) + [0];
      }
    }
  }

  /** `padWord`. */
  function PadWord(b: seq<byte>): seq<byte>
    requires |b| <= 32
  {
    Zeros(32 - |b|) + b
  }

  /** `rightPad`. */
  function RightPad(b: seq<byte>): seq<byte> {
    var n := if |b| % 32 != 0 then |b| + (32 - |b| % 32) else |b|;
    b + Zeros(n - |b|)
  }

  function PaddedWords(words: seq<seq<byte>>): seq<byte>
    requires forall w :: w in words ==> |w| <= 32
  {
    if words == [] then [] else PaddedWords(words[..|words| - 1]) + PadWord(words[|words| - 1])
  }

  /** `encodeCall`: the selector, then every word left-padded. */
  method EncodeCall(selector: seq<byte>, words: seq<seq<byte>>) returns (out: seq<byte>)
    requires forall w :: w in words ==> |w| <= 32
    ensures out == selector + PaddedWords(words)
  {
    out := selector;
    for i := 0 to |words|
      invariant out == selector + PaddedWords(words[..i])
    {
      out := out + PadWord(words[i]);
      assert words[..i + 1][..i] == words[..i];
    }
    assert words[..|words|] == words;
  }

  function GetAddressArguments(entryPoint: seq<byte>, key: seq<byte>): (cs: seq<Abi.Component>)
    requires |entryPoint| == 20
    ensures Abi.WellFormed(cs)
  {
    [Abi.Static(Abi.AddressWord(entryPoint)), Abi.Dynamic(Abi.Bytestring(key)), Abi.Static(Abi.Word(0))]
  }

  lemma ThreeWords(ep: seq<byte>, off: seq<byte>, zero: seq<byte>)
    requires |ep| <= 32 && |off| <= 32 && |zero| <= 32
    ensures PaddedWords([ep, off, zero]) == PadWord(ep) + PadWord(off) + PadWord(zero)
  {
    var words := [ep, off, zero];
    assert words[..2] == [ep, off] && [ep, off][..1] == [ep];
    assert PaddedWords([ep]) == [] + PadWord(ep) == PadWord(ep) by {
      assert [ep][..0] == [];
    }
  }

  /** Every word `encodeCall` pads is the canonical one. */
  lemma PaddedNumber(n: nat)
    requires n <= MAX_INT64
    ensures |Minimal(n)| <= 8 && PadWord(Minimal(n)) == Abi.Word(n)
  {
    hide Minimal, Pow256, FromBE, ToBE;
    Fits64(n, 8);
    MinimalPadded(n, 8);
    Fits64(n, 32);
    MinimalPadded(n, 32);
  }

  lemma GetAddressLayout(entryPoint: seq<byte>, key: seq<byte>)
    requires |entryPoint| == 20 && |key| <= MAX_INT64
    ensures |Minimal(96)| <= 8 && |Minimal(|key|)| <= 8
    ensures PaddedWords([Abi.AddressWord(entryPoint), Minimal(96), []]) + (PadWord(Minimal(|key|)) + RightPad(key))
         == Abi.Tuple(GetAddressArguments(entryPoint, key))
  {
    var ep, zero, tail := Abi.AddressWord(entryPoint), Abi.Word(0), Abi.Bytestring(key);
    PaddedNumber(96);
    PaddedNumber(|key|);
    PaddedNumber(0);
    ThreeWords(ep, Minimal(96), []);
    assert PadWord(ep) == ep;
    assert PadWord(Minimal(|key|)) + RightPad(key) == tail;
    HeadsOfArguments(ep, tail, zero);
  }

  lemma HeadsOfArguments(ep: seq<byte>, tail: seq<byte>, zero: seq<byte>)
    ensures Abi.Tuple([Abi.Static(ep), Abi.Dynamic(tail), Abi.Static(zero)]) == ep + Abi.Word(96) + zero + tail
  {
    var cs := [Abi.Static(ep), Abi.Dynamic(tail), Abi.Static(zero)];
    var n := 96 + |tail|;
    assert cs[1..] == [Abi.Dynamic(tail), Abi.Static(zero)] && cs[2..] == [Abi.Static(zero)] && cs[3..] == [];
    assert cs[1..][1..] == cs[2..] && cs[2..][1..] == [];
    assert Abi.Heads([], n) == [] && Abi.Tails([]) == [];
    assert Abi.Heads(cs[2..], n) == zero + [];
    assert Abi.Heads(cs[1..], 96) == Abi.Word(96) + zero;
    assert Abi.Heads(cs, 96) == ep + (Abi.Word(96) + zero);
    assert Abi.Tails(cs[2..]) == [] && Abi.Tails(cs[1..]) == tail && Abi.Tails(cs) == tail;
  }

  datatype Client = Client(rpcURL: string, factory: string)

  /** `Enabled`; None is a nil client. */
  predicate Enabled(c: Option<Client>) {
    c.Some? && c.value.rpcURL != "" && c.value.factory != ""
  }

  /**
    The calldata `SmartAccountAddress` sends, or nothing when chain reads are not configured, the factory is blank, the
    entry point is not an address or the key is missing or not hexadecimal: the selector followed by the canonical
    encoding of (entryPoint, key, 0).
   */
  method SmartAccountCalldata(
    client: Option<Client>, accountFactory: string, selector: seq<byte>, entryPoint: string, groupPublicKey: string)
    returns (r: Option<seq<byte>>)
    requires |groupPublicKey| <= MAX_ALLOC
    ensures var ep, key := Hex.Decode(Hex.Canonical(entryPoint)), Hex.Decode(Hex.Canonical(groupPublicKey));
            && (r.Some? <==> && client.Some? && client.value.rpcURL != "" && client.value.factory != ""
                             && TrimSpace(accountFactory) != ""
                             && ep.Some? && |ep.value| == 20 && key.Some? && key.value != [])
            && (r.Some? ==> r.value == selector + Abi.Tuple(GetAddressArguments(ep.value, key.value)))
  {
    if !Enabled(client) || TrimSpace(accountFactory) == "" {
      return None;
    }
    var ep := Hex.DecodeHex(entryPoint);
    if ep.None? || |ep.value| != 20 {
      return None;
    }
    var key := Hex.DecodeHex(groupPublicKey);
    if key.None? || key.value == [] {
      return None;
    }
    Hex.DecodeLength(Hex.Canonical(groupPublicKey));
    Hex.CanonicalLength(groupPublicKey);
    var data := GetAddressCalldata(selector, ep.value, key.value);
    return Some(data);
  }

  method GetAddressCalldata(selector: seq<byte>, entryPoint: seq<byte>, key: seq<byte>) returns (data: seq<byte>)
    requires |entryPoint| == 20 && |key| <= MAX_INT64
    ensures data == selector + Abi.Tuple(GetAddressArguments(entryPoint, key))
  {
    hide Minimal, PadWord, RightPad, PaddedWords, Abi.Tuple, Abi.AddressWord, Abi.Bytestring, Abi.Word;
    GetAddressLayout(entryPoint, key);
    var words := [Abi.AddressWord(entryPoint), Minimal(96), []];
    data := EncodeCall(selector, words);
    ghost var head := PaddedWords(words);
    data := data + PadWord(Minimal(|key|));
    data := data + RightPad(key);
    assert data == selector + (head + (PadWord(Minimal(|key|)) + RightPad(key)));
  }
}
