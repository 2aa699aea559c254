/** Packing gas limits and flattening a signed operation: web/lib/userop.ts:159-162 and 203-234. */
module Flatten {
  import Hex

  /* ---------- numbers in hexadecimal ---------- */

  /** `n.toString(16)`. */
  function ToHex(n: nat): (t: string)
    ensures t != ""
  {
    if n < 16 then [Hex.Digit(n)] else ToHex(n / 16) + [Hex.Digit(n % 16)]
  }

  function Pow16(k: nat): (p: nat)
    ensures p > 0
  {
    if k == 0 then 1 else 16 * Pow16(k - 1)
  }

  /** 2^128, which 32 hexadecimal digits stay below. */
  const LIMIT: nat := 0x1_00000000_00000000_00000000_00000000

  lemma HalfWidth()
    ensures Pow16(32) == LIMIT
  {
    assert Pow16(8) == 0x1_00000000;
    assert Pow16(16) == 0x1_00000000_00000000;
    assert Pow16(24) == 0x1_00000000_00000000_00000000;
  }

  lemma {:induction false} FromToHex(n: nat)
    ensures Hex.IsHex(ToHex(n)) && Hex.FromHex(ToHex(n)) == n
  {
    if n >= 16 {
      FromToHex(n / 16);
      var t := ToHex(n);
      assert t[..|t| - 1] == ToHex(n / 16);
    }
  }

  lemma {:induction false} FromHexBound(t: string)
    requires Hex.IsHex(t)
    ensures Hex.FromHex(t) < Pow16(|t|)
  {
    if t != "" {
      FromHexBound(t[..|t| - 1]);
    }
  }

  lemma {:induction false} ToHexLength(n: nat, k: nat)
    requires n < Pow16(k) && k > 0
    ensures |ToHex(n)| <= k
  {
    if n >= 16 {
      assert Pow16(1) == 16;
      ToHexLength(n / 16, k - 1);
    }
  }

  /** `t.padStart(width, "0")`. */
  function PadStart(t: string, width: nat): (r: string)
    ensures |r| == if |t| < width then width else |t|
  {
    if |t| >= width then t else seq(width - |t|, i => '0') + t
  }

  lemma {:induction false} PaddingKeepsValue(zeros: string, t: string)
    requires Hex.IsHex(t) && forall i :: 0 <= i < |zeros| ==> zeros[i] == '0'
    ensures Hex.IsHex(zeros + t) && Hex.FromHex(zeros + t) == Hex.FromHex(t)
    decreases |zeros| + |t|
  {
    if t != "" {
      assert (zeros + t)[..|zeros + t| - 1] == zeros + t[..|t| - 1];
      PaddingKeepsValue(zeros, t[..|t| - 1]);
    } else if zeros != "" {
      assert zeros + t == zeros[..|zeros| - 1] + "0";
      assert (zeros + t)[..|zeros + t| - 1] == zeros[..|zeros| - 1] + "";
      PaddingKeepsValue(zeros[..|zeros| - 1], "");
    }
  }

  lemma PadStartKeepsValue(t: string, width: nat)
    requires Hex.IsHex(t)
    ensures Hex.IsHex(PadStart(t, width)) && Hex.FromHex(PadStart(t, width)) == Hex.FromHex(t)
  {
    if |t| < width {
      PaddingKeepsValue(seq(width - |t|, i => '0'), t);
    }
  }

  lemma {:induction false} FromHexConcat(a: string, b: string)
    requires Hex.IsHex(a) && Hex.IsHex(b)
    ensures Hex.IsHex(a + b) && Hex.FromHex(a + b) == Hex.FromHex(a) * Pow16(|b|) + Hex.FromHex(b)
  {
    if b == "" {
      assert a + b == a;
    } else {
      var b' := b[..|b| - 1];
      FromHexConcat(a, b');
      assert (a + b)[..|a + b| - 1] == a + b';
      Shifted(Hex.FromHex(a), Pow16(|b'|), Hex.FromHex(b'), Hex.Nibble(b[|b| - 1]).value);
    }
  }

  lemma Shifted(x: nat, p: nat, y: nat, d: nat)
    ensures (x * p + y) * 16 + d == x * (16 * p) + (y * 16 + d)
  {
    assert x * (16 * p) == x * p * 16;
  }

  /* ---------- packing and splitting ---------- */

  /** `accountGasLimits` as the console builds it: two 32-digit halves. */
  function Pack(high: nat, low: nat): string {
    "0x" + PadStart(ToHex(high), 32) + PadStart(ToHex(low), 32)
  }

  /** `v.slice(2).padStart(64, "0")`. */
  function Padded(packed: string): string
    requires |packed| >= 2
  {
    PadStart(packed[2..], 64)
  }

  function Quantity(n: nat): string {
    "0x" + ToHex(n)
  }

  function HighHalf(packed: string): string
    requires |packed| >= 2 && Hex.IsHex(packed[2..])
  {
    PadStartKeepsValue(packed[2..], 64);
    Quantity(Hex.FromHex(Padded(packed)[0..32]))
  }

  function LowHalf(packed: string): string
    requires |packed| >= 2 && Hex.IsHex(packed[2..])
  {
    PadStartKeepsValue(packed[2..], 64);
    Quantity(Hex.FromHex(Padded(packed)[32..64]))
  }

  datatype PackedOp = PackedOp(
    sender: string, nonce: nat, initCode: string, callData: string, accountGasLimits: string, preVerificationGas: nat,
    gasFees: string, paymasterAndData: string, signature: string)

  datatype SignedUserOp = SignedUserOp(
    sender: string, nonce: string, factory: string, factoryData: string, callData: string, callGasLimit: string,
    verificationGasLimit: string, preVerificationGas: string, maxFeePerGas: string, maxPriorityFeePerGas: string,
    paymaster: string, paymasterData: string, signature: string)

  predicate HexText(t: string) {
    |t| >= 2 && t[..2] == "0x" && Hex.IsHex(t[2..])
  }

  /** The first 20 bytes, when there are that many. */
  function Address(blob: string): string
    requires |blob| >= 2
  {
    if |blob| - 2 >= 40 then "0x" + blob[2..42] else ""
  }

  function Rest(blob: string): string
    requires |blob| >= 2
  {
    if |blob| - 2 > 40 then "0x" + blob[42..] else ""
  }

  function Serialize(op: PackedOp): SignedUserOp
    requires HexText(op.initCode) && HexText(op.accountGasLimits) && HexText(op.gasFees) && HexText(op.paymasterAndData)
  {
    SignedUserOp(
      op.sender, Quantity(op.nonce), Address(op.initCode), Rest(op.initCode), op.callData,
      LowHalf(op.accountGasLimits), HighHalf(op.accountGasLimits), Quantity(op.preVerificationGas),
      LowHalf(op.gasFees), HighHalf(op.gasFees),
      Address(op.paymasterAndData), Rest(op.paymasterAndData), op.signature)
  }

  /* ---------- what a reader of the flattened fields gets back ---------- */

  /** A "0x" field with its prefix dropped; an omitted field is empty. */
  function Body(field: string): string {
    if |field| < 2 then "" else field[2..]
  }

  /** How the bundler puts a blob together again. */
  function Joined(first: string, second: string): string {
    "0x" + Body(first) + Body(second)
  }

  function ReadQuantity(field: string): nat
    requires HexText(field)
  {
    Hex.FromHex(field[2..])
  }

  lemma QuantityRead(n: nat)
    ensures HexText(Quantity(n)) && ReadQuantity(Quantity(n)) == n
  {
    FromToHex(n);
    assert Quantity(n)[2..] == ToHex(n);
  }

  /** A blob survives flattening exactly when it is empty or holds a whole address. */
  lemma BlobRoundTrip(blob: string)
    requires HexText(blob)
    ensures Joined(Address(blob), Rest(blob)) == blob <==> blob == "0x" || |blob| >= 42
    ensures Address(blob) == "" <==> |blob| < 42
    ensures Rest(blob) == "" <==> |blob| <= 42
    ensures |blob| > 42 ==> Address(blob) == blob[..42] && Rest(blob) == "0x" + blob[42..]
  {
    assert blob == "0x" + blob[2..];
    if |blob| >= 42 {
      assert blob[2..42] + blob[42..] == blob[2..];
      assert Body(Address(blob)) == blob[2..42] && Body(Rest(blob)) == blob[42..];
    } else {
      assert Joined(Address(blob), Rest(blob)) == "0x";
    }
  }

  lemma HalvesBelowLimit(packed: string)
    requires HexText(packed)
    ensures exists h: nat, l: nat ::
              h < LIMIT && l < LIMIT && HighHalf(packed) == Quantity(h) && LowHalf(packed) == Quantity(l)
  {
    hide Hex.FromHex, Hex.IsHexDigit, ToHex, Pow16, PadStart;
    var t := Padded(packed);
    PadStartKeepsValue(packed[2..], 64);
    HalfWidth();
    FromHexBound(t[0..32]);
    FromHexBound(t[32..64]);
    assert HighHalf(packed) == Quantity(Hex.FromHex(t[0..32])) && LowHalf(packed) == Quantity(Hex.FromHex(t[32..64]));
  }

  lemma QuantityInjective(a: nat, b: nat)
    requires Quantity(a) == Quantity(b)
    ensures a == b
  {
    QuantityRead(a);
    QuantityRead(b);
  }

  lemma PackIsHex(high: nat, low: nat)
    ensures HexText(Pack(high, low))
  {
    hide Hex.FromHex, Hex.IsHexDigit, ToHex, PadStart;
    FromToHex(high);
    FromToHex(low);
    PadStartKeepsValue(ToHex(high), 32);
    PadStartKeepsValue(ToHex(low), 32);
    assert Pack(high, low)[2..] == PadStart(ToHex(high), 32) + PadStart(ToHex(low), 32);
  }

  lemma PackFits(high: nat, low: nat)
    requires high < LIMIT && low < LIMIT
    ensures HexText(Pack(high, low))
    ensures HighHalf(Pack(high, low)) == Quantity(high) && LowHalf(Pack(high, low)) == Quantity(low)
  {
    hide Hex.FromHex, Hex.IsHexDigit, ToHex, Pow16;
    PackIsHex(high, low);
    HalfWidth();
    ToHexLength(high, 32);
    ToHexLength(low, 32);
    FromToHex(high);
    FromToHex(low);
    PadStartKeepsValue(ToHex(high), 32);
    PadStartKeepsValue(ToHex(low), 32);
    var a, b := PadStart(ToHex(high), 32), PadStart(ToHex(low), 32);
    hide Hex.IsHex;
    assert Padded(Pack(high, low)) == a + b;
    assert (a + b)[0..32] == a && (a + b)[32..64] == b;
  }

  /** Both gas limits come back unchanged exactly when both are below 2^128. */
  lemma PackRoundTrip(high: nat, low: nat)
    ensures HexText(Pack(high, low))
    ensures HighHalf(Pack(high, low)) == Quantity(high) && LowHalf(Pack(high, low)) == Quantity(low)
            <==> high < LIMIT && low < LIMIT
  {
    hide HighHalf, LowHalf, Quantity, Pack;
    PackIsHex(high, low);
    var packed := Pack(high, low);
    if high < LIMIT && low < LIMIT {
      PackFits(high, low);
    } else if HighHalf(packed) == Quantity(high) && LowHalf(packed) == Quantity(low) {
      HalvesBelowLimit(packed);
      var h: nat, l: nat :| h < LIMIT && l < LIMIT && HighHalf(packed) == Quantity(h) && LowHalf(packed) == Quantity(l);
      QuantityInjective(h, high);
      QuantityInjective(l, low);
      assert false;
    }
  }

  /** A 32-byte word is the two quantities read from it: the priority fee above, the maximum fee below. */
  lemma WordSplit(packed: string)
    requires HexText(packed) && |packed| <= 66
    ensures HexText(HighHalf(packed)) && HexText(LowHalf(packed))
    ensures ReadQuantity(packed) == ReadQuantity(HighHalf(packed)) * LIMIT + ReadQuantity(LowHalf(packed))
  {
    var t := Padded(packed);
    PadStartKeepsValue(packed[2..], 64);
    assert t == t[0..32] + t[32..64];
    FromHexConcat(t[0..32], t[32..64]);
    HalfWidth();
    QuantityRead(Hex.FromHex(t[0..32]));
    QuantityRead(Hex.FromHex(t[32..64]));
  }

  /** Everything the packed operation said can be read back from the flattened one. */
  predicate Recovered(op: PackedOp, verificationGas: nat, callGas: nat, flat: SignedUserOp)
    requires HexText(op.gasFees)
  {
    && flat.sender == op.sender && flat.callData == op.callData && flat.signature == op.signature
    && flat.nonce == Quantity(op.nonce) && flat.preVerificationGas == Quantity(op.preVerificationGas)
    && flat.verificationGasLimit == Quantity(verificationGas) && flat.callGasLimit == Quantity(callGas)
    && HexText(flat.maxPriorityFeePerGas) && HexText(flat.maxFeePerGas)
    && ReadQuantity(op.gasFees) == ReadQuantity(flat.maxPriorityFeePerGas) * LIMIT + ReadQuantity(flat.maxFeePerGas)
    && Joined(flat.factory, flat.factoryData) == op.initCode
    && Joined(flat.paymaster, flat.paymasterData) == op.paymasterAndData
  }

  predicate Whole(blob: string) {
    blob == "0x" || |blob| >= 42
  }

  /** Flattening loses nothing exactly when both gas limits fit 128 bits and each blob is empty or holds an address. */
  lemma SerializeLossless(op: PackedOp, verificationGas: nat, callGas: nat)
    requires HexText(op.initCode) && HexText(op.gasFees) && |op.gasFees| <= 66 && HexText(op.paymasterAndData)
    requires op.accountGasLimits == Pack(verificationGas, callGas)
    ensures HexText(op.accountGasLimits)
    ensures Recovered(op, verificationGas, callGas, Serialize(op))
            <==> verificationGas < LIMIT && callGas < LIMIT && Whole(op.initCode) && Whole(op.paymasterAndData)
  {
    hide HexText, HighHalf, LowHalf, Quantity, Joined, Address, Rest, Pack, ReadQuantity;
    PackRoundTrip(verificationGas, callGas);
    WordSplit(op.gasFees);
    BlobRoundTrip(op.initCode);
    BlobRoundTrip(op.paymasterAndData);
  }
}
