/** backend/internal/userop/userop.go: the guard on signed operations and on plain transactions. */
module UserOp {
  import opened Outcomes
  import opened Bytes
  import opened Strings
  import Abi = AbiEncoding
  import AbiDecoder
  import AbiRoundTrip
  import ChainClient
  import Hex

  /** The fields of an operation the guard reads. */
  datatype Packed = Packed(
    sender: string, callData: string, paymaster: string, paymasterData: string, signature: string)

  /** What a route expects: the contract, the allowed selectors by method name, and whether it refuses to pay. */
  datatype Intent = Intent(dest: string, selectors: map<string, string>, refusePaymaster: bool)

  datatype Decoded = Decoded(sender: string, dest: string, value: int, selector: string, name: string, inner: seq<byte>)

  datatype Refusal =
    | NoOperation | WrongSender | Unsigned | NotHex | TooShort | NotExecute | Truncated
    | BadOffset | BadLength | PaymasterRefused | MovesValue | WrongDest | NoSelector | NotAllowed

  datatype Verdict = Accepted(call: Decoded) | Refused(why: Refusal) | Panicked

  const EXECUTE_SELECTOR := "b61d27f6"

  /* ---------- following an offset to dynamic bytes ---------- */

  datatype Located = Found(data: seq<byte>) | OffsetOutside | LengthOutside | Crash

  /** The bytes whose length word is `off` into the arguments, with the sums Go takes in int64. */
  function DynamicAt(args: seq<byte>, off: nat): Located {
    if off > MAX_INT64 || Wrap64(off + 32) > |args| then OffsetOutside
    else if off + 32 > |args| then Crash
    else
      var len := FromBE(args[off..off + 32]);
      if len > MAX_INT64 || Wrap64(off + 32 + len) > |args| then LengthOutside
      else if off + 32 + len > |args| then Crash
      else Found(args[off + 32..off + 32 + len])
  }

  /** The offset's or the length's end leaves int64, although the number itself fits. */
  predicate DynamicOverflows(args: seq<byte>, off: nat) {
    || off <= MAX_INT64 < off + 32
    || (off + 32 <= |args| && FromBE(args[off..off + 32]) <= MAX_INT64 < off + 32 + FromBE(args[off..off + 32]))
  }

  /**
    Exactly when the bytes are found, exactly when the guard's own sum leaves int64 and the slice after it panics
    instead of being refused, and exactly when it is the length that is refused and not the offset.
   */
  lemma DynamicAtExact(args: seq<byte>, off: nat)
    requires |args| <= MAX_ALLOC
    ensures var len := if off + 32 <= |args| then FromBE(args[off..off + 32]) else 0;
            && (DynamicAt(args, off).Found? <==> off + 32 <= |args| && off + 32 + len <= |args|)
            && (DynamicAt(args, off).Found? ==> DynamicAt(args, off).data == args[off + 32..off + 32 + len])
            && (DynamicAt(args, off).Crash? <==> DynamicOverflows(args, off))
            && (DynamicAt(args, off).LengthOutside? <==>
                  off + 32 <= |args| && (len > MAX_INT64 || |args| < off + 32 + len <= MAX_INT64))
  {
    if off <= MAX_INT64 < off + 32 {
      assert Wrap64(off + 32) == off + 32 - 0x1_0000_0000_0000_0000;
    }
    if off + 32 <= |args| {
      var len := FromBE(args[off..off + 32]);
      if len <= MAX_INT64 < off + 32 + len {
        assert Wrap64(off + 32 + len) == off + 32 + len - 0x1_0000_0000_0000_0000;
      }
    }
  }

  lemma DynamicAtEncoded(args: seq<byte>, off: nat, b: seq<byte>)
    requires |args| <= MAX_ALLOC && At(args, off, Abi.Bytestring(b))
    ensures DynamicAt(args, off) == Found(b)
  {
    AtSplit(args, off, Abi.Word(|b|), b + Abi.Padding(b));
    AtSplit(args, off + 32, b, Abi.Padding(b));
    AbiRoundTrip.WordValue(|b|);
    DynamicAtExact(args, off);
  }

  /* ---------- Decoded.Word and Decoded.BytesArg ---------- */

  function ArgumentWord(inner: seq<byte>, i: int64): Outcome<seq<byte>> {
    var start := Wrap64(4 + i * 32);
    if i < 0 || Wrap64(start + 32) > |inner| then Err
    else if 0 <= start <= start + 32 <= |inner| then Ok(inner[start..start + 32])
    else Panic
  }

  function BytesArg(inner: seq<byte>, i: int64): Outcome<seq<byte>> {
    var head :- ArgumentWord(inner, i);
    if FromBE(head) > MAX_INT64 || |inner| < 4 then Err
    else
      match DynamicAt(inner[4..], FromBE(head))
      case Found(b) => Ok(b)
      case Crash => Panic
      case _ => Err
  }

  /** For any index: the word is there, or refused, or an end leaves int64 and slicing panics. */
  lemma ArgumentWordExactly(inner: seq<byte>, i: int64)
    requires |inner| <= MAX_ALLOC
    ensures i < 0 ==> ArgumentWord(inner, i) == Err
    ensures 0 <= i <= MAX_ALLOC ==>
              ArgumentWord(inner, i) ==
              if 36 + 32 * i <= |inner| then Ok(inner[4 + 32 * i..36 + 32 * i]) else Err
    ensures i >= 0 ==>
              var start := Wrap64(4 + i * 32);
              ArgumentWord(inner, i).Panic? <==> start > MAX_INT64 - 32 || (start < 0 && start + 32 <= |inner|)
  {
    var start := Wrap64(4 + i * 32);
    if start > MAX_INT64 - 32 {
      assert Wrap64(start + 32) == start + 32 - 0x1_0000_0000_0000_0000;
    } else {
      assert Wrap64(start + 32) == start + 32;
    }
  }

  /** An index on which reading a word panics, whatever the call: its start fits int64 and its end does not. */
  lemma HugeIndexPanics(inner: seq<byte>)
    requires |inner| <= MAX_ALLOC
    ensures ArgumentWord(inner, 0x3ff_ffff_ffff_ffff) == Panic
  {
    assert Wrap64(4 + 0x3ff_ffff_ffff_ffff * 32) == 0x7fff_ffff_ffff_ffe4;
    ArgumentWordExactly(inner, 0x3ff_ffff_ffff_ffff);
  }

  /** A dynamic argument is read exactly when its offset word, its length word and its bytes are all there. */
  lemma BytesArgExactly(inner: seq<byte>, i: nat, b: seq<byte>)
    requires |inner| <= MAX_ALLOC && i <= MAX_ALLOC
    ensures BytesArg(inner, i) == Ok(b) <==>
            && 36 + 32 * i <= |inner|
            && var off := FromBE(inner[4 + 32 * i..36 + 32 * i]);
               && 36 + off <= |inner|
               && var len := FromBE(inner[4 + off..36 + off]);
                  36 + off + len <= |inner| && b == inner[36 + off..36 + off + len]
  {
    hide DynamicAt, FromBE, ArgumentWord;
    ArgumentWordExactly(inner, i);
    if 36 + 32 * i <= |inner| {
      var args, off := inner[4..], FromBE(inner[4 + 32 * i..36 + 32 * i]);
      DynamicAtExact(args, off);
      if off + 32 <= |args| {
        assert args[off..off + 32] == inner[4 + off..36 + off];
        var len := FromBE(args[off..off + 32]);
        if off + 32 + len <= |args| {
          assert args[off + 32..off + 32 + len] == inner[36 + off..36 + off + len];
        }
      }
    }
  }

  lemma ArgumentWordAt(selector: seq<byte>, args: seq<byte>, i: nat, w: seq<byte>)
    requires |selector| == 4 && i <= MAX_ALLOC && |w| == 32 && At(args, 32 * i, w) && |args| < MAX_ALLOC
    ensures ArgumentWord(selector + args, i) == Ok(w)
  {
    var start := 4 + 32 * i;
    assert Wrap64(4 + i * 32) == start && Wrap64(start + 32) == start + 32;
    assert (selector + args)[start..start + 32] == args[32 * i..32 * i + 32];
  }

  /** Reading a dynamic argument panics exactly when its offset can be read and overflows, or its length does. */
  lemma BytesArgPanicsExactly(inner: seq<byte>, i: nat)
    requires |inner| <= MAX_ALLOC && i <= MAX_ALLOC
    ensures BytesArg(inner, i).Panic? <==>
            && 4 + 32 * i + 32 <= |inner|
            && DynamicOverflows(inner[4..], FromBE(inner[4 + 32 * i..4 + 32 * i + 32]))
  {
    hide DynamicAt, FromBE;
    var start := 4 + 32 * i;
    assert Wrap64(4 + i * 32) == start && Wrap64(start + 32) == start + 32;
    if start + 32 <= |inner| {
      DynamicAtExact(inner[4..], FromBE(inner[start..start + 32]));
    }
  }

  /** Any component of canonically encoded arguments that is a dynamic `bytes` is found by its index. */
  lemma BytesArgEncoded(selector: seq<byte>, cs: seq<Abi.Component>, i: nat, b: seq<byte>)
    requires |selector| == 4 && Abi.WellFormed(cs) && i < |cs| <= MAX_ALLOC
    requires cs[i] == Abi.Dynamic(Abi.Bytestring(b)) && |Abi.Tuple(cs)| < MAX_ALLOC
    ensures BytesArg(selector + Abi.Tuple(cs), i) == Ok(b)
  {
    hide ArgumentWord, DynamicAt, Abi.Tuple, Abi.Bytestring;
    var args, off := Abi.Tuple(cs), Abi.ComponentOffset(cs, i);
    assert At(args, 0, Abi.Tuple(cs));
    Abi.ComponentAt(args, 0, cs, i);
    AbiRoundTrip.WordValue(off);
    ArgumentWordAt(selector, args, i, Abi.Word(off));
    assert (selector + args)[4..] == args;
    DynamicAtEncoded(args, off, b);
  }

  /** `BytesArg(1)` of the calldata `SmartAccountAddress` builds is the key it was built from. */
  lemma KeyRecovered(selector: seq<byte>, entryPoint: seq<byte>, key: seq<byte>)
    requires |selector| == 4 && |entryPoint| == 20
    requires |Abi.Tuple(ChainClient.GetAddressArguments(entryPoint, key))| < MAX_ALLOC
    ensures BytesArg(selector + Abi.Tuple(ChainClient.GetAddressArguments(entryPoint, key)), 1) == Ok(key)
  {
    BytesArgEncoded(selector, ChainClient.GetAddressArguments(entryPoint, key), 1, key);
  }

  /* ---------- checkCall ---------- */

  /** The methods of an intent whose selector is the call's. */
  ghost function Matches(intent: Intent, selector: string): set<string> {
    set name | name in intent.selectors && EqualFold(selector, TrimPrefix(intent.selectors[name], "0x"))
  }

  /**
    The verdicts `checkCall` may give. Go ranges over the selector map in any order, so a call that two methods
    match may be reported as either; a method named "" is indistinguishable from none.
   */
  ghost predicate CallVerdict(sender: string, dest: string, value: int, inner: seq<byte>, intent: Intent, v: Verdict) {
    if value != 0 then v == Refused(MovesValue)
    else if !EqualFold(dest, TrimSpace(intent.dest)) then v == Refused(WrongDest)
    else if |inner| < 4 then v == Refused(NoSelector)
    else
      var selector := Hex.Show(inner[..4]);
      var names := Matches(intent, selector);
      || (v == Refused(NotAllowed) && (names == {} || "" in names))
      || (v.Accepted? && v.call.name in names && v.call.name != "" &&
          v.call == Decoded(sender, dest, value, selector, v.call.name, inner))
  }

  /** The call's first four bytes are the selector the intent gives the method, case and prefix aside. */
  ghost predicate Allows(intent: Intent, name: string, inner: seq<byte>)
    requires |inner| >= 4
  {
    name in intent.selectors && ToLower(TrimPrefix(intent.selectors[name], "0x")) == Hex.Show(inner[..4])
  }

  /**
    Each refusal exactly, in order: a value, another contract, no selector, no method of the intent with it; a call
    that passes all of these is accepted, unless the method with no name is among those it matches.
   */
  lemma CallRefusedExactly(
    sender: string, dest: string, value: int, inner: seq<byte>, intent: Intent, v: Verdict)
    requires CallVerdict(sender, dest, value, inner, intent, v)
    ensures v == Refused(MovesValue) <==> value != 0
    ensures v == Refused(WrongDest) <==> value == 0 && ToLower(dest) != ToLower(TrimSpace(intent.dest))
    ensures v == Refused(NoSelector) <==>
            value == 0 && ToLower(dest) == ToLower(TrimSpace(intent.dest)) && |inner| < 4
    ensures value == 0 && ToLower(dest) == ToLower(TrimSpace(intent.dest)) && |inner| >= 4 ==>
              && (v == Refused(NotAllowed) || v.Accepted?)
              && ((forall name :: !Allows(intent, name, inner)) ==> v == Refused(NotAllowed))
              && ((exists name :: Allows(intent, name, inner)) && !Allows(intent, "", inner) ==> v.Accepted?)
              && (v.Accepted? ==>
                    && Allows(intent, v.call.name, inner) && v.call.name != ""
                    && v == Accepted(Decoded(sender, dest, value, Hex.Show(inner[..4]), v.call.name, inner)))
  {
    hide TrimSpace, Hex.Show, ToLower, TrimPrefix;
    if |inner| >= 4 {
      Hex.ShowPlain(inner[..4]);
      var names := Matches(intent, Hex.Show(inner[..4]));
      assert forall name :: name in names <==> Allows(intent, name, inner);
    }
  }

  method CheckCall(sender: string, dest: string, value: int, inner: seq<byte>, intent: Intent) returns (v: Verdict)
    ensures CallVerdict(sender, dest, value, inner, intent, v)
  {
    if value != 0 {
      return Refused(MovesValue);
    }
    if !EqualFold(dest, TrimSpace(intent.dest)) {
      return Refused(WrongDest);
    }
    if |inner| < 4 {
      return Refused(NoSelector);
    }
    var selector := Hex.EncodeHex(inner[..4]);
    var name := "";
    var todo := intent.selectors.Keys;
    while todo != {}
      invariant todo <= intent.selectors.Keys && name == ""
      invariant Matches(intent, selector) <= todo + {""}
      decreases todo
    {
      var candidate :| candidate in todo;
      todo := todo - {candidate};
      if EqualFold(selector, TrimPrefix(intent.selectors[candidate], "0x")) {
        name := candidate;
        break;
      }
    }
    if name == "" {
      return Refused(NotAllowed);
    }
    return Accepted(Decoded(sender, dest, value, selector, name, inner));
  }

  /* ---------- Validate ---------- */

  predicate IsSet(v: string) {
    var t := TrimSpace(v);
    t != "" && t != "0x" && t != "0X"
  }

  predicate HasPaymaster(op: Packed) {
    IsSet(op.paymaster) || IsSet(op.paymasterData)
  }

  /** Either field asks for a paymaster, unless it is empty but for blanks or a bare prefix. */
  lemma PaymasterExactly(op: Packed)
    ensures HasPaymaster(op) <==>
            TrimSpace(op.paymaster) !in {"", "0x", "0X"} || TrimSpace(op.paymasterData) !in {"", "0x", "0X"}
  {
    hide TrimSpace;
  }

  datatype Call = Call(dest: string, value: nat, inner: seq<byte>)

  /** Unwraps `execute(address,uint256,bytes)` calldata. */
  function Unwrap(callData: string): Result<Call, Verdict> {
    var decoded := Hex.Decode(TrimPrefix(TrimSpace(callData), "0x"));
    if decoded.None? then Failure(Refused(NotHex))
    else if |decoded.value| < 4 then Failure(Refused(TooShort))
    else if Hex.Show(decoded.value[..4]) != EXECUTE_SELECTOR then Failure(Refused(NotExecute))
    else UnwrapArguments(decoded.value[4..])
  }

  function UnwrapArguments(args: seq<byte>): Result<Call, Verdict> {
    if |args| < 96 then Failure(Refused(Truncated))
    else
      match DynamicAt(args, FromBE(args[64..96]))
      case OffsetOutside => Failure(Refused(BadOffset))
      case LengthOutside => Failure(Refused(BadLength))
      case Crash => Failure(Panicked)
      case Found(inner) => Success(Call("0x" + Hex.Show(args[12..32]), FromBE(args[32..64]), inner))
  }

  /** Unwrapping panics exactly when the arguments are there and the inner call's offset or length overflows. */
  lemma UnwrapPanicsExactly(args: seq<byte>)
    requires |args| <= MAX_ALLOC
    ensures UnwrapArguments(args) == Failure(Panicked) <==>
            |args| >= 96 && DynamicOverflows(args, FromBE(args[64..96]))
  {
    hide DynamicAt, DynamicOverflows, FromBE, Hex.Show;
    if |args| >= 96 {
      DynamicAtExact(args, FromBE(args[64..96]));
    }
  }

  /** `execute` calldata whose third argument is the word `off`, followed by `rest`. */
  function ExecuteAt(off: nat, rest: seq<byte>): seq<byte> {
    [0xb6, 0x1d, 0x27, 0xf6] + (Zeros(64) + Abi.Word(off) + rest)
  }

  /** A signed operation on which `Validate` panics: the inner call's offset is the largest int64. */
  lemma HugeOffsetPanics()
    ensures Unwrap("0x" + Hex.Show(ExecuteAt(MAX_INT64, []))) == Failure(Panicked)
  {
    hide UnwrapArguments, FromBE, Abi.Word;
    var args := Zeros(64) + Abi.Word(MAX_INT64) + [];
    assert args[64..96] == Abi.Word(MAX_INT64);
    AbiRoundTrip.WordValue(MAX_INT64);
    UnwrapPanicsExactly(args);
    ExecuteUnwraps(args);
  }

  /** Another: the offset is canonical, and the inner call's length is the largest int64. */
  lemma HugeLengthPanics()
    ensures Unwrap("0x" + Hex.Show(ExecuteAt(96, Abi.Word(MAX_INT64)))) == Failure(Panicked)
  {
    hide UnwrapArguments, FromBE, Abi.Word;
    var args := Zeros(64) + Abi.Word(96) + Abi.Word(MAX_INT64);
    assert args[64..96] == Abi.Word(96) && args[96..128] == Abi.Word(MAX_INT64);
    AbiRoundTrip.WordValue(96);
    AbiRoundTrip.WordValue(MAX_INT64);
    UnwrapPanicsExactly(args);
    ExecuteUnwraps(args);
  }

  /** Hexadecimal `execute` calldata is unwrapped by its arguments. */
  lemma ExecuteUnwraps(args: seq<byte>)
    ensures Unwrap("0x" + Hex.Show([0xb6, 0x1d, 0x27, 0xf6] + args)) == UnwrapArguments(args)
  {
    hide UnwrapArguments, Hex.Show, Hex.Decode;
    var data := [0xb6, 0x1d, 0x27, 0xf6] + args;
    Hex.PrefixedPlain(data);
    assert ("0x" + Hex.Show(data))[2..] == Hex.Show(data);
    Hex.DecodeShow(data);
    assert data[..4] == [0xb6, 0x1d, 0x27, 0xf6] && data[4..] == args;
    ExecuteSelectorText();
  }

  lemma ExecuteSelectorText()
    ensures Hex.Show([0xb6, 0x1d, 0x27, 0xf6]) == EXECUTE_SELECTOR
  {
    assert Hex.Show([0xf6]) == "f6" + Hex.Show([]);
    assert Hex.Show([0x27, 0xf6]) == "27" + Hex.Show([0xf6]);
    assert Hex.Show([0x1d, 0x27, 0xf6]) == "1d" + Hex.Show([0x27, 0xf6]);
    assert Hex.Show([0xb6, 0x1d, 0x27, 0xf6]) == "b6" + Hex.Show([0x1d, 0x27, 0xf6]);
  }

  /** What is refused before the call is looked at, for any text: each refusal exactly. */
  lemma UnwrapRefusedExactly(callData: string)
    ensures var digits := TrimPrefix(TrimSpace(callData), "0x");
            var paired := |digits| % 2 == 0 && Hex.IsHex(digits);
            && (Unwrap(callData) == Failure(Refused(NotHex)) <==> !paired)
            && (paired ==>
                  && Hex.Decode(digits).Some?
                  && var data := Hex.Decode(digits).value;
                     && (Unwrap(callData) == Failure(Refused(TooShort)) <==> |data| < 4)
                     && (Unwrap(callData) == Failure(Refused(NotExecute)) <==>
                           |data| >= 4 && data[..4] != [0xb6, 0x1d, 0x27, 0xf6])
                     && (|data| >= 4 && data[..4] == [0xb6, 0x1d, 0x27, 0xf6] ==>
                           Unwrap(callData) == UnwrapArguments(data[4..])))
  {
    hide TrimSpace, Hex.Decode, Hex.IsHex, UnwrapArguments, Hex.Show;
    var digits := TrimPrefix(TrimSpace(callData), "0x");
    Hex.DecodesExactly(digits);
    if Hex.Decode(digits).Some? {
      var data := Hex.Decode(digits).value;
      if |data| >= 4 {
        Hex.DecodeShow(data[..4]);
        Hex.DecodeShow([0xb6, 0x1d, 0x27, 0xf6]);
        ExecuteSelectorText();
        ArgumentsRefusedExactly(data[4..]);
      }
    }
  }

  /** The arguments of `execute`: too short, or a bad offset, or a bad length, or the call they hold. */
  lemma ArgumentsRefusedExactly(args: seq<byte>)
    ensures UnwrapArguments(args) == Failure(Refused(Truncated)) <==> |args| < 96
    ensures UnwrapArguments(args) == Failure(Refused(BadOffset)) <==>
            |args| >= 96 && DynamicAt(args, FromBE(args[64..96])).OffsetOutside?
    ensures UnwrapArguments(args) == Failure(Refused(BadLength)) <==>
            |args| >= 96 && DynamicAt(args, FromBE(args[64..96])).LengthOutside?
    ensures UnwrapArguments(args).Failure? ==>
              UnwrapArguments(args).error in {Refused(Truncated), Refused(BadOffset), Refused(BadLength), Panicked}
    ensures UnwrapArguments(args).Success? ==>
              && |args| >= 96
              && UnwrapArguments(args).value.dest == "0x" + Hex.Show(args[12..32])
              && UnwrapArguments(args).value.value == FromBE(args[32..64])
              && DynamicAt(args, FromBE(args[64..96])) == Found(UnwrapArguments(args).value.inner)
  {
    hide DynamicAt, FromBE, Hex.Show;
  }

  predicate SenderMatches(sender: string, expected: string) {
    EqualFold(TrimSpace(sender), TrimSpace(expected))
  }

  predicate IsUnsigned(op: Packed) {
    TrimSpace(op.signature) == "" || op.signature == "0x"
  }

  lemma UnsignedExactly(op: Packed)
    ensures IsUnsigned(op) <==> TrimSpace(op.signature) == "" || op.signature == "0x"
  {
  }

  ghost predicate OperationVerdict(op: Packed, intent: Intent, expectedSender: string, v: Verdict) {
    if !SenderMatches(op.sender, expectedSender) then v == Refused(WrongSender)
    else if IsUnsigned(op) then v == Refused(Unsigned)
    else if Unwrap(op.callData).Failure? then v == Unwrap(op.callData).error
    else if intent.refusePaymaster && HasPaymaster(op) then v == Refused(PaymasterRefused)
    else
      var call := Unwrap(op.callData).value;
      CallVerdict(op.sender, call.dest, call.value, call.inner, intent, v)
  }

  /** `Validate`. */
  method Validate(op: Option<Packed>, intent: Intent, expectedSender: string) returns (v: Verdict)
    ensures op.None? ==> v == Refused(NoOperation)
    ensures op.Some? ==> OperationVerdict(op.value, intent, expectedSender, v)
    ensures v.Accepted? ==>
              && op.Some? && EqualFold(TrimSpace(op.value.sender), TrimSpace(expectedSender))
              && TrimSpace(op.value.signature) != "" && op.value.signature != "0x"
              && (intent.refusePaymaster ==>
                    && TrimSpace(op.value.paymaster) in {"", "0x", "0X"}
                    && TrimSpace(op.value.paymasterData) in {"", "0x", "0X"})
    ensures v == Refused(PaymasterRefused) <==>
              && op.Some? && EqualFold(TrimSpace(op.value.sender), TrimSpace(expectedSender))
              && TrimSpace(op.value.signature) != "" && op.value.signature != "0x"
              && Unwrap(op.value.callData).Success?
              && intent.refusePaymaster
              && !(&& TrimSpace(op.value.paymaster) in {"", "0x", "0X"}
                   && TrimSpace(op.value.paymasterData) in {"", "0x", "0X"})
    ensures (&& op.Some? && EqualFold(TrimSpace(op.value.sender), TrimSpace(expectedSender))
             && TrimSpace(op.value.signature) != "" && op.value.signature != "0x"
             && Unwrap(op.value.callData).Failure?) ==> v == Unwrap(op.value.callData).error
    ensures v == Refused(WrongSender) <==>
              op.Some? && !EqualFold(TrimSpace(op.value.sender), TrimSpace(expectedSender))
    ensures v == Refused(Unsigned) <==>
              && op.Some? && EqualFold(TrimSpace(op.value.sender), TrimSpace(expectedSender))
              && (TrimSpace(op.value.signature) == "" || op.value.signature == "0x")
  {
    if op.None? {
      return Refused(NoOperation);
    }
    if !SenderMatches(op.value.sender, expectedSender) {
      return Refused(WrongSender);
    }
    if IsUnsigned(op.value) {
      return Refused(Unsigned);
    }
    var call := Unwrap(op.value.callData);
    if call.Failure? {
      return call.error;
    }
    if intent.refusePaymaster && HasPaymaster(op.value) {
      return Refused(PaymasterRefused);
    }
    v := CheckCall(op.value.sender, call.value.dest, call.value.value, call.value.inner, intent);
  }

  /* ---------- ValidateTransaction ---------- */

  predicate AddressAmong(addr: string, candidates: seq<string>) {
    TrimSpace(addr) != "" &&
    exists c :: c in candidates && TrimSpace(c) != "" && EqualFold(TrimSpace(addr), TrimSpace(c))
  }

  /** Some candidate that is not blank equals the address, which is not blank either, up to case and blanks around. */
  lemma AmongExactly(addr: string, candidates: seq<string>)
    ensures AddressAmong(addr, candidates) <==>
            exists i :: 0 <= i < |candidates| && TrimSpace(candidates[i]) != ""
                        && ToLower(TrimSpace(candidates[i])) == ToLower(TrimSpace(addr))
  {
    hide TrimSpace, ToLower;
    if i :| 0 <= i < |candidates| && TrimSpace(candidates[i]) != ""
            && ToLower(TrimSpace(candidates[i])) == ToLower(TrimSpace(addr)) {
      assert candidates[i] in candidates;
      assert |TrimSpace(addr)| == |ToLower(TrimSpace(addr))| == |TrimSpace(candidates[i])|;
    }
  }

  method AnyAddressMatches(addr: string, candidates: seq<string>) returns (found: bool)
    ensures found == AddressAmong(addr, candidates)
  {
    var a := TrimSpace(addr);
    if a == "" {
      return false;
    }
    for i := 0 to |candidates|
      invariant forall j :: 0 <= j < i ==> TrimSpace(candidates[j]) == "" || !EqualFold(a, TrimSpace(candidates[j]))
    {
      var c := TrimSpace(candidates[i]);
      if c != "" && EqualFold(a, c) {
        return true;
      }
    }
    return false;
  }

  ghost predicate TransactionVerdict(
    from: string, to: string, input: seq<byte>, value: Option<int>, intent: Intent, allowed: seq<string>, v: Verdict)
  {
    if !AddressAmong(from, allowed) then v == Refused(WrongSender)
    else CallVerdict(from, to, if value.None? then 0 else value.value, input, intent, v)
  }

  /** A transaction without a value is one of value zero, and the sender is checked before anything else. */
  lemma TransactionExactly(
    from: string, to: string, input: seq<byte>, value: Option<int>, intent: Intent, allowed: seq<string>, v: Verdict)
    requires TransactionVerdict(from, to, input, value, intent, allowed, v)
    ensures v == Refused(WrongSender) <==> !AddressAmong(from, allowed)
    ensures AddressAmong(from, allowed) && value == None ==> CallVerdict(from, to, 0, input, intent, v)
    ensures AddressAmong(from, allowed) && value.Some? ==> CallVerdict(from, to, value.value, input, intent, v)
  {
    hide AddressAmong;
  }

  method ValidateTransaction(
    from: string, to: string, input: seq<byte>, value: Option<int>, intent: Intent, allowed: seq<string>)
    returns (v: Verdict)
    ensures TransactionVerdict(from, to, input, value, intent, allowed, v)
  {
    var known := AnyAddressMatches(from, allowed);
    if !known {
      return Refused(WrongSender);
    }
    v := CheckCall(from, to, if value.None? then 0 else value.value, input, intent);
  }

  /* ---------- one rule, two transports ---------- */

  function ExecuteArguments(dest: seq<byte>, value: nat, inner: seq<byte>): (cs: seq<Abi.Component>)
    requires |dest| == 20
    ensures |cs| == 3 && Abi.WellFormed(cs)
  {
    [Abi.Static(Abi.AddressWord(dest)), Abi.Static(Abi.Word(value)), Abi.Dynamic(Abi.Bytestring(inner))]
  }

  /** `execute(dest, value, inner)` as canonical calldata. */
  function Wrapped(dest: seq<byte>, value: nat, inner: seq<byte>): seq<byte>
    requires |dest| == 20
  {
    [0xb6, 0x1d, 0x27, 0xf6] + Abi.Tuple(ExecuteArguments(dest, value, inner))
  }

  lemma ArgumentsUnwrapped(dest: seq<byte>, value: nat, inner: seq<byte>)
    requires |dest| == 20 && value < Pow256(32)
    requires |Abi.Tuple(ExecuteArguments(dest, value, inner))| <= MAX_ALLOC
    ensures UnwrapArguments(Abi.Tuple(ExecuteArguments(dest, value, inner)))
         == Success(Call(AbiDecoder.HexAddress(dest), value, inner))
  {
    hide DynamicAt, FromBE, Abi.Tuple, Abi.Word, Abi.AddressWord, Abi.Bytestring;
    var cs := ExecuteArguments(dest, value, inner);
    var args := Abi.Tuple(cs);
    ArgumentsFit(dest, value, inner);
    assert At(args, 0, Abi.Tuple(cs));
    Abi.StaticAt(args, 0, cs, 0, 0);
    Abi.StaticAt(args, 0, cs, 1, 32);
    AddressBytes(args, dest);
    WordRead(args, 32, value);
    var off := Abi.ComponentOffset(cs, 2);
    Abi.ComponentAt(args, 0, cs, 2);
    assert args[64..96] == Abi.Word(off);
    AbiRoundTrip.WordValue(off);
    DynamicAtEncoded(args, off, inner);
  }

  lemma ArgumentsFit(dest: seq<byte>, value: nat, inner: seq<byte>)
    requires |dest| == 20
    ensures |Abi.Tuple(ExecuteArguments(dest, value, inner))| >= 96
  {
    Abi.HeadsLength(ExecuteArguments(dest, value, inner), 96);
  }

  lemma AddressBytes(args: seq<byte>, dest: seq<byte>)
    requires |dest| == 20 && At(args, 0, Abi.AddressWord(dest))
    ensures |args| >= 32 && args[12..32] == dest
  {
    assert args[0..32][12..] == args[12..32];
    assert Abi.AddressWord(dest)[12..] == dest;
  }

  lemma WordRead(args: seq<byte>, p: nat, value: nat)
    requires value < Pow256(32) && At(args, p, Abi.Word(value))
    ensures p + 32 <= |args| && FromBE(args[p..p + 32]) == value
  {
    ToBEInverse(value, 32);
  }

  lemma WrappedUnwraps(dest: seq<byte>, value: nat, inner: seq<byte>)
    requires |dest| == 20 && value < Pow256(32) && |Wrapped(dest, value, inner)| <= MAX_ALLOC
    ensures Unwrap("0x" + Hex.Show(Wrapped(dest, value, inner)))
         == Success(Call(AbiDecoder.HexAddress(dest), value, inner))
  {
    hide Unwrap, UnwrapArguments;
    ExecuteUnwraps(Abi.Tuple(ExecuteArguments(dest, value, inner)));
    ArgumentsUnwrapped(dest, value, inner);
  }

  /**
    A signed operation that canonically wraps a call, and the bare call sent as a transaction by the same account,
    can meet exactly the same verdicts: same acceptance, same refusal, same decoded call.
   */
  lemma {:induction false} OneRuleTwoTransports(
    op: Packed, intent: Intent, expectedSender: string, dest: seq<byte>, value: nat, inner: seq<byte>, v: Verdict)
    requires |dest| == 20 && value < Pow256(32) && |Wrapped(dest, value, inner)| <= MAX_ALLOC
    requires op.callData == "0x" + Hex.Show(Wrapped(dest, value, inner))
    requires !IsUnsigned(op) && !(intent.refusePaymaster && HasPaymaster(op)) && TrimSpace(op.sender) != ""
    ensures OperationVerdict(op, intent, expectedSender, v) <==>
            TransactionVerdict(op.sender, AbiDecoder.HexAddress(dest), inner, Some(value), intent, [expectedSender], v)
  {
    hide Unwrap, CallVerdict, Wrapped;
    WrappedUnwraps(dest, value, inner);
    SenderRulesAgree(op.sender, expectedSender);
  }

  /** The two sender rules agree except that two blank addresses satisfy `Validate` alone. */
  lemma SenderRulesAgree(sender: string, expected: string)
    ensures SenderMatches(sender, expected) == AddressAmong(sender, [expected]) <==>
            !(TrimSpace(sender) == "" && TrimSpace(expected) == "")
  {
    assert expected in [expected];
  }

  /** With no two methods sharing a selector, the verdict does not depend on the order of the map. */
  lemma VerdictIndependentOfOrder(
    sender: string, dest: string, value: int, inner: seq<byte>, intent: Intent, v: Verdict, w: Verdict)
    requires forall a, b :: a in intent.selectors && b in intent.selectors && a != b ==>
               !EqualFold(TrimPrefix(intent.selectors[a], "0x"), TrimPrefix(intent.selectors[b], "0x"))
    requires CallVerdict(sender, dest, value, inner, intent, v)
    requires CallVerdict(sender, dest, value, inner, intent, w)
    ensures v == w
  {
    if |inner| >= 4 {
      var names := Matches(intent, Hex.Show(inner[..4]));
      assert forall a, b :: a in names && b in names ==> a == b;
    }
  }

  /** Without that, it can: two names for one selector give two verdicts. */
  lemma SharedSelectorIsAmbiguous(sender: string, dest: string, inner: seq<byte>)
    requires |inner| == 4
    ensures var s := Hex.Show(inner);
            var intent := Intent(dest, map["add" := s, "remove" := s], false);
            TrimSpace(dest) == dest ==>
              && CallVerdict(sender, dest, 0, inner, intent, Accepted(Decoded(sender, dest, 0, s, "add", inner)))
              && CallVerdict(sender, dest, 0, inner, intent, Accepted(Decoded(sender, dest, 0, s, "remove", inner)))
  {
    var s := Hex.Show(inner);
    Hex.ShowPlain(inner);
    assert inner[..4] == inner;
    var intent := Intent(dest, map["add" := s, "remove" := s], false);
    assert "add" in Matches(intent, s) && "remove" in Matches(intent, s);
  }

  /**
    The authorization an accepted call carries: it moves nothing, its target is the intent's and its first four
    bytes are one of the intent's selectors.
   */
  lemma AcceptedIsAuthorized(sender: string, dest: string, value: int, inner: seq<byte>, intent: Intent, v: Verdict)
    requires CallVerdict(sender, dest, value, inner, intent, v) && v.Accepted?
    ensures v.call.value == 0 && v.call.sender == sender && v.call.inner == inner
    ensures ToLower(v.call.dest) == ToLower(TrimSpace(intent.dest))
    ensures v.call.name in intent.selectors && |inner| >= 4
    ensures Hex.Decode(TrimPrefix(intent.selectors[v.call.name], "0x")) == Some(inner[..4])
  {
    Hex.DecodeShow(inner[..4]);
    Hex.DecodeFold(v.call.selector);
    Hex.DecodeFold(TrimPrefix(intent.selectors[v.call.name], "0x"));
  }
}
