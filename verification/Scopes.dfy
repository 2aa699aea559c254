/** The scope bytes of a sub-key: `applyScope` and `beUint64`, backend/internal/api/handlers_keys.go:168-229. */
module Scopes {
  import opened Bytes
  import opened Outcomes
  import opened Strings
  import Hex

  /** What a key may be constrained to. */
  datatype Scope =
    | EvmUserOp(entryPoint: seq<byte>, chainID: nat, sender: seq<byte>)
    | SolanaTx(wallet: seq<byte>)
    | Eip712(chainID: nat, verifyingContract: seq<byte>, typeHash: seq<byte>)

  predicate WellFormed(s: Scope) {
    match s
    case EvmUserOp(entryPoint, chainID, sender) =>
      |entryPoint| == 20 && chainID < 0x1_0000_0000_0000_0000 && |sender| == 20
    case SolanaTx(wallet) => |wallet| == 32
    case Eip712(chainID, verifyingContract, typeHash) =>
      chainID < 0x1_0000_0000_0000_0000 && |verifyingContract| == 20 && |typeHash| == 32
  }

  /** A scheme byte, then the scheme's fields. */
  function Encoded(s: Scope): seq<byte> {
    match s
    case EvmUserOp(entryPoint, chainID, sender) => [1] + entryPoint + ToBE(chainID, 8) + sender
    case SolanaTx(wallet) => [2] + wallet
    case Eip712(chainID, verifyingContract, typeHash) => [3] + ToBE(chainID, 8) + verifyingContract + typeHash
  }

  /** The record's columns; absent ones are empty. */
  datatype Columns = Columns(kind: string, chainID: Option<int64>, scopeContract: string, typeHash: string)

  const UNSCOPED := Columns("unscoped", None, "", "")

  datatype ScopeError = NotHex | WrongLength | UnknownScheme

  /** `int64(v)` of a 64-bit word. */
  function Signed(n: nat): int64
    requires n < 0x1_0000_0000_0000_0000
  {
    if n < 0x8000_0000_0000_0000 then n else n - 0x1_0000_0000_0000_0000
  }

  function Shown(s: Scope): Columns
    requires WellFormed(s)
  {
    match s
    case EvmUserOp(_, chainID, sender) => Columns("evm_userop", Some(Signed(chainID)), "0x" + Hex.Show(sender), "")
    case SolanaTx(_) => Columns("solana_tx", None, "", "")
    case Eip712(chainID, verifyingContract, typeHash) =>
      Columns("eip712", Some(Signed(chainID)), "0x" + Hex.Show(verifyingContract), "0x" + Hex.Show(typeHash))
  }

  lemma WordBound(b: seq<byte>)
    requires |b| <= 8
    ensures FromBE(b) < 0x1_0000_0000_0000_0000
    ensures |b| < 8 ==> FromBE(b) < 0x100_0000_0000_0000
  {
    FromBEInverse(b);
    Pow256Monotone(|b|, 8);
    assert Pow256(4) == 0x1_0000_0000;
    assert Pow256(7) == 0x100_0000_0000_0000;
    assert Pow256(8) == 0x1_0000_0000_0000_0000;
    if |b| < 8 {
      Pow256Monotone(|b|, 7);
    }
  }

  /** `beUint64`: shifts bytes into an int64, so a word of 2^63 or more comes out negative. */
  method BEUint64(b: seq<byte>) returns (r: Option<int64>)
    ensures |b| != 8 ==> r == None
    ensures |b| == 8 ==> FromBE(b) < 0x1_0000_0000_0000_0000 && r == Some(Signed(FromBE(b)))
  {
    if |b| != 8 {
      return None;
    }
    var v: int64 := 0;
    for i := 0 to 8
      invariant i < 8 ==> v == FromBE(b[..i])
      invariant FromBE(b[..i]) < 0x1_0000_0000_0000_0000 && v == Signed(FromBE(b[..i]))
    {
      WordBound(b[..i]);
      WordBound(b[..i + 1]);
      assert b[..i + 1][..i] == b[..i];
      var shifted: int := v * 256 + b[i];
      v := if shifted < 0x8000_0000_0000_0000 then shifted else shifted - 0x1_0000_0000_0000_0000;
      if i < 7 {
        WordBound(b[..i + 1]);
      }
    }
    assert b[..8] == b;
    return Some(v);
  }

  /** What the bytes say, or why they say nothing. */
  function Parsed(raw: seq<byte>): Result<Columns, ScopeError> {
    if raw == [] || raw[0] == 0 then Success(UNSCOPED)
    else if raw[0] == 1 then
      if |raw| != 49 then Failure(WrongLength)
      else
        WordBound(raw[21..29]);
        Success(Columns("evm_userop", Some(Signed(FromBE(raw[21..29]))), "0x" + Hex.Show(raw[29..49]), ""))
    else if raw[0] == 2 then
      if |raw| != 33 then Failure(WrongLength) else Success(Columns("solana_tx", None, "", ""))
    else if raw[0] == 3 then
      if |raw| != 61 then Failure(WrongLength)
      else
        WordBound(raw[1..9]);
        Success(Columns("eip712", Some(Signed(FromBE(raw[1..9]))), "0x" + Hex.Show(raw[9..29]),
                        "0x" + Hex.Show(raw[29..61])))
    else Failure(UnknownScheme)
  }

  /** `auth.DecodeHex`. */
  function DecodeText(text: string): Option<seq<byte>> {
    Hex.Decode(TrimPrefix(TrimSpace(text), "0x"))
  }

  function ParsedText(text: string): Result<Columns, ScopeError> {
    if TrimSpace(text) == "" then Success(UNSCOPED)
    else if DecodeText(text).None? then Failure(NotHex)
    else Parsed(DecodeText(text).value)
  }

  method ApplyScope(scopeHex: string) returns (r: Result<Columns, ScopeError>)
    ensures r == ParsedText(scopeHex)
  {
    hide FromBE, Signed, Hex.Decode, Hex.Show;
    var rec := UNSCOPED;
    if TrimSpace(scopeHex) == "" {
      return Success(rec);
    }
    var decoded := DecodeText(scopeHex);
    if decoded.None? {
      return Failure(NotHex);
    }
    var raw := decoded.value;
    if |raw| == 0 {
      return Success(rec);
    }
    match raw[0] {
      case 0 => return Success(rec);
      case 1 =>
        if |raw| != 49 {
          return Failure(WrongLength);
        }
        var chain := BEUint64(raw[21..29]);
        rec := rec.(kind := "evm_userop", chainID := chain, scopeContract := "0x" + Hex.Show(raw[29..49]));
      case 2 =>
        if |raw| != 33 {
          return Failure(WrongLength);
        }
        rec := rec.(kind := "solana_tx");
      case 3 =>
        if |raw| != 61 {
          return Failure(WrongLength);
        }
        var chain := BEUint64(raw[1..9]);
        rec := rec.(kind := "eip712", chainID := chain, scopeContract := "0x" + Hex.Show(raw[9..29]),
                    typeHash := "0x" + Hex.Show(raw[29..61]));
      case _ => return Failure(UnknownScheme);
    }
    return Success(rec);
  }

  /* ---------- every scope is read back, and nothing else is ---------- */

  lemma FourParts(a: seq<byte>, b: seq<byte>, c: seq<byte>, d: seq<byte>)
    ensures var raw := a + b + c + d;
            && raw[|a|..|a| + |b|] == b && raw[|a| + |b|..|a| + |b| + |c|] == c && raw[|a| + |b| + |c|..] == d
  {
  }

  lemma ParseEncoded(s: Scope)
    requires WellFormed(s)
    ensures Parsed(Encoded(s)) == Success(Shown(s))
  {
    hide Hex.Show, FromBE, ToBE;
    var raw := Encoded(s);
    match s
    case EvmUserOp(entryPoint, chainID, sender) =>
      Fits64(chainID, 8);
      ToBEInverse(chainID, 8);
      FourParts([1], entryPoint, ToBE(chainID, 8), sender);
      assert raw[29..49] == raw[29..];
    case SolanaTx(_) =>
    case Eip712(chainID, verifyingContract, typeHash) =>
      Fits64(chainID, 8);
      ToBEInverse(chainID, 8);
      FourParts([3], ToBE(chainID, 8), verifyingContract, typeHash);
      assert raw[29..61] == raw[29..];
  }

  /** Bytes are shown as constrained only when they are the encoding of that constraint. */
  lemma ParsedIsEncoded(raw: seq<byte>) returns (s: Scope)
    requires Parsed(raw).Success? && Parsed(raw).value.kind != "unscoped"
    ensures WellFormed(s) && Encoded(s) == raw
  {
    hide Hex.Show, FromBE, ToBE;
    if raw[0] == 1 {
      WordBound(raw[21..29]);
      FromBEInverse(raw[21..29]);
      s := EvmUserOp(raw[1..21], FromBE(raw[21..29]), raw[29..49]);
      assert raw == [1] + raw[1..21] + raw[21..29] + raw[29..49];
    } else if raw[0] == 2 {
      s := SolanaTx(raw[1..]);
      assert raw == [2] + raw[1..];
    } else {
      WordBound(raw[1..9]);
      FromBEInverse(raw[1..9]);
      s := Eip712(FromBE(raw[1..9]), raw[9..29], raw[29..61]);
      assert raw == [3] + raw[1..9] + raw[9..29] + raw[29..61];
    }
  }

  /** A constrained key is never shown as unrestricted: a nonzero scheme byte is read as its scope or refused. */
  lemma NeverShownUnscoped(raw: seq<byte>)
    ensures Parsed(raw) == Success(UNSCOPED) <==> raw == [] || raw[0] == 0
  {
  }

  /** What is refused: a scheme byte above 3, and a known scheme whose fields do not fill their lengths exactly. */
  lemma RefusedExactly(raw: seq<byte>)
    ensures Parsed(raw) == Failure(UnknownScheme) <==> raw != [] && raw[0] > 3
    ensures Parsed(raw) == Failure(WrongLength) <==>
            raw != [] && ((raw[0] == 1 && |raw| != 1 + 20 + 8 + 20) || (raw[0] == 2 && |raw| != 1 + 32)
                          || (raw[0] == 3 && |raw| != 1 + 8 + 20 + 32))
    ensures Parsed(raw) != Failure(NotHex)
  {
  }

  /** Text between blanks: none is unscoped, digits in pairs are their bytes, anything else is not hexadecimal. */
  lemma ScopeTextExactly(l: string, t: string, r: string)
    requires AllBlank(l) && AllBlank(r) && (t == "" || (t[0] !in BLANKS && t[|t| - 1] !in BLANKS))
    ensures var digits := if "0x" <= t then t[2..] else t;
            var paired := |digits| % 2 == 0 && Hex.IsHex(digits);
            && (t == "" ==> ParsedText(l + t + r) == Success(Columns("unscoped", None, "", "")))
            && (t != "" && paired ==>
                  Hex.Decode(digits).Some? && ParsedText(l + t + r) == Parsed(Hex.Decode(digits).value))
            && (t != "" && !paired ==> ParsedText(l + t + r) == Failure(NotHex))
  {
    hide Parsed, Hex.Decode, TrimSpace;
    TrimSpaceOf(l, t, r);
    Hex.DecodesExactly(if "0x" <= t then t[2..] else t);
  }

  /** The chain id shown is the one in the scope exactly when it is below 2^63. */
  lemma ChainShownExactly(s: Scope)
    requires WellFormed(s) && !s.SolanaTx?
    ensures Parsed(Encoded(s)).Success?
    ensures Parsed(Encoded(s)).value.chainID == Some(s.chainID) <==> s.chainID < 0x8000_0000_0000_0000
  {
    ParseEncoded(s);
  }

  /** The hexadecimal text of a scope, with its prefix, is read back. */
  lemma ScopeTextRead(s: Scope)
    requires WellFormed(s)
    ensures ParsedText("0x" + Hex.Show(Encoded(s))) == Success(Shown(s))
  {
    hide Parsed, Encoded, Shown, Hex.Show, Hex.Decode;
    var text := Hex.Show(Encoded(s));
    Hex.PrefixedPlain(Encoded(s));
    Hex.DecodeShow(Encoded(s));
    ParseEncoded(s);
    assert ("0x" + text)[2..] == text;
    assert TrimSpace("0x" + text) != "";
  }
}
