/** The hexadecimal text codecs: `decodeHex`/`encodeHex` of chain/abi.go and Go's `encoding/hex`. */
module Hex {
  import opened Outcomes
  import opened Bytes
  import opened Strings

  function Nibble(c: char): (r: Option<byte>)
    ensures r.Some? ==> r.value < 16
  {
    if '0' <= c <= '9' then Some(c as int - '0' as int)
    else if 'a' <= c <= 'f' then Some(c as int - 'a' as int + 10)
    else if 'A' <= c <= 'F' then Some(c as int - 'A' as int + 10)
    else None
  }

  function Digit(n: nat): (c: char)
    requires n < 16
    ensures Nibble(c) == Some(n) && LowerChar(c) == c && !IsSpace(c)
  {
    if n < 10 then ('0' as int + n) as char else ('a' as int + n - 10) as char
  }

  /** Two lower-case digits per byte. */
  function Show(b: seq<byte>): (t: string)
    ensures |t| == 2 * |b|
  {
    if b == [] then "" else [Digit(b[0] / 16), Digit(b[0] % 16)] + Show(b[1..])
  }

  function Pair(hi: char, lo: char): Option<byte> {
    if Nibble(hi).None? || Nibble(lo).None? then None
    else Some(Nibble(hi).value * 16 + Nibble(lo).value)
  }

  lemma PairDigits(b: byte)
    ensures Pair(Digit(b / 16), Digit(b % 16)) == Some(b)
  {
  }

  /** Go's strict `hex.DecodeString`: an even number of digits, either case. */
  function Decode(t: string): Option<seq<byte>> {
    if t == "" then Some([])
    else if |t| == 1 then None
    else
      var b, rest := Pair(t[0], t[1]), Decode(t[2..]);
      if b.None? || rest.None? then None else Some([b.value] + rest.value)
  }

  lemma {:induction false} DecodeShow(b: seq<byte>)
    ensures Decode(Show(b)) == Some(b)
  {
    if b != [] {
      assert Show(b)[2..] == Show(b[1..]);
      DecodeShow(b[1..]);
      PairDigits(b[0]);
      assert [b[0]] + b[1..] == b;
    }
  }

  lemma {:induction false} ShowAt(b: seq<byte>, i: nat)
    requires i < |b|
    ensures Show(b)[2 * i] == Digit(b[i] / 16) && Show(b)[2 * i + 1] == Digit(b[i] % 16)
  {
    if i > 0 {
      ShowAt(b[1..], i - 1);
    }
  }

  lemma {:induction false} DigitsInShow(b: seq<byte>)
    ensures forall c :: c in Show(b) ==> LowerChar(c) == c && !IsSpace(c) && Nibble(c).Some?
  {
    if b != [] {
      DigitsInShow(b[1..]);
    }
  }

  /** Hexadecimal text is lower-case and has no blanks. */
  lemma ShowPlain(b: seq<byte>)
    ensures ToLower(Show(b)) == Show(b)
    ensures TrimSpace(Show(b)) == Show(b)
    ensures !("0x" <= Show(b))
  {
    DigitsInShow(b);
    var t := Show(b);
    assert forall i :: 0 <= i < |t| ==> t[i] in t;
    assert |t| >= 2 ==> t[1] != 'x';
    assert "0x"[1] == 'x';
    TrimSolid(t);
  }

  lemma PrefixedPlain(b: seq<byte>)
    ensures ToLower("0x" + Show(b)) == "0x" + Show(b)
    ensures TrimSpace("0x" + Show(b)) == "0x" + Show(b)
  {
    DigitsInShow(b);
    var t := "0x" + Show(b);
    assert forall i :: 2 <= i < |t| ==> t[i] == Show(b)[i - 2] && t[i] in Show(b);
    TrimSolid(t);
  }

  lemma {:induction false} DecodeLength(t: string)
    ensures Decode(t).Some? ==> |t| == 2 * |Decode(t).value|
  {
    if |t| >= 2 {
      DecodeLength(t[2..]);
    }
  }

  predicate IsHexDigit(c: char) {
    '0' <= c <= '9' || 'a' <= c <= 'f' || 'A' <= c <= 'F'
  }

  /** Digits of either case alone. */
  predicate IsHex(t: string) {
    forall i :: 0 <= i < |t| ==> IsHexDigit(t[i])
  }

  /** Strict decoding succeeds on exactly the texts of even length that hold digits alone. */
  lemma {:induction false} DecodesExactly(t: string)
    ensures Decode(t).Some? <==> |t| % 2 == 0 && IsHex(t)
  {
    if |t| >= 2 {
      DecodesExactly(t[2..]);
      assert t == [t[0], t[1]] + t[2..];
    }
  }

  lemma {:induction false} DecodeFold(t: string)
    ensures Decode(ToLower(t)) == Decode(t)
  {
    if |t| >= 2 {
      assert ToLower(t)[2..] == ToLower(t[2..]);
      DecodeFold(t[2..]);
    }
  }

  /** `encodeHex`: fills a buffer of twice the length. */
  method EncodeHex(b: seq<byte>) returns (text: string)
    ensures text == Show(b)
  {
    hide Show, Digit;
    var out := new char[2 * |b|](_ => '0');
    for i := 0 to |b|
      invariant out[..2 * i] == Show(b)[..2 * i]
    {
      out[2 * i], out[2 * i + 1] := Digit(b[i] / 16), Digit(b[i] % 16);
      ShowAt(b, i);
      assert out[..2 * i + 2] == out[..2 * i] + [out[2 * i], out[2 * i + 1]];
      assert Show(b)[..2 * i + 2] == Show(b)[..2 * i] + [Show(b)[2 * i], Show(b)[2 * i + 1]];
    }
    text := out[..];
  }

  /** What `decodeHex` accepts: blanks around, either case, an optional 0x, and an implied leading zero. */
  function Canonical(s: string): string {
    PadEven(TrimPrefix(TrimSpace(ToLower(s)), "0x"))
  }

  function PadEven(t: string): string {
    if |t| % 2 == 1 then "0" + t else t
  }

  lemma {:induction false} DecodeStep(t: string, i: nat)
    requires 2 * i + 1 < |t|
    ensures Decode(t[2 * i..]) ==
            if Pair(t[2 * i], t[2 * i + 1]).None? || Decode(t[2 * i + 2..]).None? then None
            else Some([Pair(t[2 * i], t[2 * i + 1]).value] + Decode(t[2 * i + 2..]).value)
  {
    assert t[2 * i..][2..] == t[2 * i + 2..];
  }

  /** The number a text of digits denotes. */
  function FromHex(t: string): nat
    requires IsHex(t)
  {
    if t == "" then 0 else FromHex(t[..|t| - 1]) * 16 + Nibble(t[|t| - 1]).value
  }

  lemma {:induction false} LeadingZero(t: string)
    requires IsHex(t)
    ensures FromHex("0" + t) == FromHex(t)
  {
    if t == "" {
      assert ("0" + t)[..0] == "";
    } else {
      assert ("0" + t)[..|t|] == "0" + t[..|t| - 1];
      LeadingZero(t[..|t| - 1]);
    }
  }

  lemma {:induction false} DecodeInit(t: string, hi: char, lo: char)
    requires Decode(t).Some? && IsHexDigit(hi) && IsHexDigit(lo)
    ensures Decode(t + [hi, lo]) == Some(Decode(t).value + [Pair(hi, lo).value])
  {
    var all := t + [hi, lo];
    if t == "" {
      assert all[0] == hi && all[1] == lo && all[2..] == "";
      assert [] + [Pair(hi, lo).value] == [Pair(hi, lo).value] + [];
    } else {
      assert all[2..] == t[2..] + [hi, lo];
      DecodeInit(t[2..], hi, lo);
      var rest := Decode(t[2..]).value;
      assert Decode(t).value == [Pair(t[0], t[1]).value] + rest;
      assert [Pair(t[0], t[1]).value] + (rest + [Pair(hi, lo).value]) ==
             [Pair(t[0], t[1]).value] + rest + [Pair(hi, lo).value];
    }
  }

  lemma {:induction false} DecodedNumber(t: string)
    requires |t| % 2 == 0 && IsHex(t)
    ensures Decode(t).Some? && FromBE(Decode(t).value) == FromHex(t)
  {
    DecodesExactly(t);
    if t != "" {
      hide Decode, Nibble, FromHex, FromBE;
      var n := |t| - 2;
      var init := t[..n];
      DecodedNumber(init);
      DecodeInit(init, t[n], t[n + 1]);
      assert t == init + [t[n], t[n + 1]];
      TwoMoreDigits(init, t[n], t[n + 1]);
      OneMoreByte(Decode(init).value, Pair(t[n], t[n + 1]).value);
    } else {
      assert FromBE([]) == FromHex("");
    }
  }

  lemma TwoMoreDigits(t: string, hi: char, lo: char)
    requires IsHexDigit(hi) && IsHexDigit(lo) && IsHex(t)
    ensures FromHex(t + [hi, lo]) == FromHex(t) * 256 + Pair(hi, lo).value
  {
    assert (t + [hi, lo])[..|t| + 1] == t + [hi];
    assert (t + [hi])[..|t|] == t;
  }

  lemma OneMoreByte(s: seq<byte>, b: byte)
    ensures FromBE(s + [b]) == FromBE(s) * 256 + b
  {
    assert (s + [b])[..|s|] == s;
  }

  /** Blanks around, the prefix and the case of the digits are ignored. */
  lemma CanonicalOf(l: string, t: string, r: string)
    requires AllBlank(l) && AllBlank(r) && IsHex(t)
    ensures Canonical(l + t + r) == PadEven(ToLower(t))
    ensures Canonical(l + ("0x" + t) + r) == PadEven(ToLower(t))
  {
    hide TrimSpace, ToLower, IsHexDigit, PadEven;
    var low := ToLower(t);
    LowerDigits(t);
    LowerParts(l, t, r);
    DigitsSolid(low);
    TrimSpaceOf(l, low, r);
    LowerParts(l, "0x" + t, r);
    PrefixedDigits(t);
    TrimSpaceOf(l, "0x" + low, r);
    assert ("0x" + low)[2..] == low;
  }

  lemma PrefixedDigits(t: string)
    requires IsHex(t)
    ensures ToLower("0x" + t) == "0x" + ToLower(t) && !("0x" <= ToLower(t))
    ensures var p := "0x" + ToLower(t); p[0] !in BLANKS && p[|p| - 1] !in BLANKS
  {
    var low := ToLower(t);
    LowerDigits(t);
    DigitsSolid(low);
    if |low| >= 2 {
      assert IsHexDigit(low[1]) && "0x"[1] == 'x';
    }
  }

  /**
    `decodeHex` reads digits as the number they denote, in as few bytes as hold them: with or without the prefix,
    between blanks, and with an odd number of digits too.
   */
  lemma DigitsReadAsNumber(l: string, t: string, r: string)
    requires AllBlank(l) && AllBlank(r) && IsHex(t)
    ensures var raw, raw' := Decode(Canonical(l + t + r)), Decode(Canonical(l + ("0x" + t) + r));
            && raw.Some? && raw == raw'
            && FromBE(raw.value) == FromHex(t) && |raw.value| == (|t| + 1) / 2
  {
    hide Decode, Canonical, ToLower, FromHex, FromBE, IsHexDigit;
    CanonicalOf(l, t, r);
    LowerDigits(t);
    var low := ToLower(t);
    PaddedNumber(low);
  }

  lemma PaddedNumber(t: string)
    requires IsHex(t)
    ensures Decode(PadEven(t)).Some? && FromBE(Decode(PadEven(t)).value) == FromHex(t)
    ensures |Decode(PadEven(t)).value| == (|t| + 1) / 2
  {
    hide Decode, FromHex, FromBE;
    LeadingZero(t);
    DecodedNumber(PadEven(t));
    DecodeLength(PadEven(t));
  }

  lemma LowerParts(l: string, t: string, r: string)
    requires AllBlank(l) && AllBlank(r)
    ensures ToLower(l + t + r) == l + ToLower(t) + r
  {
    forall i | 0 <= i < |l + t + r|
      ensures ToLower(l + t + r)[i] == (l + ToLower(t) + r)[i]
    {
      if i < |l| {
        assert l[i] in l;
      } else if i >= |l| + |t| {
        assert r[i - |l| - |t|] in r;
      }
    }
  }

  lemma DigitsSolid(t: string)
    requires IsHex(t)
    ensures t == "" || (t[0] !in BLANKS && t[|t| - 1] !in BLANKS)
  {
    if t != "" {
      assert forall c :: IsHexDigit(c) ==> c !in BLANKS;
    }
  }

  lemma {:induction false} LowerDigits(t: string)
    requires IsHex(t)
    ensures IsHex(ToLower(t))
    ensures FromHex(ToLower(t)) == FromHex(t)
  {
    forall i | 0 <= i < |t|
      ensures IsHexDigit(ToLower(t)[i])
    {
      assert IsHexDigit(t[i]);
    }
    if t != "" {
      LowerDigits(t[..|t| - 1]);
      assert ToLower(t)[..|t| - 1] == ToLower(t[..|t| - 1]);
    }
  }

  lemma CanonicalLength(s: string)
    ensures |Canonical(s)| <= |s| + 1
  {
    TrimShorter(ToLower(s));
  }

  /** `decodeHex`: byte by byte, stopping at the first character that is not a digit. */
  method DecodeHex(s: string) returns (r: Option<seq<byte>>)
    ensures r == Decode(Canonical(s))
  {
    r := DecodeDigits(Canonical(s));
  }

  method DecodeDigits(t: string) returns (r: Option<seq<byte>>)
    requires |t| % 2 == 0
    ensures r == Decode(t)
  {
    var out: seq<byte> := [];
    var i := 0;
    assert t[0..] == t;
    while i < |t| / 2
      invariant 0 <= i <= |t| / 2
      invariant Decode(t).None? <==> Decode(t[2 * i..]).None?
      invariant Decode(t).Some? ==> Decode(t).value == out + Decode(t[2 * i..]).value
    {
      DecodeStep(t, i);
      var b := Pair(t[2 * i], t[2 * i + 1]);
      if b.None? {
        return None;
      }
      out := out + [b.value];
      i := i + 1;
    }
    assert t[2 * i..] == "" && out + [] == out;
    r := Some(out);
  }

  lemma CanonicalPlain(t: string)
    requires |t| % 2 == 0 && !("0x" <= t)
    requires ToLower(t) == t && TrimSpace(t) == t
    requires ToLower("0x" + t) == "0x" + t && TrimSpace("0x" + t) == "0x" + t
    ensures Canonical("0x" + t) == t && Canonical(t) == t
  {
    assert ("0x" + t)[2..] == t;
  }

  /** The decoder undoes the encoder, with or without the prefix. */
  lemma {:induction false} HexRoundTrip(b: seq<byte>)
    ensures Decode(Canonical("0x" + Show(b))) == Some(b)
    ensures Decode(Canonical(Show(b))) == Some(b)
  {
    hide *;
    ShowPlain(b);
    PrefixedPlain(b);
    CanonicalPlain(Show(b));
    DecodeShow(b);
  }
}
