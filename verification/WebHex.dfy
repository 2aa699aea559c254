/**
  The browser's hexadecimal helpers: `hexToBytes` and `bytesToHex`, web/lib/signet.ts:263-276.
  `bytesToHex` writes two lower-case digits a byte, which is `Hex.Show`.
 */
module WebHex {
  import opened Bytes
  import opened Outcomes
  import opened Strings
  import Hex

  /** `parseInt(_, 16)` of two characters; None is NaN. A prefix that parses is enough. */
  function ParsePair(hi: char, lo: char): Option<int> {
    if hi == '0' && (lo == 'x' || lo == 'X') then None
    else if Hex.Nibble(hi).Some? then
      Some(if Hex.Nibble(lo).Some? then Hex.Nibble(hi).value * 16 + Hex.Nibble(lo).value else Hex.Nibble(hi).value)
    else if Hex.Nibble(lo).None? then None
    else if hi == '-' then Some(-(Hex.Nibble(lo).value as int))
    else if hi == '+' || IsSpace(hi) then Some(Hex.Nibble(lo).value)
    else None
  }

  /**
    Two characters, in every case: two digits are their number; a digit before anything else is that digit, except that
    0x is no number; a digit after a sign or a blank is that digit, negated after a minus; anything else is no number.
   */
  lemma PairExactly(hi: char, lo: char)
    ensures var (high, low) := (Hex.Nibble(hi), Hex.Nibble(lo));
            && (high.Some? && low.Some? ==> ParsePair(hi, lo) == Some(high.value * 16 + low.value))
            && (high.Some? && low.None? ==>
                  ParsePair(hi, lo) == if hi == '0' && lo in "xX" then None else Some(high.value))
            && (high.None? && low.Some? && hi in "+" + BLANKS ==> ParsePair(hi, lo) == Some(low.value))
            && (high.None? && low.Some? && hi in "-" ==> ParsePair(hi, lo) == Some(-(low.value as int)))
            && (high.None? && (low.None? || hi !in "+-" + BLANKS) ==> ParsePair(hi, lo) == None)
  {
    SpaceExactly(hi);
  }

  /** What a Uint8Array element keeps of a number. */
  function ToUint8(n: Option<int>): byte {
    if n.None? then 0 else n.value % 256
  }

  function PairsRead(clean: string): (r: seq<byte>)
    ensures |r| == |clean| / 2
  {
    seq(|clean| / 2, i requires 0 <= i < |clean| / 2 => ToUint8(ParsePair(clean[2 * i], clean[2 * i + 1])))
  }

  method HexToBytes(hex: string) returns (r: seq<byte>)
    ensures r == PairsRead(TrimPrefix(hex, "0x"))
  {
    hide ParsePair, ToUint8;
    var clean := if HasPrefix(hex, "0x") then hex[2..] else hex;
    var out := new byte[|clean| / 2](_ => 0);
    for i := 0 to |clean| / 2
      invariant forall j :: 0 <= j < i ==> out[j] == ToUint8(ParsePair(clean[2 * j], clean[2 * j + 1]))
    {
      out[i] := ToUint8(ParsePair(clean[2 * i], clean[2 * i + 1]));
    }
    return out[..];
  }

  /** Wherever the server's strict decoder accepts a text, the browser reads the same bytes. */
  lemma {:induction false} AgreesWithServer(clean: string)
    requires Hex.Decode(clean).Some?
    ensures PairsRead(clean) == Hex.Decode(clean).value
  {
    if clean != "" {
      AgreesWithServer(clean[2..]);
      var rest := clean[2..];
      assert clean == [clean[0], clean[1]] + rest;
      assert PairsRead(clean) == [ToUint8(ParsePair(clean[0], clean[1]))] + PairsRead(rest);
    }
  }

  /** The browser's text of some bytes is read back by the browser, with or without a prefix. */
  lemma BrowserRoundTrip(b: seq<byte>)
    ensures PairsRead(TrimPrefix(Hex.Show(b), "0x")) == b
    ensures PairsRead(TrimPrefix("0x" + Hex.Show(b), "0x")) == b
  {
    Hex.DecodeShow(b);
    Hex.ShowPlain(b);
    AgreesWithServer(Hex.Show(b));
    assert ("0x" + Hex.Show(b))[2..] == Hex.Show(b);
  }
}
