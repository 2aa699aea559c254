/**
  ERC-4361 messages: `buildSiweMessage` of web/lib/signet.ts prints them, `ParseSIWE` and `VerifySIWE` of
  backend/internal/auth/siwe.go read them back. Text is ASCII; times are whatever `time.Parse` makes of them.
 */
module Siwe {
  import opened Outcomes
  import opened Strings
  import Hex

  /* ---------- lines ---------- */

  /** `strings.ReplaceAll(s, "\r\n", "\n")`. */
  function Unix(s: string): string {
    if |s| >= 2 && s[0] == '\r' && s[1] == '\n' then "\n" + Unix(s[2..])
    else if s == "" then "" else [s[0]] + Unix(s[1..])
  }

  lemma {:induction false} UnixSame(s: string)
    requires '\r' !in s
    ensures Unix(s) == s
  {
    if s != "" {
      assert s[0] in s;
      UnixSame(s[1..]);
    }
  }

  lemma DropFront(a: string, middle: string, b: string, n: nat)
    requires n <= |a|
    ensures (a + middle + b)[n..] == a[n..] + middle + b
  {
  }

  /** Every pair of carriage return and line feed becomes a line feed, wherever it stands… */
  lemma {:induction false} UnixPair(a: string, b: string)
    ensures Unix(a + "\r\n" + b) == Unix(a) + "\n" + Unix(b)
  {
    var s := a + "\r\n" + b;
    if a == "" {
      assert s[0] == '\r' && s[1] == '\n' && s[2..] == b;
    } else if |a| >= 2 && a[0] == '\r' && a[1] == '\n' {
      UnixPair(a[2..], b);
      DropFront(a, "\r\n", b, 2);
      assert Unix(s) == "\n" + (Unix(a[2..]) + "\n" + Unix(b));
    } else {
      assert |a| == 1 ==> s[1] == '\r';
      UnixPair(a[1..], b);
      DropFront(a, "\r\n", b, 1);
      assert Unix(s) == [a[0]] + (Unix(a[1..]) + "\n" + Unix(b));
    }
  }

  /** …and text without such a pair is left alone. */
  lemma {:induction false} UnixWithoutPairs(s: string)
    requires forall i :: 0 < i < |s| ==> !(s[i - 1] == '\r' && s[i] == '\n')
    ensures Unix(s) == s
  {
    if s != "" {
      if |s| >= 2 {
        assert !(s[1 - 1] == '\r' && s[1] == '\n');
      }
      var rest := s[1..];
      forall i | 0 < i < |rest|
        ensures !(rest[i - 1] == '\r' && rest[i] == '\n')
      {
        assert rest[i - 1] == s[i] && rest[i] == s[i + 1];
      }
      UnixWithoutPairs(s[1..]);
    }
  }

  lemma {:induction false} JoinPlain(lines: seq<string>)
    requires lines != [] && forall l :: l in lines ==> '\r' !in l
    ensures '\r' !in Join(lines, '\n')
  {
    if |lines| > 1 {
      JoinPlain(lines[1..]);
    }
  }

  /* ---------- key: value ---------- */

  /** The position of the first ": ", or the length when there is none. */
  function Separator(s: string): (i: nat)
    ensures i <= |s|
  {
    if s == "" || (|s| >= 2 && s[0] == ':' && s[1] == ' ') then 0 else 1 + Separator(s[1..])
  }

  /** `strings.Contains(s, ": ")`. */
  predicate HasSeparator(s: string) {
    Separator(s) < |s|
  }

  /** The first separator of `key + ": " + value` ends a key without ':'. */
  lemma {:induction false} SeparatorAt(key: string, value: string)
    requires ':' !in key
    ensures Separator(key + ": " + value) == |key| && HasSeparator(key + ": " + value)
  {
    var s := key + ": " + value;
    if key != "" {
      assert s[0] == key[0] && key[0] in key;
      assert s[1..] == key[1..] + ": " + value;
      SeparatorAt(key[1..], value);
    }
  }

  lemma {:induction false} SeparatorShape(s: string)
    ensures HasSeparator(s) ==> Separator(s) + 2 <= |s| && s[Separator(s)] == ':' && s[Separator(s) + 1] == ' '
  {
    if s != "" && HasSeparator(s) && !(|s| >= 2 && s[0] == ':' && s[1] == ' ') {
      SeparatorShape(s[1..]);
    }
  }

  /** `strings.Cut(line, ": ")` on a line that has the separator. */
  function Key(line: string): string
    requires HasSeparator(line)
  {
    line[..Separator(line)]
  }

  function Value(line: string): string
    requires HasSeparator(line)
  {
    SeparatorShape(line);
    line[Separator(line) + 2..]
  }

  lemma CutField(key: string, value: string)
    requires ':' !in key
    ensures HasSeparator(key + ": " + value)
    ensures Key(key + ": " + value) == key && Value(key + ": " + value) == value
  {
    SeparatorAt(key, value);
  }

  /* ---------- decimal numbers ---------- */

  function DigitChar(n: nat): char
    requires n < 10
  {
    ('0' as int + n) as char
  }

  function ShowNat(n: nat): string {
    if n < 10 then [DigitChar(n)] else ShowNat(n / 10) + [DigitChar(n % 10)]
  }

  function ShowInt(n: int): string {
    if n < 0 then "-" + ShowNat(-n) else ShowNat(n)
  }

  predicate IsDigit(c: char) { '0' <= c <= '9' }

  function ParseNat(s: string): Option<nat> {
    if s == "" || !IsDigit(s[|s| - 1]) then None
    else if |s| == 1 then Some(s[0] as int - '0' as int)
    else
      var high := ParseNat(s[..|s| - 1]);
      if high.None? then None else Some(high.value * 10 + (s[|s| - 1] as int - '0' as int))
  }

  /** `strconv.ParseInt(s, 10, 64)`: an optional sign, digits, and a value that fits. */
  function ParseInt(s: string): Option<int64> {
    var negative := s != "" && s[0] == '-';
    var digits := ParseNat(if s != "" && (s[0] == '-' || s[0] == '+') then s[1..] else s);
    if digits.None? then None
    else
      var size: int := digits.value;
      var n: int := if negative then -size else size;
      if -0x8000_0000_0000_0000 <= n <= MAX_INT64 then Some(n) else None
  }

  lemma {:induction false} ParseShowNat(n: nat)
    ensures ParseNat(ShowNat(n)) == Some(n) && ShowNat(n) != "" && IsDigit(ShowNat(n)[0])
    ensures forall c :: c in ShowNat(n) ==> IsDigit(c)
  {
    if n >= 10 {
      ParseShowNat(n / 10);
      var s := ShowNat(n);
      assert s[..|s| - 1] == ShowNat(n / 10);
      assert n / 10 * 10 + n % 10 == n;
    }
  }

  /** Printed numbers have no leading zero, and a sign exactly when negative. */
  lemma {:induction false} ShowNatCanonical(n: nat)
    ensures ShowNat(n) != "" && (ShowNat(n)[0] == '0' <==> n == 0) && (n == 0 ==> ShowNat(n) == "0")
  {
    if n >= 10 {
      ShowNatCanonical(n / 10);
    }
  }

  lemma ShowIntCanonical(n: int)
    ensures ShowInt(n) == if n < 0 then "-" + ShowNat(-n) else ShowNat(n)
    ensures n < 0 <==> ShowInt(n)[0] == '-'
  {
    hide ShowNat;
    ParseShowNat(if n < 0 then -n else n);
  }

  predicate IsDecimal(s: string) {
    s != "" && forall c :: c in s ==> '0' <= c <= '9'
  }

  lemma {:induction false} ParseNatExactly(s: string)
    ensures ParseNat(s).Some? <==> IsDecimal(s)
    ensures IsDecimal(s) ==> ParseNat("0" + s) == ParseNat(s)
  {
    if |s| > 1 {
      var init := s[..|s| - 1];
      assert s == init + [s[|s| - 1]];
      ParseNatExactly(init);
      assert forall c :: c in s <==> c in init || c == s[|s| - 1];
      assert ("0" + s)[..|s|] == "0" + init;
      assert s[|s| - 1] in s;
    } else if |s| == 1 {
      assert s[0] in s;
      assert ("0" + s)[..1] == "0";
    }
  }

  /** What `ParseInt` reads: digits, perhaps after one sign, as the number they denote when 64 bits hold it… */
  lemma SignedDigitsRead(digits: string)
    requires IsDecimal(digits)
    ensures ParseNat(digits).Some?
    ensures var n: int := ParseNat(digits).value;
            && ParseInt(digits) == ParseInt("+" + digits) == (if n < 0x8000_0000_0000_0000 then Some(n) else None)
            && ParseInt("-" + digits) == (if n <= 0x8000_0000_0000_0000 then Some(-n) else None)
  {
    hide ParseNat;
    ParseNatExactly(digits);
    assert digits[0] in digits;
    assert ("+" + digits)[1..] == digits && ("-" + digits)[1..] == digits;
  }

  /** …and nothing else. */
  lemma OnlySignedDigitsRead(s: string) returns (digits: string)
    requires ParseInt(s).Some?
    ensures IsDecimal(digits) && (s == digits || s == "+" + digits || s == "-" + digits)
  {
    hide ParseNat;
    digits := if s != "" && (s[0] == '-' || s[0] == '+') then s[1..] else s;
    ParseNatExactly(digits);
    assert digits != s ==> s == [s[0]] + digits;
  }

  lemma ParseShowInt(n: int64)
    ensures ParseInt(ShowInt(n)) == Some(n)
    ensures forall c :: c in ShowInt(n) ==> IsDigit(c) || c == '-'
  {
    hide ParseNat, ShowNat;
    var m: int := n;
    if m < 0 {
      ParseShowNat(-m);
      assert ShowInt(m)[1..] == ShowNat(-m);
    } else {
      ParseShowNat(n);
    }
  }

  /* ---------- addresses ---------- */

  /** `NormalizeAddress`: 40 hexadecimal digits, blanks and 0x optional, lower-cased. */
  function NormalizeAddress(addr: string): Option<string> {
    var trimmed := TrimPrefix(ToLower(TrimSpace(addr)), "0x");
    if |trimmed| != 40 || Hex.Decode(trimmed).None? then None else Some("0x" + trimmed)
  }

  /** Between blanks: exactly 40 hexadecimal digits, after 0x or 0X or nothing, are an address, in lower case. */
  lemma AddressExactly(l: string, t: string, r: string)
    requires AllBlank(l) && AllBlank(r) && (t == "" || (t[0] !in BLANKS && t[|t| - 1] !in BLANKS))
    ensures var digits := if "0x" <= t || "0X" <= t then t[2..] else t;
            NormalizeAddress(l + t + r) ==
            if |digits| == 40 && Hex.IsHex(digits) then Some("0x" + ToLower(digits))
            else None
  {
    hide TrimSpace, Hex.Decode, Hex.IsHex;
    TrimSpaceOf(l, t, r);
    var digits := if "0x" <= t || "0X" <= t then t[2..] else t;
    LowerPrefix(t);
    Hex.DecodeFold(digits);
    Hex.DecodesExactly(digits);
  }

  lemma BeginsWith(t: string, two: string)
    requires |two| == 2
    ensures two <= t <==> |t| >= 2 && t[0] == two[0] && t[1] == two[1]
  {
    if |t| >= 2 && t[0] == two[0] && t[1] == two[1] {
      assert t[..2] == two;
    }
  }

  lemma LowerPrefix(t: string)
    ensures TrimPrefix(ToLower(t), "0x") == ToLower(if "0x" <= t || "0X" <= t then t[2..] else t)
  {
    var low := ToLower(t);
    BeginsWith(t, "0x");
    BeginsWith(t, "0X");
    BeginsWith(low, "0x");
    if "0x" <= t || "0X" <= t {
      assert low[0] == '0' && low[1] == 'x';
      assert low[2..] == ToLower(t[2..]);
    }
  }

  /** An address as a wallet renders it: 0x and 40 digits of either case. */
  predicate WalletAddress(addr: string) {
    |addr| == 42 && addr[..2] == "0x" && Hex.Decode(addr[2..]).Some?
  }

  lemma WalletAddressExactly(addr: string)
    ensures WalletAddress(addr) <==> |addr| == 42 && "0x" <= addr && Hex.IsHex(addr[2..])
  {
    hide Hex.Decode;
    if |addr| == 42 {
      Hex.DecodesExactly(addr[2..]);
    }
  }

  lemma {:induction false} DecodedDigits(t: string)
    requires Hex.Decode(t).Some?
    ensures forall c :: c in t ==> Hex.Nibble(c).Some?
  {
    if t != "" {
      DecodedDigits(t[2..]);
      assert t == [t[0], t[1]] + t[2..];
    }
  }

  lemma WalletAddressPlain(addr: string)
    requires WalletAddress(addr)
    ensures '\n' !in addr && '\r' !in addr && !HasSeparator(addr)
    ensures NormalizeAddress(addr) == Some(ToLower(addr))
  {
    var digits := addr[2..];
    DecodedDigits(digits);
    assert addr == "0x" + digits;
    forall i | 0 <= i < |addr|
      ensures !IsSpace(addr[i]) && addr[i] != ':'
    {
      if i >= 2 {
        assert addr[i] == digits[i - 2] && addr[i] in digits;
      }
    }
    NoColonNoSeparator(addr);
    TrimSolid(addr);
    Hex.DecodeFold(digits);
    var folded := ToLower(addr);
    assert TrimSpace(addr) == addr;
    assert folded[..2] == "0x" && folded[2..] == ToLower(digits);
    assert TrimPrefix(folded, "0x") == ToLower(digits);
    assert "0x" + ToLower(digits) == folded;
  }

  lemma {:induction false} NoColonNoSeparator(s: string)
    requires ':' !in s
    ensures !HasSeparator(s)
  {
    if s != "" {
      assert s[0] in s;
      NoColonNoSeparator(s[1..]);
    }
  }

  /* ---------- messages ---------- */

  /** `time.Parse(time.RFC3339, _)`. */
  type TimeParser = string -> Option<int>

  datatype Message = Message(
    domain: string, address: string, statement: string, uri: string, version: string, chainID: int64, nonce: string,
    issuedAt: Option<int>, expirationTime: Option<int>, notBefore: Option<int>)

  datatype ParseError =
    | MessageTooShort | NoPreamble | NoDomain | BadAddress | UnparsableLine | BadChainID | BadTime | UnknownField
    | NoNonce | BadVersion

  /** In four parts, because each must be seen to have no line break. */
  const PREAMBLE := " wants you to " + "sign in with " + "your Ethereum " + "account:"

  /** One `key: value` line. */
  function Field(m: Message, key: string, value: string, parse: TimeParser): Result<Message, ParseError> {
    match key
    case "URI" => Success(m.(uri := value))
    case "Version" => Success(m.(version := value))
    case "Chain ID" =>
      if ParseInt(value).Some? then Success(m.(chainID := ParseInt(value).value)) else Failure(BadChainID)
    case "Nonce" => Success(m.(nonce := value))
    case "Issued At" => if parse(value).Some? then Success(m.(issuedAt := parse(value))) else Failure(BadTime)
    case "Expiration Time" =>
      if parse(value).Some? then Success(m.(expirationTime := parse(value))) else Failure(BadTime)
    case "Not Before" => if parse(value).Some? then Success(m.(notBefore := parse(value))) else Failure(BadTime)
    case "Request ID" => Success(m)
    case _ => Failure(UnknownField)
  }

  /** The loop over the remaining lines. */
  function Fields(lines: seq<string>, inResources: bool, m: Message, parse: TimeParser): Result<Message, ParseError> {
    if lines == [] then Success(m)
    else
      var line := lines[0];
      if line == "" || (inResources && HasPrefix(line, "- ")) then Fields(lines[1..], inResources, m, parse)
      else if !HasSeparator(line) then
        if TrimSpace(line) == "Resources:" then Fields(lines[1..], true, m, parse) else Failure(UnparsableLine)
      else
        var next :- Field(m, Key(line), Value(line), parse);
        Fields(lines[1..], false, next, parse)
  }

  /** Where the statement ends up: the statement itself and the index of the first field line. */
  function StatementAt(lines: seq<string>): (string, nat) {
    var i := if |lines| > 2 && lines[2] == "" then 3 else 2;
    if i < |lines| && lines[i] != "" && !HasSeparator(lines[i])
    then (lines[i], if i + 1 < |lines| && lines[i + 1] == "" then i + 2 else i + 1)
    else ("", i)
  }

  function Head(lines: seq<string>): Result<Message, ParseError> {
    if |lines| < 6 then Failure(MessageTooShort)
    else if !HasSuffix(lines[0], PREAMBLE) then Failure(NoPreamble)
    else if TrimSuffix(lines[0], PREAMBLE) == "" then Failure(NoDomain)
    else if NormalizeAddress(lines[1]).None? then Failure(BadAddress)
    else
      Success(Message(TrimSuffix(lines[0], PREAMBLE), NormalizeAddress(lines[1]).value, StatementAt(lines).0,
                      "", "", 0, "", None, None, None))
  }

  function Checked(m: Message): Result<Message, ParseError> {
    if m.nonce == "" then Failure(NoNonce) else if m.version != "1" then Failure(BadVersion) else Success(m)
  }

  function ParseLines(lines: seq<string>, parse: TimeParser): Result<Message, ParseError> {
    var m :- Head(lines);
    var i := StatementAt(lines).1;
    var filled :- Fields(if i <= |lines| then lines[i..] else [], false, m, parse);
    Checked(filled)
  }

  /** `ParseSIWE`. */
  method ParseSIWE(raw: string, parse: TimeParser) returns (r: Result<Message, ParseError>)
    ensures r == ParseLines(Split(Unix(raw), '\n'), parse)
  {
    hide Field, NormalizeAddress, HasSeparator, Split, Unix;
    var lines := Split(Unix(raw), '\n');
    if |lines| < 6 {
      return Failure(MessageTooShort);
    }
    if !HasSuffix(lines[0], PREAMBLE) {
      return Failure(NoPreamble);
    }
    var domain := TrimSuffix(lines[0], PREAMBLE);
    if domain == "" {
      return Failure(NoDomain);
    }
    var addr := NormalizeAddress(lines[1]);
    if addr.None? {
      return Failure(BadAddress);
    }
    var statement := "";
    var i := 2;
    if i < |lines| && lines[i] == "" {
      i := i + 1;
    }
    if i < |lines| && lines[i] != "" && !HasSeparator(lines[i]) {
      statement := lines[i];
      i := i + 1;
      if i < |lines| && lines[i] == "" {
        i := i + 1;
      }
    }
    var msg := Message(domain, addr.value, statement, "", "", 0, "", None, None, None);
    ghost var all := Fields(lines[i..], false, msg, parse);
    var inResources := false;
    while i < |lines|
      invariant 0 <= i <= |lines|
      invariant Fields(lines[i..], inResources, msg, parse) == all
    {
      var line := lines[i];
      assert lines[i..][0] == line && lines[i..][1..] == lines[i + 1..];
      i := i + 1;
      if line == "" {
        continue;
      }
      if inResources && HasPrefix(line, "- ") {
        continue;
      }
      if !HasSeparator(line) {
        if TrimSpace(line) == "Resources:" {
          inResources := true;
          continue;
        }
        return Failure(UnparsableLine);
      }
      inResources := false;
      msg :- Field(msg, Key(line), Value(line), parse);
    }
    assert lines[i..] == [];
    if msg.nonce == "" {
      return Failure(NoNonce);
    }
    if msg.version != "1" {
      return Failure(BadVersion);
    }
    return Success(msg);
  }

  /* ---------- printing ---------- */

  datatype Options = Options(
    domain: string, address: string, statement: string, uri: string, chainID: int64, nonce: string)

  function Lines(o: Options, issuedAt: string): seq<string> {
    [o.domain + PREAMBLE, o.address, "", o.statement, "",
     "URI" + ": " + o.uri, "Version: 1", "Chain ID" + ": " + ShowInt(o.chainID), "Nonce" + ": " + o.nonce,
     "Issued At" + ": " + issuedAt]
  }

  /** `buildSiweMessage`; `issuedAt` is the current time as `toISOString` renders it. */
  function Build(o: Options, issuedAt: string): string {
    Join(Lines(o, issuedAt), '\n')
  }

  predicate OneLine(s: string) {
    '\n' !in s && '\r' !in s
  }

  /** What a console fills in: single-line fields, a wallet's address, and a chain id JavaScript holds exactly. */
  predicate Printable(o: Options, issuedAt: string) {
    && OneLine(o.domain) && o.domain != "" && WalletAddress(o.address) && OneLine(o.statement)
    && OneLine(o.uri) && OneLine(o.nonce) && o.nonce != "" && OneLine(issuedAt)
    && -0x20_0000_0000_0000 < o.chainID < 0x20_0000_0000_0000
  }

  function Expected(o: Options, at: Option<int>): Message {
    Message(o.domain, ToLower(o.address), o.statement, o.uri, "1", o.chainID, o.nonce, at, None, None)
  }

  lemma LabelledPlain(key: string, value: string)
    requires OneLine(key) && OneLine(value)
    ensures OneLine(key + ": " + value)
  {
  }

  lemma PreamblePlain()
    ensures OneLine(PREAMBLE)
  {
    assert OneLine(" wants you to ") && OneLine("sign in with ") && OneLine("your Ethereum ") && OneLine("account:");
  }

  lemma LinesPlain(o: Options, issuedAt: string)
    requires Printable(o, issuedAt)
    ensures forall l :: l in Lines(o, issuedAt) ==> OneLine(l)
  {
    hide WalletAddress, ShowInt, NormalizeAddress, HasSeparator;
    WalletAddressPlain(o.address);
    ParseShowInt(o.chainID);
    PreamblePlain();
    assert OneLine(o.domain + PREAMBLE) && OneLine("Version: 1") && OneLine("");
    assert OneLine(ShowInt(o.chainID));
    hide OneLine;
    LabelledPlain("URI", o.uri);
    LabelledPlain("Chain ID", ShowInt(o.chainID));
    LabelledPlain("Nonce", o.nonce);
    LabelledPlain("Issued At", issuedAt);
  }

  /** Splitting the printed text gives back the printed lines. */
  lemma BuiltLines(o: Options, issuedAt: string)
    requires Printable(o, issuedAt)
    ensures Split(Unix(Build(o, issuedAt)), '\n') == Lines(o, issuedAt)
  {
    hide Printable, Lines;
    LinesPlain(o, issuedAt);
    assert Lines(o, issuedAt) != [] by { LinesSome(o, issuedAt); }
    JoinPlain(Lines(o, issuedAt));
    UnixSame(Build(o, issuedAt));
    SplitJoin(Lines(o, issuedAt), '\n');
  }

  lemma LinesSome(o: Options, issuedAt: string)
    ensures Lines(o, issuedAt) != []
  {
  }

  /** One printed field is read as that field. */
  lemma FieldRead(lines: seq<string>, key: string, value: string, m: Message, parse: TimeParser)
    requires lines != [] && lines[0] == key + ": " + value && ':' !in key && key != ""
    ensures Fields(lines, false, m, parse) ==
            (var next :- Field(m, key, value, parse); Fields(lines[1..], false, next, parse))
  {
    CutField(key, value);
  }

  /** What each printed field name sets. */
  lemma FieldNames(m: Message, value: string, parse: TimeParser)
    ensures Field(m, "URI", value, parse) == Success(m.(uri := value))
    ensures Field(m, "Version", value, parse) == Success(m.(version := value))
    ensures Field(m, "Nonce", value, parse) == Success(m.(nonce := value))
    ensures ParseInt(value).Some? ==>
              Field(m, "Chain ID", value, parse) == Success(m.(chainID := ParseInt(value).value))
    ensures parse(value).Some? ==> Field(m, "Issued At", value, parse) == Success(m.(issuedAt := parse(value)))
  {
  }

  lemma FieldLines(o: Options, issuedAt: string)
    ensures var lines := Lines(o, issuedAt);
            && |lines| == 10 && lines[5] == "URI" + ": " + o.uri && lines[6] == "Version" + ": " + "1"
            && lines[7] == "Chain ID" + ": " + ShowInt(o.chainID) && lines[8] == "Nonce" + ": " + o.nonce
            && lines[9] == "Issued At" + ": " + issuedAt
  {
    hide ShowInt;
  }

  /** The five field lines fill in the five fields. */
  lemma {:induction false} FieldsRead(o: Options, issuedAt: string, m: Message, parse: TimeParser)
    requires parse(issuedAt).Some?
    ensures Fields(Lines(o, issuedAt)[5..], false, m, parse) ==
            Success(m.(uri := o.uri, version := "1", chainID := o.chainID, nonce := o.nonce,
                       issuedAt := parse(issuedAt)))
  {
    hide HasSeparator, Key, Value, ParseInt, ShowInt, Field, Fields, Lines;
    var lines := Lines(o, issuedAt);
    FieldLines(o, issuedAt);
    ParseShowInt(o.chainID);
    var m1 := m.(uri := o.uri);
    var m2 := m1.(version := "1");
    var m3 := m2.(chainID := o.chainID);
    var m4 := m3.(nonce := o.nonce);
    FieldNames(m, o.uri, parse);
    FieldNames(m1, "1", parse);
    FieldNames(m2, ShowInt(o.chainID), parse);
    FieldNames(m3, o.nonce, parse);
    FieldNames(m4, issuedAt, parse);
    FieldRead(lines[5..], "URI", o.uri, m, parse);
    assert lines[5..][1..] == lines[6..];
    FieldRead(lines[6..], "Version", "1", m1, parse);
    assert lines[6..][1..] == lines[7..];
    FieldRead(lines[7..], "Chain ID", ShowInt(o.chainID), m2, parse);
    assert lines[7..][1..] == lines[8..];
    FieldRead(lines[8..], "Nonce", o.nonce, m3, parse);
    assert lines[8..][1..] == lines[9..];
    FieldRead(lines[9..], "Issued At", issuedAt, m4, parse);
    assert lines[9..][1..] == [];
    FieldsDone(m4.(issuedAt := parse(issuedAt)), parse);
  }

  lemma FieldsDone(m: Message, parse: TimeParser)
    ensures Fields([], false, m, parse) == Success(m)
  {
  }

  /** The statement never changes once the field loop runs. */
  lemma {:induction false} FieldsKeepStatement(lines: seq<string>, inResources: bool, m: Message, parse: TimeParser)
    ensures Fields(lines, inResources, m, parse).Success? ==>
              Fields(lines, inResources, m, parse).value.statement == m.statement
    decreases |lines|
  {
    if lines != [] {
      var line := lines[0];
      if line == "" || (inResources && HasPrefix(line, "- ")) {
        FieldsKeepStatement(lines[1..], inResources, m, parse);
      } else if !HasSeparator(line) {
        FieldsKeepStatement(lines[1..], true, m, parse);
      } else {
        var next := Field(m, Key(line), Value(line), parse);
        if next.Success? {
          FieldsKeepStatement(lines[1..], false, next.value, parse);
        }
      }
    }
  }

  lemma HeadRead(o: Options, issuedAt: string)
    requires Printable(o, issuedAt)
    ensures Head(Lines(o, issuedAt)) ==
            Success(Message(o.domain, ToLower(o.address), StatementAt(Lines(o, issuedAt)).0,
                            "", "", 0, "", None, None, None))
  {
    var lines := Lines(o, issuedAt);
    WalletAddressPlain(o.address);
    assert lines[0][..|o.domain|] == o.domain && lines[0][|o.domain|..] == PREAMBLE;
  }

  /** The statement line is recognized exactly when it does not look like a field. */
  lemma StatementRead(o: Options, issuedAt: string)
    ensures var lines := Lines(o, issuedAt);
            StatementAt(lines) == if o.statement == "" || HasSeparator(o.statement) then ("", 3) else (o.statement, 5)
  {
  }

  /**
    Print then parse: the parser returns the printed fields, the address lower-cased, exactly when the statement
    does not contain ": ". A statement that does is taken for a field.
   */
  lemma {:induction false} PrintParse(o: Options, issuedAt: string, parse: TimeParser)
    requires Printable(o, issuedAt) && parse(issuedAt).Some?
    ensures ParseLines(Split(Unix(Build(o, issuedAt)), '\n'), parse) == Success(Expected(o, parse(issuedAt)))
            <==> !HasSeparator(o.statement)
  {
    var lines := Lines(o, issuedAt);
    BuiltLines(o, issuedAt);
    HeadRead(o, issuedAt);
    StatementRead(o, issuedAt);
    if HasSeparator(o.statement) {
      MistakenStatement(o, issuedAt, parse);
    } else {
      ParsedFields(o, issuedAt, parse);
    }
  }

  lemma ParsedFields(o: Options, issuedAt: string, parse: TimeParser)
    requires Printable(o, issuedAt) && parse(issuedAt).Some? && !HasSeparator(o.statement)
    ensures ParseLines(Lines(o, issuedAt), parse) == Success(Expected(o, parse(issuedAt)))
  {
    hide Fields, Head, StatementAt, Build;
    var lines := Lines(o, issuedAt);
    HeadRead(o, issuedAt);
    StatementRead(o, issuedAt);
    var m := Head(lines).value;
    FieldsRead(o, issuedAt, m, parse);
    if o.statement == "" {
      SkipBlanks(lines, m, parse);
    }
  }

  /** An empty statement leaves two blank lines, which the field loop skips. */
  lemma SkipBlanks(lines: seq<string>, m: Message, parse: TimeParser)
    requires |lines| == 10 && lines[3] == "" && lines[4] == ""
    ensures Fields(lines[3..], false, m, parse) == Fields(lines[5..], false, m, parse)
  {
    assert lines[3..][1..] == lines[4..] && lines[4..][1..] == lines[5..];
  }

  lemma MistakenStatement(o: Options, issuedAt: string, parse: TimeParser)
    requires Printable(o, issuedAt) && HasSeparator(o.statement)
    ensures ParseLines(Lines(o, issuedAt), parse) != Success(Expected(o, parse(issuedAt)))
  {
    hide Fields, HasSeparator, Printable;
    var lines := Lines(o, issuedAt);
    HeadRead(o, issuedAt);
    StatementRead(o, issuedAt);
    FieldsKeepStatement(lines[3..], false, Head(lines).value, parse);
    assert o.statement != "" by { SeparatorNonempty(o.statement); }
  }

  lemma SeparatorNonempty(s: string)
    requires HasSeparator(s)
    ensures s != ""
  {
  }

  /* ---------- strictness ---------- */

  /** A line `key: value` whose key is known and whose value is readable. */
  predicate ReadableField(line: string, parse: TimeParser) {
    && HasSeparator(line)
    && (|| Key(line) in {"URI", "Version", "Nonce", "Request ID"}
        || (Key(line) == "Chain ID" && ParseInt(Value(line)).Some?)
        || (Key(line) in {"Issued At", "Expiration Time", "Not Before"} && parse(Value(line)).Some?))
  }

  lemma FieldSucceedsExactly(m: Message, line: string, parse: TimeParser)
    requires HasSeparator(line)
    ensures Field(m, Key(line), Value(line), parse).Success? <==> ReadableField(line, parse)
  {
    hide HasSeparator, Key, Value, ParseInt;
  }

  predicate IsHeader(line: string) {
    !HasSeparator(line) && TrimSpace(line) == "Resources:"
  }

  predicate IsEntry(line: string) {
    HasPrefix(line, "- ")
  }

  predicate OnlyEntries(lines: seq<string>, first: nat, last: nat)
    requires last <= |lines|
  {
    forall m :: first <= m < last ==> lines[m] == "" || IsEntry(lines[m])
  }

  /** Only blank lines and entries separate line i from a header above it, or from the top when that is in resources. */
  ghost predicate UnderResources(lines: seq<string>, i: nat, atTop: bool)
    requires i <= |lines|
  {
    || (atTop && OnlyEntries(lines, 0, i))
    || (exists j :: 0 <= j < i && IsHeader(lines[j]) && OnlyEntries(lines, j + 1, i))
  }

  /** The line is blank, a field, a resources header, or an entry under one. */
  ghost predicate Accounted(lines: seq<string>, i: nat, atTop: bool, parse: TimeParser)
    requires i < |lines|
  {
    || lines[i] == "" || ReadableField(lines[i], parse) || IsHeader(lines[i])
    || (IsEntry(lines[i]) && UnderResources(lines, i, atTop))
  }

  ghost predicate AllAccounted(lines: seq<string>, atTop: bool, parse: TimeParser) {
    forall i: nat :: i < |lines| ==> Accounted(lines, i, atTop, parse)
  }

  lemma {:induction false} TrimRightKeepsFirst(s: string)
    requires s != "" && !IsSpace(s[0])
    ensures TrimRight(s) != "" && TrimRight(s)[0] == s[0]
  {
    if IsSpace(s[|s| - 1]) {
      TrimRightKeepsFirst(s[..|s| - 1]);
    }
  }

  /** An entry is neither a header nor a field. */
  lemma EntryIsNothingElse(line: string, parse: TimeParser)
    requires IsEntry(line)
    ensures !IsHeader(line) && !ReadableField(line, parse)
  {
    hide ParseInt;
    assert line[0] == '-' && line[1] == ' ';
    TrimRightKeepsFirst(line);
    assert TrimSpace(line)[0] == '-';
    if HasSeparator(line) {
      assert Separator(line) > 0 && Key(line)[0] == '-';
    }
  }

  lemma BlankIsNoHeader()
    ensures !IsHeader("")
  {
  }

  /** Dropping the first line, which moves the state at the top from `atTop` to `next`. */
  lemma UnderRest(lines: seq<string>, i: nat, atTop: bool, next: bool)
    requires i < |lines|
    requires next == (IsHeader(lines[0]) || (atTop && (lines[0] == "" || IsEntry(lines[0]))))
    ensures UnderResources(lines, i + 1, atTop) <==> UnderResources(lines[1..], i, next)
  {
    hide IsHeader, IsEntry;
    var rest := lines[1..];
    assert forall m :: 0 <= m < |rest| ==> rest[m] == lines[m + 1];
    assert OnlyEntries(lines, 1, i + 1) <==> OnlyEntries(rest, 0, i) by {
      if OnlyEntries(lines, 1, i + 1) {
        forall m | 0 <= m < i
          ensures rest[m] == "" || IsEntry(rest[m])
        {
          assert lines[m + 1] == rest[m];
        }
      }
    }
    if j :| 0 <= j < i + 1 && IsHeader(lines[j]) && OnlyEntries(lines, j + 1, i + 1) {
      if j > 0 {
        forall m | j - 1 + 1 <= m < i
          ensures rest[m] == "" || IsEntry(rest[m])
        {
          assert lines[m + 1] == rest[m];
        }
        assert IsHeader(rest[j - 1]) && OnlyEntries(rest, j - 1 + 1, i);
      }
    }
    if j :| 0 <= j < i && IsHeader(rest[j]) && OnlyEntries(rest, j + 1, i) {
      assert IsHeader(lines[j + 1]) && OnlyEntries(lines, j + 1 + 1, i + 1);
    }
  }

  lemma AccountedRest(lines: seq<string>, atTop: bool, next: bool, parse: TimeParser)
    requires lines != []
    requires next == (IsHeader(lines[0]) || (atTop && (lines[0] == "" || IsEntry(lines[0]))))
    ensures AllAccounted(lines, atTop, parse) <==>
            Accounted(lines, 0, atTop, parse) && AllAccounted(lines[1..], next, parse)
  {
    hide IsHeader, IsEntry, ReadableField, UnderResources;
    var rest := lines[1..];
    forall i: nat | i < |rest|
      ensures Accounted(lines, i + 1, atTop, parse) <==> Accounted(rest, i, next, parse)
    {
      UnderRest(lines, i, atTop, next);
    }
    if Accounted(lines, 0, atTop, parse) && AllAccounted(rest, next, parse) {
      forall i: nat | i < |lines|
        ensures Accounted(lines, i, atTop, parse)
      {
        if i > 0 {
          assert Accounted(rest, i - 1, next, parse);
        }
      }
    }
    if AllAccounted(lines, atTop, parse) {
      forall i: nat | i < |rest|
        ensures Accounted(rest, i, next, parse)
      {
        assert Accounted(lines, i + 1, atTop, parse);
      }
    }
  }

  /** The field loop succeeds exactly when every line is accounted for; it ignores none. */
  lemma {:induction false} FieldsSucceedExactly(lines: seq<string>, atTop: bool, m: Message, parse: TimeParser)
    ensures Fields(lines, atTop, m, parse).Success? <==> AllAccounted(lines, atTop, parse)
    decreases |lines|
  {
    hide Field, HasSeparator, Key, Value, ReadableField, AllAccounted, UnderResources;
    if lines == [] {
      NothingToAccount(atTop, parse);
    } else {
      var line := lines[0];
      var next := IsHeader(line) || (atTop && (line == "" || IsEntry(line)));
      AccountedRest(lines, atTop, next, parse);
      BlankIsNoHeader();
      if IsEntry(line) {
        EntryIsNothingElse(line, parse);
      }
      FirstUnder(lines, atTop);
      if HasSeparator(line) {
        FieldSucceedsExactly(m, line, parse);
        if Field(m, Key(line), Value(line), parse).Success? {
          FieldsSucceedExactly(lines[1..], next, Field(m, Key(line), Value(line), parse).value, parse);
        }
      }
      FieldsSucceedExactly(lines[1..], next, m, parse);
      hide TrimSpace;
      ReadableHasSeparator(line, parse);
    }
  }

  lemma NothingToAccount(atTop: bool, parse: TimeParser)
    ensures AllAccounted([], atTop, parse)
  {
  }

  lemma FirstUnder(lines: seq<string>, atTop: bool)
    ensures UnderResources(lines, 0, atTop) <==> atTop
  {
  }

  lemma ReadableHasSeparator(line: string, parse: TimeParser)
    ensures ReadableField(line, parse) ==> HasSeparator(line)
  {
  }

  /**
    Nothing in an accepted message goes unread: every line after the address is blank, the statement, a known field
    with a readable value, a resources header, or an entry under one.
   */
  lemma AcceptedMessageIsRead(lines: seq<string>, parse: TimeParser, i: nat)
    requires ParseLines(lines, parse).Success? && 2 <= i < |lines|
    ensures var first := StatementAt(lines).1;
            || lines[i] == ""
            || (i < first && lines[i] == ParseLines(lines, parse).value.statement)
            || (i >= first && Accounted(lines[first..], i - first, false, parse))
  {
    hide HasSeparator, Accounted, Fields, NormalizeAddress;
    var m := Head(lines).value;
    var first := StatementAt(lines).1;
    FieldsSucceedExactly(lines[first..], false, m, parse);
    FieldsKeepStatement(lines[first..], false, m, parse);
    if i >= first {
      assert Accounted(lines[first..], i - first, false, parse);
    }
  }

  /* ---------- repeated fields ---------- */

  predicate FieldLine(line: string, key: string, parse: TimeParser) {
    ReadableField(line, parse) && Key(line) == key
  }

  /** The value on the last line of a field. */
  function LastValue(lines: seq<string>, key: string, parse: TimeParser): Option<string> {
    if lines == [] then None
    else
      var rest := LastValue(lines[1..], key, parse);
      if rest.Some? then rest
      else if FieldLine(lines[0], key, parse) then
        ReadableHasSeparator(lines[0], parse);
        Some(Value(lines[0]))
      else None
  }

  /** Every field of the message is what its last line says; without a line it is what it was. */
  ghost predicate LastLinesWin(lines: seq<string>, before: Message, after: Message, parse: TimeParser) {
    && after.domain == before.domain && after.address == before.address && after.statement == before.statement
    && after.uri == Or(LastValue(lines, "URI", parse), before.uri)
    && after.version == Or(LastValue(lines, "Version", parse), before.version)
    && after.nonce == Or(LastValue(lines, "Nonce", parse), before.nonce)
    && Some(after.chainID) == Read(LastValue(lines, "Chain ID", parse), ParseInt, Some(before.chainID))
    && after.issuedAt == Read(LastValue(lines, "Issued At", parse), parse, before.issuedAt)
    && after.expirationTime == Read(LastValue(lines, "Expiration Time", parse), parse, before.expirationTime)
    && after.notBefore == Read(LastValue(lines, "Not Before", parse), parse, before.notBefore)
  }

  function Or(value: Option<string>, otherwise: string): string {
    if value.Some? then value.value else otherwise
  }

  function Read<T>(value: Option<string>, read: string -> Option<T>, otherwise: Option<T>): Option<T> {
    if value.Some? then read(value.value) else otherwise
  }

  /** A line that is no field leaves every last value to the lines after it. */
  lemma NoFieldFirst(lines: seq<string>, before: Message, after: Message, parse: TimeParser)
    requires lines != [] && !ReadableField(lines[0], parse) && LastLinesWin(lines[1..], before, after, parse)
    ensures LastLinesWin(lines, before, after, parse)
  {
    hide ReadableField, ParseInt;
  }

  /** What a field line sets, and that it sets nothing else. */
  lemma FieldSets(m: Message, key: string, value: string, parse: TimeParser)
    ensures Field(m, key, value, parse).Success? ==>
              var next := Field(m, key, value, parse).value;
              && next.domain == m.domain && next.address == m.address && next.statement == m.statement
              && next.uri == (if key == "URI" then value else m.uri)
              && next.version == (if key == "Version" then value else m.version)
              && next.nonce == (if key == "Nonce" then value else m.nonce)
              && Some(next.chainID) == (if key == "Chain ID" then ParseInt(value) else Some(m.chainID))
              && next.issuedAt == (if key == "Issued At" then parse(value) else m.issuedAt)
              && next.expirationTime == (if key == "Expiration Time" then parse(value) else m.expirationTime)
              && next.notBefore == (if key == "Not Before" then parse(value) else m.notBefore)
  {
    hide ParseInt;
  }

  lemma LastValueStep(lines: seq<string>, key: string, parse: TimeParser)
    requires lines != [] && HasSeparator(lines[0]) && ReadableField(lines[0], parse)
    ensures LastValue(lines, key, parse) ==
            if LastValue(lines[1..], key, parse).Some? then LastValue(lines[1..], key, parse)
            else if Key(lines[0]) == key then Some(Value(lines[0])) else None
  {
    hide HasSeparator, Key, Value, ReadableField;
  }

  lemma OneFieldFirst(lines: seq<string>, m: Message, next: Message, after: Message, parse: TimeParser)
    requires lines != [] && HasSeparator(lines[0])
    requires Field(m, Key(lines[0]), Value(lines[0]), parse) == Success(next)
    requires LastLinesWin(lines[1..], next, after, parse)
    ensures LastLinesWin(lines, m, after, parse)
  {
    hide HasSeparator, Key, Value, ParseInt, ReadableField, Field, LastValue;
    FieldSucceedsExactly(m, lines[0], parse);
    FieldSets(m, Key(lines[0]), Value(lines[0]), parse);
    LastValueStep(lines, "URI", parse);
    LastValueStep(lines, "Version", parse);
    LastValueStep(lines, "Nonce", parse);
    LastValueStep(lines, "Chain ID", parse);
    LastValueStep(lines, "Issued At", parse);
    LastValueStep(lines, "Expiration Time", parse);
    LastValueStep(lines, "Not Before", parse);
  }

  lemma {:induction false} LastLinesWinAlways(lines: seq<string>, atTop: bool, m: Message, parse: TimeParser)
    ensures var r := Fields(lines, atTop, m, parse);
            r.Success? ==> LastLinesWin(lines, m, r.value, parse)
    decreases |lines|
  {
    hide LastLinesWin, Field, HasSeparator, Key, Value, ReadableField;
    if lines == [] {
      NoLinesNoChange(m, parse);
    } else if Fields(lines, atTop, m, parse).Success? {
      var line, rest := lines[0], lines[1..];
      var after := Fields(lines, atTop, m, parse).value;
      ReadableHasSeparator(line, parse);
      if line == "" || (atTop && IsEntry(line)) {
        LastLinesWinAlways(rest, atTop, m, parse);
        if line == "" {
          BlankIsNoField(parse);
        } else {
          EntryIsNothingElse(line, parse);
        }
        NoFieldFirst(lines, m, after, parse);
      } else if !HasSeparator(line) {
        LastLinesWinAlways(rest, true, m, parse);
        NoFieldFirst(lines, m, after, parse);
      } else {
        var next := Field(m, Key(line), Value(line), parse).value;
        LastLinesWinAlways(rest, false, next, parse);
        OneFieldFirst(lines, m, next, after, parse);
      }
    }
  }

  lemma NoLinesNoChange(m: Message, parse: TimeParser)
    ensures LastLinesWin([], m, m, parse)
  {
  }

  lemma BlankIsNoField(parse: TimeParser)
    ensures !ReadableField("", parse)
  {
  }

  /** Line i is the last of its field. */
  ghost predicate LastLineOf(lines: seq<string>, i: nat, key: string, parse: TimeParser) {
    && i < |lines| && FieldLine(lines[i], key, parse)
    && forall j :: i < j < |lines| ==> !FieldLine(lines[j], key, parse)
  }

  lemma {:induction false} LastValueIsLast(lines: seq<string>, key: string, parse: TimeParser) returns (last: nat)
    ensures LastValue(lines, key, parse) == None <==> forall i :: 0 <= i < |lines| ==> !FieldLine(lines[i], key, parse)
    ensures LastValue(lines, key, parse).Some? ==>
              && LastLineOf(lines, last, key, parse) && HasSeparator(lines[last])
              && LastValue(lines, key, parse).value == Value(lines[last])
  {
    hide FieldLine, HasSeparator, Value;
    last := 0;
    if lines != [] {
      var rest := lines[1..];
      assert forall i :: 0 <= i < |rest| ==> rest[i] == lines[i + 1];
      last := LastValueIsLast(rest, key, parse);
      if LastValue(rest, key, parse).Some? {
        assert LastValue(lines, key, parse) == LastValue(rest, key, parse);
        last := last + 1;
        assert FieldLine(lines[last], key, parse);
        forall j | last < j < |lines|
          ensures !FieldLine(lines[j], key, parse)
        {
          assert rest[j - 1] == lines[j];
        }
      } else {
        forall j | 0 < j < |lines|
          ensures !FieldLine(lines[j], key, parse)
        {
          assert rest[j - 1] == lines[j];
        }
        FieldLineHasSeparator(lines[0], key, parse);
        last := 0;
      }
    }
  }

  lemma FieldLineHasSeparator(line: string, key: string, parse: TimeParser)
    ensures FieldLine(line, key, parse) ==> HasSeparator(line)
  {
  }

  /** In an accepted message every field is what its last line says. */
  lemma AcceptedFieldsAreLast(lines: seq<string>, parse: TimeParser)
    requires ParseLines(lines, parse).Success?
    ensures LastLinesWin(lines[StatementAt(lines).1..], Head(lines).value, ParseLines(lines, parse).value, parse)
  {
    hide LastLinesWin, HasSeparator, Fields, NormalizeAddress;
    LastLinesWinAlways(lines[StatementAt(lines).1..], false, Head(lines).value, parse);
  }

  /**
    What a field line claims is dropped exactly when a later line of the same field is the last and says otherwise: a
    repeated field is accepted, and only its last line is checked against what the server expects.
   */
  lemma ClaimDroppedExactly(lines: seq<string>, i: nat, key: string, parse: TimeParser)
    requires i < |lines| && FieldLine(lines[i], key, parse)
    ensures HasSeparator(lines[i])
    ensures LastValue(lines, key, parse) != Some(Value(lines[i])) <==>
            exists j :: i < j < |lines| && LastLineOf(lines, j, key, parse)
                        && HasSeparator(lines[j]) && Value(lines[j]) != Value(lines[i])
  {
    hide FieldLine, HasSeparator, Value;
    FieldLineHasSeparator(lines[i], key, parse);
    var last := LastValueIsLast(lines, key, parse);
    assert last >= i;
    forall j | 0 <= j < |lines| && LastLineOf(lines, j, key, parse)
      ensures j == last
    {
    }
  }

  /** Two nonces: the first is never looked at. */
  lemma FirstNonceIsDropped(m: Message, parse: TimeParser)
    ensures Fields(["Nonce: a", "Nonce: b"], false, m, parse) == Success(m.(nonce := "b"))
  {
    hide HasSeparator, Key, Value, Field, Fields;
    var lines := ["Nonce: a", "Nonce: b"];
    assert lines[0] == "Nonce" + ": " + "a" && lines[1] == "Nonce" + ": " + "b";
    FieldNames(m, "a", parse);
    FieldNames(m.(nonce := "a"), "b", parse);
    FieldRead(lines, "Nonce", "a", m, parse);
    assert lines[1..] == ["Nonce: b"];
    FieldRead(lines[1..], "Nonce", "b", m.(nonce := "a"), parse);
    assert lines[1..][1..] == [];
    FieldsDone(m.(nonce := "b"), parse);
  }

  /* ---------- verification ---------- */

  datatype Expectation = Expectation(domain: string, nonce: string, chainID: int64, now: int)

  datatype VerifyError =
    | Unparsed | NotConfigured | WrongDomain | WrongNonce | WrongChain | Expired | NotYetValid | BadSignature

  /** Address recovery over the raw text. */
  type Recover = (string, string) -> Option<string>

  /** `VerifySIWE`; `want.now` is the server's clock when the caller gives no time. */
  method VerifySIWE(raw: string, sig: string, want: Expectation, parse: TimeParser, recover: Recover)
    returns (r: Result<Message, VerifyError>)
    ensures r == Verified(ParseLines(Split(Unix(raw), '\n'), parse), want, recover(raw, sig))
    ensures var parsed := ParseLines(Split(Unix(raw), '\n'), parse);
            && (r.Success? <==> parsed.Success? && Acceptable(parsed.value, want, recover(raw, sig)))
            && (r.Success? ==> r == Success(parsed.value))
  {
    var parsed := ParseSIWE(raw, parse);
    if parsed.Failure? {
      return Failure(Unparsed);
    }
    var msg := parsed.value;
    if want.domain == "" {
      return Failure(NotConfigured);
    }
    if !EqualFold(msg.domain, want.domain) {
      return Failure(WrongDomain);
    }
    if msg.nonce != want.nonce {
      return Failure(WrongNonce);
    }
    if want.chainID != 0 && msg.chainID != want.chainID {
      return Failure(WrongChain);
    }
    if msg.expirationTime.Some? && want.now >= msg.expirationTime.value {
      return Failure(Expired);
    }
    if msg.notBefore.Some? && want.now < msg.notBefore.value {
      return Failure(NotYetValid);
    }
    var recovered := recover(raw, sig);
    if recovered != Some(msg.address) {
      return Failure(BadSignature);
    }
    return Success(msg);
  }

  /** What the server requires of a message that parses. */
  predicate Acceptable(m: Message, want: Expectation, recovered: Option<string>) {
    && want.domain != "" && ToLower(m.domain) == ToLower(want.domain)
    && m.nonce == want.nonce
    && (want.chainID == 0 || m.chainID == want.chainID)
    && (m.expirationTime.None? || want.now < m.expirationTime.value)
    && (m.notBefore.None? || m.notBefore.value <= want.now)
    && recovered == Some(m.address)
  }

  function Verified(parsed: Result<Message, ParseError>, want: Expectation, recovered: Option<string>):
      Result<Message, VerifyError>
  {
    if parsed.Failure? then Failure(Unparsed)
    else
      var m := parsed.value;
      if want.domain == "" then Failure(NotConfigured)
      else if !EqualFold(m.domain, want.domain) then Failure(WrongDomain)
      else if m.nonce != want.nonce then Failure(WrongNonce)
      else if want.chainID != 0 && m.chainID != want.chainID then Failure(WrongChain)
      else if m.expirationTime.Some? && want.now >= m.expirationTime.value then Failure(Expired)
      else if m.notBefore.Some? && want.now < m.notBefore.value then Failure(NotYetValid)
      else if recovered != Some(m.address) then Failure(BadSignature)
      else Success(m)
  }

  /** Each refusal means that everything checked before was in order and its own check was not. */
  lemma RefusalsExactly(parsed: Result<Message, ParseError>, want: Expectation, recovered: Option<string>)
    ensures var r := Verified(parsed, want, recovered);
            && (r.Success? <==> parsed.Success? && Acceptable(parsed.value, want, recovered))
            && (r.Success? ==> r == Success(parsed.value))
            && (r == Failure(Unparsed) <==> parsed.Failure?)
            && (r == Failure(NotConfigured) <==> parsed.Success? && want.domain == "")
            && (parsed.Success? && want.domain != "" ==>
                  var m := parsed.value;
                  var domain, nonce, chain :=
                    ToLower(m.domain) == ToLower(want.domain), m.nonce == want.nonce, want.chainID in {0, m.chainID};
                  var unexpired := m.expirationTime == None || want.now < m.expirationTime.value;
                  var started := m.notBefore == None || m.notBefore.value <= want.now;
                  && (r == Failure(WrongDomain) <==> !domain)
                  && (r == Failure(WrongNonce) <==> domain && !nonce)
                  && (r == Failure(WrongChain) <==> domain && nonce && !chain)
                  && (r == Failure(Expired) <==> domain && nonce && chain && !unexpired)
                  && (r == Failure(NotYetValid) <==> domain && nonce && chain && unexpired && !started)
                  && (r == Failure(BadSignature) <==>
                        domain && nonce && chain && unexpired && started && recovered != Some(m.address)))
  {
    hide ToLower;
  }

  /** The statement of every challenge this server issues, in parts as well. */
  const STATEMENT := "Sign in to the " + "Signet platform " + "console."

  /** It is parsed as the statement it is, so `SignInSucceeds` covers every sign-in from the console. */
  lemma DeployedStatementIsParsed()
    ensures !HasSeparator(STATEMENT) && OneLine(STATEMENT)
  {
    hide HasSeparator;
    assert ':' !in "Sign in to the " && ':' !in "Signet platform " && ':' !in "console.";
    assert OneLine("Sign in to the ") && OneLine("Signet platform ") && OneLine("console.");
    NoColonNoSeparator(STATEMENT);
  }

  /**
    A message the console prints from a challenge opens a session exactly when the wallet that signed it is the one
    it names and the domain, nonce and chain are those the server expects.
   */
  lemma SignInSucceeds(
    o: Options, issuedAt: string, want: Expectation, parse: TimeParser, recovered: Option<string>)
    requires Printable(o, issuedAt) && parse(issuedAt).Some? && !HasSeparator(o.statement) && want.domain != ""
    ensures Verified(ParseLines(Split(Unix(Build(o, issuedAt)), '\n'), parse), want, recovered).Success? <==>
            && EqualFold(o.domain, want.domain) && o.nonce == want.nonce
            && (want.chainID == 0 || o.chainID == want.chainID)
            && recovered == Some(ToLower(o.address))
  {
    hide ParseLines, Build, Printable, HasSeparator;
    PrintParse(o, issuedAt, parse);
  }
}
