/** Which messages `ParseSIWE` of backend/internal/auth/siwe.go refuses, and with which error. */
module SiweRefusals {
  import opened Outcomes
  import opened Strings
  import opened Siwe

  /* ---------- the first lines ---------- */

  lemma PreambleText()
    ensures PREAMBLE == " wants you to sign " + "in with your " + "Ethereum account:"
  {
  }

  lemma DeployedStatementText()
    ensures STATEMENT == "Sign in to " + "the Signet " + "platform console."
  {
  }

  /** Fewer than six lines, a first line that ends otherwise, one without a domain, and an address that is none. */
  lemma HeadExactly(lines: seq<string>)
    ensures Head(lines) == Failure(MessageTooShort) <==> |lines| < 6
    ensures Head(lines) == Failure(NoPreamble) <==> |lines| >= 6 && !HasSuffix(lines[0], PREAMBLE)
    ensures Head(lines) == Failure(NoDomain) <==> |lines| >= 6 && lines[0] == PREAMBLE
    ensures Head(lines) == Failure(BadAddress) <==>
            |lines| >= 6 && lines[0] != PREAMBLE && HasSuffix(lines[0], PREAMBLE) && NormalizeAddress(lines[1]) == None
    ensures Head(lines).Failure? ==> Head(lines).error in {MessageTooShort, NoPreamble, NoDomain, BadAddress}
    ensures Head(lines).Success? ==>
              var m := Head(lines).value;
              && lines[0] == m.domain + PREAMBLE && NormalizeAddress(lines[1]) == Some(m.address)
              && m == Message(m.domain, m.address, StatementAt(lines).0, "", "", 0, "", None, None, None)
  {
    hide NormalizeAddress, StatementAt, HasSuffix, TrimSuffix;
    if |lines| >= 6 {
      SuffixExactly(lines[0], PREAMBLE, "");
      assert "" + PREAMBLE == PREAMBLE;
    }
  }

  predicate AtMostOneBlank(gap: seq<string>) {
    gap == [] || gap == [""]
  }

  /** A line of text after the address, blank lines around it or not, is the statement, and the fields come after. */
  lemma StatementExactly(
    first: string, second: string, gap: seq<string>, text: string, after: seq<string>, rest: seq<string>)
    requires AtMostOneBlank(gap) && AtMostOneBlank(after) && (after == [] ==> rest == [] || rest[0] != "")
    requires text != "" && !HasSeparator(text)
    ensures StatementAt([first, second] + gap + [text] + after + rest) == (text, 3 + |gap| + |after|)
  {
    hide HasSeparator;
    var lines := [first, second] + gap + [text] + after + rest;
    if gap == [] {
      assert lines[2] == text;
    } else {
      assert lines[2] == "" && lines[3] == text;
    }
    var i := 3 + |gap|;
    assert i < |lines| ==> lines[i] == if after == [] then rest[0] else "";
  }

  /** Without one the fields come straight after the address, or after one blank line. */
  lemma NoStatementExactly(first: string, second: string, gap: seq<string>, rest: seq<string>)
    requires AtMostOneBlank(gap)
    requires rest == [] || HasSeparator(rest[0]) || (rest[0] == "" && gap != [])
    ensures StatementAt([first, second] + gap + rest) == ("", 2 + |gap|)
  {
    hide HasSeparator;
    var lines := [first, second] + gap + rest;
    if rest != [] && HasSeparator(rest[0]) {
      SeparatorNonempty(rest[0]);
    }
    if gap == [] {
      assert |lines| > 2 ==> lines[2] == rest[0];
    } else {
      assert lines[2] == "" && (|lines| > 3 ==> lines[3] == rest[0]);
    }
  }

  /* ---------- the remaining lines ---------- */

  /** What is wrong with a line that is not accounted for. */
  function LineError(line: string, parse: TimeParser): ParseError {
    if !HasSeparator(line) then UnparsableLine
    else if Key(line) == "Chain ID" then BadChainID
    else if Key(line) in {"Issued At", "Expiration Time", "Not Before"} then BadTime
    else UnknownField
  }

  lemma FieldRefusedExactly(m: Message, line: string, parse: TimeParser)
    requires HasSeparator(line)
    ensures !ReadableField(line, parse) ==>
              Field(m, Key(line), Value(line), parse) == Failure(LineError(line, parse))
  {
    hide HasSeparator, Key, Value, ParseInt;
  }

  lemma AccountedShift(lines: seq<string>, i: nat, atTop: bool, next: bool, parse: TimeParser)
    requires i + 1 < |lines|
    requires next == (IsHeader(lines[0]) || (atTop && (lines[0] == "" || IsEntry(lines[0]))))
    ensures Accounted(lines, i + 1, atTop, parse) <==> Accounted(lines[1..], i, next, parse)
  {
    hide IsHeader, IsEntry, ReadableField, UnderResources;
    UnderRest(lines, i, atTop, next);
  }

  /** The field loop fails at the first line that is not accounted for, with what is wrong with that line. */
  lemma {:induction false} FailsAtFirst(lines: seq<string>, atTop: bool, m: Message, parse: TimeParser)
      returns (i: nat)
    requires !AllAccounted(lines, atTop, parse)
    ensures i < |lines| && !Accounted(lines, i, atTop, parse)
    ensures forall j: nat :: j < i ==> Accounted(lines, j, atTop, parse)
    ensures Fields(lines, atTop, m, parse) == Failure(LineError(lines[i], parse))
    decreases |lines|
  {
    hide Field, HasSeparator, Key, Value, ReadableField, AllAccounted, UnderResources, LineError;
    i := 0;
    if lines == [] {
      NothingToAccount(atTop, parse);
    } else if !Accounted(lines, 0, atTop, parse) {
      FirstUnder(lines, atTop);
      FirstFails(lines, atTop, m, parse);
    } else {
      var next := IsHeader(lines[0]) || (atTop && (lines[0] == "" || IsEntry(lines[0])));
      AccountedRest(lines, atTop, next, parse);
      var m' := FirstPasses(lines, atTop, next, m, parse);
      hide Accounted, IsHeader, IsEntry, Fields;
      var k := FailsAtFirst(lines[1..], next, m', parse);
      i := k + 1;
      AccountedShift(lines, k, atTop, next, parse);
      forall j: nat | j < i
        ensures Accounted(lines, j, atTop, parse)
      {
        if j > 0 {
          AccountedShift(lines, j - 1, atTop, next, parse);
        }
      }
    }
  }

  lemma FirstFails(lines: seq<string>, atTop: bool, m: Message, parse: TimeParser)
    requires lines != [] && lines[0] != "" && !ReadableField(lines[0], parse) && !IsHeader(lines[0])
    requires !(IsEntry(lines[0]) && atTop)
    ensures Fields(lines, atTop, m, parse) == Failure(LineError(lines[0], parse))
  {
    hide Field, HasSeparator, Key, Value, ReadableField;
    if HasSeparator(lines[0]) {
      FieldRefusedExactly(m, lines[0], parse);
    }
  }

  /** A line that is accounted for is passed, leaving the message it makes of the one before. */
  lemma FirstPasses(lines: seq<string>, atTop: bool, next: bool, m: Message, parse: TimeParser) returns (m': Message)
    requires lines != [] && Accounted(lines, 0, atTop, parse)
    requires next == (IsHeader(lines[0]) || (atTop && (lines[0] == "" || IsEntry(lines[0]))))
    ensures Fields(lines, atTop, m, parse) == Fields(lines[1..], next, m', parse)
  {
    hide Field, HasSeparator, Key, Value, ReadableField, UnderResources, TrimSpace;
    var line := lines[0];
    m' := m;
    FirstUnder(lines, atTop);
    BlankIsNoHeader();
    if IsEntry(line) {
      EntryIsNothingElse(line, parse);
    }
    ReadableHasSeparator(line, parse);
    if line != "" && HasSeparator(line) && !(atTop && IsEntry(line)) {
      FieldSucceedsExactly(m, line, parse);
      m' := Field(m, Key(line), Value(line), parse).value;
    }
  }

  /* ---------- the whole message ---------- */

  /** The first line that is not accounted for. */
  ghost predicate FirstBad(lines: seq<string>, i: nat, parse: TimeParser) {
    && i < |lines| && !Accounted(lines, i, false, parse)
    && forall j: nat :: j < i ==> Accounted(lines, j, false, parse)
  }

  /**
    Every outcome of `ParseSIWE`: what is wrong with the first two lines; else with the first line after the statement
    that is not accounted for; else a last nonce that is missing or empty; else a last version that is not 1; else the
    message.
   */
  lemma OutcomesExactly(lines: seq<string>, parse: TimeParser) returns (bad: nat)
    ensures Head(lines).Failure? ==> ParseLines(lines, parse) == Head(lines)
    ensures Head(lines).Success? ==>
              var first := StatementAt(lines).1;
              && first <= |lines|
              && var fields := lines[first..];
                 && (!AllAccounted(fields, false, parse) ==>
                       && FirstBad(fields, bad, parse)
                       && ParseLines(lines, parse) == Failure(LineError(fields[bad], parse)))
                 && (AllAccounted(fields, false, parse) ==>
                       var nonce, version := LastValue(fields, "Nonce", parse), LastValue(fields, "Version", parse);
                       && (ParseLines(lines, parse) == Failure(NoNonce) <==> nonce in {None, Some("")})
                       && (ParseLines(lines, parse) == Failure(BadVersion) <==>
                             nonce !in {None, Some("")} && version != Some("1"))
                       && (ParseLines(lines, parse).Success? <==>
                             nonce !in {None, Some("")} && version == Some("1")))
  {
    hide Fields, AllAccounted, LineError, LastValue, NormalizeAddress, HasSeparator, Accounted;
    bad := 0;
    if Head(lines).Success? {
      var m := Head(lines).value;
      var fields := lines[StatementAt(lines).1..];
      FieldsSucceedExactly(fields, false, m, parse);
      if AllAccounted(fields, false, parse) {
        LastLinesWinAlways(fields, false, m, parse);
      } else {
        bad := FailsAtFirst(fields, false, m, parse);
      }
    }
  }
}
