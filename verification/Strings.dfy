/** The parts of Go's `strings` package the platform uses, on ASCII text. */
module Strings {

  predicate IsSpace(c: char) {
    c == ' ' || c == '\t' || c == '\n' || c == '\r' || c == '\U{0B}' || c == '\U{0C}'
  }

  function TrimLeft(s: string): string {
    if s != "" && IsSpace(s[0]) then TrimLeft(s[1..]) else s
  }

  function TrimRight(s: string): string {
    if s != "" && IsSpace(s[|s| - 1]) then TrimRight(s[..|s| - 1]) else s
  }

  function TrimSpace(s: string): string {
    TrimRight(TrimLeft(s))
  }

  function LowerChar(c: char): char {
    if 'A' <= c <= 'Z' then (c as int + 32) as char else c
  }

  function ToLower(s: string): (r: string)
    ensures |r| == |s|
  {
    seq(|s|, i requires 0 <= i < |s| => LowerChar(s[i]))
  }

  predicate EqualFold(a: string, b: string) {
    ToLower(a) == ToLower(b)
  }

  predicate HasPrefix(s: string, prefix: string) {
    prefix <= s
  }

  function TrimPrefix(s: string, prefix: string): string {
    if prefix <= s then s[|prefix|..] else s
  }

  predicate HasSuffix(s: string, suffix: string) {
    |suffix| <= |s| && s[|s| - |suffix|..] == suffix
  }

  function TrimSuffix(s: string, suffix: string): string {
    if HasSuffix(s, suffix) then s[..|s| - |suffix|] else s
  }

  /** Text with no blank at either end, which `TrimSpace` leaves alone. */
  predicate Solid(s: string) {
    s == "" || (!IsSpace(s[0]) && !IsSpace(s[|s| - 1]))
  }

  lemma TrimSolid(s: string)
    requires Solid(s)
    ensures TrimSpace(s) == s
  {
  }

  /** The blanks there are. */
  const BLANKS := " \t\n\r\U{0B}\U{0C}"

  predicate AllBlank(s: string) {
    forall c :: c in s ==> c in BLANKS
  }

  lemma SpaceExactly(c: char)
    ensures IsSpace(c) <==> c in BLANKS
  {
  }

  lemma {:induction false} TrimLeftOf(l: string, t: string)
    requires AllBlank(l) && (t == "" || t[0] !in BLANKS)
    ensures TrimLeft(l + t) == t
  {
    if l != "" {
      SpaceExactly(l[0]);
      assert (l + t)[1..] == l[1..] + t;
      TrimLeftOf(l[1..], t);
    } else {
      assert l + t == t;
      if t != "" {
        SpaceExactly(t[0]);
      }
    }
  }

  lemma {:induction false} TrimRightOf(t: string, r: string)
    requires AllBlank(r) && (t == "" || t[|t| - 1] !in BLANKS)
    ensures TrimRight(t + r) == t
  {
    if r != "" {
      SpaceExactly(r[|r| - 1]);
      assert (t + r)[..|t + r| - 1] == t + r[..|r| - 1];
      TrimRightOf(t, r[..|r| - 1]);
    } else {
      assert t + r == t;
      if t != "" {
        SpaceExactly(t[|t| - 1]);
      }
    }
  }

  /** `TrimSpace` takes all the blanks before and after a text, and nothing else. */
  lemma TrimSpaceOf(l: string, t: string, r: string)
    requires AllBlank(l) && AllBlank(r) && (t == "" || (t[0] !in BLANKS && t[|t| - 1] !in BLANKS))
    ensures TrimSpace(l + t + r) == t
  {
    hide TrimLeft, TrimRight;
    if t == "" {
      assert l + t + r == (l + r) + "";
      TrimLeftOf(l + r, "");
      TrimRightOf("", "");
      assert "" + "" == "" && (l + r) + "" == l + r;
    } else {
      assert l + t + r == l + (t + r);
      TrimLeftOf(l, t + r);
      TrimRightOf(t, r);
    }
  }

  /** The 26 capitals go to their small letters; every other character stays. */
  lemma LowerExactly(i: nat, c: char)
    ensures i < 26 ==> LowerChar(('A' as int + i) as char) == ('a' as int + i) as char
    ensures c < 'A' || 'Z' < c ==> LowerChar(c) == c
  {
  }

  lemma PrefixExactly(s: string, prefix: string, rest: string)
    ensures HasPrefix(prefix + rest, prefix) && TrimPrefix(prefix + rest, prefix) == rest
    ensures HasPrefix(s, prefix) ==> s == prefix + TrimPrefix(s, prefix)
    ensures !HasPrefix(s, prefix) ==> TrimPrefix(s, prefix) == s
  {
    assert (prefix + rest)[|prefix|..] == rest;
  }

  lemma SuffixExactly(s: string, suffix: string, rest: string)
    ensures HasSuffix(rest + suffix, suffix) && TrimSuffix(rest + suffix, suffix) == rest
    ensures HasSuffix(s, suffix) ==> s == TrimSuffix(s, suffix) + suffix
    ensures !HasSuffix(s, suffix) ==> TrimSuffix(s, suffix) == s
  {
    assert (rest + suffix)[|rest|..] == suffix;
    assert (rest + suffix)[..|rest|] == rest;
  }

  /** Equality up to case is equality of length and, place by place, of letters up to case. */
  lemma FoldExactly(a: string, b: string)
    ensures EqualFold(a, b) <==> |a| == |b| && forall i :: 0 <= i < |a| ==> LowerChar(a[i]) == LowerChar(b[i])
  {
    if EqualFold(a, b) {
      assert |ToLower(a)| == |ToLower(b)|;
      forall i | 0 <= i < |a|
        ensures LowerChar(a[i]) == LowerChar(b[i])
      {
        assert ToLower(a)[i] == ToLower(b)[i];
      }
    }
  }

  lemma TrimShorter(s: string)
    ensures |TrimSpace(s)| <= |s|
  {
    TrimLeftShorter(s);
    TrimRightShorter(TrimLeft(s));
  }

  lemma {:induction false} TrimLeftShorter(s: string)
    ensures |TrimLeft(s)| <= |s|
  {
    if s != "" {
      TrimLeftShorter(s[1..]);
    }
  }

  lemma {:induction false} TrimRightShorter(s: string)
    ensures |TrimRight(s)| <= |s|
  {
    if s != "" {
      TrimRightShorter(s[..|s| - 1]);
    }
  }

  lemma LowerIdempotent(s: string)
    ensures ToLower(ToLower(s)) == ToLower(s)
  {
  }

  /** `strings.Join`, with a one-character separator. */
  function Join(parts: seq<string>, sep: char): string
    requires parts != []
  {
    if |parts| == 1 then parts[0] else parts[0] + [sep] + Join(parts[1..], sep)
  }

  /** `strings.Split`. */
  function Split(s: string, sep: char): (parts: seq<string>)
    ensures parts != []
  {
    if s == "" then [""]
    else
      var rest := Split(s[1..], sep);
      if s[0] == sep then [""] + rest else [[s[0]] + rest[0]] + rest[1..]
  }

  lemma {:induction false} SplitFirst(part: string, sep: char, rest: string)
    requires sep !in part
    ensures Split(part + [sep] + rest, sep) == [part] + Split(rest, sep)
    ensures Split(part, sep) == [part]
  {
    var s := part + [sep] + rest;
    if part == "" {
      assert s[0] == sep && s[1..] == rest;
    } else {
      assert s[1..] == part[1..] + [sep] + rest;
      SplitFirst(part[1..], sep, rest);
      assert [part[0]] + part[1..] == part;
    }
  }

  lemma {:induction false} SplitJoin(parts: seq<string>, sep: char)
    requires parts != [] && forall p :: p in parts ==> sep !in p
    ensures Split(Join(parts, sep), sep) == parts
  {
    if |parts| == 1 {
      SplitFirst(parts[0], sep, "");
    } else {
      SplitJoin(parts[1..], sep);
      SplitFirst(parts[0], sep, Join(parts[1..], sep));
    }
  }

  lemma {:induction false} JoinSplit(s: string, sep: char)
    ensures Join(Split(s, sep), sep) == s
  {
    if s != "" {
      var rest := Split(s[1..], sep);
      JoinSplit(s[1..], sep);
      assert s == [s[0]] + s[1..];
      if s[0] == sep {
        assert Split(s, sep)[1..] == rest;
      } else {
        var head := [s[0]] + rest[0];
        assert Split(s, sep) == [head] + rest[1..];
        if |rest| > 1 {
          assert Split(s, sep)[1..] == rest[1..];
          assert head + [sep] + Join(rest[1..], sep) == [s[0]] + (rest[0] + [sep] + Join(rest[1..], sep));
        }
      }
    }
  }

  /** `strings.LastIndex` of one character. */
  function LastIndex(s: string, c: char): (i: int)
    ensures -1 <= i < |s|
  {
    if s == "" then -1 else if s[|s| - 1] == c then |s| - 1 else LastIndex(s[..|s| - 1], c)
  }

  lemma {:induction false} LastIndexAt(a: string, c: char, b: string)
    requires c !in b
    ensures LastIndex(a + [c] + b, c) == |a|
  {
    var s := a + [c] + b;
    if b != "" {
      assert s[..|s| - 1] == a + [c] + b[..|b| - 1];
      assert b[|b| - 1] in b;
      LastIndexAt(a, c, b[..|b| - 1]);
    }
  }

  lemma {:induction false} LastIndexSplits(s: string, c: char)
    ensures LastIndex(s, c) == -1 <==> c !in s
    ensures LastIndex(s, c) >= 0 ==>
              s == s[..LastIndex(s, c)] + [c] + s[LastIndex(s, c) + 1..] && c !in s[LastIndex(s, c) + 1..]
  {
    if s != "" {
      assert s == s[..|s| - 1] + [s[|s| - 1]];
      LastIndexSplits(s[..|s| - 1], c);
    }
  }
}
