/** Key identifiers `oauth:<issuer>:<subject>[:<scope>]`: backend/internal/api/handlers_keys.go:123-166. */
module KeyIds {
  import opened Outcomes
  import opened Strings
  import Hex

  /** `looksLikeScopeSuffix`. */
  predicate LooksLikeScopeSuffix(seg: string) {
    |seg| == 16 && Hex.Decode(seg).Some?
  }

  /** What `subjectHashFromKeyID` hashes; None where it returns the empty string. */
  function SubjectBody(keyID: string): Option<string> {
    if !HasPrefix(keyID, "oauth:") then None
    else
      var parts := Split(keyID, ':');
      if |parts| < 3 then None
      else
        var body := Join(parts[1..], ':');
        var idx := LastIndex(body, ':');
        Some(if idx > 0 && LooksLikeScopeSuffix(body[idx + 1..]) then body[..idx] else body)
  }

  /** `subjectHashFromKeyID`, over any hash rendered in hexadecimal. */
  function SubjectHash(keyID: string, digest: string -> string): string {
    if SubjectBody(keyID).None? then "" else digest(SubjectBody(keyID).value)
  }

  /** `parentKeyID`; None is the empty string, a root key. */
  function ParentKeyID(keyID: string): Option<string> {
    var idx := LastIndex(keyID, ':');
    if idx <= 0 || !LooksLikeScopeSuffix(keyID[idx + 1..]) then None else Some(keyID[..idx])
  }

  /** A scope is sixteen hexadecimal digits, in either case. */
  lemma ScopeSuffixExactly(seg: string)
    ensures LooksLikeScopeSuffix(seg) <==> |seg| == 16 && Hex.IsHex(seg)
  {
    Hex.DecodesExactly(seg);
  }

  /** A key id that is not an oauth one, or names no subject, belongs to no user. */
  lemma NoSubjectExactly(keyID: string, digest: string -> string)
    ensures SubjectBody(keyID) == None <==> !("oauth:" <= keyID) || ':' !in keyID[6..]
    ensures SubjectBody(keyID) == None ==> SubjectHash(keyID, digest) == ""
  {
    hide LooksLikeScopeSuffix;
    if "oauth:" <= keyID {
      assert keyID == "oauth:" + keyID[6..];
      BodyOf(keyID[6..]);
    }
  }

  lemma {:induction false} ScopeHasNoColon(seg: string)
    requires Hex.Decode(seg).Some?
    ensures ':' !in seg
  {
    if seg != "" {
      assert seg == [seg[0], seg[1]] + seg[2..];
      ScopeHasNoColon(seg[2..]);
    }
  }

  lemma {:induction false} PartCount(s: string, sep: char)
    ensures |Split(s, sep)| > 1 <==> sep in s
  {
    if s != "" {
      assert s == [s[0]] + s[1..];
      PartCount(s[1..], sep);
    }
  }

  /** The hashed text is what follows "oauth:", less a trailing scope. */
  lemma BodyOf(body: string)
    ensures SubjectBody("oauth:" + body) ==
            if ':' !in body then None
            else if LastIndex(body, ':') > 0 && LooksLikeScopeSuffix(body[LastIndex(body, ':') + 1..])
            then Some(body[..LastIndex(body, ':')]) else Some(body)
  {
    hide LooksLikeScopeSuffix;
    var keyID := "oauth:" + body;
    assert keyID == "oauth" + [':'] + body;
    SplitFirst("oauth", ':', body);
    assert Split(keyID, ':')[1..] == Split(body, ':');
    JoinSplit(body, ':');
    PartCount(body, ':');
    assert HasPrefix(keyID, "oauth:");
  }

  /** The last segment of a key id is a scope. */
  predicate EndsInScope(s: string) {
    var idx := LastIndex(s, ':');
    idx > 0 && LooksLikeScopeSuffix(s[idx + 1..])
  }

  /** The parent of a scoped key is the key it was scoped from, whatever colons that key contains. */
  lemma ParentOfScoped(root: string, scope: string)
    requires root != "" && LooksLikeScopeSuffix(scope)
    ensures ParentKeyID(root + ":" + scope) == Some(root)
  {
    var keyID := root + ":" + scope;
    ScopeHasNoColon(scope);
    LastIndexAt(root, ':', scope);
    assert keyID[|root| + 1..] == scope && keyID[..|root|] == root;
  }

  /** A key has a parent exactly when it is that parent, which is not empty, with a scope appended. */
  lemma ParentExactly(keyID: string, root: string)
    ensures ParentKeyID(keyID) == Some(root) <==>
            root != "" && exists scope :: LooksLikeScopeSuffix(scope) && keyID == root + ":" + scope
  {
    hide LooksLikeScopeSuffix;
    if ParentKeyID(keyID) == Some(root) {
      LastIndexSplits(keyID, ':');
      var scope := keyID[LastIndex(keyID, ':') + 1..];
      assert LooksLikeScopeSuffix(scope) && keyID == root + ":" + scope;
    }
    if scope :| LooksLikeScopeSuffix(scope) && keyID == root + ":" + scope {
      if root != "" {
        ParentOfScoped(root, scope);
      }
    }
  }

  lemma BodyOfScoped(body: string, scope: string)
    requires body != "" && LooksLikeScopeSuffix(scope)
    ensures SubjectBody("oauth:" + body + ":" + scope) == Some(body)
  {
    var scoped := body + ":" + scope;
    ScopeHasNoColon(scope);
    LastIndexAt(body, ':', scope);
    BodyOf(scoped);
    assert scoped[|body|] == ':';
    assert scoped[|body| + 1..] == scope && scoped[..|body|] == body;
    assert "oauth:" + body + ":" + scope == "oauth:" + scoped;
  }

  lemma LastColonAfterPrefix(body: string)
    requires ':' in body
    ensures LastIndex("oauth:" + body, ':') == 6 + LastIndex(body, ':')
  {
    LastIndexSplits(body, ':');
    var i := LastIndex(body, ':');
    var head := "oauth:" + body[..i];
    assert "oauth:" + body == head + [':'] + body[i + 1..];
    LastIndexAt(head, ':', body[i + 1..]);
  }

  /**
    A scoped key is counted with its root's user exactly when the root names an issuer and a subject and does not itself
    end in what looks like a scope.
   */
  lemma ScopedSharesSubject(body: string, scope: string)
    requires body != "" && LooksLikeScopeSuffix(scope)
    ensures SubjectBody("oauth:" + body + ":" + scope) == SubjectBody("oauth:" + body)
            <==> ':' in body && !EndsInScope(body)
  {
    hide LooksLikeScopeSuffix, SubjectBody;
    BodyOf(body);
    BodyOfScoped(body, scope);
    if EndsInScope(body) {
      assert |body[..LastIndex(body, ':')]| < |body|;
    }
  }

  /**
    For a root key of an issuer and a subject that is not 16 hexadecimal digits: it has no parent, its scoped keys have
    it for parent, and they share its subject hash.
   */
  lemma SubKeysStayWithTheirUser(iss: string, sub: string, scope: string, digest: string -> string)
    requires iss != "" && ':' !in sub && !LooksLikeScopeSuffix(sub) && LooksLikeScopeSuffix(scope)
    ensures var root := "oauth:" + iss + ":" + sub;
            && ParentKeyID(root) == None && ParentKeyID(root + ":" + scope) == Some(root)
            && SubjectHash(root + ":" + scope, digest) == SubjectHash(root, digest) == digest(iss + ":" + sub)
  {
    hide LooksLikeScopeSuffix;
    var body := iss + ":" + sub;
    var root := "oauth:" + iss + ":" + sub;
    assert root == "oauth:" + body;
    LastIndexAt(iss, ':', sub);
    assert body[|iss|] == ':' && body[|iss| + 1..] == sub;
    LastColonAfterPrefix(body);
    assert root[6 + |iss| + 1..] == sub;
    ParentOfScoped(root, scope);
    ScopedSharesSubject(body, scope);
    BodyOf(body);
    assert root + ":" + scope == "oauth:" + body + ":" + scope;
  }

  /** The second issuer takes over the head of the first subject. */
  predicate Shifted(iss: string, sub: string, iss': string, sub': string) {
    && |iss| < |iss'| && iss' == iss + ":" + iss'[|iss| + 1..]
    && sub == iss'[|iss| + 1..] + ":" + sub'
  }

  /** Two users give one text exactly when they are the same, or part of the subject of one is in the other's issuer. */
  lemma SameTextExactly(iss: string, sub: string, iss': string, sub': string)
    ensures iss + ":" + sub == iss' + ":" + sub' <==>
            (iss == iss' && sub == sub') || Shifted(iss, sub, iss', sub') || Shifted(iss', sub', iss, sub)
  {
    var body, body' := iss + ":" + sub, iss' + ":" + sub';
    if body == body' {
      if |iss| < |iss'| {
        ShiftedBody(iss, sub, iss', sub');
      } else if |iss'| < |iss| {
        ShiftedBody(iss', sub', iss, sub);
      } else {
        assert iss == body[..|iss|] == iss' && sub == body[|iss| + 1..] == sub';
      }
    }
    if Shifted(iss, sub, iss', sub') {
      var x := iss'[|iss| + 1..];
      assert iss + ":" + (x + ":" + sub') == iss + ":" + x + ":" + sub';
    }
    if Shifted(iss', sub', iss, sub) {
      var x := iss[|iss'| + 1..];
      assert iss' + ":" + (x + ":" + sub) == iss' + ":" + x + ":" + sub;
    }
  }

  lemma ShiftedBody(iss: string, sub: string, iss': string, sub': string)
    requires iss + ":" + sub == iss' + ":" + sub' && |iss| < |iss'|
    ensures Shifted(iss, sub, iss', sub')
  {
    var body := iss + ":" + sub;
    assert body[..|iss'|] == iss' && body[..|iss|] == iss && body[|iss|] == ':';
    assert iss'[|iss|] == ':' && iss'[..|iss|] == iss;
    assert iss' == iss'[..|iss|] + [iss'[|iss|]] + iss'[|iss| + 1..];
    assert body[|iss| + 1..] == sub;
    assert sub[..|iss'| - |iss| - 1] == iss'[|iss| + 1..];
    assert sub[|iss'| - |iss| - 1] == body[|iss'|] == ':';
    assert sub[|iss'| - |iss|..] == body[|iss'| + 1..] == sub';
    assert sub == sub[..|iss'| - |iss| - 1] + [sub[|iss'| - |iss| - 1]] + sub[|iss'| - |iss|..];
  }

  /** With colon-free subjects the text names one user of one issuer. */
  lemma BodyNamesOneUser(iss: string, sub: string, iss': string, sub': string)
    requires ':' !in sub && ':' !in sub' && iss + ":" + sub == iss' + ":" + sub'
    ensures iss == iss' && sub == sub'
  {
    SameTextExactly(iss, sub, iss', sub');
    if Shifted(iss, sub, iss', sub') {
      ShiftedHasColon(iss, sub, iss', sub');
    }
    if Shifted(iss', sub', iss, sub) {
      ShiftedHasColon(iss', sub', iss, sub);
    }
  }

  lemma ShiftedHasColon(iss: string, sub: string, iss': string, sub': string)
    requires Shifted(iss, sub, iss', sub')
    ensures ':' in sub
  {
    assert sub[|iss'[|iss| + 1..]|] == ':';
  }

  /** A subject with a colon: another user of another issuer gives the same text. */
  lemma ColonSubjectsCollide()
    ensures SubjectBody("oauth:" + "https://id" + ":" + "a:b") == SubjectBody("oauth:" + "https://id:a" + ":" + "b")
  {
    assert "oauth:" + "https://id" + ":" + "a:b" == "oauth:" + "https://id:a" + ":" + "b";
  }

  /** A body less its trailing scope. */
  function Stem(body: string): string
    requires EndsInScope(body)
  {
    body[..LastIndex(body, ':')]
  }

  /** For all issuers and subjects, colons or not: when two users share a subject hash, digest collisions aside. */
  lemma SubjectsShareHashExactly(iss: string, sub: string, iss': string, sub': string)
    ensures SubjectBody("oauth:" + iss + ":" + sub) == SubjectBody("oauth:" + iss' + ":" + sub') <==>
            var body, body' := iss + ":" + sub, iss' + ":" + sub';
            if EndsInScope(body) then
              if EndsInScope(body') then Stem(body) == Stem(body') else Stem(body) == body'
            else if EndsInScope(body') then body == Stem(body')
            else (iss == iss' && sub == sub') || Shifted(iss, sub, iss', sub') || Shifted(iss', sub', iss, sub)
  {
    hide LooksLikeScopeSuffix, SubjectBody, Shifted;
    var body, body' := iss + ":" + sub, iss' + ":" + sub';
    assert body[|iss|] == ':' && body'[|iss'|] == ':';
    BodyOf(body);
    BodyOf(body');
    assert "oauth:" + iss + ":" + sub == "oauth:" + body && "oauth:" + iss' + ":" + sub' == "oauth:" + body';
    SameTextExactly(iss, sub, iss', sub');
  }

  /** What is hashed for a root key: issuer and subject, or the issuer alone when the subject looks like a scope. */
  lemma RootBody(iss: string, sub: string)
    requires iss != "" && ':' !in sub
    ensures SubjectBody("oauth:" + iss + ":" + sub) ==
            Some(if LooksLikeScopeSuffix(sub) then iss else iss + ":" + sub)
  {
    hide LooksLikeScopeSuffix, SubjectBody;
    var body := iss + ":" + sub;
    LastIndexAt(iss, ':', sub);
    assert body[|iss|] == ':' && body[|iss| + 1..] == sub && body[..|iss|] == iss;
    BodyOf(body);
    assert "oauth:" + iss + ":" + sub == "oauth:" + body;
  }

  /**
    Without colons in the subjects: two users share a hash when they are the same user, or both subjects look
    like scopes and the issuers are equal, or one subject does and its issuer is the other user's issuer and subject.
   */
  lemma PlainSubjectsShareHashExactly(iss: string, sub: string, iss': string, sub': string)
    requires iss != "" && iss' != "" && ':' !in sub && ':' !in sub'
    ensures SubjectBody("oauth:" + iss + ":" + sub) == SubjectBody("oauth:" + iss' + ":" + sub') <==>
            var scope, scope' := LooksLikeScopeSuffix(sub), LooksLikeScopeSuffix(sub');
            || (scope == scope' && iss == iss' && (sub == sub' || scope))
            || (scope && !scope' && iss == iss' + ":" + sub')
            || (!scope && scope' && iss' == iss + ":" + sub)
  {
    hide LooksLikeScopeSuffix, SubjectBody;
    RootBody(iss, sub);
    RootBody(iss', sub');
    if !LooksLikeScopeSuffix(sub) && !LooksLikeScopeSuffix(sub') && iss + ":" + sub == iss' + ":" + sub' {
      BodyNamesOneUser(iss, sub, iss', sub');
    }
  }

  /** A collision across issuers: a port number in one is the subject of the other. */
  lemma IssuersCollide(sub: string)
    requires LooksLikeScopeSuffix(sub)
    ensures var iss, port := "https://id.example", "8443";
            SubjectBody("oauth:" + (iss + ":" + port) + ":" + sub) == SubjectBody("oauth:" + iss + ":" + port)
  {
    hide LooksLikeScopeSuffix, SubjectBody;
    var iss, port := "https://id.example", "8443";
    assert ':' !in port;
    SuffixHasNoColon(sub);
    assert !LooksLikeScopeSuffix(port) by { ShortIsNoScope(port); }
    PlainSubjectsShareHashExactly(iss + ":" + port, sub, iss, port);
  }

  lemma SuffixHasNoColon(seg: string)
    requires LooksLikeScopeSuffix(seg)
    ensures ':' !in seg
  {
    ScopeHasNoColon(seg);
  }

  lemma ShortIsNoScope(seg: string)
    requires |seg| != 16
    ensures !LooksLikeScopeSuffix(seg)
  {
  }

  /** Where the condition fails: subjects of 16 hexadecimal digits are all taken for scopes of the issuer itself. */
  lemma HexSubjectsCollide(iss: string, sub: string, sub': string)
    requires iss != "" && LooksLikeScopeSuffix(sub) && LooksLikeScopeSuffix(sub')
    ensures SubjectBody("oauth:" + iss + ":" + sub) == SubjectBody("oauth:" + iss + ":" + sub') == Some(iss)
    ensures ParentKeyID("oauth:" + iss + ":" + sub) == Some("oauth:" + iss)
  {
    BodyOfScoped(iss, sub);
    BodyOfScoped(iss, sub');
    ParentOfScoped("oauth:" + iss, sub);
  }
}
