/** `sameClientIDs`: backend/internal/api/handlers_apps.go:800-816. */
module ClientIds {

  /** A missing key of a Go map reads as zero. */
  function Count(seen: map<string, int>, v: string): int {
    if v in seen then seen[v] else 0
  }

  /** How many more times each value occurs in `a` than in `b`. */
  ghost predicate Tallies(seen: map<string, int>, a: seq<string>, b: seq<string>) {
    forall v :: Count(seen, v) + multiset(b)[v] == multiset(a)[v]
  }

  lemma CountUp(seen: map<string, int>, a: seq<string>, i: nat)
    requires i < |a| && Tallies(seen, a[..i], [])
    ensures Tallies(seen[a[i] := Count(seen, a[i]) + 1], a[..i + 1], [])
  {
    assert a[..i + 1] == a[..i] + [a[i]];
  }

  lemma CountDown(seen: map<string, int>, a: seq<string>, b: seq<string>, j: nat)
    requires j < |b| && Tallies(seen, a, b[..j])
    ensures Tallies(seen[b[j] := Count(seen, b[j]) - 1], a, b[..j + 1])
  {
    assert b[..j + 1] == b[..j] + [b[j]];
  }

  /** No count has gone below zero. */
  predicate Covered(a: seq<string>, b: seq<string>) {
    multiset(b) <= multiset(a)
  }

  lemma StillCovered(seen: map<string, int>, a: seq<string>, b: seq<string>, j: nat)
    requires j < |b| && Covered(a, b[..j]) && Tallies(seen, a, b[..j + 1]) && Count(seen, b[j]) >= 0
    ensures Covered(a, b[..j + 1])
  {
    assert b[..j + 1] == b[..j] + [b[j]];
  }

  method SameClientIDs(a: seq<string>, b: seq<string>) returns (same: bool)
    ensures same <==> multiset(a) == multiset(b)
  {
    hide Tallies, Covered;
    if |a| != |b| {
      assert |multiset(a)| == |a| && |multiset(b)| == |b|;
      return false;
    }
    var seen: map<string, int> := map[];
    NoneSeen();
    for i := 0 to |a|
      invariant Tallies(seen, a[..i], [])
    {
      CountUp(seen, a, i);
      seen := seen[a[i] := Count(seen, a[i]) + 1];
    }
    assert a[..|a|] == a && b[..0] == [];
    for j := 0 to |b|
      invariant Tallies(seen, a, b[..j])
      invariant Covered(a, b[..j])
    {
      CountDown(seen, a, b, j);
      seen := seen[b[j] := Count(seen, b[j]) - 1];
      if seen[b[j]] < 0 {
        Overdrawn(seen, a, b, j);
        return false;
      }
      StillCovered(seen, a, b, j);
    }
    assert b[..|b|] == b;
    SameSize(a, b);
    return true;
  }

  lemma NoneSeen()
    ensures Tallies(map[], [], [])
    ensures forall a :: Covered(a, [])
  {
  }

  lemma Overdrawn(seen: map<string, int>, a: seq<string>, b: seq<string>, j: nat)
    requires j < |b| && Tallies(seen, a, b[..j + 1]) && Count(seen, b[j]) < 0
    ensures multiset(a) != multiset(b)
  {
    assert b == b[..j + 1] + b[j + 1..];
    assert multiset(b)[b[j]] >= multiset(b[..j + 1])[b[j]];
  }

  lemma SameSize(a: seq<string>, b: seq<string>)
    requires Covered(a, b) && |a| == |b|
    ensures multiset(a) == multiset(b)
  {
    var x, y := multiset(a), multiset(b);
    assert |x| == |a| && |y| == |b|;
    assert x == y + (x - y);
    assert |x - y| == 0;
  }

  function ToSet(s: seq<string>): set<string> {
    set v | v in s
  }

  predicate Distinct(s: seq<string>) {
    forall i, j :: 0 <= i < j < |s| ==> s[i] != s[j]
  }

  lemma {:induction false} DistinctCounts(s: seq<string>)
    requires Distinct(s)
    ensures multiset(s) == multiset(ToSet(s))
  {
    if s != [] {
      var init, last := s[..|s| - 1], s[|s| - 1];
      assert s == init + [last];
      DistinctCounts(init);
      assert ToSet(s) == ToSet(init) + {last};
      assert last !in init;
    }
  }

  lemma SameListsSameSet(a: seq<string>, b: seq<string>)
    requires multiset(a) == multiset(b)
    ensures ToSet(a) == ToSet(b)
  {
    forall v
      ensures v in ToSet(a) <==> v in ToSet(b)
    {
      assert v in a <==> v in multiset(a);
      assert v in b <==> v in multiset(b);
    }
  }

  /** Every value occurs in b as often as in a. */
  predicate SameCounts(a: seq<string>, b: seq<string>) {
    forall v :: v in a ==> multiset(a)[v] == multiset(b)[v]
  }

  /**
    The comparison never calls lists of different sets the same, and it agrees with equality as sets exactly when the
    sets differ, or no value is repeated more often in one list than in the other.
   */
  lemma ComparesAsSetsExactly(a: seq<string>, b: seq<string>)
    ensures multiset(a) == multiset(b) ==> ToSet(a) == ToSet(b)
    ensures ((multiset(a) == multiset(b)) <==> (ToSet(a) == ToSet(b))) <==> ToSet(a) != ToSet(b) || SameCounts(a, b)
  {
    if multiset(a) == multiset(b) {
      SameListsSameSet(a, b);
    }
    if ToSet(a) == ToSet(b) && SameCounts(a, b) {
      SameSetSameLists(a, b);
    }
  }

  lemma SameSetSameLists(a: seq<string>, b: seq<string>)
    requires ToSet(a) == ToSet(b) && SameCounts(a, b)
    ensures multiset(a) == multiset(b)
  {
    forall v
      ensures multiset(a)[v] == multiset(b)[v]
    {
      assert v in ToSet(a) <==> v in ToSet(b);
      assert v in multiset(a) <==> v in a;
      assert v in multiset(b) <==> v in b;
    }
  }

  /** In particular, lists without repetition are compared as sets. */
  lemma DistinctListsCompareAsSets(a: seq<string>, b: seq<string>)
    requires Distinct(a) && Distinct(b)
    ensures multiset(a) == multiset(b) <==> ToSet(a) == ToSet(b)
  {
    ComparesAsSetsExactly(a, b);
    DistinctCounts(a);
    DistinctCounts(b);
  }

  /** Lists that are equal as sets and that the comparison tells apart. */
  lemma RepetitionsMatter()
    ensures ToSet(["x", "x", "y"]) == ToSet(["x", "y", "y"])
    ensures multiset(["x", "x", "y"]) != multiset(["x", "y", "y"])
  {
    assert multiset(["x", "x", "y"])["x"] == 2;
    assert multiset(["x", "y", "y"])["x"] == 1 by {
      assert "y" != "x";
    }
  }
}
