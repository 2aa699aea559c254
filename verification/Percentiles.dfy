/** SQL's `percentile_disc(num/den) WITHIN GROUP (ORDER BY x)`, as backend/internal/store/usage.go uses it. */
module Percentiles {
  import opened Outcomes

  function Insert(s: seq<int>, x: int): (r: seq<int>)
    ensures |r| == |s| + 1
  {
    if s == [] || x <= s[0] then [x] + s else [s[0]] + Insert(s[1..], x)
  }

  /** ORDER BY. */
  function Sorted(s: seq<int>): (r: seq<int>)
    ensures |r| == |s|
  {
    if s == [] then [] else Insert(Sorted(s[1..]), s[0])
  }

  /** The row whose rank is the fraction of the number of rows, rounded up; NULL without rows. */
  function Disc(s: seq<int>, num: nat, den: nat): Option<int>
    requires 0 < num <= den
  {
    if s == [] then None
    else
      RankInRange(|s|, num, den);
      Some(Sorted(s)[Rank(|s|, num, den)])
  }

  function Rank(n: nat, num: nat, den: nat): int
    requires den > 0
  {
    (num * n + den - 1) / den - 1
  }

  lemma RankInRange(n: nat, num: nat, den: nat)
    requires 0 < num <= den && n > 0
    ensures 0 <= Rank(n, num, den) < n
    ensures den * Rank(n, num, den) < num * n <= den * (Rank(n, num, den) + 1)
  {
    var a := num * n + den - 1;
    var q := a / den;
    assert a == den * q + a % den;
    assert num * n <= den * n by { Scaled(num, den, n); }
    assert num * n >= 1 by { Scaled(1, num, n); }
    Between(den, q, n, a);
  }

  lemma Scaled(x: nat, y: nat, n: nat)
    requires x <= y
    ensures x * n <= y * n
  {
  }

  lemma Between(den: nat, q: int, n: nat, a: int)
    requires den > 0 && den * q <= a < den * q + den && den <= a <= den * n + den - 1
    ensures 1 <= q <= n
    ensures den * (q - 1) == den * q - den
  {
    if q <= 0 {
      NotPositive(den, q);
    } else if q >= n + 1 {
      Scaled(n + 1, q, den);
    }
  }

  lemma NotPositive(den: nat, q: int)
    requires q <= 0
    ensures den * q <= 0
  {
  }

  function AtMost(s: seq<int>, v: int): nat {
    if s == [] then 0 else (if s[0] <= v then 1 else 0) + AtMost(s[1..], v)
  }

  lemma {:induction false} AtMostLast(s: seq<int>, x: int, v: int)
    ensures AtMost(s + [x], v) == AtMost(s, v) + (if x <= v then 1 else 0)
  {
    if s == [] {
      assert [] + [x] == [x];
    } else {
      assert (s + [x])[1..] == s[1..] + [x];
      AtMostLast(s[1..], x, v);
    }
  }

  predicate Ascending(s: seq<int>) {
    forall i, j :: 0 <= i < j < |s| ==> s[i] <= s[j]
  }

  lemma {:induction false} InsertMembers(s: seq<int>, x: int, y: int)
    ensures y in Insert(s, x) <==> y == x || y in s
  {
    if s != [] && x > s[0] {
      InsertMembers(s[1..], x, y);
      assert s == [s[0]] + s[1..];
    }
  }

  lemma {:induction false} InsertCounts(s: seq<int>, x: int, v: int)
    ensures AtMost(Insert(s, x), v) == AtMost(s, v) + (if x <= v then 1 else 0)
  {
    if s == [] || x <= s[0] {
      assert ([x] + s)[1..] == s;
    } else {
      InsertCounts(s[1..], x, v);
      assert ([s[0]] + Insert(s[1..], x))[1..] == Insert(s[1..], x);
    }
  }

  lemma {:induction false} InsertAscends(s: seq<int>, x: int)
    requires Ascending(s)
    ensures Ascending(Insert(s, x))
  {
    if s != [] && x > s[0] {
      var rest := Insert(s[1..], x);
      InsertAscends(s[1..], x);
      forall i | 0 <= i < |rest|
        ensures s[0] <= rest[i]
      {
        InsertMembers(s[1..], x, rest[i]);
      }
    }
  }

  lemma InsertKeeps(s: seq<int>, x: int, v: int)
    requires Ascending(s)
    ensures Ascending(Insert(s, x))
    ensures AtMost(Insert(s, x), v) == AtMost(s, v) + (if x <= v then 1 else 0)
    ensures forall y :: y in Insert(s, x) <==> y == x || y in s
  {
    InsertAscends(s, x);
    InsertCounts(s, x, v);
    forall y
      ensures y in Insert(s, x) <==> y == x || y in s
    {
      InsertMembers(s, x, y);
    }
  }

  lemma {:induction false} SortKeeps(s: seq<int>, v: int)
    ensures Ascending(Sorted(s))
    ensures AtMost(Sorted(s), v) == AtMost(s, v)
    ensures forall y :: y in Sorted(s) <==> y in s
  {
    if s != [] {
      SortKeeps(s[1..], v);
      InsertKeeps(Sorted(s[1..]), s[0], v);
      assert s == [s[0]] + s[1..];
    }
  }

  /** In ascending order, at least i + 1 values are at most the one at i, and at most i are below it. */
  lemma {:induction false} CountedByPosition(s: seq<int>, i: nat, v: int)
    requires Ascending(s) && i < |s|
    ensures s[i] <= v ==> AtMost(s, v) >= i + 1
    ensures v < s[i] ==> AtMost(s, v) <= i
  {
    if i > 0 {
      CountedByPosition(s[1..], i - 1, v);
    } else if v < s[0] {
      NoneBelow(s, v);
    }
  }

  lemma {:induction false} NoneBelow(s: seq<int>, v: int)
    requires forall i :: 0 <= i < |s| ==> v < s[i]
    ensures AtMost(s, v) == 0
  {
    if s != [] {
      NoneBelow(s[1..], v);
    }
  }

  /** It is the least value that at least the given fraction of the values do not exceed. */
  lemma {:induction false} DiscExact(s: seq<int>, num: nat, den: nat, v: int)
    requires 0 < num <= den
    ensures Disc(s, num, den) == None <==> s == []
    ensures Disc(s, num, den).Some? ==>
              && Disc(s, num, den).value in s
              && (Disc(s, num, den).value <= v <==> num * |s| <= den * AtMost(s, v))
  {
    if s != [] {
      hide Sorted, Rank, AtMost, Ascending;
      RankInRange(|s|, num, den);
      var r, sorted := Rank(|s|, num, den), Sorted(s);
      SortKeeps(s, v);
      CountedByPosition(sorted, r, v);
      assert sorted[r] in sorted;
      if sorted[r] <= v {
        Reached(num * |s|, den, r, AtMost(s, v));
      } else {
        NotReached(num * |s|, den, r, AtMost(s, v));
      }
    }
  }

  lemma Reached(share: nat, den: nat, r: nat, count: nat)
    requires share <= den * (r + 1) && r + 1 <= count
    ensures share <= den * count
  {
    Scaled(r + 1, count, den);
  }

  lemma NotReached(share: nat, den: nat, r: nat, count: nat)
    requires den * r < share && count <= r
    ensures den * count < share
  {
    Scaled(count, r, den);
  }
}
