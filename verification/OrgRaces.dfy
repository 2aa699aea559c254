/**
  The statements inside `SetMemberRole` and `RemoveMember`, backend/internal/store/orgs.go:150-197, taken one by one:
  each call counts the owners, reads the member's role and then writes, in separate statements without a transaction,
  so calls may overlap. One organization; other organizations' rows are never looked at.
 */
module OrgRaces {
  import opened Outcomes
  import opened Orgs

  type Members = map<User, Role>

  function OwnersOf(m: Members): set<User> {
    set u | u in m && m[u] == Owner
  }

  /** What a call is to do to its member. */
  datatype Aim = Become(role: Role) | Leave

  /** A call under way: what its statements have returned so far. */
  datatype Call = Call(user: User, aim: Aim, counted: Option<nat>, seen: Option<Option<Role>>)

  datatype Race = Race(members: Members, calls: map<nat, Call>)

  /** One statement of call n, or an invitation that is redeemed; a call not ready to write is given up by `Write`. */
  datatype Statement =
    | Begin(n: nat, user: User, aim: Aim)
    | CountOwners(n: nat)
    | ReadRole(n: nat)
    | Write(n: nat)
    | Join(user: User, role: Role)

  /** The call could take an owner away. */
  predicate Removes(c: Call) {
    c.aim != Become(Owner)
  }

  /** Every statement before the write has run, and none of them made the call refuse. */
  predicate Approved(c: Call) {
    Removes(c) ==>
      && c.seen.Some? && c.seen.value.Some?
      && (c.aim.Become? ==> c.counted.Some?)
      && (c.seen.value == Some(Owner) ==> c.counted.Some? && c.counted.value > 1)
  }

  function Written(m: Members, c: Call): Members {
    if c.user !in m then m
    else if c.aim.Leave? then m - {c.user}
    else m[c.user := c.aim.role]
  }

  function Step(w: Race, s: Statement): Race {
    match s
    case Begin(n, user, aim) =>
      if n in w.calls then w else w.(calls := w.calls[n := Call(user, aim, None, None)])
    case CountOwners(n) =>
      if n !in w.calls || w.calls[n].counted.Some? || (w.calls[n].aim.Leave? && w.calls[n].seen.None?) then w
      else w.(calls := w.calls[n := w.calls[n].(counted := Some(|OwnersOf(w.members)|))])
    case ReadRole(n) =>
      if n !in w.calls || w.calls[n].seen.Some? || (w.calls[n].aim.Become? && w.calls[n].counted.None?) then w
      else
        var user := w.calls[n].user;
        var role := if user in w.members then Some(w.members[user]) else None;
        w.(calls := w.calls[n := w.calls[n].(seen := Some(role))])
    case Write(n) =>
      if n !in w.calls then w
      else Race(if Approved(w.calls[n]) then Written(w.members, w.calls[n]) else w.members, w.calls - {n})
    case Join(user, role) =>
      if user in w.members || role == Owner then w else w.(members := w.members[user := role])
  }

  function After(w: Race, run: seq<Statement>): Race
    decreases |run|
  {
    if run == [] then w else After(Step(w, run[0]), run[1..])
  }

  /* ---------- one call at a time ---------- */

  /** What the store call does when nothing comes between its statements. */
  function Atomic(m: Members, user: User, aim: Aim): Members {
    if user !in m then m
    else if aim != Become(Owner) && m[user] == Owner && |OwnersOf(m)| <= 1 then m
    else Written(m, Call(user, aim, None, None))
  }

  /** The statements of a call in the source's order; counting owners for a member who is none changes nothing. */
  function Statements(n: nat, user: User, aim: Aim): seq<Statement> {
    if aim == Become(Owner) then [Begin(n, user, aim), Write(n)]
    else if aim.Become? then [Begin(n, user, aim), CountOwners(n), ReadRole(n), Write(n)]
    else [Begin(n, user, aim), ReadRole(n), CountOwners(n), Write(n)]
  }

  lemma UninterruptedIsAtomic(m: Members, n: nat, user: User, aim: Aim)
    ensures After(Race(m, map[]), Statements(n, user, aim)).members == Atomic(m, user, aim)
  {
    hide OwnersOf;
    var w := Race(m, map[]);
    if aim == Become(Owner) {
      Two(w, Begin(n, user, aim), Write(n), []);
      assert [Begin(n, user, aim), Write(n)] + [] == Statements(n, user, aim);
    } else {
      var first, second := if aim.Become? then CountOwners(n) else ReadRole(n),
                           if aim.Become? then ReadRole(n) else CountOwners(n);
      Two(w, Begin(n, user, aim), first, [second, Write(n)]);
      Two(Step(Step(w, Begin(n, user, aim)), first), second, Write(n), []);
      assert [second, Write(n)] + [] == [second, Write(n)];
      assert [Begin(n, user, aim), first] + [second, Write(n)] == Statements(n, user, aim);
    }
  }

  lemma Two(w: Race, s: Statement, t: Statement, rest: seq<Statement>)
    ensures After(w, [s, t] + rest) == After(Step(Step(w, s), t), rest)
  {
    hide Step;
    var run := [s, t] + rest;
    assert run[1..] == [t] + rest && run[1..][1..] == rest;
  }

  /** The members of one organization in the tables of `Orgs`. */
  function Roster(t: Tables, org: Org): Members {
    map s | s in t.members && s.org == org :: s.user := t.members[s]
  }

  lemma RosterHas(t: Tables, org: Org, user: User)
    ensures user in Roster(t, org) <==> Seat(org, user) in t.members
    ensures user in Roster(t, org) ==> Roster(t, org)[user] == t.members[Seat(org, user)]
  {
    if Seat(org, user) in t.members {
      assert Seat(org, user).user == user;
    }
  }

  lemma RosterOwners(t: Tables, org: Org)
    ensures OwnersOf(Roster(t, org)) == Owners(t.members, org)
  {
    forall u
      ensures u in OwnersOf(Roster(t, org)) <==> u in Owners(t.members, org)
    {
      RosterHas(t, org, u);
      OwnerSeat(t.members, org, u);
    }
  }

  lemma RosterSet(t: Tables, org: Org, user: User, role: Role)
    ensures Roster(t.(members := t.members[Seat(org, user) := role]), org) == Roster(t, org)[user := role]
  {
    var next := t.(members := t.members[Seat(org, user) := role]);
    forall u
      ensures u in Roster(next, org) <==> u == user || u in Roster(t, org)
      ensures u in Roster(next, org) ==> Roster(next, org)[u] == if u == user then role else Roster(t, org)[u]
    {
      RosterHas(next, org, u);
      RosterHas(t, org, u);
    }
  }

  lemma RosterDrop(t: Tables, org: Org, user: User)
    ensures Roster(t.(members := t.members - {Seat(org, user)}), org) == Roster(t, org) - {user}
  {
    var next := t.(members := t.members - {Seat(org, user)});
    forall u
      ensures u in Roster(next, org) <==> u != user && u in Roster(t, org)
      ensures u in Roster(next, org) ==> Roster(next, org)[u] == Roster(t, org)[u]
    {
      RosterHas(next, org, u);
      RosterHas(t, org, u);
    }
  }

  /** Uninterrupted, the statements do what one store call does to the tables. */
  lemma AtomicIsStoreCall(t: Tables, org: Org, user: User, role: Role)
    ensures Roster(RoleSetting(t, Seat(org, user), role).tables, org) == Atomic(Roster(t, org), user, Become(role))
    ensures Roster(Removal(t, Seat(org, user)).tables, org) == Atomic(Roster(t, org), user, Leave)
  {
    RosterOwners(t, org);
    RosterHas(t, org, user);
    RosterSet(t, org, user, role);
    RosterDrop(t, org, user);
    hide Roster, Owners, OwnersOf;
  }

  /** A redeemed invitation is one statement too, the one that joins its user in its role. */
  lemma JoinIsRedemption(t: Tables, user: User, token: Token, now: int, calls: map<nat, Call>)
    requires Redeemable(t, token, now) && t.invites[token].role != Owner
    ensures var i := t.invites[token];
            Step(Race(Roster(t, i.org), calls), Join(user, i.role)) ==
            Race(Roster(Redeeming(t, user, token, now).tables, i.org), calls)
  {
    var i := t.invites[token];
    var claimed := t.(invites := t.invites[token := i.(acceptedBy := Some(user))]);
    assert Roster(claimed, i.org) == Roster(t, i.org);
    RosterHas(t, i.org, user);
    RosterSet(claimed, i.org, user, i.role);
    hide Roster;
  }

  /** A call begins under a number of its own, knowing nothing yet; a number in use is not taken again. */
  lemma BeginsExactly(w: Race, n: nat, user: User, aim: Aim)
    ensures n !in w.calls ==>
              Step(w, Begin(n, user, aim)) == Race(w.members, w.calls[n := Call(user, aim, None, None)])
    ensures n in w.calls ==> Step(w, Begin(n, user, aim)) == w
  {
  }

  /* ---------- overlapping calls ---------- */

  /** The members whose removal or demotion has passed its checks and waits to be written. */
  function Threatened(w: Race): set<User> {
    set n | n in w.calls && Approved(w.calls[n]) && Removes(w.calls[n]) :: w.calls[n].user
  }

  /** Every owner is among them. */
  predicate Covered(w: Race) {
    OwnersOf(w.members) <= Threatened(w)
  }

  predicate OnlyWrites(run: seq<Statement>) {
    forall s :: s in run ==> s.Write?
  }

  /** A write leaves an owner who is not threatened in place, and unthreatened. */
  lemma UnthreatenedStays(w: Race, n: nat, user: User)
    requires user in OwnersOf(w.members) && user !in Threatened(w)
    ensures user in OwnersOf(Step(w, Write(n)).members) && user !in Threatened(Step(w, Write(n)))
  {
    if n in w.calls && Approved(w.calls[n]) && Removes(w.calls[n]) {
      assert w.calls[n].user in Threatened(w);
    }
    forall m | m in Step(w, Write(n)).calls && Approved(w.calls[m]) && Removes(w.calls[m])
      ensures w.calls[m].user != user
    {
      assert w.calls[m].user in Threatened(w);
    }
  }

  lemma {:induction false} UnthreatenedSurvives(w: Race, run: seq<Statement>, user: User)
    requires OnlyWrites(run) && user in OwnersOf(w.members) && user !in Threatened(w)
    ensures user in OwnersOf(After(w, run).members)
    decreases |run|
  {
    if run != [] {
      assert run[0] in run;
      hide Step, OwnersOf, Threatened;
      UnthreatenedStays(w, run[0].n, user);
      UnthreatenedSurvives(Step(w, run[0]), run[1..], user);
    }
  }

  /** Writing an approved removal takes exactly its member out of the owners, and keeps the others covered. */
  lemma CoveredStep(w: Race, n: nat)
    requires Covered(w) && n in w.calls && Approved(w.calls[n]) && Removes(w.calls[n])
    ensures OwnersOf(Step(w, Write(n)).members) == OwnersOf(w.members) - {w.calls[n].user}
    ensures Covered(Step(w, Write(n)))
  {
    var next := Step(w, Write(n));
    forall u | u in OwnersOf(next.members)
      ensures u in Threatened(next)
    {
      assert u in Threatened(w);
      var m :| m in w.calls && Approved(w.calls[m]) && Removes(w.calls[m]) && w.calls[m].user == u;
      assert m in next.calls && next.calls[m] == w.calls[m];
    }
  }

  lemma {:induction false} FinishAll(w: Race) returns (run: seq<Statement>)
    requires Covered(w)
    ensures OnlyWrites(run) && OwnersOf(After(w, run).members) == {}
    decreases |OwnersOf(w.members)|
  {
    if OwnersOf(w.members) == {} {
      run := [];
    } else {
      var u :| u in OwnersOf(w.members);
      var n :| n in w.calls && Approved(w.calls[n]) && Removes(w.calls[n]) && w.calls[n].user == u;
      CoveredStep(w, n);
      hide Step, OwnersOf, Covered;
      var rest := FinishAll(Step(w, Write(n)));
      run := [Write(n)] + rest;
      assert run[1..] == rest;
    }
  }

  /**
    The exact danger: calls already under way can leave the organization without an owner, by nothing but their writes,
    if and only if every owner is the member of some removal or demotion that has passed its checks.
   */
  lemma CoveredExactly(w: Race)
    ensures (exists run :: OnlyWrites(run) && OwnersOf(After(w, run).members) == {}) <==> Covered(w)
  {
    if Covered(w) {
      var run := FinishAll(w);
    } else {
      var u :| u in OwnersOf(w.members) && u !in Threatened(w);
      forall run | OnlyWrites(run)
        ensures OwnersOf(After(w, run).members) != {}
      {
        UnthreatenedSurvives(w, run, u);
      }
    }
  }

  /** In no moment of the run are all owners threatened. */
  predicate NeverCovered(w: Race, run: seq<Statement>)
    decreases |run|
  {
    !Covered(w) && (run == [] || NeverCovered(Step(w, run[0]), run[1..]))
  }

  /** As long as that never happens an owner remains, whatever statements come in whatever order. */
  lemma {:induction false} OwnerRemainsUnlessCovered(w: Race, run: seq<Statement>)
    requires NeverCovered(w, run)
    ensures OwnersOf(After(w, run).members) != {}
    decreases |run|
  {
    if run == [] {
      assert exists u :: u in OwnersOf(w.members) && u !in Threatened(w);
    } else {
      hide Step, Covered;
      OwnerRemainsUnlessCovered(Step(w, run[0]), run[1..]);
    }
  }

  /** The last owner falls only in a write, and only when every owner was threatened just before. */
  lemma LastOwnerFallsCovered(w: Race, s: Statement)
    requires OwnersOf(w.members) != {} && OwnersOf(Step(w, s).members) == {}
    ensures s.Write? && Covered(w)
  {
    var u :| u in OwnersOf(w.members);
    if s.Write? {
      if v :| v in OwnersOf(w.members) && v !in Threatened(w) {
        UnthreatenedStays(w, s.n, v);
      }
    } else {
      OtherStatementsKeepOwners(w, s, u);
    }
  }

  lemma OtherStatementsKeepOwners(w: Race, s: Statement, user: User)
    requires !s.Write? && user in OwnersOf(w.members)
    ensures user in OwnersOf(Step(w, s).members)
  {
  }

  /* ---------- calls that do not overlap ---------- */

  /** What the call has read still holds. */
  predicate Current(m: Members, c: Call) {
    && (c.counted.Some? ==> c.counted.value == |OwnersOf(m)|)
    && (c.seen.Some? && c.seen.value.Some? ==> c.user in m && m[c.user] == c.seen.value.value)
  }

  /** At most one call is under way, and what it has read still holds. */
  predicate Alone(w: Race) {
    && (forall i, j :: i in w.calls && j in w.calls ==> i == j)
    && (forall i :: i in w.calls ==> Current(w.members, w.calls[i]))
  }

  /** A write whose reads still hold leaves an owner. */
  lemma CurrentWriteKeepsOwner(m: Members, c: Call)
    requires OwnersOf(m) != {} && Current(m, c) && Approved(c)
    ensures OwnersOf(Written(m, c)) != {}
  {
    var owners := OwnersOf(m);
    var u :| u in owners;
    if u == c.user && Removes(c) {
      assert |owners| > 1 && |owners - {u}| == |owners| - 1;
      var v :| v in owners - {u};
      assert v in OwnersOf(Written(m, c));
    } else {
      assert u in OwnersOf(Written(m, c));
    }
  }

  /** No call begins while another is under way. */
  predicate Serial(w: Race, run: seq<Statement>)
    decreases |run|
  {
    run == [] || ((run[0].Begin? ==> w.calls == map[]) && Serial(Step(w, run[0]), run[1..]))
  }

  lemma AloneStep(w: Race, s: Statement)
    requires Alone(w) && OwnersOf(w.members) != {} && (s.Begin? ==> w.calls == map[])
    ensures Alone(Step(w, s)) && OwnersOf(Step(w, s).members) != {}
  {
    if s.Write? && s.n in w.calls {
      if Approved(w.calls[s.n]) {
        CurrentWriteKeepsOwner(w.members, w.calls[s.n]);
      }
    } else if s.Join? {
      assert OwnersOf(Step(w, s).members) == OwnersOf(w.members);
    }
  }

  /** If calls never overlap, every run keeps an owner. */
  lemma {:induction false} SerialRunKeepsOwner(w: Race, run: seq<Statement>)
    requires Alone(w) && OwnersOf(w.members) != {} && Serial(w, run)
    ensures OwnersOf(After(w, run).members) != {}
    decreases |run|
  {
    if run != [] {
      AloneStep(w, run[0]);
      hide Step, Alone, OwnersOf;
      SerialRunKeepsOwner(Step(w, run[0]), run[1..]);
    }
  }

  /* ---------- two owners ---------- */

  /** Two owners demote each other at the same time: each call counts two, and none is left. */
  lemma MutualDemotion()
    ensures var w := Race(map[1 := Owner, 2 := Owner], map[]);
            OwnersOf(After(w, [Begin(1, 2, Become(Admin)), Begin(2, 1, Become(Admin)), CountOwners(1), CountOwners(2),
                               ReadRole(1), ReadRole(2), Write(1), Write(2)]).members) == {}
  {
    var m: Members := map[1 := Owner, 2 := Owner];
    var a, b := Call(2, Become(Admin), None, None), Call(1, Become(Admin), None, None);
    var last := [Write(1), Write(2)];
    var toRead := [ReadRole(1), ReadRole(2)] + last;
    var toCount := [CountOwners(1), CountOwners(2)] + toRead;
    Two(Race(m, map[]), Begin(1, 2, Become(Admin)), Begin(2, 1, Become(Admin)), toCount);
    Two(Race(m, map[1 := a, 2 := b]), CountOwners(1), CountOwners(2), toRead);
    var a1, b1 := a.(counted := Some(2)), b.(counted := Some(2));
    Two(Race(m, map[1 := a1, 2 := b1]), ReadRole(1), ReadRole(2), last);
    var a2, b2 := a1.(seen := Some(Some(Owner))), b1.(seen := Some(Some(Owner)));
    Two(Race(m, map[1 := a2, 2 := b2]), Write(1), Write(2), []);
    hide After;
    BothCount(m, a, b);
    BothRead(m, a1, b1);
    BothWrite(m, a2, b2);
    hide Step, OwnersOf;
    BothBegin(m, a, b);
    assert last + [] == last;
    assert [Begin(1, 2, Become(Admin)), Begin(2, 1, Become(Admin))] + toCount ==
           [Begin(1, 2, Become(Admin)), Begin(2, 1, Become(Admin)), CountOwners(1), CountOwners(2),
            ReadRole(1), ReadRole(2), Write(1), Write(2)];
    NothingLeft(Race(map[1 := Admin, 2 := Admin], map[]));
  }

  lemma BothBegin(m: Members, a: Call, b: Call)
    requires a == Call(2, Become(Admin), None, None) && b == Call(1, Become(Admin), None, None)
    ensures Step(Step(Race(m, map[]), Begin(1, 2, Become(Admin))), Begin(2, 1, Become(Admin))) ==
            Race(m, map[1 := a, 2 := b])
  {
  }

  lemma BothCount(m: Members, a: Call, b: Call)
    requires m == map[1 := Owner, 2 := Owner] && a.aim.Become? && b.aim.Become? && a.counted.None? && b.counted.None?
    ensures Step(Step(Race(m, map[1 := a, 2 := b]), CountOwners(1)), CountOwners(2)) ==
            Race(m, map[1 := a.(counted := Some(2)), 2 := b.(counted := Some(2))])
  {
    assert OwnersOf(m) == {1, 2};
    hide OwnersOf;
  }

  lemma BothRead(m: Members, a: Call, b: Call)
    requires m == map[1 := Owner, 2 := Owner] && a.user == 2 && b.user == 1
    requires a.seen.None? && b.seen.None? && a.counted.Some? && b.counted.Some?
    ensures Step(Step(Race(m, map[1 := a, 2 := b]), ReadRole(1)), ReadRole(2)) ==
            Race(m, map[1 := a.(seen := Some(Some(Owner))), 2 := b.(seen := Some(Some(Owner)))])
  {
  }

  lemma BothWrite(m: Members, a: Call, b: Call)
    requires m == map[1 := Owner, 2 := Owner]
    requires a == Call(2, Become(Admin), Some(2), Some(Some(Owner)))
    requires b == Call(1, Become(Admin), Some(2), Some(Some(Owner)))
    ensures Step(Step(Race(m, map[1 := a, 2 := b]), Write(1)), Write(2)) == Race(map[1 := Admin, 2 := Admin], map[])
  {
  }

  lemma NothingLeft(w: Race)
    requires w.members == map[1 := Admin, 2 := Admin]
    ensures After(w, []) == w && OwnersOf(w.members) == {}
  {
  }
}
