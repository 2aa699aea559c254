/**
  Organization membership and invitations: backend/internal/store/orgs.go, the guards in
  backend/internal/api/handlers_orgs.go, and the CHECK and UNIQUE constraints of migrations/0001_init.sql.
  Each store call is one step here (`OrgRaces` takes two of them apart); a handler checks the caller's role in earlier
  steps of its own, and other requests may run in between.
 */
module Orgs {
  import opened Outcomes

  type Org = nat
  type User = nat
  type InviteID = nat

  /** The hash of an invitation token, by which the table finds it. */
  type Token = string

  datatype Role = Viewer | Developer | Admin | Owner

  function Rank(r: Role): nat {
    match r
    case Viewer => 1
    case Developer => 2
    case Admin => 3
    case Owner => 4
  }

  function RoleNamed(name: string): Option<Role> {
    match name
    case "viewer" => Some(Viewer)
    case "developer" => Some(Developer)
    case "admin" => Some(Admin)
    case "owner" => Some(Owner)
    case _ => None
  }

  datatype Seat = Seat(org: Org, user: User)

  datatype Invite = Invite(id: InviteID, org: Org, role: Role, expiresAt: int, acceptedBy: Option<User>, revoked: bool)

  datatype Tables = Tables(orgs: set<Org>, members: map<Seat, Role>, invites: map<Token, Invite>)

  datatype Refusal = Conflict | NotFound | LastOwner | Rejected

  /** What a store call leaves behind and what it reports. */
  datatype Reply = Reply(tables: Tables, refusal: Option<Refusal>)

  function Owners(members: map<Seat, Role>, org: Org): set<User> {
    set s | s in members && s.org == org && members[s] == Owner :: s.user
  }

  /** The user's seat is an admin's or an owner's. */
  predicate Administers(members: map<Seat, Role>, org: Org, user: User) {
    Seat(org, user) in members && (members[Seat(org, user)] == Admin || members[Seat(org, user)] == Owner)
  }

  predicate Owns(members: map<Seat, Role>, org: Org, user: User) {
    Seat(org, user) in members && members[Seat(org, user)] == Owner
  }

  predicate Holds(t: Tables, org: Org, user: User, required: Role) {
    Seat(org, user) in t.members && Rank(t.members[Seat(org, user)]) >= Rank(required)
  }

  /* ---------- store calls ---------- */

  function Founding(t: Tables, user: User, org: Org): Reply {
    if org in t.orgs then Reply(t, Some(Conflict))
    else Reply(t.(orgs := t.orgs + {org}, members := t.members[Seat(org, user) := Owner]), None)
  }

  predicate OnlyOwner(t: Tables, seat: Seat) {
    seat in t.members && t.members[seat] == Owner && |Owners(t.members, seat.org)| <= 1
  }

  function RoleSetting(t: Tables, seat: Seat, role: Role): Reply {
    if seat !in t.members then Reply(t, Some(NotFound))
    else if role != Owner && OnlyOwner(t, seat) then Reply(t, Some(LastOwner))
    else Reply(t.(members := t.members[seat := role]), None)
  }

  function Removal(t: Tables, seat: Seat): Reply {
    if seat !in t.members then Reply(t, Some(NotFound))
    else if OnlyOwner(t, seat) then Reply(t, Some(LastOwner))
    else Reply(t.(members := t.members - {seat}), None)
  }

  /** The INSERT fails on an id or token in use, on an unknown organization, and on the owner role. */
  predicate Insertable(t: Tables, org: Org, id: InviteID, role: Role, token: Token) {
    org in t.orgs && role != Owner && token !in t.invites && forall k :: k in t.invites ==> t.invites[k].id != id
  }

  function Inviting(t: Tables, org: Org, id: InviteID, role: Role, token: Token, expiresAt: int): Reply {
    if !Insertable(t, org, id, role, token) then Reply(t, Some(Rejected))
    else Reply(t.(invites := t.invites[token := Invite(id, org, role, expiresAt, None, false)]), None)
  }

  /** The rows an UPDATE … SET revoked_at touches. */
  predicate Revocable(i: Invite, org: Org, id: InviteID) {
    i.id == id && i.org == org && i.acceptedBy.None? && !i.revoked
  }

  function Revoking(t: Tables, org: Org, id: InviteID): Reply {
    if forall k :: k in t.invites ==> !Revocable(t.invites[k], org, id) then Reply(t, Some(NotFound))
    else
      Reply(t.(invites := map k | k in t.invites ::
                            if Revocable(t.invites[k], org, id) then t.invites[k].(revoked := true) else t.invites[k]),
            None)
  }

  predicate Redeemable(t: Tables, token: Token, now: int) {
    && token in t.invites && t.invites[token].acceptedBy.None? && !t.invites[token].revoked
    && t.invites[token].expiresAt > now
  }

  /** The claim, then INSERT … ON CONFLICT DO NOTHING. */
  function Redeeming(t: Tables, user: User, token: Token, now: int): Reply {
    if !Redeemable(t, token, now) then Reply(t, Some(NotFound))
    else
      var i := t.invites[token];
      var claimed := t.(invites := t.invites[token := i.(acceptedBy := Some(user))]);
      Reply(if Seat(i.org, user) in t.members then claimed
            else claimed.(members := t.members[Seat(i.org, user) := i.role]), None)
  }

  const INVITE_TTL: int := 7 * 24 * 3600

  class Store {
    var orgs: set<Org>
    var members: map<Seat, Role>
    var invites: map<Token, Invite>

    ghost function State(): Tables
      reads this
    {
      Tables(orgs, members, invites)
    }

    method CreateOrg(user: User, org: Org) returns (refusal: Option<Refusal>)
      modifies this
      ensures Reply(State(), refusal) == Founding(old(State()), user, org)
    {
      if org in orgs {
        return Some(Conflict);
      }
      orgs := orgs + {org};
      members := members[Seat(org, user) := Owner];
      return None;
    }

    method SetMemberRole(org: Org, user: User, role: Role) returns (refusal: Option<Refusal>)
      modifies this
      ensures Reply(State(), refusal) == RoleSetting(old(State()), Seat(org, user), role)
    {
      var seat := Seat(org, user);
      if role != Owner {
        var owners := |Owners(members, org)|;
        if seat !in members {
          return Some(NotFound);
        }
        if members[seat] == Owner && owners <= 1 {
          return Some(LastOwner);
        }
      }
      if seat !in members {
        return Some(NotFound);
      }
      members := members[seat := role];
      return None;
    }

    method RemoveMember(org: Org, user: User) returns (refusal: Option<Refusal>)
      modifies this
      ensures Reply(State(), refusal) == Removal(old(State()), Seat(org, user))
    {
      var seat := Seat(org, user);
      if seat !in members {
        return Some(NotFound);
      }
      if members[seat] == Owner {
        var owners := |Owners(members, org)|;
        if owners <= 1 {
          return Some(LastOwner);
        }
      }
      members := members - {seat};
      return None;
    }

    method CreateInvite(org: Org, id: InviteID, role: Role, token: Token, now: int, ttl: int)
      returns (refusal: Option<Refusal>)
      modifies this
      ensures Reply(State(), refusal) == Inviting(old(State()), org, id, role, token, now + ttl)
    {
      if org !in orgs || role == Owner || token in invites || (exists k :: k in invites && invites[k].id == id) {
        return Some(Rejected);
      }
      invites := invites[token := Invite(id, org, role, now + ttl, None, false)];
      return None;
    }

    method RevokeInvite(org: Org, id: InviteID) returns (refusal: Option<Refusal>)
      modifies this
      ensures Reply(State(), refusal) == Revoking(old(State()), org, id)
    {
      var touched := set k | k in invites && Revocable(invites[k], org, id);
      invites := map k | k in invites :: if k in touched then invites[k].(revoked := true) else invites[k];
      if touched == {} {
        assert invites == old(invites);
        return Some(NotFound);
      }
      assert exists k :: k in old(invites) && Revocable(old(invites)[k], org, id) by {
        var k :| k in touched;
      }
      return None;
    }

    method AcceptInvite(user: User, token: Token, now: int) returns (refusal: Option<Refusal>)
      modifies this
      ensures Reply(State(), refusal) == Redeeming(old(State()), user, token, now)
    {
      if !(token in invites && invites[token].acceptedBy.None? && !invites[token].revoked &&
           invites[token].expiresAt > now) {
        return Some(NotFound);
      }
      var i := invites[token];
      invites := invites[token := i.(acceptedBy := Some(user))];
      if Seat(i.org, user) !in members {
        members := members[Seat(i.org, user) := i.role];
      }
      return None;
    }

    /** `handleUpdateMember`, with no other request in between. */
    method HandleUpdateMember(caller: User, org: Org, member: User, role: string)
      modifies this
      ensures State() == Uninterrupted(old(State()), caller, ChangeRole(org, member, role), 0, 0, "")
      ensures State() == if Administers(old(members), org, caller) && RoleNamed(role).Some?
                            && (role == "owner" ==> Owns(old(members), org, caller))
                         then RoleSetting(old(State()), Seat(org, member), RoleNamed(role).value).tables
                         else old(State())
      ensures State() != old(State()) ==>
                && role in {"viewer", "developer", "admin", "owner"}
                && Seat(org, member) in old(members)
                && State() == old(State()).(members := old(members)[Seat(org, member) := RoleNamed(role).value])
    {
      hide Owners;
      if !(Seat(org, caller) in members && Rank(members[Seat(org, caller)]) >= Rank(Admin)) {
        return;
      }
      var named := RoleNamed(role);
      if named.None? {
        return;
      }
      if named == Some(Owner) {
        if !(Seat(org, caller) in members && Rank(members[Seat(org, caller)]) >= Rank(Owner)) {
          return;
        }
      }
      var refusal := SetMemberRole(org, member, named.value);
    }

    /** `handleRemoveMember`, with no other request in between. */
    method HandleRemoveMember(caller: User, org: Org, member: User)
      modifies this
      ensures State() == Uninterrupted(old(State()), caller, Remove(org, member), 0, 0, "")
      ensures State() == if Administers(old(members), org, caller)
                         then Removal(old(State()), Seat(org, member)).tables else old(State())
      ensures State() != old(State()) ==> State() == old(State()).(members := old(members) - {Seat(org, member)})
    {
      hide Owners;
      if !(Seat(org, caller) in members && Rank(members[Seat(org, caller)]) >= Rank(Admin)) {
        return;
      }
      var refusal := RemoveMember(org, member);
    }

    /** `handleRevokeInvite`, with no other request in between. */
    method HandleRevokeInvite(caller: User, org: Org, id: InviteID)
      modifies this
      ensures State() == Uninterrupted(old(State()), caller, Revoke(org, id), 0, 0, "")
      ensures State() == if Administers(old(members), org, caller)
                         then Revoking(old(State()), org, id).tables else old(State())
    {
      hide Owners;
      if !(Seat(org, caller) in members && Rank(members[Seat(org, caller)]) >= Rank(Admin)) {
        return;
      }
      var refusal := RevokeInvite(org, id);
    }

    /** `handleCreateInvite`, with no other request in between. */
    method HandleCreateInvite(caller: User, org: Org, role: string, now: int, id: InviteID, token: Token)
      modifies this
      ensures State() == Uninterrupted(old(State()), caller, Issue(org, role), now, id, token)
      ensures State() == if Administers(old(members), org, caller) && role in {"", "viewer", "developer", "admin"}
                         then Inviting(old(State()), org, id, RoleNamed(if role == "" then "developer" else role).value,
                                       token, now + 7 * 24 * 3600).tables
                         else old(State())
      ensures State() != old(State()) ==>
                && role in {"", "viewer", "developer", "admin"} && token !in old(invites)
                && State() == old(State()).(invites := old(invites)[token :=
                                Invite(id, org, RoleNamed(if role == "" then "developer" else role).value,
                                       now + 7 * 24 * 3600, None, false)])
    {
      if !(Seat(org, caller) in members && Rank(members[Seat(org, caller)]) >= Rank(Admin)) {
        return;
      }
      var chosen := if role == "" then "developer" else role;
      if chosen == "owner" || RoleNamed(chosen).None? {
        return;
      }
      var refusal := CreateInvite(org, id, RoleNamed(chosen).value, token, now, INVITE_TTL);
    }
  }

  /* ---------- requests in flight ---------- */

  /** Requests that need a role in the organization. */
  datatype Request =
    | ChangeRole(org: Org, member: User, role: string)
    | Remove(org: Org, member: User)
    | Issue(org: Org, role: string)
    | Revoke(org: Org, id: InviteID)

  /** An admitted request: the admin check has passed, and perhaps the owner check. */
  datatype Pending = Pending(caller: User, request: Request, confirmed: bool)

  datatype World = World(tables: Tables, inflight: map<nat, Pending>)

  /** One atomic step of the server. */
  datatype Event =
    | Found(user: User, org: Org)
    | Admit(request: nat, caller: User, what: Request)
    | Confirm(request: nat)
    | Perform(request: nat, now: int, id: InviteID, token: Token)
    | Redeem(user: User, token: Token, now: int)

  predicate GrantsOwner(r: Request) {
    r.ChangeRole? && RoleNamed(r.role) == Some(Owner)
  }

  /** What the handler does once its checks are over. */
  function Performed(t: Tables, p: Pending, now: int, id: InviteID, token: Token): Tables {
    match p.request
    case ChangeRole(org, member, role) =>
      if RoleNamed(role).None? || (GrantsOwner(p.request) && !p.confirmed) then t
      else RoleSetting(t, Seat(org, member), RoleNamed(role).value).tables
    case Remove(org, member) => Removal(t, Seat(org, member)).tables
    case Issue(org, role) =>
      var named := RoleNamed(if role == "" then "developer" else role);
      if named.None? || named == Some(Owner) then t
      else Inviting(t, org, id, named.value, token, now + INVITE_TTL).tables
    case Revoke(org, invite) => Revoking(t, org, invite).tables
  }

  function Step(w: World, e: Event): World {
    match e
    case Found(user, org) => w.(tables := Founding(w.tables, user, org).tables)
    case Admit(n, caller, what) =>
      if n !in w.inflight && Holds(w.tables, what.org, caller, Admin)
      then w.(inflight := w.inflight[n := Pending(caller, what, false)]) else w
    case Confirm(n) =>
      if n !in w.inflight || !GrantsOwner(w.inflight[n].request) then w
      else if Holds(w.tables, w.inflight[n].request.org, w.inflight[n].caller, Owner)
      then w.(inflight := w.inflight[n := w.inflight[n].(confirmed := true)])
      else w.(inflight := w.inflight - {n})
    case Perform(n, now, id, token) =>
      if n !in w.inflight then w
      else World(Performed(w.tables, w.inflight[n], now, id, token), w.inflight - {n})
    case Redeem(user, token, now) => w.(tables := Redeeming(w.tables, user, token, now).tables)
  }

  const NOTHING := World(Tables({}, map[], map[]), map[])

  /** The world after a run. */
  function After(events: seq<Event>): World {
    if events == [] then NOTHING else Step(After(events[..|events| - 1]), events[|events| - 1])
  }

  /** One request, start to finish. */
  function Uninterrupted(t: Tables, caller: User, what: Request, now: int, id: InviteID, token: Token): Tables {
    Step(Step(Step(World(t, map[]), Admit(0, caller, what)), Confirm(0)), Perform(0, now, id, token)).tables
  }

  lemma Later(events: seq<Event>, e: Event)
    ensures After(events + [e]) == Step(After(events), e)
  {
    assert (events + [e])[..|events|] == events;
  }

  /* ---------- what a store call writes ---------- */

  /** An invitation is issued as asked for, open; or refused, changing nothing. */
  lemma InvitedExactly(t: Tables, org: Org, id: InviteID, role: Role, token: Token, expiresAt: int)
    ensures var r := Inviting(t, org, id, role, token, expiresAt);
            if org in t.orgs && role in {Viewer, Developer, Admin} && token !in t.invites
               && (forall k :: k in t.invites ==> t.invites[k].id != id)
            then r == Reply(t.(invites := t.invites[token := Invite(id, org, role, expiresAt, None, false)]), None)
            else r == Reply(t, Some(Rejected))
  {
  }

  /** A token joins its user to its organization in its role, unless the user has a seat there, and is then accepted. */
  lemma RedeemedExactly(t: Tables, user: User, token: Token, now: int)
    ensures var r := Redeeming(t, user, token, now);
            if token in t.invites && t.invites[token].acceptedBy == None && !t.invites[token].revoked
               && now < t.invites[token].expiresAt
            then
              var i := t.invites[token];
              var seat := Seat(i.org, user);
              && r.refusal == None && r.tables.orgs == t.orgs
              && r.tables.members == (if seat in t.members then t.members else t.members[seat := i.role])
              && r.tables.invites == t.invites[token := Invite(i.id, i.org, i.role, i.expiresAt, Some(user), false)]
            else r == Reply(t, Some(NotFound))
  {
  }

  /** Revoking touches exactly the open invitation of that id and organization. */
  lemma RevokedExactly(t: Tables, org: Org, id: InviteID, token: Token)
    requires token in t.invites
    ensures var i, r := t.invites[token], Revoking(t, org, id);
            && r.tables.members == t.members && r.tables.orgs == t.orgs && r.tables.invites.Keys == t.invites.Keys
            && r.tables.invites[token] ==
               (if i.id == id && i.org == org && i.acceptedBy == None && !i.revoked then i.(revoked := true) else i)
            && (i.id == id && i.org == org && i.acceptedBy == None && !i.revoked ==> r.refusal == None)
  {
  }

  /** Revoking is refused exactly when no open invitation of the organization has the id. */
  lemma RevokingRefusedExactly(t: Tables, org: Org, id: InviteID)
    ensures Revoking(t, org, id).refusal in {None, Some(NotFound)}
    ensures Revoking(t, org, id).refusal == None <==>
            exists token :: token in t.invites && t.invites[token].id == id && t.invites[token].org == org
                            && t.invites[token].acceptedBy == None && !t.invites[token].revoked
  {
    if token :| token in t.invites && t.invites[token].id == id && t.invites[token].org == org
                && t.invites[token].acceptedBy == None && !t.invites[token].revoked {
      assert Revocable(t.invites[token], org, id);
    }
  }

  /** Setting a role and removing a member: what each refuses, and what it writes. */
  lemma MembershipExactly(t: Tables, org: Org, user: User, role: Role)
    ensures var set', left := RoleSetting(t, Seat(org, user), role), Removal(t, Seat(org, user));
            var known := Seat(org, user) in t.members;
            var last := known && t.members[Seat(org, user)] == Owner && |Owners(t.members, org)| <= 1;
            && (set'.refusal == Some(NotFound) <==> !known) && (left.refusal == Some(NotFound) <==> !known)
            && (set'.refusal == Some(LastOwner) <==> last && role in {Viewer, Developer, Admin})
            && (left.refusal == Some(LastOwner) <==> last)
            && (set'.refusal == None ==> set'.tables == t.(members := t.members[Seat(org, user) := role]))
            && (left.refusal == None ==> left.tables == t.(members := t.members - {Seat(org, user)}))
            && (set'.refusal.Some? ==> set'.tables == t) && (left.refusal.Some? ==> left.tables == t)
            && set'.refusal in {None, Some(NotFound), Some(LastOwner)}
            && left.refusal in {None, Some(NotFound), Some(LastOwner)}
  {
    hide Owners;
  }

  /** Founding writes the organization and its founder's seat, or refuses an id in use. */
  lemma FoundedExactly(t: Tables, user: User, org: Org)
    ensures Founding(t, user, org) ==
            if org in t.orgs then Reply(t, Some(Conflict))
            else Reply(Tables(t.orgs + {org}, t.members[Seat(org, user) := Owner], t.invites), None)
  {
  }

  /** The four role names, and what each role may do. */
  lemma RolesExactly(name: string, t: Tables, org: Org, user: User)
    ensures RoleNamed(name) == Some(Viewer) <==> name == "viewer"
    ensures RoleNamed(name) == Some(Developer) <==> name == "developer"
    ensures RoleNamed(name) == Some(Admin) <==> name == "admin"
    ensures RoleNamed(name) == Some(Owner) <==> name == "owner"
    ensures Holds(t, org, user, Owner) <==> Owns(t.members, org, user)
    ensures Holds(t, org, user, Admin) <==> Administers(t.members, org, user)
  {
  }

  /* ---------- what a request does, and when it may ---------- */

  /** A role change sets one of the four roles, the owner's only once confirmed; any other name changes nothing. */
  lemma ChangeRoleExactly(t: Tables, p: Pending, now: int, id: InviteID, token: Token)
    requires p.request.ChangeRole?
    ensures var seat, role := Seat(p.request.org, p.request.member), p.request.role;
            var after := Performed(t, p, now, id, token);
            && (role == "viewer" ==> after == RoleSetting(t, seat, Viewer).tables)
            && (role == "developer" ==> after == RoleSetting(t, seat, Developer).tables)
            && (role == "admin" ==> after == RoleSetting(t, seat, Admin).tables)
            && (role == "owner" && p.confirmed ==> after == RoleSetting(t, seat, Owner).tables)
            && (role == "owner" && !p.confirmed ==> after == t)
            && (role !in {"viewer", "developer", "admin", "owner"} ==> after == t)
  {
    hide RoleSetting;
  }

  /** An invitation is for a developer when no role is given, never for an owner, and lasts seven days. */
  lemma IssueExactly(t: Tables, p: Pending, now: int, id: InviteID, token: Token)
    requires p.request.Issue?
    ensures var org, role, after := p.request.org, p.request.role, Performed(t, p, now, id, token);
            && (role == "viewer" ==> after == Inviting(t, org, id, Viewer, token, now + 604800).tables)
            && (role in {"", "developer"} ==> after == Inviting(t, org, id, Developer, token, now + 604800).tables)
            && (role == "admin" ==> after == Inviting(t, org, id, Admin, token, now + 604800).tables)
            && (role !in {"", "viewer", "developer", "admin"} ==> after == t)
  {
    hide Inviting;
  }

  /** Removals and revocations do what the store calls of that name do. */
  lemma RemoveAndRevokeExactly(t: Tables, p: Pending, now: int, id: InviteID, token: Token)
    ensures p.request.Remove? ==>
              Performed(t, p, now, id, token) == Removal(t, Seat(p.request.org, p.request.member)).tables
    ensures p.request.Revoke? ==>
              Performed(t, p, now, id, token) == Revoking(t, p.request.org, p.request.id).tables
  {
    hide Removal, Revoking;
  }

  /** A request is admitted, under a number not in use, exactly when its caller is an admin or an owner there. */
  lemma AdmitExactly(w: World, n: nat, caller: User, what: Request)
    ensures Step(w, Admit(n, caller, what)) ==
            if n in w.inflight || !Administers(w.tables.members, what.org, caller) then w
            else World(w.tables, w.inflight[n := Pending(caller, what, false)])
  {
  }

  /** The second check is for promotions to owner: an owner's goes on, anyone else's is dropped. */
  lemma ConfirmExactly(w: World, n: nat)
    ensures n !in w.inflight ==> Step(w, Confirm(n)) == w
    ensures n in w.inflight ==>
              var p := w.inflight[n];
              Step(w, Confirm(n)) ==
              if !p.request.ChangeRole? || p.request.role != "owner" then w
              else if Owns(w.tables.members, p.request.org, p.caller)
              then World(w.tables, w.inflight[n := Pending(p.caller, p.request, true)])
              else World(w.tables, w.inflight - {n})
  {
  }

  /** The other steps change the tables as their calls do; a request is over once performed. */
  lemma StepsExactly(w: World, e: Event)
    ensures e.Found? ==> Step(w, e) == World(Founding(w.tables, e.user, e.org).tables, w.inflight)
    ensures e.Redeem? ==> Step(w, e) == World(Redeeming(w.tables, e.user, e.token, e.now).tables, w.inflight)
    ensures e.Perform? && e.request !in w.inflight ==> Step(w, e) == w
    ensures e.Perform? && e.request in w.inflight ==>
              Step(w, e) == World(Performed(w.tables, w.inflight[e.request], e.now, e.id, e.token),
                                  w.inflight - {e.request})
  {
    hide Founding, Redeeming, Performed;
  }

  /* ---------- every organization keeps an owner ---------- */

  predicate Sound(t: Tables) {
    && (forall s :: s in t.members ==> s.org in t.orgs)
    && (forall o :: o in t.orgs ==> Owners(t.members, o) != {})
    && (forall k :: k in t.invites ==> t.invites[k].role != Owner && t.invites[k].org in t.orgs)
    && (forall k :: k in t.invites ==> !(t.invites[k].acceptedBy.Some? && t.invites[k].revoked))
  }

  lemma OwnersAfterSet(members: map<Seat, Role>, seat: Seat, role: Role, org: Org)
    ensures Owners(members[seat := role], org) ==
            if seat.org != org then Owners(members, org)
            else if role == Owner then Owners(members, org) + {seat.user} else Owners(members, org) - {seat.user}
  {
    var after := members[seat := role];
    forall u
      ensures u in Owners(after, org) <==> Seat(org, u) in after && after[Seat(org, u)] == Owner
      ensures u in Owners(members, org) <==> Seat(org, u) in members && members[Seat(org, u)] == Owner
    {
      OwnerSeat(after, org, u);
      OwnerSeat(members, org, u);
    }
  }

  lemma OwnerSeat(members: map<Seat, Role>, org: Org, user: User)
    ensures user in Owners(members, org) <==> Seat(org, user) in members && members[Seat(org, user)] == Owner
  {
    if Seat(org, user) in members && members[Seat(org, user)] == Owner {
      assert Seat(org, user).user == user;
    }
  }

  lemma OwnersAfterRemoval(members: map<Seat, Role>, seat: Seat, org: Org)
    ensures Owners(members - {seat}, org) ==
            if seat.org != org then Owners(members, org) else Owners(members, org) - {seat.user}
  {
    var after := members - {seat};
    forall u
      ensures u in Owners(after, org) <==> Seat(org, u) in after && after[Seat(org, u)] == Owner
      ensures u in Owners(members, org) <==> Seat(org, u) in members && members[Seat(org, u)] == Owner
    {
      OwnerSeat(after, org, u);
      OwnerSeat(members, org, u);
    }
  }

  /** Taking one owner away leaves another unless it was the only one. */
  lemma OthersRemain(t: Tables, seat: Seat)
    requires Sound(t) && seat in t.members && !OnlyOwner(t, seat)
    ensures Owners(t.members, seat.org) - {seat.user} != {}
  {
    var owners := Owners(t.members, seat.org);
    OwnerSeat(t.members, seat.org, seat.user);
    assert seat == Seat(seat.org, seat.user);
    if t.members[seat] == Owner {
      assert |owners| == |owners - {seat.user}| + 1;
    } else {
      assert owners - {seat.user} == owners;
    }
  }

  lemma FoundingKeepsSound(t: Tables, user: User, org: Org)
    requires Sound(t)
    ensures Sound(Founding(t, user, org).tables)
  {
    hide Owners;
    var members := t.members[Seat(org, user) := Owner];
    forall o | o in t.orgs + {org}
      ensures Owners(members, o) != {}
    {
      OwnersAfterSet(t.members, Seat(org, user), Owner, o);
      assert o == org ==> user in Owners(members, o);
    }
  }

  lemma RoleSettingKeepsSound(t: Tables, seat: Seat, role: Role)
    requires Sound(t)
    ensures Sound(RoleSetting(t, seat, role).tables)
  {
    if RoleSetting(t, seat, role).refusal.None? {
      if role != Owner {
        OthersRemain(t, seat);
      }
      forall o | o in t.orgs
        ensures Owners(t.members[seat := role], o) != {}
      {
        OwnersAfterSet(t.members, seat, role, o);
      }
    }
  }

  lemma RemovalKeepsSound(t: Tables, seat: Seat)
    requires Sound(t)
    ensures Sound(Removal(t, seat).tables)
  {
    if Removal(t, seat).refusal.None? {
      OthersRemain(t, seat);
      forall o | o in t.orgs
        ensures Owners(t.members - {seat}, o) != {}
      {
        OwnersAfterRemoval(t.members, seat, o);
      }
    }
  }

  /** Redeeming an invitation changes no organization's owners. */
  lemma RedeemingKeepsOwners(t: Tables, user: User, token: Token, now: int, org: Org)
    requires Sound(t)
    ensures Owners(Redeeming(t, user, token, now).tables.members, org) == Owners(t.members, org)
  {
    if Redeemable(t, token, now) && Seat(t.invites[token].org, user) !in t.members {
      var i := t.invites[token];
      OwnersAfterSet(t.members, Seat(i.org, user), i.role, org);
      OwnerSeat(t.members, i.org, user);
    }
  }

  lemma RedeemingKeepsSound(t: Tables, user: User, token: Token, now: int)
    requires Sound(t)
    ensures Sound(Redeeming(t, user, token, now).tables)
  {
    hide Owners;
    forall o
      ensures Owners(Redeeming(t, user, token, now).tables.members, o) == Owners(t.members, o)
    {
      RedeemingKeepsOwners(t, user, token, now, o);
    }
  }

  lemma StepKeepsSound(w: World, e: Event)
    requires Sound(w.tables)
    ensures Sound(Step(w, e).tables)
  {
    hide Owners;
    var t := w.tables;
    match e
    case Found(user, org) => FoundingKeepsSound(t, user, org);
    case Redeem(user, token, now) => RedeemingKeepsSound(t, user, token, now);
    case Perform(n, now, id, token) =>
      if n in w.inflight {
        PerformedKeepsSound(t, w.inflight[n], now, id, token);
      }
    case _ =>
  }

  lemma PerformedKeepsSound(t: Tables, p: Pending, now: int, id: InviteID, token: Token)
    requires Sound(t)
    ensures Sound(Performed(t, p, now, id, token))
  {
    hide Owners, OnlyOwner;
    match p.request
    case ChangeRole(org, member, role) =>
      if RoleNamed(role).Some? {
        RoleSettingKeepsSound(t, Seat(org, member), RoleNamed(role).value);
      }
    case Remove(org, member) => RemovalKeepsSound(t, Seat(org, member));
    case _ =>
  }

  /** After any run, every organization has an owner, however handler checks and store calls interleave. */
  lemma {:induction false} EveryOrgHasAnOwner(events: seq<Event>)
    ensures Sound(After(events).tables)
    ensures forall o :: o in After(events).tables.orgs ==> Owners(After(events).tables.members, o) != {}
  {
    if events != [] {
      var before := events[..|events| - 1];
      EveryOrgHasAnOwner(before);
      StepKeepsSound(After(before), events[|events| - 1]);
    }
  }

  /* ---------- every change is authorized ---------- */

  /** In step j the request was admitted, its caller's seat being an admin's or an owner's then. */
  predicate AdmittedAt(events: seq<Event>, j: nat, n: nat, p: Pending) {
    && j < |events| && events[j] == Admit(n, p.caller, p.request)
    && Administers(After(events[..j]).tables.members, p.request.org, p.caller)
  }

  ghost predicate Admitted(events: seq<Event>, n: nat, p: Pending) {
    exists j: nat :: AdmittedAt(events, j, n, p)
  }

  lemma AdmittedStill(events: seq<Event>, e: Event, n: nat, p: Pending)
    requires Admitted(events, n, p)
    ensures Admitted(events + [e], n, p)
  {
    hide After;
    var j: nat :| AdmittedAt(events, j, n, p);
    assert (events + [e])[..j] == events[..j];
    assert AdmittedAt(events + [e], j, n, p);
  }

  lemma {:induction false} AdmissionsHappened(events: seq<Event>, n: nat)
    requires n in After(events).inflight
    ensures Admitted(events, n, After(events).inflight[n])
  {
    var before, e := events[..|events| - 1], events[|events| - 1];
    assert events == before + [e];
    var w, p := After(before), After(events).inflight[n];
    if n in w.inflight {
      InflightStays(w, e, n);
      AdmissionsHappened(before, n);
      AdmittedStill(before, e, n, w.inflight[n]);
      var j: nat :| AdmittedAt(events, j, n, w.inflight[n]);
      assert AdmittedAt(events, j, n, p);
    } else {
      NewlyAdmitted(w, e, n);
      assert events[..|before|] == before;
      assert AdmittedAt(events, |before|, n, p);
    }
  }

  lemma InflightStays(w: World, e: Event, n: nat)
    requires n in w.inflight && n in Step(w, e).inflight
    ensures Step(w, e).inflight[n].caller == w.inflight[n].caller
    ensures Step(w, e).inflight[n].request == w.inflight[n].request
  {
    hide Performed, Founding, Redeeming;
  }

  lemma NewlyAdmitted(w: World, e: Event, n: nat)
    requires n !in w.inflight && n in Step(w, e).inflight
    ensures e == Admit(n, Step(w, e).inflight[n].caller, Step(w, e).inflight[n].request)
    ensures Administers(w.tables.members, Step(w, e).inflight[n].request.org, Step(w, e).inflight[n].caller)
  {
    hide Performed, Founding, Redeeming;
  }

  /** Nothing but members and invitations of the organization differs, and no invitation of it is gone. */
  ghost predicate WithinOrg(t: Tables, t': Tables, org: Org) {
    && t'.orgs == t.orgs
    && (forall s: Seat :: s.org != org ==> SameSeat(t.members, t'.members, s))
    && (forall k :: k in t.invites ==> k in t'.invites && (t.invites[k].org != org ==> t'.invites[k] == t.invites[k]))
    && (forall k :: k in t'.invites && k !in t.invites ==> t'.invites[k].org == org)
  }

  ghost predicate SameSeat(members: map<Seat, Role>, members': map<Seat, Role>, s: Seat) {
    (s in members' <==> s in members) && (s in members ==> members'[s] == members[s])
  }

  lemma PerformedWithinOrg(t: Tables, p: Pending, now: int, id: InviteID, token: Token)
    ensures WithinOrg(t, Performed(t, p, now, id, token), p.request.org)
  {
    hide OnlyOwner, RoleNamed;
  }

  /**
    In any run, a step that changes the tables founds an organization, redeems an invitation, or performs a request
    that an earlier step admitted when its caller was an admin or an owner; and such a request changes nothing but the
    members and invitations of its own organization.
   */
  lemma ChangesAreAuthorized(events: seq<Event>, e: Event)
    requires After(events + [e]).tables != After(events).tables
    ensures e.Found? || e.Redeem? || (e.Perform? && e.request in After(events).inflight
                                      && Admitted(events, e.request, After(events).inflight[e.request]))
    ensures e.Perform? ==> WithinOrg(After(events).tables, After(events + [e]).tables,
                                     After(events).inflight[e.request].request.org)
  {
    Later(events, e);
    hide After, Performed, Founding, Redeeming, WithinOrg, Admitted;
    if e.Perform? && e.request in After(events).inflight {
      AdmissionsHappened(events, e.request);
      PerformedWithinOrg(After(events).tables, After(events).inflight[e.request], e.now, e.id, e.token);
    }
  }

  /* ---------- every owner is accounted for ---------- */

  /** The user opened the organization in step i. */
  predicate FoundedAt(events: seq<Event>, i: nat, seat: Seat) {
    i < |events| && events[i] == Found(seat.user, seat.org) && seat.org !in After(events[..i]).tables.orgs
  }

  /** In step j the server saw that the request's caller was an owner. */
  predicate ConfirmedAt(events: seq<Event>, j: nat, n: nat, p: Pending) {
    && j < |events| && events[j] == Confirm(n)
    && n in After(events[..j]).inflight && After(events[..j]).inflight[n].(confirmed := true) == p
    && Holds(After(events[..j]).tables, p.request.org, p.caller, Owner)
  }

  /** Step i makes the user an owner for a caller who was one when the server checked, in an earlier step j. */
  predicate PromotedAt(events: seq<Event>, i: nat, j: nat, seat: Seat) {
    && j < i < |events| && events[i].Perform?
    && (var n := events[i].request;
        && n in After(events[..i]).inflight
        && GrantsOwner(After(events[..i]).inflight[n].request)
        && After(events[..i]).inflight[n].request.org == seat.org
        && After(events[..i]).inflight[n].request.member == seat.user
        && ConfirmedAt(events[..i], j, n, After(events[..i]).inflight[n]))
  }

  ghost predicate Accounted(events: seq<Event>, seat: Seat) {
    || (exists i: nat :: FoundedAt(events, i, seat))
    || (exists i: nat, j: nat :: PromotedAt(events, i, j, seat))
  }

  lemma AccountedStill(events: seq<Event>, e: Event, seat: Seat)
    requires Accounted(events, seat)
    ensures Accounted(events + [e], seat)
  {
    hide After;
    if i: nat :| FoundedAt(events, i, seat) {
      assert (events + [e])[..i] == events[..i];
      assert FoundedAt(events + [e], i, seat);
    } else {
      var i: nat, j: nat :| PromotedAt(events, i, j, seat);
      assert (events + [e])[..i] == events[..i];
      assert PromotedAt(events + [e], i, j, seat);
    }
  }

  ghost predicate Confirmed(events: seq<Event>, n: nat, p: Pending) {
    exists j: nat :: ConfirmedAt(events, j, n, p)
  }

  lemma ConfirmedStill(events: seq<Event>, e: Event, n: nat, p: Pending)
    requires Confirmed(events, n, p)
    ensures Confirmed(events + [e], n, p)
  {
    hide After;
    var j: nat :| ConfirmedAt(events, j, n, p);
    assert (events + [e])[..j] == events[..j];
    assert ConfirmedAt(events + [e], j, n, p);
  }

  /** A confirmed request in flight was confirmed by an earlier step, when its caller was an owner. */
  lemma {:induction false} ConfirmationsHappened(events: seq<Event>, n: nat)
    requires n in After(events).inflight && After(events).inflight[n].confirmed
    ensures Confirmed(events, n, After(events).inflight[n])
  {
    var before, e := events[..|events| - 1], events[|events| - 1];
    assert events == before + [e];
    var w := After(before);
    var p := After(events).inflight[n];
    if n in w.inflight && w.inflight[n] == p {
      ConfirmationsHappened(before, n);
      ConfirmedStill(before, e, n, p);
    } else {
      NewlyConfirmed(w, e, n);
      assert events[..|before|] == before;
      assert ConfirmedAt(events, |before|, n, p);
    }
  }

  lemma NewlyConfirmed(w: World, e: Event, n: nat)
    requires n in Step(w, e).inflight && Step(w, e).inflight[n].confirmed
    requires !(n in w.inflight && w.inflight[n] == Step(w, e).inflight[n])
    ensures e == Confirm(n) && n in w.inflight && w.inflight[n].(confirmed := true) == Step(w, e).inflight[n]
    ensures Holds(w.tables, w.inflight[n].request.org, w.inflight[n].caller, Owner)
  {
    hide Performed, Founding, Redeeming;
  }

  /** The only steps that make an owner: founding, and performing a confirmed promotion. */
  lemma NewOwner(w: World, e: Event, seat: Seat)
    requires Sound(w.tables)
    requires Holds(Step(w, e).tables, seat.org, seat.user, Owner) && !Holds(w.tables, seat.org, seat.user, Owner)
    ensures (e == Found(seat.user, seat.org) && seat.org !in w.tables.orgs)
            || (&& e.Perform? && e.request in w.inflight
                && (var p := w.inflight[e.request];
                    GrantsOwner(p.request) && p.confirmed && Seat(p.request.org, p.request.member) == seat))
  {
    hide Owners, OnlyOwner;
  }

  /**
    After any run, every owner either created the organization or was promoted by someone the server had seen to be an
    owner of it.
   */
  lemma {:induction false} OwnersAreAccountedFor(events: seq<Event>, seat: Seat)
    requires Holds(After(events).tables, seat.org, seat.user, Owner)
    ensures Accounted(events, seat)
  {
    var before, e := events[..|events| - 1], events[|events| - 1];
    assert events == before + [e];
    var w := After(before);
    if Holds(w.tables, seat.org, seat.user, Owner) {
      OwnersAreAccountedFor(before, seat);
      AccountedStill(before, e, seat);
    } else {
      EveryOrgHasAnOwner(before);
      NewOwner(w, e, seat);
      assert events[..|before|] == before;
      if e.Found? {
        assert FoundedAt(events, |before|, seat);
      } else {
        ConfirmationsHappened(before, e.request);
        var j: nat :| ConfirmedAt(before, j, e.request, w.inflight[e.request]);
        assert PromotedAt(events, |before|, j, seat);
      }
    }
  }

  /* ---------- invitations are single use ---------- */

  /** An invitation's terms never change, and one that is accepted or revoked stays so. */
  predicate Continues(t: Tables, t': Tables, token: Token) {
    token in t.invites ==>
      && token in t'.invites
      && (var i, i' := t.invites[token], t'.invites[token];
          && i.id == i'.id && i.org == i'.org && i.role == i'.role && i.expiresAt == i'.expiresAt
          && (i.acceptedBy.Some? ==> i'.acceptedBy == i.acceptedBy) && (i.revoked ==> i'.revoked))
  }

  lemma StepContinues(w: World, e: Event, token: Token)
    ensures Continues(w.tables, Step(w, e).tables, token)
  {
    hide Owners, OnlyOwner, RoleNamed;
  }

  lemma {:induction false} RunContinues(events: seq<Event>, i: nat, token: Token)
    requires i <= |events|
    ensures Continues(After(events[..i]).tables, After(events).tables, token)
    decreases |events|
  {
    hide Step;
    if i == |events| {
      assert events[..i] == events;
    } else {
      var before := events[..|events| - 1];
      RunContinues(before, i, token);
      assert before[..i] == events[..i];
      StepContinues(After(before), events[|events| - 1], token);
    }
  }

  /** Step i redeems the token. */
  predicate RedeemedAt(events: seq<Event>, i: nat, token: Token) {
    && i < |events| && events[i].Redeem? && events[i].token == token
    && Redeemable(After(events[..i]).tables, token, events[i].now)
  }

  /** In any run each token is redeemed at most once. */
  lemma RedeemedOnce(events: seq<Event>, i: nat, j: nat, token: Token)
    requires RedeemedAt(events, i, token) && RedeemedAt(events, j, token)
    ensures i == j
  {
    if i < j {
      NotTwice(events, i, j, token);
    } else if j < i {
      NotTwice(events, j, i, token);
    }
  }

  lemma NotTwice(events: seq<Event>, i: nat, j: nat, token: Token)
    requires i < j && RedeemedAt(events, i, token)
    ensures !RedeemedAt(events, j, token)
  {
    if j < |events| {
      Later(events[..i], events[i]);
      assert events[..i] + [events[i]] == events[..i + 1];
      RunContinues(events[..j], i + 1, token);
      assert events[..j][..i + 1] == events[..i + 1];
    }
  }

  /** A revoked invitation is never redeemed afterwards, and no invitation is redeemed from its expiry on. */
  lemma NeverAfterRevocation(events: seq<Event>, i: nat, j: nat, token: Token)
    requires i <= j && i <= |events| && RedeemedAt(events, j, token)
    requires token in After(events[..i]).tables.invites
    ensures !After(events[..i]).tables.invites[token].revoked
    ensures events[j].now < After(events[..i]).tables.invites[token].expiresAt
  {
    RunContinues(events[..j], i, token);
    assert events[..j][..i] == events[..i];
  }
}
