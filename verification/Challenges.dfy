/** Login challenges: backend/internal/store/users.go:115-157 over the auth_challenges table. */
module Challenges {

  type Nonce = string

  /** `purpose` is the method column: which kind of login the nonce is for. */
  datatype Challenge = Challenge(purpose: string, address: string, expiresAt: int, consumed: bool)

  type Rows = map<Nonce, Challenge>

  const METHODS := {"signet", "siwe"}

  /** Consumed and expired rows stay this long past expiry. */
  const GRACE: int := 3600

  datatype Event =
    | Create(nonce: Nonce, purpose: string, address: string, ttl: int, now: int)
    | Consume(nonce: Nonce, purpose: string, now: int)
    | Purge(now: int)

  /** What the caller sees; the number of purged rows is only logged. */
  datatype Reply = Created | Refused | Address(address: string) | NotFound | Purged

  predicate Consumable(rows: Rows, nonce: Nonce, purpose: string, now: int) {
    nonce in rows && rows[nonce].purpose == purpose && !rows[nonce].consumed && rows[nonce].expiresAt > now
  }

  function Next(rows: Rows, e: Event): Rows {
    match e
    case Create(nonce, purpose, address, ttl, now) =>
      if nonce in rows || purpose !in METHODS then rows
      else rows[nonce := Challenge(purpose, address, now + ttl, false)]
    case Consume(nonce, purpose, now) =>
      if Consumable(rows, nonce, purpose, now) then rows[nonce := rows[nonce].(consumed := true)] else rows
    case Purge(now) => map n | n in rows && !(rows[n].expiresAt < now - GRACE) :: rows[n]
  }

  function ReplyTo(rows: Rows, e: Event): Reply {
    match e
    case Create(nonce, purpose, address, ttl, now) =>
      if nonce in rows || purpose !in METHODS then Refused else Created
    case Consume(nonce, purpose, now) =>
      if Consumable(rows, nonce, purpose, now) then Address(rows[nonce].address) else NotFound
    case Purge(_) => Purged
  }

  class Store {
    var rows: Rows

    method CreateChallenge(nonce: Nonce, purpose: string, address: string, ttl: int, now: int) returns (reply: Reply)
      modifies this
      ensures reply == ReplyTo(old(rows), Create(nonce, purpose, address, ttl, now))
      ensures rows == Next(old(rows), Create(nonce, purpose, address, ttl, now))
    {
      if nonce in rows || purpose !in METHODS {
        return Refused;
      }
      rows := rows[nonce := Challenge(purpose, address, now + ttl, false)];
      return Created;
    }

    /** The conditional UPDATE is the check. */
    method ConsumeChallenge(nonce: Nonce, purpose: string, now: int) returns (reply: Reply)
      modifies this
      ensures reply == ReplyTo(old(rows), Consume(nonce, purpose, now))
      ensures rows == Next(old(rows), Consume(nonce, purpose, now))
    {
      if nonce !in rows {
        return NotFound;
      }
      var c := rows[nonce];
      if c.purpose != purpose || c.consumed || now >= c.expiresAt {
        return NotFound;
      }
      rows := rows[nonce := c.(consumed := true)];
      return Address(c.address);
    }

    method PurgeExpiredChallenges(now: int) returns (affected: nat)
      modifies this
      ensures rows == Next(old(rows), Purge(now))
      ensures affected + |rows| == |old(rows)|
    {
      var stale := set n | n in rows && rows[n].expiresAt < now - GRACE;
      affected := |stale|;
      RemovedSize(rows, stale);
      rows := rows - stale;
    }
  }

  /** A challenge is issued exactly for a nonce not in use and one of the two methods, open until its time is over. */
  lemma IssuedExactly(rows: Rows, nonce: Nonce, purpose: string, address: string, ttl: int, now: int)
    ensures var e := Create(nonce, purpose, address, ttl, now);
            if nonce !in rows && (purpose == "signet" || purpose == "siwe")
            then
              && ReplyTo(rows, e) == Created
              && Next(rows, e) == rows[nonce := Challenge(purpose, address, now + ttl, false)]
            else ReplyTo(rows, e) == Refused && Next(rows, e) == rows
  {
  }

  /**
    A challenge just issued is redeemed, by its method and at any time before it expires, with the address it was
    issued for; a second attempt is refused.
   */
  lemma FreshChallengeIsRedeemed(
    rows: Rows, nonce: Nonce, purpose: string, address: string, ttl: int, now: int, later: int, other: string)
    requires nonce !in rows && (purpose == "signet" || purpose == "siwe")
    ensures var issued := Next(rows, Create(nonce, purpose, address, ttl, now));
            && (ReplyTo(issued, Consume(nonce, other, later)) ==
                if other == purpose && later < now + ttl then Address(address) else NotFound)
            && Next(issued, Consume(nonce, purpose, later)).Keys == issued.Keys
            && (later < now + ttl ==>
                  Next(issued, Consume(nonce, purpose, later)) ==
                  rows[nonce := Challenge(purpose, address, now + ttl, true)])
  {
  }

  /** A purge drops a row by its expiry alone: a consumed one stays until then as well. */
  lemma PurgeDropsExactly(rows: Rows, nonce: Nonce, now: int)
    requires nonce in rows
    ensures nonce !in Next(rows, Purge(now)) <==> rows[nonce].expiresAt + 3600 < now
    ensures ReplyTo(rows, Purge(now)) == Purged
    ensures nonce in Next(rows, Purge(now)) ==> Next(rows, Purge(now))[nonce] == rows[nonce]
  {
  }

  /** A consumed challenge that outlives a purge. */
  lemma ConsumedChallengeIsKept(now: int)
    ensures var rows := map["n" := Challenge("siwe", "", now, true)];
            rows["n"].consumed && Next(rows, Purge(now)) == rows
  {
    var rows: Rows := map["n" := Challenge("siwe", "", now, true)];
    PurgeDropsExactly(rows, "n", now);
    assert Next(rows, Purge(now)).Keys == rows.Keys;
  }

  lemma RemovedSize(rows: Rows, stale: set<Nonce>)
    requires stale <= rows.Keys
    ensures |stale| + |rows - stale| == |rows|
  {
    assert (rows - stale).Keys == rows.Keys - stale;
  }

  /* ---------- runs ---------- */

  function After(rows: Rows, events: seq<Event>): Rows {
    if events == [] then rows else Next(After(rows, events[..|events| - 1]), events[|events| - 1])
  }

  function Replies(rows: Rows, events: seq<Event>): (r: seq<Reply>)
    ensures |r| == |events|
    decreases |events|
  {
    if events == [] then [] else [ReplyTo(rows, events[0])] + Replies(Next(rows, events[0]), events[1..])
  }

  /** No nonce is issued twice, nor one that is in use already: nonces are 16 random bytes. */
  predicate Fresh(used: set<Nonce>, events: seq<Event>)
    decreases |events|
  {
    events == [] ||
    (if events[0].Create? then events[0].nonce !in used && Fresh(used + {events[0].nonce}, events[1..])
     else Fresh(used, events[1..]))
  }

  /** A consumed challenge, or one that is gone, with its nonce marked used. */
  predicate Dead(rows: Rows, used: set<Nonce>, nonce: Nonce) {
    nonce in used && (nonce in rows ==> rows[nonce].consumed)
  }

  lemma {:induction false} DeadForever(rows: Rows, used: set<Nonce>, nonce: Nonce, events: seq<Event>, i: nat)
    requires Dead(rows, used, nonce) && rows.Keys <= used && Fresh(used, events) && i < |events|
    requires events[i].Consume? && events[i].nonce == nonce
    ensures Replies(rows, events)[i] == NotFound
    decreases |events|
  {
    if i > 0 {
      var next := if events[0].Create? then used + {events[0].nonce} else used;
      DeadForever(Next(rows, events[0]), next, nonce, events[1..], i - 1);
    }
  }

  /** Step i consumes the nonce. */
  predicate ConsumedAt(rows: Rows, events: seq<Event>, i: nat, nonce: Nonce) {
    && i < |events| && events[i].Consume? && events[i].nonce == nonce && Replies(rows, events)[i] != NotFound
  }

  /** In any run a nonce is consumed at most once. */
  lemma {:induction false} ConsumedOnce(rows: Rows, used: set<Nonce>, events: seq<Event>, i: nat, j: nat, nonce: Nonce)
    requires rows.Keys <= used && Fresh(used, events)
    requires ConsumedAt(rows, events, i, nonce) && ConsumedAt(rows, events, j, nonce)
    ensures i == j
    decreases |events|, i
  {
    if j < i {
      ConsumedOnce(rows, used, events, j, i, nonce);
    } else if i < j {
      var next := if events[0].Create? then used + {events[0].nonce} else used;
      var rows' := Next(rows, events[0]);
      if i == 0 {
        DeadForever(rows', next, nonce, events[1..], j - 1);
      } else {
        ConsumedOnce(rows', next, events[1..], i - 1, j - 1, nonce);
      }
    }
  }

  /** Step k issued the challenge that step i redeems: same method and address, not yet expired. */
  predicate IssuedAt(events: seq<Event>, k: nat, i: nat, address: string) {
    && k < i < |events| && events[k].Create? && events[i].Consume? && events[k].nonce == events[i].nonce
    && events[k].purpose == events[i].purpose && events[k].address == address
    && events[i].now < events[k].now + events[k].ttl
  }

  /** Every row of a run that starts empty comes from a step that created it. */
  lemma {:induction false} RowsWereCreated(events: seq<Event>, nonce: Nonce) returns (k: nat)
    requires nonce in After(map[], events)
    ensures k < |events| && events[k].Create? && events[k].nonce == nonce
    ensures var c := After(map[], events)[nonce];
            c.purpose == events[k].purpose && c.address == events[k].address
            && c.expiresAt == events[k].now + events[k].ttl
  {
    var before := events[..|events| - 1];
    if nonce in After(map[], before) {
      k := RowsWereCreated(before, nonce);
    } else {
      k := |events| - 1;
    }
  }

  /** A challenge is redeemed only for the method it was issued for, with its address, and only before it expires. */
  lemma RedeemedAsIssued(events: seq<Event>, i: nat, nonce: Nonce) returns (k: nat)
    requires ConsumedAt(map[], events, i, nonce)
    ensures Replies(map[], events)[i].Address? && IssuedAt(events, k, i, Replies(map[], events)[i].address)
  {
    ReplyInContext(map[], events, i);
    var before := events[..i];
    k := RowsWereCreated(before, nonce);
    assert before[k] == events[k];
  }

  lemma {:induction false} ReplyInContext(rows: Rows, events: seq<Event>, i: nat)
    requires i < |events|
    ensures Replies(rows, events)[i] == ReplyTo(After(rows, events[..i]), events[i])
    decreases |events|
  {
    if i > 0 {
      ReplyInContext(Next(rows, events[0]), events[1..], i - 1);
      AfterFirst(rows, events[..i]);
      assert events[..i][1..] == events[1..][..i - 1];
    }
  }

  lemma {:induction false} AfterFirst(rows: Rows, events: seq<Event>)
    requires events != []
    ensures After(rows, events) == After(Next(rows, events[0]), events[1..])
  {
    if |events| > 1 {
      AfterFirst(rows, events[..|events| - 1]);
      assert events[..|events| - 1][1..] == events[1..][..|events| - 2];
    } else {
      assert events[..0] == [];
    }
  }

  /* ---------- purging is invisible ---------- */

  /** The tables agree but for rows that expired before `limit`. */
  predicate Agree(kept: Rows, purged: Rows, limit: int) {
    && (forall n :: n in purged ==> n in kept && purged[n] == kept[n])
    && (forall n :: n in kept && n !in purged ==> kept[n].expiresAt < limit)
  }

  /** The clock may step back, but not before `limit`. */
  predicate NotBefore(events: seq<Event>, limit: int) {
    forall e :: e in events ==> e.now >= limit
  }

  lemma {:induction false} AgreeingTablesReplyAlike(
    kept: Rows, purged: Rows, used: set<Nonce>, events: seq<Event>, limit: int)
    requires Agree(kept, purged, limit) && kept.Keys <= used && Fresh(used, events) && NotBefore(events, limit)
    ensures Replies(kept, events) == Replies(purged, events)
    decreases |events|
  {
    if events != [] {
      var e := events[0];
      assert e in events;
      var next := if e.Create? then used + {e.nonce} else used;
      AgreeStep(kept, purged, used, e, limit);
      AgreeingTablesReplyAlike(Next(kept, e), Next(purged, e), next, events[1..], limit);
    }
  }

  lemma AgreeStep(kept: Rows, purged: Rows, used: set<Nonce>, e: Event, limit: int)
    requires Agree(kept, purged, limit) && kept.Keys <= used && e.now >= limit
    requires e.Create? ==> e.nonce !in used
    ensures ReplyTo(kept, e) == ReplyTo(purged, e) && Agree(Next(kept, e), Next(purged, e), limit)
  {
  }

  /**
    Purging at any point of a run changes the reply to no later request, as long as no request's clock is more than an
    hour behind the purge.
   */
  lemma PurgeIsInvisible(rows: Rows, used: set<Nonce>, earlier: seq<Event>, later: seq<Event>, now: int)
    requires rows.Keys <= used && Fresh(used, earlier + later) && NotBefore(later, now - GRACE)
    ensures Replies(After(rows, earlier + [Purge(now)]), later) == Replies(After(rows, earlier), later)
  {
    var kept := After(rows, earlier);
    assert (earlier + [Purge(now)])[..|earlier|] == earlier;
    var spent := FreshRest(rows, used, earlier, later);
    AgreeingTablesReplyAlike(kept, Next(kept, Purge(now)), spent, later, now - GRACE);
  }

  lemma {:induction false} FreshRest(rows: Rows, used: set<Nonce>, earlier: seq<Event>, later: seq<Event>)
    returns (spent: set<Nonce>)
    requires rows.Keys <= used && Fresh(used, earlier + later)
    ensures After(rows, earlier).Keys <= spent && Fresh(spent, later)
    decreases |earlier|
  {
    if earlier == [] {
      assert earlier + later == later;
      spent := used;
    } else {
      var e := earlier[0];
      assert (earlier + later)[1..] == earlier[1..] + later;
      spent := FreshRest(Next(rows, e), if e.Create? then used + {e.nonce} else used, earlier[1..], later);
      AfterFirst(rows, earlier);
    }
  }

  /** An hour is the most the clock may slip: one second more and a purge turns a success into a refusal. */
  lemma PurgeVisibleBeyondGrace(now: int)
    ensures var rows := map["n" := Challenge("siwe", "", now - GRACE - 1, false)];
            var late := [Consume("n", "siwe", now - GRACE - 2)];
            Replies(rows, late) != Replies(Next(rows, Purge(now)), late)
  {
    var rows: Rows := map["n" := Challenge("siwe", "", now - GRACE - 1, false)];
    var late := Consume("n", "siwe", now - GRACE - 2);
    assert Replies(rows, [late])[0] == Address("");
    assert Replies(Next(rows, Purge(now)), [late])[0] == NotFound;
  }
}
