/**
  backend/internal/api/handlers_group.go `syncGroup`, with the row updates of store/apps.go and store/nodes.go it
  orders: the cached mirrors of one signing group against a read of the contract.
 */
module GroupSync {
  import opened Outcomes
  import opened Bytes
  import opened Strings
  import Hex

  type App = nat

  /* ---------- what the chain says ---------- */

  datatype RemovalRequest = RemovalRequest(node: string, executeAfter: int, initiator: string)

  datatype ChainIssuer = ChainIssuer(issuer: string, clientIDs: seq<string>)

  datatype GroupState = GroupState(
    activeNodes: seq<string>, pendingNodes: seq<string>, pendingRemovals: seq<RemovalRequest>,
    threshold: int, isOperational: bool, issuers: seq<ChainIssuer>, authKeys: seq<string>)

  /** Keccak-256 and the icon guess, which the mirrors only store. */
  datatype Derive = Derive(issuerHash: string -> string, keyHash: seq<byte> -> string, provider: string -> string)

  /* ---------- what the platform stores ---------- */

  datatype NodeRow = NodeRow(status: string, executeAfter: Option<int>, initiator: Option<string>, syncedAt: int)

  datatype AppRow = AppRow(
    groupAddress: Option<string>, threshold: Option<int>, nodeCount: Option<nat>, isOperational: Option<bool>,
    syncedAt: Option<int>)

  datatype IssuerRow = IssuerRow(
    hash: Option<string>, clientIDs: seq<string>, provider: string, labelText: string, enabled: bool,
    onchain: string, syncedAt: Option<int>)

  datatype CredentialKind = AppSecret | AuthKey

  datatype Credential = Credential(
    app: App, kind: CredentialKind, labelText: string, publicKey: Option<string>, keyHash: Option<string>,
    onchain: string, revoked: bool)

  /** Credential ids are never reused, so they are numbered. */
  datatype Credentials = Credentials(rows: map<nat, Credential>, next: nat)

  type Nodes = map<(App, string), NodeRow>
  type Issuers = map<(App, string), IssuerRow>

  function Lookup<K, V>(m: map<K, V>, k: K): Option<V> {
    if k in m then Some(m[k]) else None
  }

  /* ---------- membership ---------- */

  datatype NodeState = NodeState(address: string, status: string, executeAfter: Option<int>, initiator: string)

  /** The queued removals by lower-case node, later requests over earlier ones. */
  function Removing(requests: seq<RemovalRequest>): map<string, RemovalRequest> {
    if requests == [] then map[]
    else
      var r := requests[|requests| - 1];
      Removing(requests[..|requests| - 1])[ToLower(r.node) := r]
  }

  function ActiveEntry(n: string, removing: map<string, RemovalRequest>): NodeState {
    if ToLower(n) in removing
    then NodeState(n, "removing", Some(removing[ToLower(n)].executeAfter), removing[ToLower(n)].initiator)
    else NodeState(n, "active", None, "")
  }

  function PendingEntry(n: string): NodeState {
    NodeState(n, "pending", None, "")
  }

  function Entries(s: GroupState): (es: seq<NodeState>)
    ensures |es| == |s.activeNodes| + |s.pendingNodes|
  {
    seq(|s.activeNodes|, i requires 0 <= i < |s.activeNodes| =>
      ActiveEntry(s.activeNodes[i], Removing(s.pendingRemovals))) +
    seq(|s.pendingNodes|, i requires 0 <= i < |s.pendingNodes| => PendingEntry(s.pendingNodes[i]))
  }

  function Row(n: NodeState, now: int): NodeRow {
    NodeRow(n.status, n.executeAfter, if n.initiator == "" then None else Some(ToLower(n.initiator)), now)
  }

  ghost predicate Distinct(es: seq<NodeState>) {
    forall i, j :: 0 <= i < j < |es| ==> ToLower(es[i].address) != ToLower(es[j].address)
  }

  function WithoutApp(nodes: Nodes, app: App): Nodes {
    map k | k in nodes && k.0 != app :: nodes[k]
  }

  /** The rows a snapshot inserts. */
  function Snapshot(app: App, es: seq<NodeState>, now: int): Nodes {
    if es == [] then map[]
    else
      var e := es[|es| - 1];
      Snapshot(app, es[..|es| - 1], now)[(app, ToLower(e.address)) := Row(e, now)]
  }

  lemma {:induction false} SnapshotAt(app: App, es: seq<NodeState>, now: int, k: (App, string))
    ensures k in Snapshot(app, es, now) <==> k.0 == app && exists i :: 0 <= i < |es| && ToLower(es[i].address) == k.1
    ensures Distinct(es) ==> forall i :: 0 <= i < |es| && k == (app, ToLower(es[i].address)) ==>
              k in Snapshot(app, es, now) && Snapshot(app, es, now)[k] == Row(es[i], now)
  {
    if es != [] {
      var init, e := es[..|es| - 1], es[|es| - 1];
      SnapshotAt(app, init, now, k);
      assert Distinct(es) ==> Distinct(init);
      forall i | 0 <= i < |init|
        ensures init[i] == es[i]
      {
      }
      if k == (app, ToLower(e.address)) {
        assert ToLower(es[|es| - 1].address) == k.1;
      }
    }
  }

  /* ---------- issuers ---------- */

  /** `AdoptIssuer`: a new row, or the chain's client ids in the row that is there. */
  function AdoptIssuer(issuers: Issuers, app: App, x: ChainIssuer, derive: Derive, now: int): Issuers {
    var k := (app, x.issuer);
    issuers[k := AdoptedRow(Lookup(issuers, k), x, derive, now)]
  }

  function AdoptedRow(prior: Option<IssuerRow>, x: ChainIssuer, derive: Derive, now: int): IssuerRow {
    var hash := derive.issuerHash(x.issuer);
    if prior.None? then IssuerRow(Some(hash), x.clientIDs, derive.provider(x.issuer), "", true, "active", Some(now))
    else prior.value.(clientIDs := x.clientIDs, hash := if prior.value.hash.Some? then prior.value.hash else Some(hash),
                      onchain := "active", syncedAt := Some(now))
  }

  /** An issuer the platform had no row for: enabled, without a label, with its own hash and icon. */
  lemma NewIssuerRow(issuers: Issuers, app: App, x: ChainIssuer, derive: Derive, now: int)
    requires (app, x.issuer) !in issuers
    ensures AdoptIssuer(issuers, app, x, derive, now) ==
            issuers[(app, x.issuer) := IssuerRow(Some(derive.issuerHash(x.issuer)), x.clientIDs,
                                                 derive.provider(x.issuer), "", true, "active", Some(now))]
  {
  }

  /** An issuer it had: client ids, status and time are the chain's, a missing hash is filled in, the rest stays. */
  lemma KnownIssuerRow(issuers: Issuers, app: App, x: ChainIssuer, derive: Derive, now: int)
    requires (app, x.issuer) in issuers
    ensures var was, row := issuers[(app, x.issuer)], AdoptIssuer(issuers, app, x, derive, now)[(app, x.issuer)];
            && row.clientIDs == x.clientIDs && row.onchain == "active" && row.syncedAt == Some(now)
            && (was.hash.Some? ==> row.hash == was.hash)
            && (was.hash == None ==> row.hash == Some(derive.issuerHash(x.issuer)))
            && row.provider == was.provider && row.labelText == was.labelText && row.enabled == was.enabled
  {
  }

  function AdoptIssuers(issuers: Issuers, app: App, xs: seq<ChainIssuer>, derive: Derive, now: int): Issuers {
    if xs == [] then issuers
    else AdoptIssuer(AdoptIssuers(issuers, app, xs[..|xs| - 1], derive, now), app, xs[|xs| - 1], derive, now)
  }

  function Names(xs: seq<ChainIssuer>): (r: seq<string>)
    ensures |r| == |xs|
  {
    seq(|xs|, i requires 0 <= i < |xs| => xs[i].issuer)
  }

  /** `SyncIssuerStatuses`. */
  function MarkIssuers(issuers: Issuers, app: App, onchain: seq<string>, now: int): Issuers {
    map k | k in issuers ::
      if k.0 == app then issuers[k].(onchain := if k.1 in onchain then "active" else "removed", syncedAt := Some(now))
      else issuers[k]
  }

  function SyncIssuers(issuers: Issuers, app: App, xs: seq<ChainIssuer>, derive: Derive, now: int): Issuers {
    MarkIssuers(AdoptIssuers(issuers, app, xs, derive, now), app, Names(xs), now)
  }

  /** The last entry for a name, if any. */
  function LastNamed(xs: seq<ChainIssuer>, name: string): Option<ChainIssuer> {
    if xs == [] then None
    else if xs[|xs| - 1].issuer == name then Some(xs[|xs| - 1])
    else LastNamed(xs[..|xs| - 1], name)
  }

  lemma {:induction false} AdoptedAt(
    issuers: Issuers, app: App, xs: seq<ChainIssuer>, derive: Derive, now: int, k: (App, string))
    ensures Lookup(AdoptIssuers(issuers, app, xs, derive, now), k) ==
            if k.0 == app && LastNamed(xs, k.1).Some?
            then Some(AdoptedRow(Lookup(issuers, k), LastNamed(xs, k.1).value, derive, now))
            else Lookup(issuers, k)
    ensures k.1 in Names(xs) <==> LastNamed(xs, k.1).Some?
  {
    if xs != [] {
      var init, x := xs[..|xs| - 1], xs[|xs| - 1];
      AdoptedAt(issuers, app, init, derive, now, k);
      assert Names(xs) == Names(init) + [x.issuer];
      LastNamedIs(xs, k.1);
      LastNamedIs(init, k.1);
    }
  }

  lemma {:induction false} LastNamedIs(xs: seq<ChainIssuer>, name: string)
    ensures LastNamed(xs, name).Some? ==> LastNamed(xs, name).value.issuer == name
  {
    if xs != [] {
      LastNamedIs(xs[..|xs| - 1], name);
    }
  }

  /**
    The issuer mirror after a sync: a row of the app is active iff the chain lists it, and dated; every listed issuer
    has a row with the chain's client ids, and what the developer chose for an existing row survives; other apps' rows
    and the set of unlisted names do not change.
   */
  lemma IssuersMirrored(issuers: Issuers, app: App, xs: seq<ChainIssuer>, derive: Derive, now: int, k: (App, string))
    ensures var after := SyncIssuers(issuers, app, xs, derive, now);
            && (k.0 != app ==> Lookup(after, k) == Lookup(issuers, k))
            && (k.0 == app ==> (k in after <==> k in issuers || k.1 in Names(xs)))
            && (k.0 == app && k in after ==>
                  && after[k].onchain == (if k.1 in Names(xs) then "active" else "removed")
                  && after[k].syncedAt == Some(now)
                  && (k.1 in Names(xs) ==>
                        LastNamed(xs, k.1).Some? && after[k].clientIDs == LastNamed(xs, k.1).value.clientIDs)
                  && (k in issuers ==>
                        && after[k].labelText == issuers[k].labelText && after[k].provider == issuers[k].provider
                        && after[k].enabled == issuers[k].enabled
                        && (issuers[k].hash.Some? ==> after[k].hash == issuers[k].hash)
                        && (k.1 !in Names(xs) ==> after[k].clientIDs == issuers[k].clientIDs)))
  {
    AdoptedAt(issuers, app, xs, derive, now, k);
  }

  /* ---------- authorization keys ---------- */

  predicate SameKey(c: Credential, app: App, key: string) {
    c.app == app && c.kind == AuthKey && c.publicKey.Some? && ToLower(c.publicKey.value) == ToLower(key)
  }

  predicate HasKey(rows: map<nat, Credential>, app: App, key: string) {
    exists id :: id in rows && SameKey(rows[id], app, key)
  }

  /** `AuthKeyHash`: nothing for a key that is not hexadecimal. */
  function AuthKeyHash(key: string, derive: Derive): Option<string> {
    var raw := Hex.Decode(Hex.Canonical(key));
    if raw.None? then None else Some(derive.keyHash(raw.value))
  }

  function Discovered(app: App, key: string, hash: string): Credential {
    Credential(app, AuthKey, "Discovered on-chain", Some(ToLower(key)), Some(hash), "active", false)
  }

  /** `AdoptAuthKey`: INSERT … WHERE NOT EXISTS. */
  function AdoptAuthKey(c: Credentials, app: App, key: string, hash: string): Credentials {
    if HasKey(c.rows, app, key) then c
    else Credentials(c.rows[c.next := Discovered(app, key, hash)], c.next + 1)
  }

  function AdoptKey(c: Credentials, app: App, key: string, derive: Derive): Credentials {
    var hash := AuthKeyHash(key, derive);
    if hash.None? then c else AdoptAuthKey(c, app, key, hash.value)
  }

  function AdoptKeys(c: Credentials, app: App, keys: seq<string>, derive: Derive): Credentials {
    if keys == [] then c
    else AdoptKey(AdoptKeys(c, app, keys[..|keys| - 1], derive), app, keys[|keys| - 1], derive)
  }

  function LowerAll(keys: seq<string>): (r: seq<string>)
    ensures |r| == |keys|
  {
    seq(|keys|, i requires 0 <= i < |keys| => ToLower(keys[i]))
  }

  predicate OnChain(c: Credential, keys: seq<string>) {
    c.publicKey.Some? && ToLower(c.publicKey.value) in LowerAll(keys)
  }

  predicate Mirrors(c: Credential, app: App) {
    c.app == app && c.kind == AuthKey && !c.revoked
  }

  /** `SyncAuthKeyStatuses`. */
  function MarkKeys(c: Credentials, app: App, keys: seq<string>): Credentials {
    c.(rows := map id | id in c.rows ::
      if Mirrors(c.rows[id], app)
      then c.rows[id].(onchain := if OnChain(c.rows[id], keys) then "active" else "removed") else c.rows[id])
  }

  function SyncKeys(c: Credentials, app: App, keys: seq<string>, derive: Derive): Credentials {
    MarkKeys(AdoptKeys(c, app, keys, derive), app, keys)
  }

  ghost predicate Numbered(c: Credentials) {
    forall id :: id in c.rows ==> id < c.next
  }

  /** Adoption keeps every row, gives every well-formed key a row, and discovers each missing key once. */
  ghost predicate Adopted(before: Credentials, after: Credentials, app: App, keys: seq<string>, derive: Derive) {
    && Numbered(after) && before.next <= after.next
    && Keeps(before, after)
    && (forall k :: k in keys && AuthKeyHash(k, derive).Some? ==> HasKey(after.rows, app, k))
    && OnlyDiscoveries(before, after, app, keys, derive)
    && NoneTwice(before, after)
  }

  ghost predicate Keeps(before: Credentials, after: Credentials) {
    forall id :: id in before.rows ==> id in after.rows && after.rows[id] == before.rows[id]
  }

  ghost predicate OnlyDiscoveries(
    before: Credentials, after: Credentials, app: App, keys: seq<string>, derive: Derive)
  {
    forall id :: id in after.rows && id !in before.rows ==> DiscoveredAmong(after.rows[id], before, app, keys, derive)
  }

  ghost predicate DiscoveredAmong(c: Credential, before: Credentials, app: App, keys: seq<string>, derive: Derive) {
    exists k :: k in keys && IsDiscovery(c, before, app, k, derive)
  }

  ghost predicate NoneTwice(before: Credentials, after: Credentials) {
    forall i, j :: i in after.rows && j in after.rows && i !in before.rows && j !in before.rows && i != j ==>
      after.rows[i].publicKey != after.rows[j].publicKey
  }

  predicate IsDiscovery(c: Credential, before: Credentials, app: App, k: string, derive: Derive) {
    && AuthKeyHash(k, derive).Some? && c == Discovered(app, k, AuthKeyHash(k, derive).value)
    && !HasKey(before.rows, app, k)
  }

  lemma {:induction false} AdoptKeysAdopts(c: Credentials, app: App, keys: seq<string>, derive: Derive)
    requires Numbered(c)
    ensures Adopted(c, AdoptKeys(c, app, keys, derive), app, keys, derive)
  {
    hide AuthKeyHash;
    if keys != [] {
      var init, k := keys[..|keys| - 1], keys[|keys| - 1];
      AdoptKeysAdopts(c, app, init, derive);
      var mid := AdoptKeys(c, app, init, derive);
      assert forall x :: x in keys <==> x in init || x == k;
      AdoptStep(c, mid, app, init, k, derive);
      assert keys == init + [k];
    }
  }

  lemma AdoptStep(c: Credentials, mid: Credentials, app: App, init: seq<string>, k: string, derive: Derive)
    requires Numbered(c) && Adopted(c, mid, app, init, derive)
    ensures Adopted(c, AdoptKey(mid, app, k, derive), app, init + [k], derive)
  {
    hide AuthKeyHash, ToLower, SameKey, IsDiscovery;
    var keys := init + [k];
    assert forall x :: x in keys <==> x in init || x == k;
    forall id | id in mid.rows && id !in c.rows
      ensures DiscoveredAmong(mid.rows[id], c, app, keys, derive)
    {
    }
    var hash := AuthKeyHash(k, derive);
    if hash.Some? && !HasKey(mid.rows, app, k) {
      DiscoveryIsNew(c, mid, app, init, k, derive);
      var after := AdoptKey(mid, app, k, derive);
      KeyOfDiscovery(app, k, hash.value);
      assert SameKey(after.rows[mid.next], app, k);
      forall x | HasKey(mid.rows, app, x)
        ensures HasKey(after.rows, app, x)
      {
        var id :| id in mid.rows && SameKey(mid.rows[id], app, x);
        assert SameKey(after.rows[id], app, x);
      }
      assert DiscoveredAmong(after.rows[mid.next], c, app, keys, derive);
    }
  }

  /** A key no row has yet is a discovery against the original table, and differs from every earlier one. */
  lemma DiscoveryIsNew(c: Credentials, mid: Credentials, app: App, init: seq<string>, k: string, derive: Derive)
    requires Adopted(c, mid, app, init, derive) && AuthKeyHash(k, derive).Some? && !HasKey(mid.rows, app, k)
    ensures IsDiscovery(Discovered(app, k, AuthKeyHash(k, derive).value), c, app, k, derive)
    ensures forall id :: id in mid.rows && id !in c.rows ==> mid.rows[id].publicKey != Some(ToLower(k))
  {
    hide AuthKeyHash, ToLower;
    forall id | id in mid.rows && id !in c.rows
      ensures mid.rows[id].publicKey != Some(ToLower(k))
    {
      var x :| x in init && IsDiscovery(mid.rows[id], c, app, x, derive);
      DiscoveryMatches(app, x, k, AuthKeyHash(x, derive).value);
      assert !SameKey(mid.rows[id], app, k);
    }
  }

  lemma KeyOfDiscovery(app: App, k: string, hash: string)
    ensures SameKey(Discovered(app, k, hash), app, k)
  {
    LowerIdempotent(k);
  }

  lemma DiscoveryMatches(app: App, x: string, k: string, hash: string)
    ensures SameKey(Discovered(app, x, hash), app, k) <==> ToLower(x) == ToLower(k)
  {
    LowerIdempotent(x);
  }

  /**
    The key mirror after a sync: every well-formed key the group trusts has a row; each row of the app that is not
    revoked is active iff the chain lists its key; every other row, and every other column, is as it was; and the
    only new rows are one per trusted key that had none.
   */
  lemma KeysMirrored(c: Credentials, app: App, keys: seq<string>, derive: Derive)
    requires Numbered(c)
    ensures var after := SyncKeys(c, app, keys, derive);
            && Numbered(after)
            && (forall k :: k in keys && AuthKeyHash(k, derive).Some? ==> HasKey(after.rows, app, k))
            && (forall id :: id in after.rows && Mirrors(after.rows[id], app) ==>
                  after.rows[id].onchain == if OnChain(after.rows[id], keys) then "active" else "removed")
            && (forall id :: id in c.rows ==>
                  && id in after.rows
                  && after.rows[id].(onchain := c.rows[id].onchain) == c.rows[id]
                  && (!Mirrors(c.rows[id], app) ==> after.rows[id] == c.rows[id]))
            && OnlyDiscoveries(c, after, app, keys, derive)
            && NoneTwice(c, after)
  {
    hide AuthKeyHash, ToLower;
    AdoptKeysAdopts(c, app, keys, derive);
    var mid, after := AdoptKeys(c, app, keys, derive), SyncKeys(c, app, keys, derive);
    forall k | k in keys && AuthKeyHash(k, derive).Some?
      ensures HasKey(after.rows, app, k)
    {
      var id :| id in mid.rows && SameKey(mid.rows[id], app, k);
      assert SameKey(after.rows[id], app, k);
    }
    forall id | id in after.rows && id !in c.rows
      ensures DiscoveredAmong(after.rows[id], c, app, keys, derive)
    {
      var k :| k in keys && IsDiscovery(mid.rows[id], c, app, k, derive);
      DiscoveryIsOnChain(app, k, keys, AuthKeyHash(k, derive).value);
      assert IsDiscovery(after.rows[id], c, app, k, derive);
    }
  }

  /** The row is an authorization key of the app whose text is the key, up to case. */
  ghost predicate HoldsKey(c: Credential, app: App, key: string) {
    && c.app == app && c.kind.AuthKey?
    && exists text :: c.publicKey == Some(text) && EqualFold(text, key)
  }

  lemma HoldsKeyIsSameKey(c: Credential, app: App, key: string)
    ensures HoldsKey(c, app, key) <==> SameKey(c, app, key)
  {
  }

  /**
    What a sync makes of a row that was there: an unrevoked key of the app is active if the chain lists its text in
    some case, and removed otherwise; any other row, be it another app's, revoked or a secret, is left as it was.
   */
  lemma KeyRowAfter(c: Credentials, app: App, keys: seq<string>, derive: Derive, id: nat)
    requires Numbered(c) && id in c.rows
    ensures var was, after := c.rows[id], SyncKeys(c, app, keys, derive);
            && id in after.rows
            && after.rows[id] ==
               if was.app != app || was.kind.AppSecret? || was.revoked then was
               else if exists i :: 0 <= i < |keys| && HoldsKey(was, app, keys[i]) then was.(onchain := "active")
               else was.(onchain := "removed")
  {
    hide AuthKeyHash, ToLower, AdoptKeys, HasKey, OnlyDiscoveries, NoneTwice;
    KeysMirrored(c, app, keys, derive);
    var was := c.rows[id];
    forall i | 0 <= i < |keys|
      ensures LowerAll(keys)[i] == ToLower(keys[i]) && (HoldsKey(was, app, keys[i]) <==> SameKey(was, app, keys[i]))
    {
      HoldsKeyIsSameKey(was, app, keys[i]);
    }
    var row := SyncKeys(c, app, keys, derive).rows[id];
    assert row.(onchain := was.onchain) == was;
  }

  /**
    A row that a sync adds: an active, unrevoked key of the app, labelled as discovered, holding in lower case and
    hashed a key the chain lists, which no row held before.
   */
  lemma NewKeyRow(c: Credentials, app: App, keys: seq<string>, derive: Derive, id: nat) returns (k: string)
    requires Numbered(c) && id in SyncKeys(c, app, keys, derive).rows && id !in c.rows
    ensures k in keys && Hex.Decode(Hex.Canonical(k)).Some?
    ensures SyncKeys(c, app, keys, derive).rows[id] ==
            Credential(app, AuthKey, "Discovered on-chain", Some(ToLower(k)),
                       Some(derive.keyHash(Hex.Decode(Hex.Canonical(k)).value)), "active", false)
    ensures forall other :: other in c.rows ==> !HoldsKey(c.rows[other], app, k)
  {
    hide ToLower, SyncKeys, Hex.Decode, Hex.Canonical;
    KeysMirrored(c, app, keys, derive);
    var row := SyncKeys(c, app, keys, derive).rows[id];
    assert DiscoveredAmong(row, c, app, keys, derive);
    k :| k in keys && IsDiscovery(row, c, app, k, derive);
    forall other | other in c.rows
      ensures !HoldsKey(c.rows[other], app, k)
    {
      HoldsKeyIsSameKey(c.rows[other], app, k);
    }
  }

  /** The credentials screen lists a row for the key: it lists rows that are not revoked. */
  ghost predicate Shown(rows: map<nat, Credential>, app: App, key: string) {
    exists id :: id in rows && SameKey(rows[id], app, key) && !rows[id].revoked
  }

  /**
    After a sync the screen shows a well-formed key the group trusts exactly when it showed it before, or no row of the
    key was there. A key whose rows are all revoked stays hidden, however trusted.
   */
  lemma KeyShownExactly(c: Credentials, app: App, keys: seq<string>, derive: Derive, k: string)
    requires Numbered(c) && k in keys && AuthKeyHash(k, derive).Some?
    ensures Shown(SyncKeys(c, app, keys, derive).rows, app, k) <==> Shown(c.rows, app, k) || !HasKey(c.rows, app, k)
  {
    hide AuthKeyHash, ToLower, AdoptKeys, SyncKeys, Mirrors, OnChain, NoneTwice, MarkKeys;
    var after := SyncKeys(c, app, keys, derive);
    KeysMirrored(c, app, keys, derive);
    forall id | id in c.rows
      ensures id in after.rows && (SameKey(after.rows[id], app, k) <==> SameKey(c.rows[id], app, k))
      ensures id in after.rows && after.rows[id].revoked == c.rows[id].revoked
    {
      var row, was := after.rows[id], c.rows[id];
      assert row.(onchain := was.onchain) == was;
    }
    forall id | id in after.rows && id !in c.rows && SameKey(after.rows[id], app, k)
      ensures !after.rows[id].revoked && !HasKey(c.rows, app, k)
    {
      NewRowIsShown(after.rows[id], c, app, keys, derive, k);
    }
    if Shown(c.rows, app, k) {
      var id :| id in c.rows && SameKey(c.rows[id], app, k) && !c.rows[id].revoked;
      assert SameKey(after.rows[id], app, k) && !after.rows[id].revoked;
    } else if !HasKey(c.rows, app, k) {
      var id :| id in after.rows && SameKey(after.rows[id], app, k);
      assert id !in c.rows;
    }
    if Shown(after.rows, app, k) {
      var id :| id in after.rows && SameKey(after.rows[id], app, k) && !after.rows[id].revoked;
      if id in c.rows {
        assert SameKey(c.rows[id], app, k);
      }
    }
  }

  /** A key the group trusts, whose one row was revoked, is not shown after a sync. */
  lemma RevokedKeyIsHidden(app: App, derive: Derive)
    ensures var c := Credentials(map[0 := Discovered(app, "0x02", "").(revoked := true)], 1);
            !Shown(SyncKeys(c, app, ["0x02"], derive).rows, app, "0x02")
  {
    hide ToLower, AdoptKeys, SyncKeys, MarkKeys;
    var c := Credentials(map[0 := Discovered(app, "0x02", "").(revoked := true)], 1);
    KeyOfDiscovery(app, "0x02", "");
    assert SameKey(c.rows[0], app, "0x02");
    assert AuthKeyHash("0x02", derive).Some? by {
      assert [2][1..] == [];
      assert Hex.Show([2]) == [Hex.Digit(0), Hex.Digit(2)] + Hex.Show([]) == "02";
      assert "0x" + "02" == "0x02";
      ChainKeysAreWellFormed([2], derive);
    }
    hide AuthKeyHash, SameKey;
    KeyShownExactly(c, app, ["0x02"], derive, "0x02");
  }

  lemma NewRowIsShown(row: Credential, c: Credentials, app: App, keys: seq<string>, derive: Derive, k: string)
    requires DiscoveredAmong(row, c, app, keys, derive) && SameKey(row, app, k)
    ensures !row.revoked && !HasKey(c.rows, app, k)
  {
    hide AuthKeyHash, ToLower;
    var x :| x in keys && IsDiscovery(row, c, app, x, derive);
    DiscoveryMatches(app, x, k, AuthKeyHash(x, derive).value);
  }

  lemma DiscoveryIsOnChain(app: App, k: string, keys: seq<string>, hash: string)
    requires k in keys
    ensures OnChain(Discovered(app, k, hash), keys)
  {
    LowerIdempotent(k);
    var i :| 0 <= i < |keys| && keys[i] == k;
    assert LowerAll(keys)[i] == ToLower(k);
  }

  /* ---------- the store and syncGroup ---------- */

  const MAX_INT4 := 0x7fff_ffff

  class Store {
    var apps: map<App, AppRow>
    var nodes: Nodes
    var issuers: Issuers
    var credentials: Credentials

    ghost predicate Valid()
      reads this
    {
      Numbered(credentials)
    }

    /** `ReplaceGroupNodes`: delete, then insert, in one transaction; a repeated address or an unknown app undoes it. */
    method ReplaceGroupNodes(app: App, es: seq<NodeState>, now: int) returns (ok: bool)
      modifies `nodes
      ensures ok <==> Distinct(es) && (es == [] || app in apps)
      ensures nodes == if ok then WithoutApp(old(nodes), app) + Snapshot(app, es, now) else old(nodes)
    {
      var before := nodes;
      var rest := WithoutApp(nodes, app);
      var tx := rest;
      for i := 0 to |es|
        invariant nodes == before && (i > 0 ==> app in apps)
        invariant Distinct(es[..i]) && tx == rest + Snapshot(app, es[..i], now)
      {
        var k := (app, ToLower(es[i].address));
        SnapshotAt(app, es[..i], now, k);
        if app !in apps {
          return false;
        }
        if k in tx {
          var j :| 0 <= j < i && ToLower(es[..i][j].address) == k.1;
          assert ToLower(es[j].address) == ToLower(es[i].address);
          return false;
        }
        forall j | 0 <= j < i
          ensures ToLower(es[j].address) != k.1
        {
          assert es[..i][j] == es[j];
        }
        assert es[..i + 1][..i] == es[..i];
        tx := tx[k := Row(es[i], now)];
      }
      assert es[..|es|] == es;
      nodes := tx;
      return true;
    }

    /** `SyncGroupState`: the threshold column is a 32-bit INTEGER. */
    method SyncGroupState(app: App, threshold: int, activeNodes: nat, operational: bool, now: int) returns (ok: bool)
      modifies `apps
      ensures ok <==> threshold < 0x8000_0000
      ensures apps == if ok && app in old(apps)
                      then old(apps)[app := old(apps)[app].(
                                     threshold := Some(threshold), nodeCount := Some(activeNodes),
                                     isOperational := Some(operational), syncedAt := Some(now))]
                      else old(apps)
    {
      if threshold > MAX_INT4 {
        return false;
      }
      if app in apps {
        apps := apps[app := apps[app].(threshold := Some(threshold), nodeCount := Some(activeNodes),
                                       isOperational := Some(operational), syncedAt := Some(now))];
      }
      return true;
    }

    /**
      `syncGroup`: nothing for an app without a group; otherwise membership, summary, issuers and keys in this order,
      stopping at the first that fails. `state` is what reading the group returned, if it could be read.
     */
    method SyncGroup(app: App, state: Option<GroupState>, derive: Derive, now: int) returns (ok: bool)
      requires Valid() && app in apps
      modifies this
      ensures Valid()
      ensures old(apps)[app].groupAddress.None? ==>
                && ok && nodes == old(nodes) && apps == old(apps)
                && issuers == old(issuers) && credentials == old(credentials)
      ensures old(apps)[app].groupAddress.Some? ==>
                (ok <==> state.Some? && Distinct(Entries(state.value)) && state.value.threshold < 0x8000_0000)
      ensures ok && old(apps)[app].groupAddress.Some? ==>
                && nodes == WithoutApp(old(nodes), app) + Snapshot(app, Entries(state.value), now)
                && apps == old(apps)[app := old(apps)[app].(
                             threshold := Some(state.value.threshold), nodeCount := Some(|state.value.activeNodes|),
                             isOperational := Some(state.value.isOperational), syncedAt := Some(now))]
                && issuers == SyncIssuers(old(issuers), app, state.value.issuers, derive, now)
                && credentials == SyncKeys(old(credentials), app, state.value.authKeys, derive)
      ensures !ok ==> apps == old(apps) && issuers == old(issuers) && credentials == old(credentials)
      ensures !ok ==> nodes == if state.Some? && Distinct(Entries(state.value))
                               then WithoutApp(old(nodes), app) + Snapshot(app, Entries(state.value), now)
                               else old(nodes)
    {
      hide Removing, ActiveEntry, PendingEntry, Snapshot, WithoutApp;
      hide AdoptIssuer, AdoptKey, MarkIssuers, MarkKeys, Distinct;
      if apps[app].groupAddress.None? {
        return true;
      }
      if state.None? {
        return false;
      }
      var s := state.value;
      var entries := BuildEntries(s);
      var replaced := ReplaceGroupNodes(app, entries, now);
      if !replaced {
        return false;
      }
      var summarized := SyncGroupState(app, s.threshold, |s.activeNodes|, s.isOperational, now);
      if !summarized {
        return false;
      }
      MirrorIssuers(app, s.issuers, derive, now);
      MirrorKeys(app, s.authKeys, derive);
      return true;
    }

    /** Adopt first, then reconcile. */
    method MirrorIssuers(app: App, xs: seq<ChainIssuer>, derive: Derive, now: int)
      modifies `issuers
      ensures issuers == SyncIssuers(old(issuers), app, xs, derive, now)
    {
      var names: seq<string> := [];
      for i := 0 to |xs|
        invariant issuers == AdoptIssuers(old(issuers), app, xs[..i], derive, now) && names == Names(xs[..i])
      {
        assert xs[..i + 1][..i] == xs[..i];
        names := names + [xs[i].issuer];
        issuers := AdoptIssuer(issuers, app, xs[i], derive, now);
      }
      assert xs[..|xs|] == xs;
      issuers := MarkIssuers(issuers, app, names, now);
    }

    /** A malformed key on the chain is skipped. */
    method MirrorKeys(app: App, keys: seq<string>, derive: Derive)
      requires Valid()
      modifies `credentials
      ensures Valid()
      ensures credentials == SyncKeys(old(credentials), app, keys, derive)
    {
      hide MarkKeys, AdoptAuthKey;
      for i := 0 to |keys|
        invariant credentials == AdoptKeys(old(credentials), app, keys[..i], derive)
      {
        assert keys[..i + 1][..i] == keys[..i];
        var hash := AuthKeyHash(keys[i], derive);
        if hash.None? {
          continue;
        }
        credentials := AdoptAuthKey(credentials, app, keys[i], hash.value);
      }
      assert keys[..|keys|] == keys;
      credentials := MarkKeys(credentials, app, keys);
      KeysMirrored(old(credentials), app, keys, derive);
    }
  }

  /** The loops at the head of `syncGroup`. */
  method BuildEntries(s: GroupState) returns (nodes: seq<NodeState>)
    ensures nodes == Entries(s)
  {
    hide ActiveEntry, PendingEntry;
    var removing: map<string, RemovalRequest> := map[];
    for i := 0 to |s.pendingRemovals|
      invariant removing == Removing(s.pendingRemovals[..i])
    {
      assert s.pendingRemovals[..i + 1][..i] == s.pendingRemovals[..i];
      removing := removing[ToLower(s.pendingRemovals[i].node) := s.pendingRemovals[i]];
    }
    assert s.pendingRemovals[..|s.pendingRemovals|] == s.pendingRemovals;
    nodes := [];
    for i := 0 to |s.activeNodes|
      invariant nodes == Entries(s)[..i]
    {
      nodes := nodes + [ActiveEntry(s.activeNodes[i], removing)];
    }
    for i := 0 to |s.pendingNodes|
      invariant nodes == Entries(s)[..|s.activeNodes| + i]
    {
      nodes := nodes + [PendingEntry(s.pendingNodes[i])];
    }
  }

  /* ---------- the membership mirror ---------- */

  ghost predicate Listed(addresses: seq<string>, a: string) {
    exists i :: 0 <= i < |addresses| && ToLower(addresses[i]) == a
  }

  /** Some queued removal names the node. */
  ghost predicate Queued(requests: seq<RemovalRequest>, a: string) {
    exists i :: 0 <= i < |requests| && ToLower(requests[i].node) == a
  }

  /** Request i is the last one queued for the node. */
  ghost predicate LastQueued(requests: seq<RemovalRequest>, a: string, i: nat) {
    && i < |requests| && ToLower(requests[i].node) == a
    && forall j :: i < j < |requests| ==> ToLower(requests[j].node) != a
  }

  /** The map the code builds holds, for each queued node, the last request that names it. */
  lemma {:induction false} RemovingHas(requests: seq<RemovalRequest>, a: string) returns (i: nat)
    ensures a in Removing(requests) <==> Queued(requests, a)
    ensures Queued(requests, a) ==> LastQueued(requests, a, i) && Removing(requests)[a] == requests[i]
  {
    i := 0;
    if requests != [] {
      var init, r := requests[..|requests| - 1], requests[|requests| - 1];
      assert forall j :: 0 <= j < |init| ==> init[j] == requests[j];
      i := RemovingHas(init, a);
      if ToLower(r.node) == a {
        i := |init|;
        assert ToLower(requests[i].node) == a;
      } else if Queued(requests, a) {
        var m :| 0 <= m < |requests| && ToLower(requests[m].node) == a;
        assert ToLower(init[m].node) == a;
      }
    }
  }

  /** The row of an active node whose removal the request has queued. */
  function RemovingRow(r: RemovalRequest, now: int): NodeRow {
    NodeRow("removing", Some(r.executeAfter), if r.initiator == "" then None else Some(ToLower(r.initiator)), now)
  }

  /** The row carries what the last request for the node says. */
  ghost predicate CarriesRemoval(row: NodeRow, requests: seq<RemovalRequest>, a: string, now: int) {
    exists i: nat :: LastQueued(requests, a, i) && row == RemovingRow(requests[i], now)
  }

  /**
    After a sync the app's cached nodes are exactly the active and the pending ones; a node is 'removing' iff it is
    active and some queued request names it, and then carries the last such request's deadline and initiator; other
    apps' nodes are untouched.
   */
  lemma NodesMirrored(nodes: Nodes, app: App, s: GroupState, now: int, k: (App, string))
    requires Distinct(Entries(s))
    ensures var after := WithoutApp(nodes, app) + Snapshot(app, Entries(s), now);
            && (k.0 != app ==> Lookup(after, k) == Lookup(nodes, k))
            && (k.0 == app ==> (k in after <==> Listed(s.activeNodes, k.1) || Listed(s.pendingNodes, k.1)))
            && (k.0 == app && Listed(s.pendingNodes, k.1) ==> after[k] == NodeRow("pending", None, None, now))
            && (k.0 == app && Listed(s.activeNodes, k.1) ==>
                  if Queued(s.pendingRemovals, k.1) then CarriesRemoval(after[k], s.pendingRemovals, k.1, now)
                  else after[k] == NodeRow("active", None, None, now))
  {
    hide Removing, Snapshot, WithoutApp, Listed, LastQueued;
    NodeRows(nodes, app, s, now, k);
    var i := RemovingHas(s.pendingRemovals, k.1);
  }

  /** The same, in terms of the map the code builds. */
  lemma NodeRows(nodes: Nodes, app: App, s: GroupState, now: int, k: (App, string))
    requires Distinct(Entries(s))
    ensures var after := WithoutApp(nodes, app) + Snapshot(app, Entries(s), now);
            var removing := Removing(s.pendingRemovals);
            && (k.0 != app ==> Lookup(after, k) == Lookup(nodes, k))
            && (k.0 == app ==> (k in after <==> Listed(s.activeNodes, k.1) || Listed(s.pendingNodes, k.1)))
            && (k.0 == app && Listed(s.pendingNodes, k.1) ==> after[k] == NodeRow("pending", None, None, now))
            && (k.0 == app && Listed(s.activeNodes, k.1) ==>
                  after[k] == if k.1 in removing then RemovingRow(removing[k.1], now)
                              else NodeRow("active", None, None, now))
  {
    hide Removing;
    var es := Entries(s);
    SnapshotAt(app, es, now, k);
    if k.0 == app {
      if Listed(s.activeNodes, k.1) {
        var i :| 0 <= i < |s.activeNodes| && ToLower(s.activeNodes[i]) == k.1;
        assert es[i] == ActiveEntry(s.activeNodes[i], Removing(s.pendingRemovals));
        assert k == (app, ToLower(es[i].address));
      }
      if Listed(s.pendingNodes, k.1) {
        var i :| 0 <= i < |s.pendingNodes| && ToLower(s.pendingNodes[i]) == k.1;
        assert es[|s.activeNodes| + i] == PendingEntry(s.pendingNodes[i]);
        assert k == (app, ToLower(es[|s.activeNodes| + i].address));
      }
      if k in Snapshot(app, es, now) {
        EntryListed(s, k.1);
      }
    }
  }

  lemma EntryListed(s: GroupState, a: string)
    requires exists i :: 0 <= i < |Entries(s)| && ToLower(Entries(s)[i].address) == a
    ensures Listed(s.activeNodes, a) || Listed(s.pendingNodes, a)
  {
    var es := Entries(s);
    var i :| 0 <= i < |es| && ToLower(es[i].address) == a;
    if i < |s.activeNodes| {
      assert ToLower(s.activeNodes[i]) == a;
    } else {
      assert ToLower(s.pendingNodes[i - |s.activeNodes|]) == a;
    }
  }

  /* ---------- a second sync ---------- */

  /** A second sync of an unchanged group changes only the nodes' sync times… */
  lemma NodesSyncedTwice(nodes: Nodes, app: App, s: GroupState, now: int, later: int, k: (App, string))
    requires Distinct(Entries(s))
    ensures var once := WithoutApp(nodes, app) + Snapshot(app, Entries(s), now);
            var twice := WithoutApp(once, app) + Snapshot(app, Entries(s), later);
            && (k in twice <==> k in once)
            && (k in once ==> twice[k].(syncedAt := 0) == once[k].(syncedAt := 0))
  {
    var es := Entries(s);
    SnapshotAt(app, es, now, k);
    SnapshotAt(app, es, later, k);
    if k in Snapshot(app, es, now) {
      var i :| 0 <= i < |es| && ToLower(es[i].address) == k.1;
      assert k == (app, ToLower(es[i].address));
    }
  }

  /** …and the issuers'… */
  lemma IssuersSyncedTwice(
    issuers: Issuers, app: App, xs: seq<ChainIssuer>, derive: Derive, now: int, later: int, k: (App, string))
    ensures var once := SyncIssuers(issuers, app, xs, derive, now);
            var twice := SyncIssuers(once, app, xs, derive, later);
            && (k in twice <==> k in once)
            && (k in once ==> twice[k].(syncedAt := None) == once[k].(syncedAt := None))
  {
    var once := SyncIssuers(issuers, app, xs, derive, now);
    AdoptedAt(issuers, app, xs, derive, now, k);
    AdoptedAt(once, app, xs, derive, later, k);
    LastNamedIs(xs, k.1);
  }

  /** …and no key at all: nothing is discovered twice. */
  lemma KeysSyncedTwice(c: Credentials, app: App, keys: seq<string>, derive: Derive)
    requires Numbered(c)
    ensures var once := SyncKeys(c, app, keys, derive);
            SyncKeys(once, app, keys, derive) == once
  {
    hide AuthKeyHash, AdoptKeys, HasKey, OnChain, Mirrors, OnlyDiscoveries, NoneTwice, MarkKeys;
    var once := SyncKeys(c, app, keys, derive);
    KeysMirrored(c, app, keys, derive);
    NothingToAdopt(once, app, keys, derive);
    MarkedAlready(once, app, keys);
  }

  lemma MarkedAlready(c: Credentials, app: App, keys: seq<string>)
    requires forall id :: id in c.rows && Mirrors(c.rows[id], app) ==>
               c.rows[id].onchain == if OnChain(c.rows[id], keys) then "active" else "removed"
    ensures MarkKeys(c, app, keys) == c
  {
    hide OnChain, Mirrors;
    assert MarkKeys(c, app, keys).rows == c.rows;
  }

  lemma {:induction false} NothingToAdopt(c: Credentials, app: App, keys: seq<string>, derive: Derive)
    requires forall k :: k in keys && AuthKeyHash(k, derive).Some? ==> HasKey(c.rows, app, k)
    ensures AdoptKeys(c, app, keys, derive) == c
  {
    hide AuthKeyHash, HasKey;
    if keys != [] {
      assert keys[|keys| - 1] in keys;
      NothingToAdopt(c, app, keys[..|keys| - 1], derive);
    }
  }

  /** Keys read from the chain are rendered as 0x-prefixed hexadecimal, so none of them is skipped. */
  lemma ChainKeysAreWellFormed(raw: seq<byte>, derive: Derive)
    ensures AuthKeyHash("0x" + Hex.Show(raw), derive) == Some(derive.keyHash(raw))
  {
    hide Hex.Canonical;
    Hex.HexRoundTrip(raw);
  }
}
