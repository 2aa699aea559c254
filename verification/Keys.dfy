/** backend/internal/store/keys.go: reconciling an app's cached key inventory with a snapshot. */
module Keys {
  import opened Outcomes
  import opened Strings

  type App = nat

  /** A cached key is identified by its app, key id and curve. */
  datatype KeyRef = KeyRef(app: App, keyId: string, curve: string)

  /** The nullable columns an upsert fills with COALESCE(EXCLUDED.c, app_keys.c). */
  datatype Column =
    | PublicKey | Address | ScopeHex | ScopeChainID | ScopeContract | ScopeTypeHash | ParentKeyID | Threshold
    | SubjectHash

  datatype Cell = Text(text: string) | Number(number: int)

  /** One row of app_keys; `cells` holds the columns that are not NULL. */
  datatype KeyRow = KeyRow(
    cells: map<Column, Cell>, scopeKind: string, parties: seq<string>, status: string, labelText: string, syncedAt: int)

  datatype UserRow = UserRow(
    issuer: string, labelText: string, keyCount: nat, status: string, firstSeen: int, lastSeen: int)

  /** One entry of a snapshot, as the handler submits it. */
  datatype KeyRecord = KeyRecord(
    keyId: string, curve: string, publicKey: string, address: string, scopeHex: string, scopeKind: string,
    scopeChainID: Option<int>, scopeContract: string, scopeTypeHash: string, parentKeyID: string,
    threshold: int, parties: seq<string>, status: string, subjectHash: string)

  const CURVES := {"frost_secp256k1", "frost_ed25519", "ecdsa_secp256k1"}
  const SCOPE_KINDS := {"unscoped", "evm_userop", "solana_tx", "eip712"}
  const STATUSES := {"enabled", "disabled", "deleted"}

  function Or(s: string, default: string): string {
    if s == "" then default else s
  }

  function Status(r: KeyRecord): string { Or(r.status, "enabled") }
  function ScopeKind(r: KeyRecord): string { Or(r.scopeKind, "unscoped") }

  /** Whether the row passes the table's CHECK constraints and its threshold fits an INTEGER. */
  predicate Storable(r: KeyRecord) {
    && r.curve in CURVES && ScopeKind(r) in SCOPE_KINDS && Status(r) in STATUSES
    && -0x8000_0000 <= r.threshold < 0x8000_0000
  }

  /** The rows the table takes, with the values its constraints name; an empty kind or status is filled in. */
  lemma StorableExactly(r: KeyRecord)
    ensures Storable(r) <==>
            && (r.curve == "frost_secp256k1" || r.curve == "frost_ed25519" || r.curve == "ecdsa_secp256k1")
            && (r.scopeKind == "" || r.scopeKind == "unscoped" || r.scopeKind == "evm_userop"
                || r.scopeKind == "solana_tx" || r.scopeKind == "eip712")
            && (r.status == "" || r.status == "enabled" || r.status == "disabled" || r.status == "deleted")
            && -2147483648 <= r.threshold <= 2147483647
  {
  }

  /** NULLIF(s, ''). */
  function Filled(c: Column, s: string): map<Column, Cell> {
    if s == "" then map[] else map[c := Text(s)]
  }

  function FilledNumber(c: Column, n: int): map<Column, Cell> {
    map[c := Number(n)]
  }

  lemma FilledExactly(column: Column, s: string, c: Column)
    ensures c in Filled(column, s) <==> c == column && s != ""
    ensures c in Filled(column, s) ==> Filled(column, s)[c] == Text(s)
  {
  }

  /** The columns a record supplies. */
  function Cells(r: KeyRecord): map<Column, Cell> {
    Filled(PublicKey, r.publicKey) + Filled(Address, ToLower(r.address)) + Filled(ScopeHex, r.scopeHex) +
    (if r.scopeChainID.None? then map[] else FilledNumber(ScopeChainID, r.scopeChainID.value)) +
    Filled(ScopeContract, ToLower(r.scopeContract)) + Filled(ScopeTypeHash, r.scopeTypeHash) +
    Filled(ParentKeyID, r.parentKeyID) +
    (if r.threshold == 0 then map[] else FilledNumber(Threshold, r.threshold)) +
    Filled(SubjectHash, r.subjectHash)
  }

  function Present(s: string): Option<Cell> {
    if s == "" then None else Some(Text(s))
  }

  /** What a record says for a column: NULL for an empty field, addresses in lower case. */
  function FieldOf(r: KeyRecord, c: Column): Option<Cell> {
    match c
    case PublicKey => Present(r.publicKey)
    case Address => Present(ToLower(r.address))
    case ScopeHex => Present(r.scopeHex)
    case ScopeChainID => if r.scopeChainID == None then None else Some(Number(r.scopeChainID.value))
    case ScopeContract => Present(ToLower(r.scopeContract))
    case ScopeTypeHash => Present(r.scopeTypeHash)
    case ParentKeyID => Present(r.parentKeyID)
    case Threshold => if r.threshold == 0 then None else Some(Number(r.threshold))
    case SubjectHash => Present(r.subjectHash)
  }

  /** Later entries win. */
  lemma MergedAt(a: map<Column, Cell>, b: map<Column, Cell>, c: Column)
    ensures Lookup(a + b, c) == if c in b then Some(b[c]) else Lookup(a, c)
  {
  }

  /** Every column gets its own field, and no other. */
  lemma CellsExactly(r: KeyRecord, c: Column)
    ensures Lookup(Cells(r), c) == FieldOf(r, c)
  {
    hide ToLower, Filled, FilledNumber;
    var m1 := Filled(PublicKey, r.publicKey);
    var m2 := m1 + Filled(Address, ToLower(r.address));
    var m3 := m2 + Filled(ScopeHex, r.scopeHex);
    var chain: map<Column, Cell> :=
      if r.scopeChainID.None? then map[] else FilledNumber(ScopeChainID, r.scopeChainID.value);
    var m4 := m3 + chain;
    var m5 := m4 + Filled(ScopeContract, ToLower(r.scopeContract));
    var m6 := m5 + Filled(ScopeTypeHash, r.scopeTypeHash);
    var m7 := m6 + Filled(ParentKeyID, r.parentKeyID);
    var threshold: map<Column, Cell> := if r.threshold == 0 then map[] else FilledNumber(Threshold, r.threshold);
    var m8 := m7 + threshold;
    assert Cells(r) == m8 + Filled(SubjectHash, r.subjectHash);
    hide Cells;
    NumberAt(ScopeChainID, r.scopeChainID, chain, c);
    NumberAt(Threshold, if r.threshold == 0 then None else Some(r.threshold), threshold, c);
    FilledExactly(PublicKey, r.publicKey, c);
    FilledExactly(Address, ToLower(r.address), c);
    FilledExactly(ScopeHex, r.scopeHex, c);
    FilledExactly(ScopeContract, ToLower(r.scopeContract), c);
    FilledExactly(ScopeTypeHash, r.scopeTypeHash, c);
    FilledExactly(ParentKeyID, r.parentKeyID, c);
    FilledExactly(SubjectHash, r.subjectHash, c);
    MergedAt(m1, Filled(Address, ToLower(r.address)), c);
    MergedAt(m2, Filled(ScopeHex, r.scopeHex), c);
    MergedAt(m3, chain, c);
    MergedAt(m4, Filled(ScopeContract, ToLower(r.scopeContract)), c);
    MergedAt(m5, Filled(ScopeTypeHash, r.scopeTypeHash), c);
    MergedAt(m6, Filled(ParentKeyID, r.parentKeyID), c);
    MergedAt(m7, threshold, c);
    MergedAt(m8, Filled(SubjectHash, r.subjectHash), c);
  }

  lemma NumberAt(column: Column, n: Option<int>, m: map<Column, Cell>, c: Column)
    requires m == if n.None? then map[] else FilledNumber(column, n.value)
    ensures c in m <==> c == column && n.Some?
    ensures c in m ==> m[c] == Number(n.value)
  {
  }

  /** INSERT … ON CONFLICT DO UPDATE: supplied columns win, the others and the label survive. */
  function Upsert(prior: Option<KeyRow>, r: KeyRecord, now: int): KeyRow {
    KeyRow(CellsOf(prior) + Cells(r), ScopeKind(r), r.parties, Status(r), LabelOf(prior), now)
  }

  function CellsOf(prior: Option<KeyRow>): map<Column, Cell> {
    if prior.Some? then prior.value.cells else map[]
  }

  function LabelOf(prior: Option<KeyRow>): string {
    if prior.Some? then prior.value.labelText else ""
  }

  function RefOf(app: App, r: KeyRecord): KeyRef {
    KeyRef(app, r.keyId, r.curve)
  }

  function Lookup<K, V>(m: map<K, V>, k: K): Option<V> {
    if k in m then Some(m[k]) else None
  }

  /** The table after upserting the records in order. */
  function Applied(keys: map<KeyRef, KeyRow>, app: App, records: seq<KeyRecord>, now: int): map<KeyRef, KeyRow> {
    if records == [] then keys
    else
      var before := Applied(keys, app, records[..|records| - 1], now);
      var r := records[|records| - 1];
      before[RefOf(app, r) := Upsert(Lookup(before, RefOf(app, r)), r, now)]
  }

  /* ---------- which rows the snapshot covers ---------- */

  /** `key_id || '|' || curve`. */
  function Tag(keyId: string, curve: string): string {
    keyId + "|" + curve
  }

  /** No curve name contains the separator, so a tag names one key. */
  lemma TagInjective(k: string, c: string, k': string, c': string)
    requires c in CURVES && c' in CURVES && Tag(k, c) == Tag(k', c')
    ensures k == k' && c == c'
  {
    var t := Tag(k, c);
    NoSeparator(c);
    NoSeparator(c');
    if |c| < |c'| {
      LongerHasSeparator(k, c, k', c');
    } else if |c'| < |c| {
      LongerHasSeparator(k', c', k, c);
    } else {
      assert c == t[|t| - |c|..] == c';
      assert k == t[..|t| - |c| - 1] == k';
    }
  }

  lemma LongerHasSeparator(k: string, c: string, k': string, c': string)
    requires Tag(k, c) == Tag(k', c') && |c| < |c'|
    ensures '|' in c'
  {
    var t := Tag(k, c);
    assert t[|t| - |c| - 1] == '|';
    assert t[|t| - |c| - 1] == c'[|c'| - |c| - 1];
  }

  lemma NoSeparator(c: string)
    requires c in CURVES
    ensures '|' !in c
  {
  }

  function Tags(records: seq<KeyRecord>): (r: seq<string>)
    ensures |r| == |records|
  {
    seq(|records|, i requires 0 <= i < |records| => Tag(records[i].keyId, records[i].curve))
  }

  /** UPDATE … SET status = 'deleted' WHERE the key is the app's, live, and its tag was not seen. */
  function MarkAbsent(keys: map<KeyRef, KeyRow>, app: App, seen: seq<string>, now: int): map<KeyRef, KeyRow> {
    map k | k in keys :: if k.app == app && keys[k].status != "deleted" && Tag(k.keyId, k.curve) !in seen
                         then keys[k].(status := "deleted", syncedAt := now) else keys[k]
  }

  lemma MarkAbsentKeys(keys: map<KeyRef, KeyRow>, app: App, seen: seq<string>, now: int)
    ensures MarkAbsent(keys, app, seen, now).Keys == keys.Keys
  {
  }

  /* ---------- live keys and counts ---------- */

  predicate IsLive(keys: map<KeyRef, KeyRow>, k: KeyRef) {
    k in keys && keys[k].status != "deleted"
  }

  predicate BelongsTo(row: KeyRow, subject: string) {
    SubjectHash in row.cells && row.cells[SubjectHash] == Text(subject)
  }

  function LiveKeysOf(keys: map<KeyRef, KeyRow>, app: App, subject: string): set<KeyRef> {
    set k | k in keys && k.app == app && keys[k].status != "deleted" && BelongsTo(keys[k], subject)
  }

  /** The subjects GROUP BY returns: those with at least one live key. */
  function LiveSubjects(keys: map<KeyRef, KeyRow>, app: App): set<string> {
    set k | k in keys && k.app == app && keys[k].status != "deleted" && SubjectHash in keys[k].cells &&
            keys[k].cells[SubjectHash].Text? :: keys[k].cells[SubjectHash].text
  }

  function CountedUser(prior: Option<UserRow>, count: nat, now: int): UserRow {
    if prior.None? then UserRow("", "", count, "active", now, now)
    else prior.value.(keyCount := count, lastSeen := if prior.value.lastSeen >= now then prior.value.lastSeen else now)
  }

  /** INSERT INTO app_users … SELECT count(*) … GROUP BY subject_hash. */
  function Counted(users: map<(App, string), UserRow>, keys: map<KeyRef, KeyRow>, app: App, now: int):
      map<(App, string), UserRow>
  {
    map u | u in users.Keys + (set s | s in LiveSubjects(keys, app) :: (app, s)) ::
      if u.0 == app && u.1 in LiveSubjects(keys, app)
      then CountedUser(Lookup(users, u), |LiveKeysOf(keys, app, u.1)|, now) else users[u]
  }

  /* ---------- the store ---------- */

  class Store {
    var apps: set<App>
    var keys: map<KeyRef, KeyRow>
    var users: map<(App, string), UserRow>

    /** Every cached key passed the table's CHECK on its curve. */
    ghost predicate Valid()
      reads this
    {
      forall k :: k in keys ==> k.curve in CURVES
    }

    /** `SyncKeys`: one transaction; a record the table refuses, or an unknown app, undoes it all. */
    method SyncKeys(app: App, records: seq<KeyRecord>, now: int) returns (r: Option<nat>)
      requires Valid()
      modifies `keys, `users
      ensures Valid()
      ensures r == if forall x :: x in records ==> app in apps && Storable(x) then Some(|records|) else None
      ensures r.None? ==> keys == old(keys) && users == old(users)
      ensures r.Some? ==> keys == MarkAbsent(Applied(old(keys), app, records, now), app, Tags(records), now)
      ensures r.Some? ==> users == Counted(old(users), keys, app, now)
    {
      hide Upsert, Counted, Storable, Tag, MarkAbsent;
      var seen: seq<string> := [];
      var before := keys;
      var txKeys := before;
      for i := 0 to |records|
        invariant forall j :: 0 <= j < i ==> app in apps && Storable(records[j])
        invariant txKeys == Applied(before, app, records[..i], now) && seen == Tags(records[..i])
        invariant forall k :: k in txKeys ==> k.curve in CURVES
        invariant keys == before && users == old(users)
      {
        var x := records[i];
        if app !in apps || !Storable(x) {
          return None;
        }
        assert records[..i + 1][..i] == records[..i];
        StorableCurve(x);
        txKeys := txKeys[RefOf(app, x) := Upsert(Lookup(txKeys, RefOf(app, x)), x, now)];
        seen := seen + [Tag(x.keyId, x.curve)];
      }
      assert records[..|records|] == records;
      MarkAbsentKeys(txKeys, app, seen, now);
      txKeys := MarkAbsent(txKeys, app, seen, now);
      keys, users := txKeys, Counted(users, txKeys, app, now);
      return Some(|records|);
    }

    /** `SetKeyLabel`. */
    method SetKeyLabel(k: KeyRef, labelText: string) returns (found: bool)
      requires Valid()
      modifies `keys
      ensures Valid() && found == (k in old(keys))
      ensures keys == if found then old(keys)[k := old(keys)[k].(labelText := labelText)] else old(keys)
    {
      found := k in keys;
      if found {
        keys := keys[k := keys[k].(labelText := labelText)];
      }
    }
  }

  /** The keys after a successful sync. */
  function Synced(keys: map<KeyRef, KeyRow>, app: App, records: seq<KeyRecord>, now: int): map<KeyRef, KeyRow> {
    MarkAbsent(Applied(keys, app, records, now), app, Tags(records), now)
  }

  /* ---------- the records about one key, and their combined effect ---------- */

  function About(records: seq<KeyRecord>, keyId: string, curve: string): seq<KeyRecord> {
    if records == [] then []
    else
      var rest := About(records[..|records| - 1], keyId, curve);
      var r := records[|records| - 1];
      if r.keyId == keyId && r.curve == curve then rest + [r] else rest
  }

  /** Everything the records supply, later ones over earlier ones. */
  function AllCells(records: seq<KeyRecord>): map<Column, Cell> {
    if records == [] then map[] else AllCells(records[..|records| - 1]) + Cells(records[|records| - 1])
  }

  /** The row one key ends up with: the last record's status, scope and parties; the old label; merged columns. */
  function Combined(prior: Option<KeyRow>, mine: seq<KeyRecord>, now: int): Option<KeyRow> {
    if mine == [] then prior
    else
      var last := mine[|mine| - 1];
      Some(KeyRow(CellsOf(prior) + AllCells(mine), ScopeKind(last), last.parties, Status(last), LabelOf(prior), now))
  }

  lemma CombinedStep(prior: Option<KeyRow>, mine: seq<KeyRecord>, r: KeyRecord, now: int)
    ensures Combined(prior, mine + [r], now) == Some(Upsert(Combined(prior, mine, now), r, now))
  {
    assert (mine + [r])[..|mine|] == mine;
    AppendCells(CellsOf(prior), AllCells(mine), Cells(r));
    if mine == [] {
      assert AllCells(mine) + Cells(r) == Cells(r);
    }
  }

  lemma {:induction false} AppliedAt(keys: map<KeyRef, KeyRow>, app: App, records: seq<KeyRecord>, now: int, k: KeyRef)
    ensures Lookup(Applied(keys, app, records, now), k) ==
            Combined(Lookup(keys, k), if k.app == app then About(records, k.keyId, k.curve) else [], now)
  {
    hide Combined, Upsert;
    if records != [] {
      var init, r := records[..|records| - 1], records[|records| - 1];
      AppliedAt(keys, app, init, now, k);
      if RefOf(app, r) == k {
        CombinedStep(Lookup(keys, k), About(init, k.keyId, k.curve), r, now);
      }
    } else {
      CombinedNothing(Lookup(keys, k), now);
    }
  }

  lemma CombinedNothing(prior: Option<KeyRow>, now: int)
    ensures Combined(prior, [], now) == prior
  {
  }

  lemma AppendCells(a: map<Column, Cell>, b: map<Column, Cell>, c: map<Column, Cell>)
    ensures a + b + c == a + (b + c)
  {
  }

  lemma {:induction false} SeenIffAbout(records: seq<KeyRecord>, keyId: string, curve: string)
    requires curve in CURVES && forall r :: r in records ==> r.curve in CURVES
    ensures Tag(keyId, curve) in Tags(records) <==> About(records, keyId, curve) != []
  {
    if records != [] {
      var init, r := records[..|records| - 1], records[|records| - 1];
      SeenIffAbout(init, keyId, curve);
      assert Tags(records) == Tags(init) + [Tag(r.keyId, r.curve)];
      if Tag(keyId, curve) == Tag(r.keyId, r.curve) {
        TagInjective(keyId, curve, r.keyId, r.curve);
      }
    }
  }

  /**
    The inventory after a sync. The app's live keys are exactly the snapshot's whose last record is not 'deleted';
    a key the snapshot leaves out keeps every column but its status and sync time; labels and other apps survive.
   */
  lemma SyncedInventory(keys: map<KeyRef, KeyRow>, app: App, records: seq<KeyRecord>, now: int, k: KeyRef)
    requires forall x :: x in keys ==> x.curve in CURVES
    requires forall x :: x in records ==> Storable(x)
    ensures var after := Synced(keys, app, records, now);
            var mine := About(records, k.keyId, k.curve);
            && (k.app != app ==> Lookup(after, k) == Lookup(keys, k))
            && (k.app == app ==> (IsLive(after, k) <==> mine != [] && Status(mine[|mine| - 1]) != "deleted"))
            && (k in keys ==> k in after && after[k].labelText == keys[k].labelText)
            && (k.app == app && k in keys && mine == [] ==>
                  && after[k].status == "deleted"
                  && after[k].(status := keys[k].status, syncedAt := keys[k].syncedAt) == keys[k])
            && (k.app == app && mine != [] ==>
                  && k in after
                  && after[k].cells == (if k in keys then keys[k].cells else map[]) + AllCells(mine)
                  && after[k].status == Status(mine[|mine| - 1]))
  {
    AppliedAt(keys, app, records, now, k);
    if k in Synced(keys, app, records, now) && k.app == app {
      if k.curve in CURVES {
        SeenIffAbout(records, k.keyId, k.curve);
      } else {
        AboutStorable(records, k.keyId, k.curve);
      }
    } else if k.app == app {
      AboutStorable(records, k.keyId, k.curve);
    }
  }

  /**
    The row a covered key ends up with: status, kind of scope and parties are its last record's, the first two filled
    in where empty; the label is the old one, or empty in a new row.
   */
  lemma CoveredRow(keys: map<KeyRef, KeyRow>, app: App, records: seq<KeyRecord>, now: int, k: KeyRef)
    requires forall x :: x in keys ==> x.curve in CURVES
    requires forall x :: x in records ==> Storable(x)
    requires k.app == app && About(records, k.keyId, k.curve) != []
    ensures var after := Synced(keys, app, records, now);
            var mine := About(records, k.keyId, k.curve);
            var last := mine[|mine| - 1];
            && k in after
            && after[k].status == (if last.status != "" then last.status else "enabled")
            && after[k].scopeKind == (if last.scopeKind != "" then last.scopeKind else "unscoped")
            && after[k].parties == last.parties && after[k].syncedAt == now
            && after[k].labelText == (if k in keys then keys[k].labelText else "")
  {
    hide Cells, Storable, Tag;
    AppliedAt(keys, app, records, now, k);
    KeySeen(records, k);
  }

  /** The key was seen in the snapshot exactly when some record is about it. */
  lemma KeySeen(records: seq<KeyRecord>, k: KeyRef)
    requires forall x :: x in records ==> Storable(x)
    requires k.curve in CURVES || About(records, k.keyId, k.curve) != []
    ensures Tag(k.keyId, k.curve) in Tags(records) <==> About(records, k.keyId, k.curve) != []
  {
    hide Storable, Tag;
    AboutStorable(records, k.keyId, k.curve);
    if About(records, k.keyId, k.curve) != [] {
      assert About(records, k.keyId, k.curve)[0] in About(records, k.keyId, k.curve);
    }
    forall r | r in records
      ensures r.curve in CURVES
    {
      StorableCurve(r);
    }
    SeenIffAbout(records, k.keyId, k.curve);
  }

  /** A column that the last record about the key supplies holds that record's field. */
  lemma CoveredCell(keys: map<KeyRef, KeyRow>, app: App, records: seq<KeyRecord>, now: int, k: KeyRef, c: Column)
    requires forall x :: x in keys ==> x.curve in CURVES
    requires forall x :: x in records ==> Storable(x)
    requires k.app == app && About(records, k.keyId, k.curve) != []
    ensures var mine := About(records, k.keyId, k.curve);
            var field := FieldOf(mine[|mine| - 1], c);
            && k in Synced(keys, app, records, now)
            && (field.Some? ==> Lookup(Synced(keys, app, records, now)[k].cells, c) == field)
  {
    hide Cells, FieldOf, Storable, Tag, Synced, Status, About;
    var mine := About(records, k.keyId, k.curve);
    SyncedInventory(keys, app, records, now, k);
    CellsExactly(mine[|mine| - 1], c);
    AllCellsOf(mine, c);
    SuppliedLast(mine, c);
    MergedAt(if k in keys then keys[k].cells else map[], AllCells(mine), c);
  }

  /** A key of the app that the snapshot leaves out: a live one is marked deleted and dated, a deleted one stays. */
  lemma AbsentRow(keys: map<KeyRef, KeyRow>, app: App, records: seq<KeyRecord>, now: int, k: KeyRef)
    requires forall x :: x in keys ==> x.curve in CURVES
    requires forall x :: x in records ==> Storable(x)
    requires k in keys && k.app == app && About(records, k.keyId, k.curve) == []
    ensures var after := Synced(keys, app, records, now);
            && k in after
            && after[k] == if keys[k].status == "deleted" then keys[k]
                           else keys[k].(status := "deleted", syncedAt := now)
  {
    hide Cells, Storable, Tag;
    AppliedAt(keys, app, records, now, k);
    KeySeen(records, k);
  }

  lemma {:induction false} AboutStorable(records: seq<KeyRecord>, keyId: string, curve: string)
    requires forall x :: x in records ==> Storable(x)
    ensures forall r :: r in About(records, keyId, curve) ==> r.curve == curve && r.curve in CURVES
  {
    hide Storable;
    if records != [] {
      var init, x := records[..|records| - 1], records[|records| - 1];
      assert x in records;
      AboutStorable(init, keyId, curve);
      StorableCurve(x);
    }
  }

  lemma StorableCurve(r: KeyRecord)
    requires Storable(r)
    ensures r.curve in CURVES
  {
  }

  /* ---------- the scope a row shows ---------- */

  const SCOPE_COLUMNS := {ScopeHex, ScopeChainID, ScopeContract, ScopeTypeHash}

  /** The row's scope columns are those the record supplies. */
  predicate ShowsScopeOf(cells: map<Column, Cell>, r: KeyRecord) {
    forall c :: c in SCOPE_COLUMNS ==> Lookup(cells, c) == Lookup(Cells(r), c)
  }

  /** Some record supplies the column. */
  predicate Supplied(records: seq<KeyRecord>, c: Column) {
    exists i :: 0 <= i < |records| && c in Cells(records[i])
  }

  lemma SuppliedLast(mine: seq<KeyRecord>, c: Column)
    requires mine != []
    ensures Supplied(mine, c) <==> Supplied(mine[..|mine| - 1], c) || c in Cells(mine[|mine| - 1])
  {
    hide Cells;
    var init := mine[..|mine| - 1];
    if i :| 0 <= i < |mine| && c in Cells(mine[i]) {
      assert i < |init| ==> c in Cells(init[i]);
    }
    if i :| 0 <= i < |init| && c in Cells(init[i]) {
      assert c in Cells(mine[i]);
    }
  }

  lemma {:induction false} AllCellsOf(mine: seq<KeyRecord>, c: Column)
    ensures c in AllCells(mine) <==> Supplied(mine, c)
    ensures mine != [] && c in Cells(mine[|mine| - 1]) ==> AllCells(mine)[c] == Cells(mine[|mine| - 1])[c]
  {
    if mine != [] {
      hide Cells, Supplied;
      AllCellsOf(mine[..|mine| - 1], c);
      SuppliedLast(mine, c);
    } else {
      assert !Supplied(mine, c);
    }
  }

  /**
    A sync replaces a row's kind of scope but keeps the columns its last record leaves out. So the columns shown are
    that record's exactly when each one it leaves out was empty before and in every earlier record of the key.
   */
  lemma ScopeShownExactly(keys: map<KeyRef, KeyRow>, app: App, records: seq<KeyRecord>, now: int, k: KeyRef)
    requires forall x :: x in keys ==> x.curve in CURVES
    requires forall x :: x in records ==> Storable(x)
    requires k.app == app && About(records, k.keyId, k.curve) != []
    ensures var after := Synced(keys, app, records, now);
            var mine := About(records, k.keyId, k.curve);
            var last := mine[|mine| - 1];
            && k in after && after[k].scopeKind == ScopeKind(last)
            && (ShowsScopeOf(after[k].cells, last) <==>
                  forall c :: c in SCOPE_COLUMNS && c !in Cells(last) ==>
                    !Supplied(mine, c) && (k in keys ==> c !in keys[k].cells))
  {
    hide Cells, Tag, Status, ScopeKind, Storable;
    SyncedInventory(keys, app, records, now, k);
    SyncedKind(keys, app, records, now, k);
    var mine := About(records, k.keyId, k.curve);
    forall c
      ensures c in AllCells(mine) <==> Supplied(mine, c)
      ensures c in Cells(mine[|mine| - 1]) ==> c in AllCells(mine) && AllCells(mine)[c] == Cells(mine[|mine| - 1])[c]
    {
      AllCellsOf(mine, c);
      assert c in Cells(mine[|mine| - 1]) ==> Supplied(mine, c);
    }
  }

  lemma SyncedKind(keys: map<KeyRef, KeyRow>, app: App, records: seq<KeyRecord>, now: int, k: KeyRef)
    requires k.app == app && About(records, k.keyId, k.curve) != []
    ensures var mine := About(records, k.keyId, k.curve);
            && k in Synced(keys, app, records, now)
            && Synced(keys, app, records, now)[k].scopeKind == ScopeKind(mine[|mine| - 1])
  {
    hide Cells, Tag, Status, ScopeKind;
    AppliedAt(keys, app, records, now, k);
  }

  /** A key re-synced without a scope is shown as unscoped, with the contract it was scoped to. */
  lemma UnscopedKeepsContract()
    ensures var k := KeyRef(1, "k", "frost_ed25519");
            var row := KeyRow(map[ScopeContract := Text("0xc0")], "evm_userop", [], "enabled", "", 0);
            var r := KeyRecord("k", "frost_ed25519", "", "", "", "", None, "", "", "", 0, [], "", "");
            var after := Synced(map[k := row], 1, [r], 5);
            && k in after && after[k].scopeKind == "unscoped"
            && ScopeContract in after[k].cells && after[k].cells[ScopeContract] == Text("0xc0")
  {
    var k := KeyRef(1, "k", "frost_ed25519");
    var row := KeyRow(map[ScopeContract := Text("0xc0")], "evm_userop", [], "enabled", "", 0);
    var r := KeyRecord("k", "frost_ed25519", "", "", "", "", None, "", "", "", 0, [], "", "");
    assert Cells(r) == map[];
    hide Cells, Tag;
    var keys := map[k := row];
    assert [r][..0] == [];
    assert Applied(keys, 1, [r], 5) == Applied(keys, 1, [], 5)[k := Upsert(Some(row), r, 5)];
  }

  /* ---------- re-applying a snapshot ---------- */

  function Timeless(row: KeyRow): KeyRow {
    row.(syncedAt := 0)
  }

  /** Syncing the same snapshot again changes nothing but sync times. */
  lemma SyncTwice(keys: map<KeyRef, KeyRow>, app: App, records: seq<KeyRecord>, now: int, later: int, k: KeyRef)
    requires forall x :: x in keys ==> x.curve in CURVES
    requires forall x :: x in records ==> Storable(x)
    ensures var once := Synced(keys, app, records, now);
            var twice := Synced(once, app, records, later);
            && (k in twice <==> k in once)
            && (k in once ==> Timeless(twice[k]) == Timeless(once[k]))
  {
    var once := Synced(keys, app, records, now);
    SyncedCurves(keys, app, records, now);
    AppliedAt(keys, app, records, now, k);
    AppliedAt(once, app, records, later, k);
    SyncedInventory(keys, app, records, now, k);
    SyncedInventory(once, app, records, later, k);
    var mine := About(records, k.keyId, k.curve);
    Absorbed(if k in keys then keys[k].cells else map[], AllCells(mine));
  }

  lemma Absorbed(a: map<Column, Cell>, b: map<Column, Cell>)
    ensures (a + b) + b == a + b
  {
  }

  lemma SyncedCurves(keys: map<KeyRef, KeyRow>, app: App, records: seq<KeyRecord>, now: int)
    requires forall x :: x in keys ==> x.curve in CURVES
    requires forall x :: x in records ==> Storable(x)
    ensures forall k :: k in Synced(keys, app, records, now) ==> k.curve in CURVES
  {
    forall k | k in Synced(keys, app, records, now)
      ensures k.curve in CURVES
    {
      AppliedAt(keys, app, records, now, k);
      AboutStorable(records, k.keyId, k.curve);
    }
  }

  /* ---------- the users screen ---------- */

  lemma LiveSubjectHasKey(keys: map<KeyRef, KeyRow>, app: App, subject: string)
    ensures subject in LiveSubjects(keys, app) <==> LiveKeysOf(keys, app, subject) != {}
  {
    if subject in LiveSubjects(keys, app) {
      var k :| k in keys && k.app == app && keys[k].status != "deleted" && SubjectHash in keys[k].cells &&
               keys[k].cells[SubjectHash].Text? && keys[k].cells[SubjectHash].text == subject;
      assert k in LiveKeysOf(keys, app, subject);
    }
    if LiveKeysOf(keys, app, subject) != {} {
      var k :| k in LiveKeysOf(keys, app, subject);
      assert keys[k].cells[SubjectHash].text == subject;
    }
  }

  lemma SameLiveKeys(keys: map<KeyRef, KeyRow>, keys': map<KeyRef, KeyRow>, app: App, subject: string)
    requires forall k :: k in keys' <==> k in keys
    requires forall k :: k in keys ==> Timeless(keys'[k]) == Timeless(keys[k])
    ensures LiveKeysOf(keys', app, subject) == LiveKeysOf(keys, app, subject)
    ensures subject in LiveSubjects(keys', app) <==> subject in LiveSubjects(keys, app)
  {
    assert forall k :: k in keys ==> keys'[k].cells == keys[k].cells && keys'[k].status == keys[k].status by {
      forall k | k in keys
        ensures keys'[k].cells == keys[k].cells && keys'[k].status == keys[k].status
      {
        assert Timeless(keys'[k]).cells == Timeless(keys[k]).cells;
        assert Timeless(keys'[k]).status == Timeless(keys[k]).status;
      }
    }
    LiveSubjectHasKey(keys, app, subject);
    LiveSubjectHasKey(keys', app, subject);
  }

  /** Syncing the same snapshot again changes nothing of the users but the time they were last seen. */
  lemma UsersSyncedTwice(
    keys: map<KeyRef, KeyRow>, users: map<(App, string), UserRow>, app: App, records: seq<KeyRecord>,
    now: int, later: int, u: (App, string))
    requires forall x :: x in keys ==> x.curve in CURVES
    requires forall x :: x in records ==> Storable(x)
    ensures var once := Synced(keys, app, records, now);
            var twice := Synced(once, app, records, later);
            var users1 := Counted(users, once, app, now);
            var users2 := Counted(users1, twice, app, later);
            && (u in users2 <==> u in users1)
            && (u in users1 ==> users2[u].(lastSeen := 0) == users1[u].(lastSeen := 0))
  {
    hide Synced, LiveSubjects, LiveKeysOf, Timeless;
    var once := Synced(keys, app, records, now);
    var twice := Synced(once, app, records, later);
    forall k
      ensures k in twice <==> k in once
      ensures k in once ==> Timeless(twice[k]) == Timeless(once[k])
    {
      SyncTwice(keys, app, records, now, later, k);
    }
    SameLiveKeys(once, twice, app, u.1);
  }

  /**
    The roll-forward is meant to keep the users screen from ever disagreeing with the keys screen. For one user row
    it does so exactly when the subject still has a live key, or its count was already zero: a subject whose last
    live key disappears is not in the grouped result, and keeps its prior count.
   */
  lemma KeyCountExact(
    users: map<(App, string), UserRow>, keys: map<KeyRef, KeyRow>, app: App, now: int, subject: string)
    ensures var after := Counted(users, keys, app, now);
            var live := |LiveKeysOf(keys, app, subject)|;
            && ((app, subject) in after <==> live > 0 || (app, subject) in users)
            && ((app, subject) in after ==>
                  (after[(app, subject)].keyCount == live <==> live > 0 || users[(app, subject)].keyCount == 0))
  {
    LiveSubjectHasKey(keys, app, subject);
  }

  /**
    The user row of a subject with a live key: a new row is active, first and last seen now; an old one takes the
    count and the later of its last sighting and now. Without a live key the row is left alone.
   */
  lemma CountedRow(
    users: map<(App, string), UserRow>, keys: map<KeyRef, KeyRow>, app: App, now: int, subject: string)
    requires (app, subject) in Counted(users, keys, app, now)
    ensures var u, live := (app, subject), |LiveKeysOf(keys, app, subject)|;
            var row := Counted(users, keys, app, now)[u];
            if live == 0 then u in users && row == users[u]
            else if u !in users then row == UserRow("", "", live, "active", now, now)
            else
              && row.keyCount == live
              && row.lastSeen == (if now > users[u].lastSeen then now else users[u].lastSeen)
              && row.firstSeen == users[u].firstSeen && row.status == users[u].status
              && row.issuer == users[u].issuer && row.labelText == users[u].labelText
  {
    LiveSubjectHasKey(keys, app, subject);
  }

  /** A sync that empties a snapshot leaves the count of the deleted key behind. */
  lemma StaleKeyCount()
    ensures var k := KeyRef(1, "k", "frost_ed25519");
            var row := KeyRow(map[SubjectHash := Text("s")], "unscoped", [], "enabled", "", 0);
            var users := map[(1, "s") := UserRow("", "", 1, "active", 0, 0)];
            var after := Synced(map[k := row], 1, [], 5);
            LiveKeysOf(after, 1, "s") == {} && Counted(users, after, 1, 5)[(1, "s")].keyCount == 1
  {
    var k := KeyRef(1, "k", "frost_ed25519");
    var row := KeyRow(map[SubjectHash := Text("s")], "unscoped", [], "enabled", "", 0);
    var users: map<(App, string), UserRow> := map[(1, "s") := UserRow("", "", 1, "active", 0, 0)];
    var after := Synced(map[k := row], 1, [], 5);
    assert Applied(map[k := row], 1, [], 5) == map[k := row];
    assert after[k].status == "deleted";
    LiveSubjectHasKey(after, 1, "s");
  }

  /** Users of other apps, and everything about a user but its count and last sighting, are untouched. */
  lemma UsersOtherwiseUntouched(
    users: map<(App, string), UserRow>, keys: map<KeyRef, KeyRow>, app: App, now: int, u: (App, string))
    requires u in users
    ensures var after := Counted(users, keys, app, now);
            && u in after
            && (u.0 != app ==> after[u] == users[u])
            && after[u].(keyCount := users[u].keyCount, lastSeen := users[u].lastSeen) == users[u]
            && after[u].lastSeen >= users[u].lastSeen
  {
  }
}
