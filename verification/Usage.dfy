/**
  backend/internal/store/usage.go: metering events, their daily rollups and the window figures.
  Times are microseconds since the epoch and days are UTC; a latency is in milliseconds.
 */
module Usage {
  import opened Outcomes
  import Percentiles

  const DAY: int := 86_400_000_000

  /** The text of a uuid: always 36 characters. */
  type AppId = s: string | |s| == 36 witness "00000000-0000-0000-0000-000000000000"

  type Org = nat

  datatype Kind = Auth | Keygen | Sign | Delegate | Reshare

  /** One row of usage_events; an empty subject was stored as NULL. */
  datatype Event = Event(
    app: AppId, subject: Option<string>, kind: Kind, latency: Option<int>, ok: bool, at: int)

  datatype Totals = Totals(auths: nat, keygens: nat, signs: nat, errors: nat)

  /** One row of usage_daily; a percentile without latencies is NULL. */
  datatype Row = Row(wallets: nat, counts: Totals, p50: Option<int>, p95: Option<int>)

  /** An event as the caller submits it: no time means now, latency 0 means none, a kind is free text. */
  datatype Submission = Submission(
    app: AppId, subject: string, kind: string, latency: int, ok: bool, at: Option<int>)

  function KindOf(s: string): Option<Kind> {
    match s
    case "auth" => Some(Auth)
    case "keygen" => Some(Keygen)
    case "sign" => Some(Sign)
    case "delegate" => Some(Delegate)
    case "reshare" => Some(Reshare)
    case _ => None
  }

  function DayOf(at: int): int {
    at / DAY
  }

  /* ---------- recomputing from the raw events ---------- */

  /** The events of one app in the days first..last, in order. */
  function Window(events: seq<Event>, app: AppId, first: int, last: int): seq<Event> {
    if events == [] then []
    else
      var rest := Window(events[..|events| - 1], app, first, last);
      var e := events[|events| - 1];
      if e.app == app && first <= DayOf(e.at) <= last then rest + [e] else rest
  }

  function Plus(a: Totals, b: Totals): Totals {
    Totals(a.auths + b.auths, a.keygens + b.keygens, a.signs + b.signs, a.errors + b.errors)
  }

  function One(b: bool): nat {
    if b then 1 else 0
  }

  /** The four `count(*) FILTER` columns. */
  function Count(events: seq<Event>): Totals {
    if events == [] then Totals(0, 0, 0, 0)
    else Plus(Count(events[..|events| - 1]), CountOne(events[|events| - 1]))
  }

  function CountOne(e: Event): Totals {
    Totals(One(e.kind == Auth), One(e.kind == Keygen), One(e.kind == Sign), One(!e.ok))
  }

  /** The distinct subjects, NULLs aside. */
  function Wallets(events: seq<Event>): set<string> {
    set e | e in events && e.subject.Some? :: e.subject.value
  }

  /** The latencies, NULLs aside. */
  function Latencies(events: seq<Event>): seq<int> {
    if events == [] then []
    else
      var e := events[|events| - 1];
      Latencies(events[..|events| - 1]) + (if e.latency.Some? then [e.latency.value] else [])
  }

  /** The aggregate the rollup query computes for one app and day. */
  function Aggregate(events: seq<Event>, app: AppId, day: int): Row {
    var w := Window(events, app, day, day);
    Row(|Wallets(w)|, Count(w), Percentiles.Disc(Latencies(w), 1, 2), Percentiles.Disc(Latencies(w), 19, 20))
  }

  /** The rollups agree with the raw events: every row is its aggregate, and every app-day with an event has a row. */
  ghost predicate Agrees(events: seq<Event>, daily: map<(AppId, int), Row>) {
    && (forall k :: k in daily ==> daily[k] == Aggregate(events, k.0, k.1))
    && (forall e :: e in events ==> (e.app, DayOf(e.at)) in daily)
  }

  /* ---------- the store ---------- */

  datatype StoreError = UnknownApp | UnknownKind | BadLatency

  /** Whether the INSERT passes: the app exists, the kind is one of the five, and the latency fits an INTEGER. */
  predicate Storable(apps: map<AppId, Org>, s: Submission) {
    s.app in apps && KindOf(s.kind).Some? && -0x8000_0000 <= s.latency < 0x8000_0000
  }

  function Stored(s: Submission, now: int): Event
    requires KindOf(s.kind).Some?
  {
    Event(s.app, if s.subject == "" then None else Some(s.subject), KindOf(s.kind).value,
          if s.latency == 0 then None else Some(s.latency), s.ok,
          if s.at.Some? then s.at.value else now)
  }

  function AllStored(batch: seq<Submission>, now: int): (r: seq<Event>)
    requires forall s :: s in batch ==> KindOf(s.kind).Some?
    ensures |r| == |batch| && forall i :: 0 <= i < |batch| ==> r[i] == Stored(batch[i], now)
  {
    seq(|batch|, i requires 0 <= i < |batch| => Stored(batch[i], now))
  }

  class Store {
    var apps: map<AppId, Org>
    var events: seq<Event>
    var daily: map<(AppId, int), Row>

    ghost predicate Valid()
      reads this
    {
      Agrees(events, daily) && forall e :: e in events ==> e.app in apps
    }

    constructor (apps: map<AppId, Org>)
      ensures Valid() && this.apps == apps && events == [] && daily == map[]
    {
      this.apps, events, daily := apps, [], map[];
    }

    /**
      `RecordUsage`: all or nothing. On success the log has grown by exactly the batch, and the rollups of the days
      it touches, and no others, are recomputed.
     */
    method RecordUsage(batch: seq<Submission>, now: int) returns (r: Result<(), StoreError>)
      requires Valid()
      modifies `events, `daily
      ensures Valid()
      ensures r.Success? <==> forall s :: s in batch ==> Storable(apps, s)
      ensures r.Success? ==> Recorded(old(events), old(daily), AllStored(batch, now), events, daily)
      ensures r.Failure? ==> events == old(events) && daily == old(daily)
    {
      if batch == [] {
        RecordNothing(events, daily);
        return Success(());
      }
      hide Aggregate, Agrees, DayOf, KindOf, Stored, AllStored, Touched, Recorded;
      NothingTouched(now);
      var txEvents, affected := events, {};
      for i := 0 to |batch|
        invariant events == old(events) && daily == old(daily)
        invariant forall j :: 0 <= j < i ==> Storable(apps, batch[j])
        invariant txEvents == events + AllStored(batch[..i], now)
        invariant affected == Touched(AllStored(batch[..i], now))
      {
        if !Storable(apps, batch[i]) {
          return Failure(if batch[i].app !in apps then UnknownApp
                         else if KindOf(batch[i].kind).None? then UnknownKind else BadLatency);
        }
        var e := Stored(batch[i], now);
        OneMoreStored(batch, i, now);
        txEvents := txEvents + [e];
        affected := affected + {(e.app, DayOf(e.at))};
      }
      assert batch[..|batch|] == batch;
      var txDaily := RollAffected(txEvents, affected);
      RecordKeepsAgreement(events, daily, AllStored(batch, now), txEvents, txDaily);
      events, daily := txEvents, txDaily;
      return Success(());
    }

    /** Rewrites the rows of the days a batch touched, from the log as the transaction sees it. */
    method RollAffected(txEvents: seq<Event>, affected: set<(AppId, int)>) returns (txDaily: map<(AppId, int), Row>)
      ensures txDaily.Keys == daily.Keys + affected
      ensures forall k :: k in txDaily ==>
                txDaily[k] == if k in affected then Aggregate(txEvents, k.0, k.1) else daily[k]
    {
      hide Aggregate;
      txDaily := daily;
      var todo := affected;
      while todo != {}
        invariant todo <= affected
        invariant txDaily.Keys == daily.Keys + (affected - todo)
        invariant forall k :: k in txDaily ==>
                    txDaily[k] == if k in affected - todo then Aggregate(txEvents, k.0, k.1) else daily[k]
        decreases todo
      {
        var a :| a in todo;
        todo := todo - {a};
        txDaily := txDaily[a := Aggregate(txEvents, a.0, a.1)];
      }
    }

    /** `RollupDay`, the backfill: one row is rewritten, or created with zeros for a day without events. */
    method RollupDay(app: AppId, day: int) returns (r: Result<(), StoreError>)
      requires Valid()
      modifies `daily
      ensures Valid()
      ensures r.Success? <==> app in apps
      ensures daily == if r.Success? then old(daily)[(app, day) := Aggregate(events, app, day)] else old(daily)
    {
      if app !in apps {
        return Failure(UnknownApp);
      }
      daily := daily[(app, day) := Aggregate(events, app, day)];
      return Success(());
    }

    /** `Usage`: sums the stored rows of the window in day order, and counts its distinct wallets afresh. */
    method Usage(app: AppId, first: int, last: int) returns (s: Summary)
      requires Valid()
      ensures s.series == RowsBetween(daily, app, first, last)
      ensures var w := Window(events, app, first, last);
              && s.auths == Count(w).auths && s.keygens == Count(w).keygens && s.signs == Count(w).signs
              && s.errorRate == Rate(Count(w).errors, s.auths + s.keygens + s.signs)
              && s.monthlyActiveWallets == |Wallets(w)|
    {
      var series: seq<(int, Row)> := RowsBetween(daily, app, first, last);
      var auths: nat, keygens: nat, signs: nat, totalOps: nat, totalErrors: nat := 0, 0, 0, 0, 0;
      for i := 0 to |series|
        invariant Totals(auths, keygens, signs, totalErrors) == SumRows(series[..i])
        invariant totalOps == auths + keygens + signs
      {
        var p := series[i].1.counts;
        auths := auths + p.auths;
        keygens := keygens + p.keygens;
        signs := signs + p.signs;
        totalOps := totalOps + (p.auths + p.keygens + p.signs);
        totalErrors := totalErrors + p.errors;
        assert series[..i + 1][..i] == series[..i];
      }
      assert series[..|series|] == series;
      RowsSumToWindow(events, daily, app, first, last);
      return Summary(series, auths, keygens, signs, Rate(totalErrors, totalOps),
                     |Wallets(Window(events, app, first, last))|);
    }

    /** `OrgMonthlyActiveWallets`: distinct `app:subject` strings over the organization's apps. */
    method OrgMonthlyActiveWallets(org: Org, first: int, last: int) returns (n: nat)
      requires Valid()
      ensures n == SumOver(AppsOf(apps, org), events, first, last)
    {
      OrgWalletsAdd(apps, org, events, first, last);
      n := |OrgWallets(events, AppsOf(apps, org), first, last)|;
    }
  }

  datatype Summary = Summary(
    series: seq<(int, Row)>, auths: nat, keygens: nat, signs: nat, errorRate: real, monthlyActiveWallets: nat)

  function Rate(errors: nat, ops: nat): real {
    if ops > 0 then errors as real / ops as real else 0.0
  }

  /* ---------- what is counted ---------- */

  /** The positions of the events that pass. */
  function Where(events: seq<Event>, test: Event -> bool): set<nat> {
    set i: nat | i < |events| && test(events[i])
  }

  lemma WhereLast(events: seq<Event>, test: Event -> bool)
    requires events != []
    ensures |Where(events, test)| == |Where(events[..|events| - 1], test)| + One(test(events[|events| - 1]))
  {
    var init, n := events[..|events| - 1], |events| - 1;
    assert Where(events, test) == Where(init, test) + (if test(events[n]) then {n} else {});
  }

  /** The totals are numbers of events: by kind, and not ok. */
  lemma {:induction false} CountExactly(events: seq<Event>)
    ensures Count(events).auths == |Where(events, (e: Event) => e.kind == Auth)|
    ensures Count(events).keygens == |Where(events, (e: Event) => e.kind == Keygen)|
    ensures Count(events).signs == |Where(events, (e: Event) => e.kind == Sign)|
    ensures Count(events).errors == |Where(events, (e: Event) => !e.ok)|
  {
    var auth, keygen := (e: Event) => e.kind == Auth, (e: Event) => e.kind == Keygen;
    var sign, failed := (e: Event) => e.kind == Sign, (e: Event) => !e.ok;
    if events == [] {
      assert Where(events, auth) == Where(events, keygen) == Where(events, sign) == Where(events, failed) == {};
    } else {
      CountExactly(events[..|events| - 1]);
      hide Where;
      WhereLast(events, auth);
      WhereLast(events, keygen);
      WhereLast(events, sign);
      WhereLast(events, failed);
    }
  }

  /** An event is in a window exactly when it is the app's and its day is between the first and the last. */
  lemma {:induction false} InWindow(events: seq<Event>, app: AppId, first: int, last: int, e: Event)
    ensures e in Window(events, app, first, last) <==>
            e in events && e.app == app && first * 86_400_000_000 <= e.at < (last + 1) * 86_400_000_000
  {
    if events != [] {
      var init, x := events[..|events| - 1], events[|events| - 1];
      InWindow(init, app, first, last, e);
      assert events == init + [x];
      DayBounds(x.at, first, last);
    }
  }

  lemma DayBounds(at: int, first: int, last: int)
    ensures first <= DayOf(at) <= last <==> first * 86_400_000_000 <= at < (last + 1) * 86_400_000_000
  {
  }

  /** The number of events with a latency, and of those with one of at most v. */
  lemma {:induction false} LatencyCounts(events: seq<Event>, v: int)
    ensures |Latencies(events)| == |Where(events, (e: Event) => e.latency.Some?)|
    ensures Percentiles.AtMost(Latencies(events), v) ==
            |Where(events, (e: Event) => e.latency.Some? && e.latency.value <= v)|
  {
    var timed, fast := (e: Event) => e.latency.Some?, (e: Event) => e.latency.Some? && e.latency.value <= v;
    if events == [] {
      assert Where(events, timed) == Where(events, fast) == {};
    } else {
      var init, e := events[..|events| - 1], events[|events| - 1];
      LatencyCounts(init, v);
      hide Where, Percentiles.AtMost;
      WhereLast(events, timed);
      WhereLast(events, fast);
      if e.latency.Some? {
        Percentiles.AtMostLast(Latencies(init), e.latency.value, v);
      } else {
        assert Latencies(init) + [] == Latencies(init);
      }
    }
  }

  /**
    A row's percentiles, over the events of its app and day that have a latency: the first is at most v exactly when
    half of them are, the second exactly when 19 in 20 are; both are NULL exactly when there are none.
   */
  lemma PercentilesExactly(events: seq<Event>, app: AppId, day: int, v: int)
    ensures var row, w := Aggregate(events, app, day), Window(events, app, day, day);
            var timed := |Where(w, (e: Event) => e.latency.Some?)|;
            var fast := |Where(w, (e: Event) => e.latency.Some? && e.latency.value <= v)|;
            && (row.p50 == None <==> timed == 0) && (row.p95 == None <==> timed == 0)
            && (row.p50.Some? ==> (row.p50.value <= v <==> timed <= 2 * fast))
            && (row.p95.Some? ==> (row.p95.value <= v <==> 19 * timed <= 20 * fast))
  {
    hide Window, Where, Latencies, Percentiles.Disc, Percentiles.AtMost, Count, Wallets;
    var lat := Latencies(Window(events, app, day, day));
    LatencyCounts(Window(events, app, day, day), v);
    Percentiles.DiscExact(lat, 1, 2, v);
    Percentiles.DiscExact(lat, 19, 20, v);
    assert |lat| == 0 <==> lat == [];
  }

  /** The submissions the tables take. */
  lemma StorableExactly(apps: map<AppId, Org>, s: Submission)
    ensures Storable(apps, s) <==>
            && s.app in apps && s.kind in {"auth", "keygen", "sign", "delegate", "reshare"}
            && -2147483648 <= s.latency <= 2147483647
  {
    hide KindOf;
    KindNames(s.kind);
  }

  /** What is logged of a submission: no subject and no latency as NULL, the time now when none is given. */
  lemma StoredExactly(s: Submission, now: int)
    requires KindOf(s.kind).Some?
    ensures var e := Stored(s, now);
            && e.app == s.app && e.ok == s.ok && Some(e.kind) == KindOf(s.kind)
            && e.subject == (if s.subject != "" then Some(s.subject) else None)
            && e.latency == (if s.latency != 0 then Some(s.latency) else None)
            && (s.at == None ==> e.at == now) && (s.at.Some? ==> Some(e.at) == s.at)
  {
  }

  /** The error rate is the failures divided by the operations, and zero without operations. */
  lemma RateExactly(errors: nat, ops: nat)
    ensures ops == 0 ==> Rate(errors, ops) == 0.0
    ensures ops > 0 ==> Rate(errors, ops) * ops as real == errors as real
  {
  }

  function TimeOf(s: Submission, now: int): int {
    if s.at == None then now else s.at.value
  }

  predicate Falls(s: Submission, now: int, app: AppId, day: int) {
    s.app == app && DayOf(TimeOf(s, now)) == day
  }

  /** The positions of the submissions of an app and a day that pass. */
  function Submitted(batch: seq<Submission>, now: int, app: AppId, day: int, test: Submission -> bool): set<nat> {
    set i: nat | i < |batch| && Falls(batch[i], now, app, day) && test(batch[i])
  }

  lemma SubmittedLast(batch: seq<Submission>, now: int, app: AppId, day: int, test: Submission -> bool)
    requires batch != []
    ensures |Submitted(batch, now, app, day, test)| ==
            |Submitted(batch[..|batch| - 1], now, app, day, test)|
              + One(Falls(batch[|batch| - 1], now, app, day) && test(batch[|batch| - 1]))
  {
    hide Falls;
    var n, x := |batch| - 1, batch[|batch| - 1];
    assert Submitted(batch, now, app, day, test) == Submitted(batch[..n], now, app, day, test) +
      (if Falls(x, now, app, day) && test(x) then {n} else {});
  }

  /** One more submission: the window's counts grow by it if it falls there. */
  lemma StoredLast(batch: seq<Submission>, now: int, app: AppId, day: int)
    requires batch != [] && forall s :: s in batch ==> KindOf(s.kind).Some?
    ensures var init, x := batch[..|batch| - 1], batch[|batch| - 1];
            Count(Window(AllStored(batch, now), app, day, day)) ==
            if Falls(x, now, app, day)
            then Plus(Count(Window(AllStored(init, now), app, day, day)), CountOne(Stored(x, now)))
            else Count(Window(AllStored(init, now), app, day, day))
  {
    hide DayOf, KindOf, Count, CountOne;
    var init, x := batch[..|batch| - 1], batch[|batch| - 1];
    assert AllStored(batch, now)[..|batch| - 1] == AllStored(init, now);
    Extended(Window(AllStored(init, now), app, day, day), Stored(x, now));
  }

  /** What `s` adds to the totals. */
  lemma StoredCounts(s: Submission, now: int)
    requires KindOf(s.kind).Some?
    ensures CountOne(Stored(s, now)) ==
            Totals(One(s.kind == "auth"), One(s.kind == "keygen"), One(s.kind == "sign"), One(!s.ok))
  {
    hide KindOf;
    KindNames(s.kind);
  }

  lemma {:induction false} SubmittedCount(batch: seq<Submission>, now: int, app: AppId, day: int)
    requires forall s :: s in batch ==> KindOf(s.kind).Some?
    ensures var c := Count(Window(AllStored(batch, now), app, day, day));
            && c.auths == |Submitted(batch, now, app, day, (s: Submission) => s.kind == "auth")|
            && c.keygens == |Submitted(batch, now, app, day, (s: Submission) => s.kind == "keygen")|
            && c.signs == |Submitted(batch, now, app, day, (s: Submission) => s.kind == "sign")|
            && c.errors == |Submitted(batch, now, app, day, (s: Submission) => !s.ok)|
  {
    var auth, keygen := (s: Submission) => s.kind == "auth", (s: Submission) => s.kind == "keygen";
    var sign, failed := (s: Submission) => s.kind == "sign", (s: Submission) => !s.ok;
    if batch == [] {
      assert Submitted(batch, now, app, day, auth) == Submitted(batch, now, app, day, keygen) ==
             Submitted(batch, now, app, day, sign) == Submitted(batch, now, app, day, failed) == {};
      assert AllStored(batch, now) == [];
      NothingCounted();
    } else {
      hide Submitted, KindOf, Count, CountOne, Falls, Window, AllStored, Stored;
      SubmittedCount(batch[..|batch| - 1], now, app, day);
      StoredLast(batch, now, app, day);
      StoredCounts(batch[|batch| - 1], now);
      SubmittedLast(batch, now, app, day, auth);
      SubmittedLast(batch, now, app, day, keygen);
      SubmittedLast(batch, now, app, day, sign);
      SubmittedLast(batch, now, app, day, failed);
    }
  }

  /** The five kinds a submission may name. */
  lemma KindNames(s: string)
    ensures KindOf(s) == Some(Auth) <==> s == "auth"
    ensures KindOf(s) == Some(Keygen) <==> s == "keygen"
    ensures KindOf(s) == Some(Sign) <==> s == "sign"
    ensures KindOf(s) == Some(Delegate) <==> s == "delegate"
    ensures KindOf(s) == Some(Reshare) <==> s == "reshare"
    ensures KindOf(s).Some? <==> s in {"auth", "keygen", "sign", "delegate", "reshare"}
  {
  }

  /**
    After a batch is recorded, the row of an app and day counts what was counted before and the submissions of that app
    and day, by the kind they name.
   */
  lemma RecordedRowCounts(
    events: seq<Event>, daily: map<(AppId, int), Row>, batch: seq<Submission>, now: int,
    events': seq<Event>, daily': map<(AppId, int), Row>, app: AppId, day: int)
    requires Agrees(events, daily)
    requires forall s :: s in batch ==> KindOf(s.kind).Some?
    requires Recorded(events, daily, AllStored(batch, now), events', daily')
    requires (app, day) in daily'
    ensures var was := Count(Window(events, app, day, day));
            var row := daily'[(app, day)].counts;
            && row.auths == was.auths + |Submitted(batch, now, app, day, (s: Submission) => s.kind == "auth")|
            && row.keygens == was.keygens + |Submitted(batch, now, app, day, (s: Submission) => s.kind == "keygen")|
            && row.signs == was.signs + |Submitted(batch, now, app, day, (s: Submission) => s.kind == "sign")|
            && row.errors == was.errors + |Submitted(batch, now, app, day, (s: Submission) => !s.ok)|
  {
    RecordKeepsAgreement(events, daily, AllStored(batch, now), events', daily');
    hide Window, Count, Submitted, Recorded;
    RecordedEvents(events, daily, AllStored(batch, now), events', daily');
    WindowGrows(events, AllStored(batch, now), app, day, day);
    CountSplits(Window(events, app, day, day), Window(AllStored(batch, now), app, day, day));
    SubmittedCount(batch, now, app, day);
  }

  lemma RecordedEvents(
    events: seq<Event>, daily: map<(AppId, int), Row>, added: seq<Event>,
    events': seq<Event>, daily': map<(AppId, int), Row>)
    requires Recorded(events, daily, added, events', daily')
    ensures events' == events + added
  {
  }

  lemma OneMore(events: seq<Event>, e: Event)
    ensures Count(events + [e]) == Plus(Count(events), CountOne(e))
  {
    hide Wallets, CountOne;
    Extended(events, e);
  }

  lemma PlusAssociates(a: Totals, b: Totals, c: Totals)
    ensures Plus(Plus(a, b), c) == Plus(a, Plus(b, c)) && Plus(a, Totals(0, 0, 0, 0)) == a
  {
  }

  lemma {:induction false} CountSplits(a: seq<Event>, b: seq<Event>)
    ensures Count(a + b) == Plus(Count(a), Count(b))
  {
    hide Count, CountOne, Plus, Wallets;
    if b == [] {
      assert a + b == a;
      NothingCounted();
      PlusAssociates(Count(a), Count([]), Count([]));
    } else {
      var init, e := b[..|b| - 1], b[|b| - 1];
      CountSplits(a, init);
      OneMore(a + init, e);
      OneMore(init, e);
      assert a + b == a + init + [e] && b == init + [e];
      PlusAssociates(Count(a), Count(init), CountOne(e));
    }
  }

  lemma NothingTouched(now: int)
    ensures AllStored([], now) == [] && Touched([]) == {}
  {
  }

  lemma OneMoreStored(batch: seq<Submission>, i: nat, now: int)
    requires i < |batch| && forall s :: s in batch[..i + 1] ==> KindOf(s.kind).Some?
    ensures batch[..i + 1] == batch[..i] + [batch[i]]
    ensures batch[i] in batch[..i + 1]
    ensures var e := Stored(batch[i], now);
            && AllStored(batch[..i + 1], now) == AllStored(batch[..i], now) + [e]
            && Touched(AllStored(batch[..i + 1], now)) ==
               Touched(AllStored(batch[..i], now)) + {(e.app, DayOf(e.at))}
  {
    hide KindOf, DayOf, Stored;
    assert batch[..i + 1] == batch[..i] + [batch[i]];
    assert AllStored(batch[..i + 1], now) == AllStored(batch[..i], now) + [Stored(batch[i], now)];
  }

  /* ---------- agreement over whole runs ---------- */

  function Touched(added: seq<Event>): set<(AppId, int)> {
    set e | e in added :: (e.app, DayOf(e.at))
  }

  /** The state after a successful batch. */
  ghost predicate Recorded(
    events: seq<Event>, daily: map<(AppId, int), Row>, added: seq<Event>,
    events': seq<Event>, daily': map<(AppId, int), Row>)
  {
    && events' == events + added
    && daily'.Keys == daily.Keys + Touched(added)
    && forall k :: k in daily' ==> daily'[k] == if k in Touched(added) then Aggregate(events', k.0, k.1) else daily[k]
  }

  lemma RecordNothing(events: seq<Event>, daily: map<(AppId, int), Row>)
    ensures forall now :: Recorded(events, daily, AllStored([], now), events, daily)
  {
    assert events + [] == events;
  }

  /** A window is not changed by events outside it. */
  lemma {:induction false} WindowGrows(events: seq<Event>, added: seq<Event>, app: AppId, first: int, last: int)
    ensures Window(events + added, app, first, last) ==
            Window(events, app, first, last) + Window(added, app, first, last)
  {
    if added == [] {
      assert events + added == events;
    } else {
      assert (events + added)[..|events| + |added| - 1] == events + added[..|added| - 1];
      WindowGrows(events, added[..|added| - 1], app, first, last);
    }
  }

  lemma {:induction false} WindowEmpty(events: seq<Event>, app: AppId, first: int, last: int)
    requires forall e :: e in events ==> !(e.app == app && first <= DayOf(e.at) <= last)
    ensures Window(events, app, first, last) == []
  {
    if events != [] {
      WindowEmpty(events[..|events| - 1], app, first, last);
    }
  }

  lemma AggregateUntouched(events: seq<Event>, added: seq<Event>, app: AppId, day: int)
    requires (app, day) !in Touched(added)
    ensures Aggregate(events + added, app, day) == Aggregate(events, app, day)
  {
    WindowGrows(events, added, app, day, day);
    WindowEmpty(added, app, day, day);
    assert Window(events, app, day, day) + [] == Window(events, app, day, day);
  }

  lemma {:induction false} RecordKeepsAgreement(
    events: seq<Event>, daily: map<(AppId, int), Row>, added: seq<Event>,
    events': seq<Event>, daily': map<(AppId, int), Row>)
    requires Agrees(events, daily) && Recorded(events, daily, added, events', daily')
    ensures Agrees(events', daily')
  {
    hide Aggregate;
    forall k | k in daily' && k !in Touched(added)
      ensures daily'[k] == Aggregate(events', k.0, k.1)
    {
      AggregateUntouched(events, added, k.0, k.1);
    }
    forall e | e in events'
      ensures (e.app, DayOf(e.at)) in daily'
    {
      if e in added {
        assert (e.app, DayOf(e.at)) in Touched(added);
      }
    }
  }

  datatype Op = Record(batch: seq<Submission>, now: int) | Rollup(app: AppId, day: int)

  /** One call on the tables, as the methods above specify it. */
  ghost predicate Step(
    apps: map<AppId, Org>, op: Op, events: seq<Event>, daily: map<(AppId, int), Row>,
    events': seq<Event>, daily': map<(AppId, int), Row>)
  {
    match op
    case Record(batch, now) =>
      if forall s :: s in batch ==> Storable(apps, s)
      then Recorded(events, daily, AllStored(batch, now), events', daily')
      else events' == events && daily' == daily
    case Rollup(app, day) =>
      events' == events && daily' == if app in apps then daily[(app, day) := Aggregate(events, app, day)] else daily
  }

  datatype Tables = Tables(events: seq<Event>, daily: map<(AppId, int), Row>)

  /** After any sequence of batches and backfills, whatever fails among them, rollups and raw events agree. */
  lemma {:induction false} RunsAgree(apps: map<AppId, Org>, ops: seq<Op>, states: seq<Tables>)
    requires |states| == |ops| + 1 && states[0] == Tables([], map[])
    requires forall i :: 0 <= i < |ops| ==>
               Step(apps, ops[i], states[i].events, states[i].daily, states[i + 1].events, states[i + 1].daily)
    ensures forall i :: 0 <= i < |states| ==> Agrees(states[i].events, states[i].daily)
    decreases |ops|
  {
    hide Recorded, Aggregate;
    if ops != [] {
      var n := |ops| - 1;
      RunsAgree(apps, ops[..n], states[..n + 1]);
      var (s, t) := (states[n], states[n + 1]);
      if ops[n].Record? && forall x :: x in ops[n].batch ==> Storable(apps, x) {
        RecordKeepsAgreement(s.events, s.daily, AllStored(ops[n].batch, ops[n].now), t.events, t.daily);
      }
    }
  }

  /* ---------- window figures ---------- */

  /** The stored rows of an app from day `first` to day `last`, in order. */
  function RowsBetween(daily: map<(AppId, int), Row>, app: AppId, first: int, last: int): seq<(int, Row)>
    decreases last - first
  {
    if first > last then []
    else
      var rest := RowsBetween(daily, app, first, last - 1);
      if (app, last) in daily then rest + [(last, daily[(app, last)])] else rest
  }

  /** The series has the stored row of every day of the window that has one, once each and by ascending day. */
  lemma {:induction false} RowsBetweenExactly(
    daily: map<(AppId, int), Row>, app: AppId, first: int, last: int, day: int, row: Row)
    ensures var rows := RowsBetween(daily, app, first, last);
            && ((day, row) in rows <==> first <= day <= last && (app, day) in daily && row == daily[(app, day)])
            && (forall i :: 0 <= i < |rows| ==> rows[i].0 <= last)
            && (forall i, j :: 0 <= i < j < |rows| ==> rows[i].0 < rows[j].0)
    decreases last - first
  {
    if first <= last {
      RowsBetweenExactly(daily, app, first, last - 1, day, row);
    }
  }

  function SumRows(rows: seq<(int, Row)>): Totals {
    if rows == [] then Totals(0, 0, 0, 0)
    else Plus(SumRows(rows[..|rows| - 1]), rows[|rows| - 1].1.counts)
  }

  lemma PlusMoves(a: Totals, b: Totals, c: Totals)
    ensures Plus(Plus(a, b), c) == Plus(a, Plus(b, c)) == Plus(Plus(a, c), b)
  {
  }

  /** A window splits at any day. */
  lemma {:induction false} WindowSplits(events: seq<Event>, app: AppId, first: int, mid: int, last: int)
    requires first <= mid <= last
    ensures Count(Window(events, app, first, last)) ==
            Plus(Count(Window(events, app, first, mid)), Count(Window(events, app, mid + 1, last)))
    ensures Wallets(Window(events, app, first, last)) ==
            Wallets(Window(events, app, first, mid)) + Wallets(Window(events, app, mid + 1, last))
  {
    hide DayOf, Wallets, Count, CountOne, Plus;
    NothingCounted();
    PlusAssociates(Count([]), Count([]), Count([]));
    if events != [] {
      var init, e := events[..|events| - 1], events[|events| - 1];
      WindowSplits(init, app, first, mid, last);
      Extended(Window(init, app, first, last), e);
      PlusMoves(Count(Window(init, app, first, mid)), Count(Window(init, app, mid + 1, last)), CountOne(e));
      if DayOf(e.at) <= mid {
        Extended(Window(init, app, first, mid), e);
      } else {
        Extended(Window(init, app, mid + 1, last), e);
      }
    }
  }

  lemma NothingCounted()
    ensures Count([]) == Totals(0, 0, 0, 0) && Wallets([]) == {}
  {
  }

  lemma Extended(w: seq<Event>, e: Event)
    ensures Count(w + [e]) == Plus(Count(w), CountOne(e))
    ensures Wallets(w + [e]) == Wallets(w) + Wallets([e])
  {
    assert (w + [e])[..|w|] == w;
  }

  /** A day without a row had no events. */
  lemma MissingDayIsEmpty(events: seq<Event>, daily: map<(AppId, int), Row>, app: AppId, day: int)
    requires Agrees(events, daily) && (app, day) !in daily
    ensures Window(events, app, day, day) == []
  {
    WindowEmpty(events, app, day, day);
  }

  /** Summing the stored rows gives the counts of the raw events in the window. */
  lemma {:induction false} RowsSumToWindow(
    events: seq<Event>, daily: map<(AppId, int), Row>, app: AppId, first: int, last: int)
    requires Agrees(events, daily)
    ensures SumRows(RowsBetween(daily, app, first, last)) == Count(Window(events, app, first, last))
    decreases last - first
  {
    if first > last {
      WindowEmpty(events, app, first, last);
    } else {
      RowsSumToWindow(events, daily, app, first, last - 1);
      LastDay(events, app, first, last);
      var rest := RowsBetween(daily, app, first, last - 1);
      if (app, last) in daily {
        var row := (last, daily[(app, last)]);
        assert (rest + [row])[..|rest|] == rest;
      } else {
        MissingDayIsEmpty(events, daily, app, last);
      }
    }
  }

  lemma LastDay(events: seq<Event>, app: AppId, first: int, last: int)
    requires first <= last
    ensures Count(Window(events, app, first, last)) ==
            Plus(Count(Window(events, app, first, last - 1)), Count(Window(events, app, last, last)))
    ensures Wallets(Window(events, app, first, last)) ==
            Wallets(Window(events, app, first, last - 1)) + Wallets(Window(events, app, last, last))
  {
    hide DayOf, Wallets, Count;
    if first == last {
      WindowEmpty(events, app, first, last - 1);
      NothingCounted();
    } else {
      WindowSplits(events, app, first, last - 1, last);
    }
  }

  function WalletDays(rows: seq<(int, Row)>): nat {
    if rows == [] then 0 else WalletDays(rows[..|rows| - 1]) + rows[|rows| - 1].1.wallets
  }

  /** The billed figure is at most the sum of the daily ones, because a returning user counts once… */
  lemma {:induction false} MonthlyAtMostSum(
    events: seq<Event>, daily: map<(AppId, int), Row>, app: AppId, first: int, last: int)
    requires Agrees(events, daily)
    ensures |Wallets(Window(events, app, first, last))| <= WalletDays(RowsBetween(daily, app, first, last))
    decreases last - first
  {
    if first > last {
      WindowEmpty(events, app, first, last);
    } else {
      MonthlyAtMostSum(events, daily, app, first, last - 1);
      LastDay(events, app, first, last);
      UnionAtMost(Wallets(Window(events, app, first, last - 1)), Wallets(Window(events, app, last, last)));
      var rest := RowsBetween(daily, app, first, last - 1);
      if (app, last) in daily {
        var row := (last, daily[(app, last)]);
        assert (rest + [row])[..|rest|] == rest;
      } else {
        MissingDayIsEmpty(events, daily, app, last);
      }
    }
  }

  /** …and at least each daily one. */
  lemma {:induction false} MonthlyAtLeastEach(
    events: seq<Event>, daily: map<(AppId, int), Row>, app: AppId, first: int, last: int, day: int)
    requires Agrees(events, daily) && first <= day <= last && (app, day) in daily
    ensures daily[(app, day)].wallets <= |Wallets(Window(events, app, first, last))|
  {
    var all, one := Wallets(Window(events, app, first, last)), Wallets(Window(events, app, day, day));
    WindowSplits(events, app, first, day, last);
    LastDay(events, app, first, day);
    SubsetAtMost(one, all);
  }

  lemma SubsetAtMost<T>(a: set<T>, b: set<T>)
    requires a <= b
    ensures |a| <= |b|
  {
    assert b == a + (b - a);
  }

  lemma UnionAtMost<T>(a: set<T>, b: set<T>)
    ensures |a + b| <= |a| + |b|
  {
    assert a + b == a + (b - a);
    SubsetAtMost(b - a, b);
  }

  /**
    The error rate divides every failure by the auth, keygen and sign operations alone, so it is not a fraction of
    the metered operations: it exceeds 1 exactly when failed delegations and reshares outnumber the operations of
    the other three kinds that succeeded.
   */
  lemma {:induction false} ErrorRateExact(events: seq<Event>)
    ensures var c := Count(events);
            var ops := c.auths + c.keygens + c.signs;
            ops > 0 ==> (Rate(c.errors, ops) > 1.0 <==> UncountedFailures(events) > CountedSuccesses(events))
  {
    FailuresByKind(events);
    var c := Count(events);
    if c.auths + c.keygens + c.signs > 0 {
      RateAboveOne(c.errors, c.auths + c.keygens + c.signs);
    }
  }

  /** One failed signature and one failed delegation: a rate of two. */
  lemma ErrorRateOfTwo(app: AppId)
    ensures var c := Count([Event(app, None, Sign, None, false, 0), Event(app, None, Delegate, None, false, 0)]);
            Rate(c.errors, c.auths + c.keygens + c.signs) == 2.0
  {
    hide Count;
    var signed, delegated := Event(app, None, Sign, None, false, 0), Event(app, None, Delegate, None, false, 0);
    NothingCounted();
    Extended([], signed);
    Extended([signed], delegated);
    assert [] + [signed] == [signed] && [signed] + [delegated] == [signed, delegated];
  }

  predicate IsCounted(e: Event) {
    e.kind in {Auth, Keygen, Sign}
  }

  function UncountedFailures(events: seq<Event>): nat {
    if events == [] then 0
    else
      var e := events[|events| - 1];
      UncountedFailures(events[..|events| - 1]) + One(!IsCounted(e) && !e.ok)
  }

  function CountedSuccesses(events: seq<Event>): nat {
    if events == [] then 0
    else
      var e := events[|events| - 1];
      CountedSuccesses(events[..|events| - 1]) + One(IsCounted(e) && e.ok)
  }

  lemma {:induction false} FailuresByKind(events: seq<Event>)
    ensures var c := Count(events);
            c.errors + CountedSuccesses(events) == c.auths + c.keygens + c.signs + UncountedFailures(events)
  {
    if events != [] {
      FailuresByKind(events[..|events| - 1]);
    }
  }

  lemma RateAboveOne(errors: nat, ops: nat)
    requires ops > 0
    ensures Rate(errors, ops) > 1.0 <==> errors > ops
  {
    var r := errors as real / ops as real;
    assert r * ops as real == errors as real;
  }

  /* ---------- across an organization ---------- */

  function AppsOf(apps: map<AppId, Org>, org: Org): set<AppId> {
    set a | a in apps && apps[a] == org
  }

  /** The apps whose wallets an organization is counted by are its own. */
  lemma AppsOfExactly(apps: map<AppId, Org>, org: Org, app: AppId)
    ensures app in AppsOf(apps, org) <==> app in apps && apps[app] == org
  {
  }

  /** `app_id::text || ':' || subject_hash`. */
  function WalletKey(app: AppId, subject: string): string {
    app + ":" + subject
  }

  /** What the joined query counts the distinct values of. */
  function OrgWallets(events: seq<Event>, apps: set<AppId>, first: int, last: int): set<string> {
    set a, w | a in apps && w in Wallets(Window(events, a, first, last)) :: WalletKey(a, w)
  }

  /** The sum over the apps of each one's distinct wallets. */
  ghost function SumOver(apps: set<AppId>, events: seq<Event>, first: int, last: int): nat {
    if apps == {} then 0
    else
      var a :| a in apps;
      |Wallets(Window(events, a, first, last))| + SumOver(apps - {a}, events, first, last)
  }

  /** Because app ids have one length, different apps or subjects give different strings. */
  lemma WalletKeyInjective(a: AppId, s: string, b: AppId, t: string)
    ensures WalletKey(a, s) == WalletKey(b, t) <==> a == b && s == t
  {
    if WalletKey(a, s) == WalletKey(b, t) {
      assert a == WalletKey(a, s)[..36] == WalletKey(b, t)[..36] == b;
      assert s == WalletKey(a, s)[37..] == WalletKey(b, t)[37..] == t;
    }
  }

  /** Tagging distinct subjects with their app keeps them distinct. */
  lemma {:induction false} TaggedSize(app: AppId, ws: set<string>)
    ensures |set w | w in ws :: WalletKey(app, w)| == |ws|
  {
    var tagged := set w | w in ws :: WalletKey(app, w);
    if ws != {} {
      var w :| w in ws;
      TaggedSize(app, ws - {w});
      var rest := set x | x in ws - {w} :: WalletKey(app, x);
      forall x | x in ws - {w} {
        WalletKeyInjective(app, x, app, w);
      }
      assert WalletKey(app, w) !in rest;
      assert tagged == rest + {WalletKey(app, w)};
    } else {
      assert tagged == {};
    }
  }

  lemma {:induction false} OrgWalletsSum(events: seq<Event>, apps: set<AppId>, first: int, last: int)
    ensures |OrgWallets(events, apps, first, last)| == SumOver(apps, events, first, last)
  {
    if apps == {} {
      assert OrgWallets(events, apps, first, last) == {};
    } else {
      var a :| a in apps && SumOver(apps, events, first, last) ==
                            |Wallets(Window(events, a, first, last))| + SumOver(apps - {a}, events, first, last);
      OrgWalletsSum(events, apps - {a}, first, last);
      var ws := Wallets(Window(events, a, first, last));
      var mine := set w | w in ws :: WalletKey(a, w);
      var others := OrgWallets(events, apps - {a}, first, last);
      TaggedSize(a, ws);
      forall k | k in mine && k in others
        ensures false
      {
        var w :| w in ws && k == WalletKey(a, w);
        var b, x :| b in apps - {a} && x in Wallets(Window(events, b, first, last)) && k == WalletKey(b, x);
        WalletKeyInjective(a, w, b, x);
      }
      assert OrgWallets(events, apps, first, last) == mine + others;
      assert mine !! others;
    }
  }

  lemma OrgWalletsAdd(apps: map<AppId, Org>, org: Org, events: seq<Event>, first: int, last: int)
    ensures |OrgWallets(events, AppsOf(apps, org), first, last)| == SumOver(AppsOf(apps, org), events, first, last)
  {
    OrgWalletsSum(events, AppsOf(apps, org), first, last);
  }
}
