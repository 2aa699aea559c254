/**
  `useQuery` of web/lib/hooks.ts: requests settle in any order, and a generation counter decides whose result is kept.
  An effect run, a refresh, a settlement and a cleanup are each one step of the event loop.
 */
module QueryHook {
  import opened Outcomes

  /**
    `active` holds from an effect's run to its cleanup; `outstanding` are the generations whose request has not settled;
    `applied` lists the generations whose result was put on screen, in order.
   */
  datatype State<T, E> = State(
    generation: nat, data: Option<T>, error: Option<E>, loading: bool,
    active: bool, outstanding: set<nat>, applied: seq<nat>)

  datatype Event<T, E> =
    | Effect
    | Refresh
    | Settle(mine: nat, outcome: Result<T, E>)
    | Cleanup
    | Assign(value: T)

  function Begun<T, E>(s: State<T, E>, showSpinner: bool): State<T, E> {
    var mine := s.generation + 1;
    s.(generation := mine, loading := s.loading || showSpinner, outstanding := s.outstanding + {mine})
  }

  function Settled<T, E>(s: State<T, E>, mine: nat, outcome: Result<T, E>): State<T, E> {
    if mine !in s.outstanding then s
    else if s.generation != mine then s.(outstanding := s.outstanding - {mine})
    else
      var shown := s.(loading := false, outstanding := s.outstanding - {mine}, applied := s.applied + [mine]);
      match outcome
      case Success(result) => shown.(data := Some(result), error := None)
      case Failure(err) => shown.(error := Some(err))
  }

  function Step<T, E>(s: State<T, E>, e: Event<T, E>): State<T, E> {
    match e
    case Effect => Begun(s, true).(active := true)
    case Refresh => Begun(s, false)
    case Settle(mine, outcome) => Settled(s, mine, outcome)
    case Cleanup => s.(generation := s.generation + 1, active := false)
    case Assign(value) => s.(data := Some(value))
  }

  /** The hook as first rendered. */
  function Rendered<T, E>(): State<T, E> {
    State(0, None, None, true, false, {}, [])
  }

  function After<T, E>(events: seq<Event<T, E>>): State<T, E> {
    if events == [] then Rendered() else Step(After(events[..|events| - 1]), events[|events| - 1])
  }

  class Query<T, E> {
    var generation: nat
    var data: Option<T>
    var error: Option<E>
    var loading: bool
    ghost var active: bool
    ghost var outstanding: set<nat>
    ghost var applied: seq<nat>

    ghost function Value(): State<T, E>
      reads this
    {
      State(generation, data, error, loading, active, outstanding, applied)
    }

    constructor ()
      ensures Value() == Rendered()
    {
      generation, data, error, loading := 0, None, None, true;
      active, outstanding, applied := false, {}, [];
    }

    /** `run` up to its `await`. */
    method Begin(showSpinner: bool) returns (mine: nat)
      modifies this
      ensures Value() == Begun(old(Value()), showSpinner) && mine == generation
    {
      generation := generation + 1;
      mine := generation;
      if showSpinner {
        loading := true;
      }
      outstanding := outstanding + {mine};
    }

    /** `run` from its `await` on: success, `catch`, and `finally`, each guarded by the generation. */
    method Finish(mine: nat, outcome: Result<T, E>)
      requires mine in outstanding
      modifies this
      ensures Value() == Settled(old(Value()), mine, outcome)
    {
      outstanding := outstanding - {mine};
      match outcome {
        case Success(result) =>
          if generation == mine {
            data := Some(result);
            error := None;
            applied := applied + [mine];
          }
        case Failure(err) =>
          if generation == mine {
            error := Some(err);
            applied := applied + [mine];
          }
      }
      if generation == mine {
        loading := false;
      }
    }

    /** The effect body. */
    method RunEffect() returns (mine: nat)
      modifies this
      ensures Value() == Step(old(Value()), Effect)
    {
      mine := Begin(true);
      active := true;
    }

    method RunCleanup()
      modifies this
      ensures Value() == Step(old(Value()), Cleanup)
    {
      generation := generation + 1;
      active := false;
    }

    method Set(value: T)
      modifies this
      ensures Value() == Step(old(Value()), Assign(value))
    {
      data := Some(value);
    }
  }

  /**
    A start takes the next generation and leaves data and error on screen. An effect turns the spinner on; a refresh
    leaves it as it is, so what the user reads is not blanked.
   */
  lemma StartsExactly<T, E>(s: State<T, E>)
    ensures var shown, refreshed := Step(s, Effect), Step(s, Refresh);
            && shown.loading && shown.active && refreshed.loading == s.loading && refreshed.active == s.active
            && shown.generation == refreshed.generation == s.generation + 1
            && shown.outstanding == refreshed.outstanding == s.outstanding + {s.generation + 1}
            && shown.data == refreshed.data == s.data && shown.error == refreshed.error == s.error
            && shown.applied == refreshed.applied == s.applied
  {
  }

  /**
    A request settles once. If it is the newest its outcome is shown: a value in place of the last one and of any error,
    an error beside the last value. Any other is forgotten without a trace on screen.
   */
  lemma SettlesExactly<T, E>(s: State<T, E>, mine: nat, outcome: Result<T, E>)
    ensures mine !in s.outstanding ==> Step(s, Settle(mine, outcome)) == s
    ensures mine in s.outstanding ==>
              var after := Step(s, Settle(mine, outcome));
              && after.outstanding == s.outstanding - {mine}
              && after.generation == s.generation && after.active == s.active
              && (mine != s.generation ==>
                    && after.data == s.data && after.error == s.error
                    && after.loading == s.loading && after.applied == s.applied)
              && (mine == s.generation ==> !after.loading && after.applied == s.applied + [mine])
              && (mine == s.generation && outcome.Success? ==>
                    after.data == Some(outcome.value) && after.error == None)
              && (mine == s.generation && outcome.Failure? ==>
                    after.data == s.data && after.error == Some(outcome.error))
  {
  }

  /** A cleanup takes a generation of its own, and `set` replaces the data; neither changes anything else. */
  lemma CleansAndSetsExactly<T, E>(s: State<T, E>, value: T)
    ensures Step(s, Cleanup) ==
            State(s.generation + 1, s.data, s.error, s.loading, false, s.outstanding, s.applied)
    ensures Step(s, Assign(value)) ==
            State(s.generation, Some(value), s.error, s.loading, s.active, s.outstanding, s.applied)
  {
  }

  /* ---------- what every run keeps ---------- */

  predicate Last(applied: seq<nat>, g: nat) {
    applied != [] && applied[|applied| - 1] == g
  }

  predicate Increasing(applied: seq<nat>) {
    forall i, j :: 0 <= i < j < |applied| ==> applied[i] < applied[j]
  }

  predicate Sound<T, E>(s: State<T, E>) {
    && (forall g :: g in s.outstanding ==> g <= s.generation)
    && (forall g :: g in s.applied ==> g <= s.generation && g !in s.outstanding)
    && Increasing(s.applied)
    && (s.active && s.loading ==> s.generation in s.outstanding)
    && (s.active && s.generation !in s.outstanding ==> Last(s.applied, s.generation))
  }

  lemma Appended(applied: seq<nat>, g: nat)
    requires Increasing(applied) && forall x :: x in applied ==> x < g
    ensures Increasing(applied + [g])
  {
    forall i, j | 0 <= i < j < |applied| + 1
      ensures (applied + [g])[i] < (applied + [g])[j]
    {
      assert applied[i] in applied;
    }
  }

  lemma StepKeepsSound<T, E>(s: State<T, E>, e: Event<T, E>)
    requires Sound(s)
    ensures Sound(Step(s, e))
  {
    hide Increasing;
    if e.Settle? && e.mine in s.outstanding && s.generation == e.mine {
      Appended(s.applied, e.mine);
    }
  }

  /**
    Every interleaving of effects, refreshes, settlements and cleanups: results are applied in strictly increasing
    generations; a spinner on screen means the newest request is still out; and when none is out, the newest request's
    result was the last applied.
   */
  lemma {:induction false} EveryRunIsSound<T, E>(events: seq<Event<T, E>>)
    ensures Sound(After(events))
    ensures Increasing(After(events).applied)
    ensures After(events).active && After(events).loading ==> After(events).generation in After(events).outstanding
    ensures After(events).active && After(events).outstanding == {} ==>
              !After(events).loading && Last(After(events).applied, After(events).generation)
  {
    if events != [] {
      EveryRunIsSound(events[..|events| - 1]);
      StepKeepsSound(After(events[..|events| - 1]), events[|events| - 1]);
    }
  }

  /** Step i puts generation g's result on screen. */
  predicate AppliedAt<T, E>(events: seq<Event<T, E>>, i: nat, g: nat) {
    i < |events| && After(events[..i + 1]).applied == After(events[..i]).applied + [g]
  }

  lemma PrefixStep<T, E>(events: seq<Event<T, E>>, i: nat)
    requires i < |events|
    ensures After(events[..i + 1]) == Step(After(events[..i]), events[i])
  {
    assert events[..i + 1][..i] == events[..i];
  }

  /** Whatever is applied is the newest generation at that moment, and was still outstanding. */
  lemma AppliedIsNewest<T, E>(events: seq<Event<T, E>>, i: nat, g: nat)
    requires AppliedAt(events, i, g)
    ensures g == After(events[..i]).generation && g in After(events[..i]).outstanding
    ensures events[i].Settle? && events[i].mine == g
  {
    PrefixStep(events, i);
    var s := After(events[..i]);
    assert |s.applied + [g]| == |s.applied| + 1;
    assert (s.applied + [g])[|s.applied|] == g;
  }

  /** Generations only grow, and grow at every start and cleanup. */
  lemma {:induction false} GenerationGrows<T, E>(events: seq<Event<T, E>>, i: nat, j: nat)
    requires i <= j <= |events|
    ensures After(events[..i]).generation <= After(events[..j]).generation
    ensures i < j && !events[i].Settle? && !events[i].Assign? ==>
              After(events[..i]).generation < After(events[..j]).generation
    decreases j
  {
    hide After;
    if i < j {
      PrefixStep(events, j - 1);
      GenerationGrows(events, i, j - 1);
    }
  }

  /** Nothing started before a cleanup is applied after it. */
  lemma NothingSurvivesCleanup<T, E>(events: seq<Event<T, E>>, i: nat, j: nat, g: nat)
    requires i < j && AppliedAt(events, j, g) && events[i] == Cleanup
    ensures g > After(events[..i]).generation
  {
    AppliedIsNewest(events, j, g);
    GenerationGrows(events, i, j);
  }

  /** A result that is applied comes from a request no other request was started after. */
  lemma NothingOvertakenIsApplied<T, E>(events: seq<Event<T, E>>, i: nat, j: nat, g: nat)
    requires i < j && AppliedAt(events, j, g) && (events[i].Effect? || events[i].Refresh?)
    ensures g >= After(events[..i + 1]).generation
  {
    AppliedIsNewest(events, j, g);
    GenerationGrows(events, i + 1, j);
  }

  /* ---------- what is on screen ---------- */

  /** The error shown is the outcome's; a success shows none. */
  predicate ErrorIs<T, E(==)>(s: State<T, E>, outcome: Result<T, E>) {
    s.error == if outcome.Success? then None else Some(outcome.error)
  }

  /** The data shown is the outcome's; a failure leaves the data that was there. */
  predicate DataIs<T(==), E>(s: State<T, E>, before: State<T, E>, outcome: Result<T, E>) {
    s.data == if outcome.Success? then Some(outcome.value) else before.data
  }

  /** In steps first..last no result is applied. */
  predicate NoneApplied<T, E>(events: seq<Event<T, E>>, first: nat, last: nat)
    requires first <= last <= |events|
  {
    After(events[..last]).applied == After(events[..first]).applied
  }

  predicate NoneAssigned<T, E>(events: seq<Event<T, E>>, first: nat, last: nat)
    requires first <= last <= |events|
  {
    forall m :: first <= m < last ==> !events[m].Assign?
  }

  lemma {:induction false} AppliedGrows<T, E>(events: seq<Event<T, E>>, i: nat, j: nat)
    requires i <= j <= |events|
    ensures After(events[..i]).applied <= After(events[..j]).applied
    decreases j
  {
    hide After;
    if i < j {
      PrefixStep(events, j - 1);
      AppliedGrows(events, i, j - 1);
    }
  }

  /** Without an application the error on screen stays, and so does the data unless `set` replaces it. */
  lemma {:induction false} ScreenStays<T, E>(events: seq<Event<T, E>>, i: nat, j: nat)
    requires i <= j <= |events| && NoneApplied(events, i, j)
    ensures After(events[..j]).error == After(events[..i]).error
    ensures NoneAssigned(events, i, j) ==> After(events[..j]).data == After(events[..i]).data
    decreases j
  {
    hide After;
    if i < j {
      PrefixStep(events, j - 1);
      AppliedGrows(events, i, j - 1);
      AppliedGrows(events, j - 1, j);
      assert After(events[..j - 1]).applied == After(events[..i]).applied;
      ScreenStays(events, i, j - 1);
    }
  }

  /**
    From an application to the next, the error on screen is that request's, and so is the data until `set` replaces it.
   */
  lemma ScreenShowsLastApplied<T, E>(events: seq<Event<T, E>>, i: nat, j: nat, g: nat)
    requires i < j <= |events| && AppliedAt(events, i, g) && NoneApplied(events, i + 1, j)
    ensures events[i].Settle? && events[i].mine == g && ErrorIs(After(events[..j]), events[i].outcome)
    ensures NoneAssigned(events, i + 1, j) ==>
              DataIs(After(events[..j]), After(events[..i]), events[i].outcome)
  {
    hide After;
    AppliedIsNewest(events, i, g);
    PrefixStep(events, i);
    ScreenStays(events, i + 1, j);
  }

  /** What was applied last was applied in some step, and nothing after it. */
  lemma {:induction false} LastApplication<T, E>(events: seq<Event<T, E>>, g: nat) returns (i: nat)
    requires Last(After(events).applied, g)
    ensures AppliedAt(events, i, g) && NoneApplied(events, i + 1, |events|)
  {
    NothingYet<T, E>();
    hide After;
    var n := |events| - 1;
    var before := events[..n];
    assert events[..n + 1] == events;
    PrefixStep(events, n);
    if After(events).applied == After(before).applied {
      i := LastApplication(before, g);
      assert before[..i] == events[..i] && before[..i + 1] == events[..i + 1] && before[..n] == before;
    } else {
      i := n;
    }
  }

  /**
    Whenever the effect is active and no request is out, the spinner is off and the screen shows the outcome of the
    newest request: its error, and its data unless `set` has replaced it since.
   */
  lemma QuietScreenIsNewest<T, E>(events: seq<Event<T, E>>) returns (i: nat)
    requires After(events).active && After(events).outstanding == {}
    ensures !After(events).loading && AppliedAt(events, i, After(events).generation)
    ensures events[i].Settle? && ErrorIs(After(events), events[i].outcome)
    ensures NoneAssigned(events, i + 1, |events|) ==> DataIs(After(events), After(events[..i]), events[i].outcome)
  {
    hide After, Sound;
    EveryRunIsSound(events);
    i := LastApplication(events, After(events).generation);
    assert events[..|events|] == events;
    ScreenShowsLastApplied(events, i, |events|, After(events).generation);
  }

  /** Between any two moments of a run the screen differs only if `set` or the newest request's result came between. */
  lemma {:induction false} DataChangesOnlyFresh<T, E>(events: seq<Event<T, E>>, i: nat, j: nat) returns (m: nat)
    requires i <= j <= |events|
    requires || After(events[..j]).data != After(events[..i]).data
             || After(events[..j]).error != After(events[..i]).error
    ensures i <= m < j
    ensures events[m].Assign? || AppliedAt(events, m, After(events[..m]).generation)
    decreases j
  {
    hide After;
    PrefixStep(events, j - 1);
    var s := After(events[..j - 1]);
    if Step(s, events[j - 1]).data != s.data || Step(s, events[j - 1]).error != s.error {
      m := j - 1;
    } else {
      m := DataChangesOnlyFresh(events, i, j - 1);
    }
  }

  /* ---------- after a cleanup ---------- */

  /** Step i is the last cleanup before step j, and no effect has run in between. */
  predicate Unmounted<T, E>(events: seq<Event<T, E>>, i: nat, j: nat) {
    i < j <= |events| && events[i].Cleanup? && forall m :: i < m < j ==> !events[m].Cleanup? && !events[m].Effect?
  }

  /** Step b starts the newest request before step j. */
  predicate NewestRefresh<T, E>(events: seq<Event<T, E>>, b: nat, j: nat) {
    b < j <= |events| && events[b].Refresh? && forall m :: b < m < j ==> !events[m].Refresh?
  }

  /** After a cleanup the counter stands at the cleanup's own number until a refresh, whose number it then is. */
  lemma {:induction false} GenerationAfterCleanup<T, E>(events: seq<Event<T, E>>, i: nat, j: nat)
    requires Unmounted(events, i, j)
    ensures !After(events[..j]).active && After(events[..i + 1]).generation !in After(events[..j]).outstanding
    ensures forall g :: g in After(events[..j]).outstanding ==> g <= After(events[..j]).generation
    ensures After(events[..i + 1]).generation <= After(events[..j]).generation
    ensures forall b :: i < b && NewestRefresh(events, b, j) ==>
              After(events[..j]).generation == After(events[..b + 1]).generation
    ensures (forall m :: i < m < j ==> !events[m].Refresh?) ==>
              After(events[..j]).generation == After(events[..i + 1]).generation
    decreases j
  {
    hide After, Sound;
    PrefixStep(events, j - 1);
    if j == i + 1 {
      EveryRunIsSound(events[..i]);
      SoundBounds(After(events[..i]));
    } else {
      GenerationAfterCleanup(events, i, j - 1);
      forall b | i < b && NewestRefresh(events, b, j)
        ensures After(events[..j]).generation == After(events[..b + 1]).generation
      {
        if b < j - 1 {
          assert NewestRefresh(events, b, j - 1);
        }
      }
    }
  }

  lemma SoundBounds<T, E>(s: State<T, E>)
    requires Sound(s)
    ensures forall g :: g in s.outstanding ==> g <= s.generation
  {
  }

  lemma {:induction false} SomeNewest<T, E>(events: seq<Event<T, E>>, i: nat, j: nat) returns (b: nat)
    requires i < j <= |events| && exists m :: i < m < j && events[m].Refresh?
    ensures i < b && NewestRefresh(events, b, j)
    decreases j
  {
    if events[j - 1].Refresh? {
      b := j - 1;
    } else {
      b := SomeNewest(events, i, j - 1);
    }
  }

  /**
    A result that settles after a cleanup, with no effect run since, is put on screen exactly when its request is the
    newest refresh since the cleanup. So the counter guards against requests from before it, not against later ones.
   */
  lemma AppliedAfterCleanupExactly<T, E>(events: seq<Event<T, E>>, i: nat, j: nat)
    requires Unmounted(events, i, j) && j < |events|
    requires events[j].Settle? && events[j].mine in After(events[..j]).outstanding
    ensures !After(events[..j]).active
    ensures AppliedAt(events, j, events[j].mine) <==>
            exists b :: i < b && NewestRefresh(events, b, j) && After(events[..b + 1]).generation == events[j].mine
  {
    hide After;
    GenerationAfterCleanup(events, i, j);
    PrefixStep(events, j);
    var g := events[j].mine;
    AppliedIffCurrent(After(events[..j]), events[j]);
    if After(events[..j]).generation == g {
      var b := SomeNewest(events, i, j);
      assert After(events[..b + 1]).generation == g;
    }
  }

  lemma AppliedIffCurrent<T, E>(s: State<T, E>, e: Event<T, E>)
    requires e.Settle? && e.mine in s.outstanding
    ensures Step(s, e).applied == s.applied + [e.mine] <==> s.generation == e.mine
  {
    assert |s.applied + [e.mine]| == |s.applied| + 1;
  }

  /** A refresh after the cleanup: its result is shown although the effect is not active. */
  lemma ShownAfterCleanup<T, E>(value: T)
    ensures var s: State<T, E> := After([Effect, Cleanup, Refresh, Settle(3, Success(value))]);
            !s.active && s.data == Some(value)
  {
    hide After;
    var e0, e1, e2: Event<T, E> := Effect, Cleanup, Refresh;
    var e3: Event<T, E> := Settle(3, Success(value));
    Unfold([], e0);
    Unfold([e0], e1);
    Unfold([e0, e1], e2);
    Unfold([e0, e1, e2], e3);
    NothingYet<T, E>();
    assert [] + [e0] == [e0] && [e0] + [e1] == [e0, e1] && [e0, e1] + [e2] == [e0, e1, e2];
    assert [e0, e1, e2] + [e3] == [e0, e1, e2, e3];
  }

  lemma Unfold<T, E>(events: seq<Event<T, E>>, e: Event<T, E>)
    ensures After(events + [e]) == Step(After(events), e)
  {
    assert (events + [e])[..|events|] == events;
  }

  lemma NothingYet<T, E>()
    ensures After<T, E>([]) == Rendered()
  {
  }
}
