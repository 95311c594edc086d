/** An asynchronous task: one worker thread, and any number of threads that register callbacks and wait.
    Each action is one locked section, or one call of a callback; a trace is any interleaving of them. */
module AsyncTask {
  import opened Basics

  datatype Outcome = Returned(value: int) | Threw(error: int)

  datatype Kind = Completion | Error

  /** When a registration took the lock: before the worker finished, between finishing and taking the
      callbacks, or later. */
  datatype When = Before | Between | Later

  /** A registration; empty says its callback is an empty function. */
  datatype Registration = Registration(kind: Kind, empty: bool, when: When)

  /** A callback's run: whose, and the exception it was handed. */
  datatype Ran = Ran(who: nat, argument: Option<int>)

  datatype Waited = Value(value: int) | Raised(error: int) | NoValue

  datatype Phase = Working | Finished | Taken | Ended

  /** The shared state (value, exception, completed, failed, done), the worker's locals, the callbacks
      that registering threads are about to call, and what happened so far. Callbacks are named by the
      number of their registration; None is an empty function. */
  datatype State = State(value: Option<int>, exception: Option<int>, completed: Option<nat>, failed: Option<nat>,
                         done: bool, phase: Phase, mine: Option<nat>, mineFailed: Option<nat>, thrown: Option<int>,
                         immediate: set<nat>, registrations: seq<Registration>, ran: seq<Ran>, waits: seq<Waited>)

  datatype Action =
    | Finish(outcome: Outcome)
    | Take
    | Run
    | Register(kind: Kind, empty: bool)
    | Call(who: nat)
    | Wait

  const START: State := State(None, None, None, None, false, Working, None, None, None, {}, [], [], [])

  function WhenOf(phase: Phase): When {
    match phase
    case Working => Before
    case Finished => Between
    case _ => Later
  }

  /** on_completed and on_error run the callback at once, or store it. */
  predicate RunsNow(s: State, kind: Kind) {
    s.done && (kind.Error? <==> s.exception.Some?)
  }

  function Registered(s: State, kind: Kind, empty: bool): State {
    var me := |s.registrations|;
    var t := s.(registrations := s.registrations + [Registration(kind, empty, WhenOf(s.phase))]);
    if RunsNow(s, kind) then (if empty then t else t.(immediate := s.immediate + {me}))
    else
      var callback: Option<nat> := if empty then None else Some(me);
      if kind.Completion? then t.(completed := callback) else t.(failed := callback)
  }

  predicate Enabled(s: State, a: Action) {
    match a
    case Finish(_) => s.phase.Working?
    case Take => s.phase.Finished?
    case Run => s.phase.Taken?
    case Register(_, _) => true
    case Call(who) => who in s.immediate
    case Wait => s.done
  }

  function Step(s: State, a: Action): State
    requires Enabled(s, a)
  {
    match a
    case Finish(Returned(v)) => s.(value := Some(v), done := true, phase := Finished)
    case Finish(Threw(e)) => s.(exception := Some(e), done := true, phase := Finished)
    case Take =>
      s.(mine := s.completed, completed := None, mineFailed := s.failed, failed := None, thrown := s.exception,
         phase := Taken)
    case Run =>
      if s.thrown.Some? && s.mineFailed.Some? then
        s.(ran := s.ran + [Ran(s.mineFailed.value, s.thrown)], phase := Ended)
      else if s.mine.Some? then s.(ran := s.ran + [Ran(s.mine.value, None)], phase := Ended)
      else s.(phase := Ended)
    case Register(kind, empty) => Registered(s, kind, empty)
    case Call(who) =>
      s.(immediate := s.immediate - {who}, ran := s.ran + [Ran(who, Argument(s, who))])
    case Wait => s.(waits := s.waits + [WaitResult(s)])
  }

  /** What a registering thread hands its callback. */
  function Argument(s: State, who: nat): Option<int> {
    if who < |s.registrations| && s.registrations[who].kind.Error? then s.exception else None
  }

  function WaitResult(s: State): Waited {
    if s.exception.Some? then Raised(s.exception.value)
    else if s.value.None? then NoValue
    else Value(s.value.value)
  }

  /** The state after an interleaving, when it is one. */
  function After(trace: seq<Action>): Option<State> {
    if trace == [] then Some(START)
    else
      var s := After(trace[..|trace| - 1]);
      var a := trace[|trace| - 1];
      if s.Some? && Enabled(s.value, a) then Some(Step(s.value, a)) else None
  }

  // ---- what the task promises ----

  function Count(ran: seq<Ran>, who: nat): nat {
    if ran == [] then 0
    else Count(ran[..|ran| - 1], who) + (if ran[|ran| - 1].who == who then 1 else 0)
  }

  predicate NoLater(a: When, b: When) {
    a == Before || b == Later || a == b
  }

  /** No registration of the same kind replaced this one up to the given point. */
  predicate Kept(rs: seq<Registration>, who: nat, through: When)
    requires who < |rs|
  {
    NoLater(rs[who].when, through)
    && forall k :: who < k < |rs| ==> !(rs[k].kind == rs[who].kind && NoLater(rs[k].when, through))
  }

  /** A failing task had an error handler to give its exception to. */
  predicate HasHandler(rs: seq<Registration>) {
    exists k :: 0 <= k < |rs| && rs[k].kind.Error? && !rs[k].empty && Kept(rs, k, Before)
  }

  /** The callbacks that must run, exactly once each. */
  predicate Due(o: Outcome, rs: seq<Registration>, who: nat)
    requires who < |rs|
  {
    var r := rs[who];
    !r.empty &&
    match (r.kind, o)
    case (Completion, Returned(_)) => r.when != Before || Kept(rs, who, Before)
    case (Error, Threw(_)) => r.when != Before || Kept(rs, who, Before)
    case (Error, Returned(_)) => false
    case (Completion, Threw(_)) => Kept(rs, who, Between) && !HasHandler(rs)
  }

  /** Every thread is past its work: the worker ended and no registering thread still has a call to make. */
  predicate Quiet(s: State) {
    s.phase.Ended? && s.immediate == {}
  }

  /** What is known of the outcome from the two shared fields. */
  predicate Holds(s: State, o: Outcome) {
    match o
    case Returned(v) => s.value == Some(v) && s.exception == None
    case Threw(e) => s.exception == Some(e) && s.value == None
  }

  // ---- the stored callback ----

  /** The last registration of a kind up to a point, None when it is empty or there is none. */
  function Stored(rs: seq<Registration>, kind: Kind, through: When): Option<nat> {
    if rs == [] then None
    else
      var last := rs[|rs| - 1];
      if last.kind == kind && NoLater(last.when, through) then (if last.empty then None else Some(|rs| - 1))
      else Stored(rs[..|rs| - 1], kind, through)
  }

  lemma {:induction false} StoredIsKept(rs: seq<Registration>, kind: Kind, through: When, who: nat)
    requires who < |rs|
    ensures Stored(rs, kind, through) == Some(who) <==> rs[who].kind == kind && !rs[who].empty && Kept(rs, who, through)
  {
    var last, front := rs[|rs| - 1], rs[..|rs| - 1];
    if last.kind == kind && NoLater(last.when, through) {
      if who < |rs| - 1 {
        assert rs[who].kind == kind ==> !Kept(rs, who, through);
      }
    } else if who < |rs| - 1 {
      StoredIsKept(front, kind, through, who);
      assert rs[who].kind == kind ==> (Kept(rs, who, through) <==> Kept(front, who, through));
    } else {
      StoredWithin(front, kind, through);
    }
  }

  lemma {:induction false} StoredWithin(rs: seq<Registration>, kind: Kind, through: When)
    ensures var s := Stored(rs, kind, through);
            s.Some? ==> (s.value < |rs| && rs[s.value].kind == kind && NoLater(rs[s.value].when, through))
  {
    if rs != [] {
      StoredWithin(rs[..|rs| - 1], kind, through);
    }
  }

  lemma StoredAppend(rs: seq<Registration>, r: Registration, kind: Kind, through: When)
    ensures Stored(rs + [r], kind, through)
            == if r.kind == kind && NoLater(r.when, through) then (if r.empty then None else Some(|rs|))
               else Stored(rs, kind, through)
  {
    assert (rs + [r])[..|rs|] == rs;
  }

  // ---- the invariant ----

  /** Started by the registering thread itself. */
  predicate Immediate(o: Outcome, r: Registration) {
    !r.empty && r.when != Before && (r.kind.Error? <==> o.Threw?)
  }

  /** Left to the worker. */
  function WorkersChoice(o: Outcome, rs: seq<Registration>): Option<nat> {
    if o.Threw? && Stored(rs, Error, Before).Some? then Stored(rs, Error, Before)
    else Stored(rs, Completion, if o.Threw? then Between else Before)
  }

  lemma DueSplits(o: Outcome, rs: seq<Registration>, who: nat)
    requires who < |rs|
    ensures Due(o, rs, who) <==> Immediate(o, rs[who]) || WorkersChoice(o, rs) == Some(who)
    ensures !(Immediate(o, rs[who]) && WorkersChoice(o, rs) == Some(who))
  {
    hide Kept, Stored;
    StoredIsKept(rs, Error, Before, who);
    StoredIsKept(rs, Completion, Before, who);
    StoredIsKept(rs, Completion, Between, who);
    StoredWithin(rs, Error, Before);
    StoredWithin(rs, Completion, Before);
    StoredWithin(rs, Completion, Between);
    HandlerIsStored(rs);
  }

  lemma HandlerIsStored(rs: seq<Registration>)
    ensures HasHandler(rs) <==> Stored(rs, Error, Before).Some?
  {
    hide Kept, Stored;
    var s := Stored(rs, Error, Before);
    StoredWithin(rs, Error, Before);
    if s.Some? {
      StoredIsKept(rs, Error, Before, s.value);
    }
    if HasHandler(rs) {
      var k :| 0 <= k < |rs| && rs[k].kind.Error? && !rs[k].empty && Kept(rs, k, Before);
      StoredIsKept(rs, Error, Before, k);
    }
  }

  /** The slots, or the worker's locals, hold what the registrations say. */
  predicate SlotsRight(s: State, o: Option<Outcome>) {
    match s.phase
    case Working => s.completed == Stored(s.registrations, Completion, Before)
                    && s.failed == Stored(s.registrations, Error, Before)
    case Finished =>
      o.Some? && s.completed == Stored(s.registrations, Completion, if o.value.Threw? then Between else Before)
      && (o.value.Threw? ==> s.failed == Stored(s.registrations, Error, Before))
    case Taken =>
      o.Some? && s.thrown == s.exception
      && s.mine == Stored(s.registrations, Completion, if o.value.Threw? then Between else Before)
      && (o.value.Threw? ==> s.mineFailed == Stored(s.registrations, Error, Before))
    case Ended => true
  }

  predicate StampsRight(s: State) {
    forall k :: 0 <= k < |s.registrations| ==> NoLater(s.registrations[k].when, WhenOf(s.phase))
  }

  /** How often a callback has run or is about to be run by the thread that registered it. */
  function Runs(s: State, who: nat): nat {
    Count(s.ran, who) + (if who in s.immediate then 1 else 0)
  }

  /** How often it should have by now. */
  function Owed(s: State, o: Option<Outcome>, who: nat): nat
    requires who < |s.registrations|
  {
    if o.None? then 0
    else if Immediate(o.value, s.registrations[who]) then 1
    else if s.phase.Ended? && WorkersChoice(o.value, s.registrations) == Some(who) then 1
    else 0
  }

  predicate RunsRight(s: State, o: Option<Outcome>) {
    && (forall who: nat :: who < |s.registrations| ==> Runs(s, who) == Owed(s, o, who))
    && (forall who :: who in s.immediate ==> who < |s.registrations|)
    && (forall k :: 0 <= k < |s.ran| ==> s.ran[k].who < |s.registrations|)
  }

  /** Error callbacks get the task's exception, completion callbacks nothing. */
  predicate ArgumentsRight(s: State) {
    forall k :: 0 <= k < |s.ran| ==>
      s.ran[k].who < |s.registrations|
      && s.ran[k].argument == if s.registrations[s.ran[k].who].kind.Error? then s.exception else None
  }

  function Expected(o: Outcome): Waited {
    match o
    case Returned(v) => Value(v)
    case Threw(e) => Raised(e)
  }

  predicate OutcomeRight(s: State, o: Option<Outcome>) {
    && (s.done <==> !s.phase.Working?) && (s.done <==> o.Some?)
    && (o.Some? ==> Holds(s, o.value))
    && (o.None? ==> s.value.None? && s.exception.None? && s.ran == [] && s.immediate == {} && s.waits == [])
    && (forall k :: 0 <= k < |s.waits| ==> o.Some? && s.waits[k] == Expected(o.value))
  }

  predicate Inv(s: State, o: Option<Outcome>) {
    OutcomeRight(s, o) && SlotsRight(s, o) && StampsRight(s) && RunsRight(s, o) && ArgumentsRight(s)
  }

  // ---- every step keeps it ----

  function NextOutcome(o: Option<Outcome>, a: Action): Option<Outcome> {
    if a.Finish? then Some(a.outcome) else o
  }

  lemma FinishKeeps(s: State, o: Option<Outcome>, a: Action)
    requires Inv(s, o) && a.Finish? && Enabled(s, a)
    ensures Inv(Step(s, a), NextOutcome(o, a))
  {
    hide Stored;
    var t := Step(s, a);
    SameThroughBetween(s.registrations, Completion);
    forall who: nat | who < |t.registrations| ensures Runs(t, who) == Owed(t, NextOutcome(o, a), who) {
      assert Runs(s, who) == Owed(s, o, who) == 0;
      assert NoLater(s.registrations[who].when, Before);
    }
    assert t.phase.Finished? && t.registrations == s.registrations;
    forall k | 0 <= k < |t.registrations| ensures NoLater(t.registrations[k].when, Between) {
      assert NoLater(s.registrations[k].when, Before);
    }
  }

  /** Nothing was registered between yet. */
  lemma {:induction false} SameThroughBetween(rs: seq<Registration>, kind: Kind)
    requires forall k :: 0 <= k < |rs| ==> NoLater(rs[k].when, Before)
    ensures Stored(rs, kind, Between) == Stored(rs, kind, Before)
  {
    if rs != [] {
      SameThroughBetween(rs[..|rs| - 1], kind);
      assert NoLater(rs[|rs| - 1].when, Before);
    }
  }

  lemma TakeKeeps(s: State, o: Option<Outcome>)
    requires Inv(s, o) && Enabled(s, Take)
    ensures Inv(Step(s, Take), o)
  {
    hide Stored;
    var t := Step(s, Take);
    forall who: nat | who < |t.registrations| ensures Runs(t, who) == Owed(t, o, who) {
      assert Runs(s, who) == Owed(s, o, who);
    }
  }

  lemma CountAppend(ran: seq<Ran>, r: Ran, who: nat)
    ensures Count(ran + [r], who) == Count(ran, who) + (if r.who == who then 1 else 0)
  {
    assert (ran + [r])[..|ran|] == ran;
  }

  /** What the worker's call is: of its choice, if it has one. */
  lemma RunIsChoice(s: State, o: Outcome)
    requires Inv(s, Some(o)) && Enabled(s, Run)
    ensures var t, choice := Step(s, Run), WorkersChoice(o, s.registrations);
            && t == s.(ran := t.ran, phase := Ended)
            && t.ran == (if choice.Some? then s.ran + [Ran(choice.value, Argument(s, choice.value))] else s.ran)
            && (choice.Some? ==> choice.value < |s.registrations|)
  {
    hide Stored, Count, RunsRight, StampsRight, ArgumentsRight;
    StoredWithin(s.registrations, Error, Before);
    StoredWithin(s.registrations, Completion, Before);
    StoredWithin(s.registrations, Completion, Between);
  }

  lemma RunKeepsRuns(s: State, o: Outcome)
    requires Inv(s, Some(o)) && Enabled(s, Run)
    ensures RunsRight(Step(s, Run), Some(o))
  {
    hide Stored, Count, Kept, Due, SlotsRight, StampsRight, ArgumentsRight, WorkersChoice, Step;
    var t, choice := Step(s, Run), WorkersChoice(o, s.registrations);
    RunIsChoice(s, o);
    forall who: nat | who < |t.registrations| ensures Runs(t, who) == Owed(t, Some(o), who) {
      assert Runs(s, who) == Owed(s, Some(o), who);
      DueSplits(o, s.registrations, who);
      if choice.Some? {
        CountAppend(s.ran, Ran(choice.value, Argument(s, choice.value)), who);
      }
    }
  }

  lemma RunKeeps(s: State, o: Option<Outcome>)
    requires Inv(s, o) && Enabled(s, Run)
    ensures Inv(Step(s, Run), o)
  {
    hide Stored, Count, RunsRight, WorkersChoice, Step;
    RunIsChoice(s, o.value);
    RunKeepsRuns(s, o.value);
  }

  lemma CallKeeps(s: State, o: Option<Outcome>, a: Action)
    requires Inv(s, o) && a.Call? && Enabled(s, a)
    ensures Inv(Step(s, a), o)
  {
    hide Stored, Count, Kept, WorkersChoice;
    var t := Step(s, a);
    forall who: nat | who < |t.registrations| ensures Runs(t, who) == Owed(t, o, who) {
      assert Runs(s, who) == Owed(s, o, who);
      CountAppend(s.ran, Ran(a.who, Argument(s, a.who)), who);
    }
  }

  lemma WaitKeeps(s: State, o: Option<Outcome>)
    requires Inv(s, o) && Enabled(s, Wait)
    ensures Inv(Step(s, Wait), o)
  {
    hide Stored, Count, Kept, WorkersChoice;
    var t := Step(s, Wait);
    forall who: nat | who < |t.registrations| ensures Runs(t, who) == Owed(t, o, who) {
      assert Runs(s, who) == Owed(s, o, who);
    }
  }

  /** What a registration adds to the worker's choice: nothing, once the callbacks are taken. */
  lemma ChoiceStays(o: Outcome, rs: seq<Registration>, r: Registration)
    requires r.when == Later
    ensures WorkersChoice(o, rs + [r]) == WorkersChoice(o, rs)
  {
    hide Stored;
    StoredAppend(rs, r, Error, Before);
    StoredAppend(rs, r, Completion, Before);
    StoredAppend(rs, r, Completion, Between);
  }

  lemma CountOfStranger(ran: seq<Ran>, who: nat)
    requires forall k :: 0 <= k < |ran| ==> ran[k].who < who
    ensures Count(ran, who) == 0
  {
  }

  lemma RegisterKeepsRuns(s: State, o: Option<Outcome>, kind: Kind, empty: bool)
    requires Inv(s, o)
    ensures RunsRight(Registered(s, kind, empty), o)
  {
    hide Stored, Count, Kept, SlotsRight, ArgumentsRight, WorkersChoice;
    var t, r := Registered(s, kind, empty), Registration(kind, empty, WhenOf(s.phase));
    CountOfStranger(s.ran, |s.registrations|);
    forall who: nat | who < |t.registrations| ensures Runs(t, who) == Owed(t, o, who) {
      if who < |s.registrations| {
        assert Runs(s, who) == Owed(s, o, who);
      }
      if s.phase.Ended? {
        ChoiceStays(o.value, s.registrations, r);
        ChoiceWithin(o.value, s.registrations);
      }
    }
  }

  lemma ChoiceWithin(o: Outcome, rs: seq<Registration>)
    ensures var c := WorkersChoice(o, rs); c.Some? ==> c.value < |rs|
  {
    hide Stored;
    StoredWithin(rs, Error, Before);
    StoredWithin(rs, Completion, Before);
    StoredWithin(rs, Completion, Between);
  }

  lemma RegisterKeeps(s: State, o: Option<Outcome>, kind: Kind, empty: bool)
    requires Inv(s, o)
    ensures Inv(Registered(s, kind, empty), o)
  {
    hide Stored, RunsRight;
    var t, r := Registered(s, kind, empty), Registration(kind, empty, WhenOf(s.phase));
    RegisterKeepsRuns(s, o, kind, empty);
    StoredAppend(s.registrations, r, Error, Before);
    StoredAppend(s.registrations, r, Completion, Before);
    StoredAppend(s.registrations, r, Completion, Between);
    assert forall k :: 0 <= k < |s.registrations| ==> t.registrations[k] == s.registrations[k];
  }

  lemma StepKeeps(s: State, o: Option<Outcome>, a: Action)
    requires Inv(s, o) && Enabled(s, a)
    ensures Inv(Step(s, a), NextOutcome(o, a))
  {
    hide Inv;
    match a
    case Finish(_) => FinishKeeps(s, o, a);
    case Take => TakeKeeps(s, o);
    case Run => RunKeeps(s, o);
    case Register(kind, empty) => RegisterKeeps(s, o, kind, empty);
    case Call(_) => CallKeeps(s, o, a);
    case Wait => WaitKeeps(s, o);
  }

  /** How the task's function ended in this interleaving, if it did. */
  function OutcomeOf(trace: seq<Action>): Option<Outcome> {
    if trace == [] then None else NextOutcome(OutcomeOf(trace[..|trace| - 1]), trace[|trace| - 1])
  }

  lemma {:induction false} Reachable(trace: seq<Action>)
    requires After(trace).Some?
    ensures Inv(After(trace).value, OutcomeOf(trace))
  {
    hide Inv, Step;
    if trace == [] {
      StartHolds();
    } else {
      var front := trace[..|trace| - 1];
      Reachable(front);
      StepKeeps(After(front).value, OutcomeOf(front), trace[|trace| - 1]);
    }
  }

  lemma StartHolds()
    ensures Inv(START, None)
  {
  }

  // ---- the theorems ----

  /** In every interleaving, once every thread is past its work, a callback that is due ran exactly once
      and every other callback never ran. A completion callback of a task that returned, and an error
      callback of one that threw, is due unless a later registration of its kind replaced it before the
      task finished. An error callback of a task that returned is never due. A completion callback of a
      task that threw is due when it was the one stored as the worker took the callbacks and no error
      handler was stored. */
  lemma DueCallbacksRunOnce(trace: seq<Action>, who: nat)
    requires After(trace).Some? && Quiet(After(trace).value) && who < |After(trace).value.registrations|
    ensures OutcomeOf(trace).Some?
    ensures var s := After(trace).value;
            Count(s.ran, who) == if Due(OutcomeOf(trace).value, s.registrations, who) then 1 else 0
  {
    hide After, OutcomeOf, Stored, Kept, Count, Due, WorkersChoice;
    Reachable(trace);
    var s, o := After(trace).value, OutcomeOf(trace);
    DueSplits(o.value, s.registrations, who);
    assert Runs(s, who) == Owed(s, o, who);
  }

  /** At every point of every interleaving: no callback runs before the task is done, none runs twice,
      none that is not due so far has run, and error callbacks are handed the task's own exception. */
  lemma NeverEarlyNeverTwice(trace: seq<Action>, who: nat)
    requires After(trace).Some? && who < |After(trace).value.registrations|
    ensures var s := After(trace).value;
            && Count(s.ran, who) <= 1
            && (Count(s.ran, who) == 1 ==> s.done && OutcomeOf(trace).Some?
                                           && (s.phase.Ended? || Immediate(OutcomeOf(trace).value, s.registrations[who])))
            && (forall k :: 0 <= k < |s.ran| && s.ran[k].who == who && s.registrations[who].kind.Error? ==>
                  s.exception.Some? && s.ran[k].argument == s.exception)
  {
    hide After, OutcomeOf, Stored, Kept, WorkersChoice;
    Reachable(trace);
    var s, o := After(trace).value, OutcomeOf(trace);
    assert Runs(s, who) == Owed(s, o, who);
    forall k | 0 <= k < |s.ran| && s.ran[k].who == who && s.registrations[who].kind.Error?
      ensures s.exception.Some? && s.ran[k].argument == s.exception
    {
      RanIsCounted(s.ran, k);
      if o.Some? && o.value.Returned? {
        ErrorNotChosen(o.value, s.registrations, who);
        assert false;
      }
    }
  }

  lemma {:induction false} RanIsCounted(ran: seq<Ran>, k: nat)
    requires k < |ran|
    ensures Count(ran, ran[k].who) >= 1
  {
    if k < |ran| - 1 {
      RanIsCounted(ran[..|ran| - 1], k);
    }
  }

  lemma ErrorNotChosen(o: Outcome, rs: seq<Registration>, who: nat)
    requires who < |rs| && rs[who].kind.Error? && o.Returned?
    ensures WorkersChoice(o, rs) != Some(who)
  {
    hide Stored;
    StoredWithin(rs, Completion, Before);
  }

  /** Every wait that returned did so after the task was done, with the function's own value or its own
      exception; the missing-value branch is never taken. */
  lemma WaitsSeeTheOutcome(trace: seq<Action>, k: nat)
    requires After(trace).Some? && k < |After(trace).value.waits|
    ensures var s := After(trace).value;
            OutcomeOf(trace).Some? && s.done && s.waits[k] == Expected(OutcomeOf(trace).value) && s.waits[k] != NoValue
  {
    hide After, OutcomeOf, SlotsRight, StampsRight, RunsRight, ArgumentsRight;
    Reachable(trace);
  }

  /** The task finishes at most once, so what the waits saw never changes. */
  lemma OutcomeIsFinal(trace: seq<Action>, a: Action)
    requires After(trace).Some? && Enabled(After(trace).value, a) && OutcomeOf(trace).Some?
    ensures !a.Finish? && OutcomeOf(trace + [a]) == OutcomeOf(trace)
  {
    hide After, SlotsRight, StampsRight, RunsRight, ArgumentsRight;
    Reachable(trace);
    assert (trace + [a])[..|trace|] == trace;
  }

  /** The threads still to go. */
  function Remaining(s: State): nat {
    |s.immediate| + match s.phase case Working => 3 case Finished => 2 case Taken => 1 case Ended => 0
  }

  /** No interleaving gets stuck: while a callback or the worker is still to go, one of them can, and
      after Remaining such steps everything is quiet. */
  lemma SomeoneCanGo(s: State, o: Outcome) returns (a: Action)
    requires !Quiet(s)
    ensures !a.Register? && !a.Wait? && Enabled(s, a) && Remaining(Step(s, a)) == Remaining(s) - 1
  {
    match s.phase
    case Working => a := Finish(o);
    case Finished => a := Take;
    case Taken => a := Run;
    case Ended =>
      var who :| who in s.immediate;
      a := Call(who);
  }

  /** A completion callback may run although the task threw: the error slot was empty. */
  lemma CompletionAfterThrow()
    ensures var trace := [Register(Completion, false), Finish(Threw(7)), Take, Run];
            && After(trace).Some? && Quiet(After(trace).value)
            && After(trace).value.exception == Some(7) && Count(After(trace).value.ran, 0) == 1
  {
    var t1 := [Register(Completion, false)];
    var t2, t3 := t1 + [Finish(Threw(7))], t1 + [Finish(Threw(7)), Take];
    var t4 := [Register(Completion, false), Finish(Threw(7)), Take, Run];
    assert t1[..0] == [] && t2[..1] == t1 && t3[..2] == t2 && t4[..3] == t3;
    assert After(t1) == Some(Step(START, Register(Completion, false)));
    assert After(t2).Some? && After(t2).value.completed == Some(0);
    assert After(t3).Some? && After(t3).value.mine == Some(0);
    assert After(t4).Some? && After(t4).value.ran == [Ran(0, None)];
  }
}
