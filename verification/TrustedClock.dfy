/** The process-wide trusted clock: an anchor taken from a signed server time, read through the tick counter. */
module TrustedClock {
  import opened Basics

  const MAXIMUM_ROUND_TRIP: nat := 5000
  const MINIMUM_SERVER_TIME: int := 1577836800000
  const MAXIMUM_SERVER_TIME: int := 4102444800000

  /** Milliseconds since boot; below 2^62, so that no signed sum here wraps. */
  type Tick = t: int | 0 <= t < 0x4000_0000_0000_0000

  datatype Fault = OutOfRange | TooSlow

  /** A signed server time, and when the request for it started and its response arrived. */
  datatype Stamp = Stamp(server: int, started: Tick, received: Tick)

  datatype State = State(initialized: bool, anchorUnix: int, anchorTick: Tick)

  const UNSET: State := State(false, 0, 0)

  function FaultOf(s: Stamp): Option<Fault> {
    if s.server < MINIMUM_SERVER_TIME || s.server > MAXIMUM_SERVER_TIME || s.received < s.started then Some(OutOfRange)
    else if s.received - s.started > MAXIMUM_ROUND_TRIP then Some(TooSlow)
    else None
  }

  function Anchored(state: State, s: Stamp): State {
    if FaultOf(s).Some? then state else State(true, s.server + (s.received - s.started) / 2, s.received)
  }

  /** 0 stands for no time. */
  function Reading(state: State, tick: Tick): int {
    if !state.initialized || tick < state.anchorTick then 0 else state.anchorUnix + (tick - state.anchorTick)
  }

  class Clock {
    var initialized: bool
    var anchorUnix: int
    var anchorTick: Tick

    function Now(): State
      reads this
    {
      State(initialized, anchorUnix, anchorTick)
    }

    constructor ()
      ensures Now() == UNSET
    {
      initialized, anchorUnix, anchorTick := false, 0, 0;
    }

    method SetAuthoritativeTime(server: int, started: Tick, received: Tick) returns (fault: Option<Fault>)
      modifies this
      ensures fault == FaultOf(Stamp(server, started, received))
      ensures fault == if server < 1577836800000 || server > 4102444800000 || received < started then Some(OutOfRange)
                       else if received - started > 5000 then Some(TooSlow)
                       else None
      ensures (initialized, anchorUnix, anchorTick)
              == if fault.None? then (true, server + (received - started) / 2, received)
                 else old((initialized, anchorUnix, anchorTick))
      ensures Now() == Anchored(old(Now()), Stamp(server, started, received))
    {
      if server < MINIMUM_SERVER_TIME || server > MAXIMUM_SERVER_TIME || received < started {
        return Some(OutOfRange);
      }
      var roundTrip := received - started;
      if roundTrip > MAXIMUM_ROUND_TRIP {
        return Some(TooSlow);
      }
      anchorUnix := server + roundTrip / 2;
      anchorTick := received;
      initialized := true;
      return None;
    }

    method NowUnixMs(tick: Tick) returns (ms: int)
      ensures ms == Reading(Now(), tick)
      ensures ms == if initialized && anchorTick <= tick then anchorUnix + tick - anchorTick else 0
    {
      if !initialized {
        return 0;
      }
      if tick < anchorTick {
        return 0;
      }
      return anchorUnix + (tick - anchorTick);
    }

    method NowUnixSeconds(tick: Tick) returns (seconds: int)
      ensures Reading(Now(), tick) > 0 ==> seconds * 1000 <= Reading(Now(), tick) < seconds * 1000 + 1000
      ensures Reading(Now(), tick) <= 0 ==> seconds == 0
    {
      var ms := NowUnixMs(tick);
      return if ms <= 0 then 0 else ms / 1000;
    }
  }

  // ---- one anchor ----

  /** The server's clock shows tick + offset, and the stamp was taken between the start of the request
      and the receipt of the response. */
  predicate Honest(s: Stamp, offset: int) {
    s.started <= s.server - offset <= s.received
  }

  /** How far a reading is from the server's clock. */
  function Error(state: State, tick: Tick, offset: int): int {
    Reading(state, tick) - (tick + offset)
  }

  predicate Readable(state: State, tick: Tick) {
    state.initialized && state.anchorTick <= tick
  }

  /** The anchor's error, as good as its round trip. */
  predicate Near(state: State, offset: int) {
    state.initialized ==> -2500 <= state.anchorUnix - state.anchorTick - offset <= 2500
  }

  /** An accepted honest stamp is off by at most half its round trip, either way. */
  lemma ErrorOfAnchor(state: State, s: Stamp, tick: Tick, offset: int)
    requires FaultOf(s).None? && Honest(s, offset) && s.received <= tick
    ensures var trip := s.received - s.started;
            trip / 2 - trip <= Error(Anchored(state, s), tick, offset) <= trip / 2
    ensures -2500 <= Error(Anchored(state, s), tick, offset) <= 2500
  {
  }

  // ---- runs ----

  /** What happens to the clock, in order. */
  datatype Event = Set(stamp: Stamp) | Read(tick: Tick)

  function After(run: seq<Event>): State {
    if run == [] then UNSET
    else
      var last := run[|run| - 1];
      if last.Set? then Anchored(After(run[..|run| - 1]), last.stamp) else After(run[..|run| - 1])
  }

  /** The reading taken at a step of a run. */
  function ReadingAt(run: seq<Event>, i: nat): int
    requires i < |run| && run[i].Read?
  {
    Reading(After(run[..i]), run[i].tick)
  }

  predicate HonestRun(run: seq<Event>, offset: int) {
    forall i :: 0 <= i < |run| && run[i].Set? && FaultOf(run[i].stamp).None? ==> Honest(run[i].stamp, offset)
  }

  lemma {:induction false} AlwaysNear(run: seq<Event>, offset: int)
    requires HonestRun(run, offset)
    ensures Near(After(run), offset)
  {
    if run != [] {
      AlwaysNear(run[..|run| - 1], offset);
      var last := run[|run| - 1];
      if last.Set? && FaultOf(last.stamp).None? {
        assert Honest(last.stamp, offset);
      }
    }
  }

  /** In every run with honest stamps, whatever was rejected in between, every reading is within 2500 ms
      of the server's clock. */
  lemma ReadingsAreClose(run: seq<Event>, i: nat, offset: int)
    requires HonestRun(run, offset) && i < |run| && run[i].Read? && Readable(After(run[..i]), run[i].tick)
    ensures -2500 <= ReadingAt(run, i) - (run[i].tick + offset) <= 2500
  {
    hide After;
    AlwaysNear(run[..i], offset);
  }

  /** Across any number of re-anchors a later reading is at most 5000 ms below an earlier one, and at most
      that much further ahead than the time that passed. */
  lemma ReadingsStepBackLittle(run: seq<Event>, i: nat, j: nat, offset: int)
    requires HonestRun(run, offset) && i < j < |run| && run[i].Read? && run[j].Read? && run[i].tick <= run[j].tick
    requires Readable(After(run[..i]), run[i].tick) && Readable(After(run[..j]), run[j].tick)
    ensures -5000 <= ReadingAt(run, j) - ReadingAt(run, i) - (run[j].tick - run[i].tick) <= 5000
    ensures ReadingAt(run, j) >= ReadingAt(run, i) - 5000
  {
    hide After;
    ReadingsAreClose(run, i, offset);
    ReadingsAreClose(run, j, offset);
  }

  /** No stamp is accepted at or after one step and before another. */
  predicate NoAnchor(run: seq<Event>, i: nat, j: nat)
    requires i <= j <= |run|
  {
    forall k :: i <= k < j ==> run[k].Set? ==> FaultOf(run[k].stamp).Some?
  }

  lemma {:induction false} SameAnchor(run: seq<Event>, i: nat, j: nat)
    requires i <= j <= |run| && NoAnchor(run, i, j)
    ensures After(run[..i]) == After(run[..j])
    decreases j
  {
    if i < j {
      SameAnchor(run, i, j - 1);
      assert run[..j][..j - 1] == run[..j - 1];
    }
  }

  /** Between re-anchors, honest or not, the clock runs with the tick counter; refused stamps do not
      disturb it. */
  lemma SteadyBetweenAnchors(run: seq<Event>, i: nat, j: nat)
    requires i < j < |run| && run[i].Read? && run[j].Read? && run[i].tick <= run[j].tick && NoAnchor(run, i, j)
    requires Readable(After(run[..i]), run[i].tick)
    ensures ReadingAt(run, j) - ReadingAt(run, i) == run[j].tick - run[i].tick
  {
    hide After;
    SameAnchor(run, i, j);
  }

  /** Both bounds are reached: two honest stamps, each with the slowest round trip, one stamped on receipt
      and one at the start of its request, put the clock 2500 ms ahead and then 2500 ms behind. */
  lemma BoundsAreReached()
    ensures var first, second := Stamp(1600000005000, 0, 5000), Stamp(1600000005000, 5000, 10000);
            var offset := 1600000000000;
            && FaultOf(first).None? && FaultOf(second).None? && Honest(first, offset) && Honest(second, offset)
            && Error(Anchored(UNSET, first), 10000, offset) == 2500
            && Error(Anchored(Anchored(UNSET, first), second), 10000, offset) == -2500
  {
  }
}
