/** The request loop: attempts with a per-attempt timeout, backoff, Retry-After and a total deadline. */
module Retry {
  import opened Basics
  import opened Int64

  /** time.Duration: nanoseconds in 64 bits. */
  type Duration = Int64

  const SECOND: Duration := 1_000_000_000
  const MILLISECOND: Duration := 1_000_000

  datatype Operation =
    | TrustedTime | OnlineKeyManifest | UpdateCheck | Heartbeat | Events | Feedback | EnrollmentTicket
    | DeviceKeyRotation | OperationAuthorization | OperationGrantConsume | Download | UpdateStream
    | FirmwareIdentity | DebugProtocol | DebugStream | AnyOther

  datatype Policy = Policy(timeout: Duration, retries: nat, backoff: Duration, backoffMax: Duration, deadline: Duration)

  /** The Retry-After header: absent or unreadable, a 64-bit number of seconds, or a date so many
      nanoseconds ahead. */
  datatype RetryAfter = NoHeader | Seconds(seconds: Duration) | Date(ahead: int)

  /** What one attempt meets: how long it takes, what comes back, and how late the wait after it ends. */
  datatype Answer = Failed(timedOut: bool) | Replied(status: int, retryAfter: RetryAfter)
  datatype Trip = Trip(took: nat, answer: Answer, lag: nat)

  datatype Reply = Response(status: int) | Timeout | Network

  /** The reply, when it was given, and when each attempt had started: nanoseconds from the moment the
      loop starts. */
  datatype Sent = Sent(reply: Reply, at: int, starts: seq<int>)

  type World = nat -> Trip

  function PolicyFor(operation: Operation): Policy {
    match operation
    case TrustedTime => Policy(10 * SECOND, 2, SECOND, 4 * SECOND, 40 * SECOND)
    case OnlineKeyManifest => Policy(10 * SECOND, 2, SECOND, 4 * SECOND, 40 * SECOND)
    case UpdateCheck => Policy(15 * SECOND, 2, 1500 * MILLISECOND, 6 * SECOND, 60 * SECOND)
    case Heartbeat => Policy(8 * SECOND, 2, SECOND, 4 * SECOND, 30 * SECOND)
    case OperationAuthorization => Policy(10 * SECOND, 2, SECOND, 4 * SECOND, 36 * SECOND)
    case OperationGrantConsume => Policy(10 * SECOND, 1, SECOND, 2 * SECOND, 24 * SECOND)
    case Events => Policy(8 * SECOND, 1, SECOND, 2 * SECOND, 20 * SECOND)
    case Feedback => Policy(10 * SECOND, 1, SECOND, 2 * SECOND, 24 * SECOND)
    case EnrollmentTicket => Policy(10 * SECOND, 1, SECOND, 2 * SECOND, 24 * SECOND)
    case DeviceKeyRotation => Policy(10 * SECOND, 1, SECOND, 2 * SECOND, 24 * SECOND)
    case Download => Policy(30 * SECOND, 2, 2 * SECOND, 8 * SECOND, 0)
    case UpdateStream => Policy(30 * SECOND, 0, 0, 0, 0)
    case FirmwareIdentity => Policy(8 * SECOND, 1, 500 * MILLISECOND, SECOND, 20 * SECOND)
    case DebugProtocol => Policy(8 * SECOND, 1, 500 * MILLISECOND, SECOND, 20 * SECOND)
    case DebugStream => Policy(8 * SECOND, 1, 500 * MILLISECOND, SECOND, 20 * SECOND)
    case AnyOther => Policy(8 * SECOND, 1, SECOND, 2 * SECOND, 20 * SECOND)
  }

  predicate IsTransientStatus(status: int) {
    status == 408 || status == 429 || status == 500 || status == 502 || status == 503 || status == 504
  }

  /** parseRetryAfter: seconds are multiplied in 64 bits, a date's distance saturates. */
  function ParseRetryAfter(header: RetryAfter): Duration {
    match header
    case NoHeader => 0
    case Seconds(n) => if n < 0 then 0 else Wrap(n * SECOND)
    case Date(ahead) => if ahead < 0 then 0 else Saturate(ahead)
  }

  /** x doubled n times. */
  function Doubled(x: int, n: nat): int {
    if n == 0 then x else 2 * Doubled(x, n - 1)
  }

  function Backoff(p: Policy, attempt: nat): Duration {
    if p.backoff <= 0 then 0
    else
      var delay := Wrap(Doubled(p.backoff, Min(attempt, 16)));
      var maximum := if p.backoffMax < p.backoff then p.backoff else p.backoffMax;
      if delay > maximum then maximum else delay
  }

  /** time.Since at a moment of the loop. */
  function Since(now: int): Duration {
    Saturate(now)
  }

  predicate CanWait(p: Policy, now: int, delay: Duration, attempt: nat) {
    attempt < p.retries && (p.deadline <= 0 || Wrap(Since(now) + delay + p.timeout) <= p.deadline)
  }

  /** The check at the top of the loop. */
  predicate NoTimeLeft(p: Policy, now: int) {
    p.deadline > 0 && Wrap(Since(now) + p.timeout) > p.deadline
  }

  predicate Ended(ends: Option<int>, now: int) {
    ends.Some? && ends.value <= now
  }

  predicate Transient(a: Answer) {
    a.Failed? || IsTransientStatus(a.status)
  }

  /** The wait that follows a transient answer. */
  function DelayAfter(p: Policy, a: Answer, attempt: nat): Duration {
    if a.Replied? && ParseRetryAfter(a.retryAfter) > 0 then ParseRetryAfter(a.retryAfter) else Backoff(p, attempt)
  }

  function ErrorReply(last: Option<bool>): Reply {
    if last == Some(false) then Network else Timeout
  }

  function NextLast(a: Answer, last: Option<bool>): Option<bool> {
    if a.Failed? then Some(a.timedOut) else last
  }

  /** When a wait is over. */
  function Woken(now: int, delay: Duration, lag: nat): int {
    now + (if delay > 0 then delay + lag else 0)
  }

  /** The loop from one attempt on; last says whether the latest transport error was a timeout. */
  function SendFrom(p: Policy, world: World, ends: Option<int>, attempt: nat, now: int, last: Option<bool>,
                    starts: seq<int>): Sent
    decreases p.retries + 1 - attempt
  {
    if attempt > p.retries then Sent(ErrorReply(last), now, starts)
    else if Ended(ends, now) then Sent(Timeout, now, starts)
    else if NoTimeLeft(p, now) then Sent(ErrorReply(last), now, starts)
    else
      var trip, after := world(attempt), now + world(attempt).took;
      Resumed(p, world, ends, attempt, trip, after, NextLast(trip.answer, last), starts + [now])
  }

  /** What follows an attempt. */
  function Resumed(p: Policy, world: World, ends: Option<int>, attempt: nat, trip: Trip, now: int,
                   last: Option<bool>, starts: seq<int>): Sent
    requires attempt <= p.retries
    decreases p.retries + 1 - attempt, 0
  {
    var a := trip.answer;
    if a.Replied? && (!IsTransientStatus(a.status) || attempt >= p.retries) then Sent(Response(a.status), now, starts)
    else if a.Failed? && Ended(ends, now) then Sent(Timeout, now, starts)
    else
      var delay := DelayAfter(p, a, attempt);
      if !CanWait(p, now, delay, attempt) then
        Sent(if a.Replied? then Response(a.status) else ErrorReply(last), now, starts)
      else if delay > 0 && Ended(ends, now + delay) then Sent(Timeout, Max(now, ends.value), starts)
      else SendFrom(p, world, ends, attempt + 1, Woken(now, delay, trip.lag), last, starts)
  }

  /** The loop of send, with the clock as a variable. */
  method Send(p: Policy, world: World, ends: Option<int>) returns (sent: Sent)
    ensures sent == SendFrom(p, world, ends, 0, 0, None, [])
  {
    hide IsTransientStatus, Backoff, ParseRetryAfter, Wrap, Saturate;
    var now, starts := 0, [];
    var lastTransport: Option<bool> := None;
    var attempt := 0;
    while attempt <= p.retries
      invariant 0 <= attempt <= p.retries + 1
      invariant SendFrom(p, world, ends, 0, 0, None, [])
             == SendFrom(p, world, ends, attempt, now, lastTransport, starts)
      decreases p.retries + 1 - attempt
    {
      if Ended(ends, now) {
        return Sent(Timeout, now, starts);
      }
      if p.deadline > 0 && Wrap(Since(now) + p.timeout) > p.deadline {
        break;
      }
      var trip := world(attempt);
      starts := starts + [now];
      now := now + trip.took;
      var delay: Duration;
      match trip.answer {
        case Replied(status, header) =>
          if !IsTransientStatus(status) || attempt >= p.retries {
            return Sent(Response(status), now, starts);
          }
          delay := ParseRetryAfter(header);
          if delay <= 0 {
            delay := Backoff(p, attempt);
          }
          if !CanWait(p, now, delay, attempt) {
            return Sent(Response(status), now, starts);
          }
        case Failed(timedOut) =>
          lastTransport := Some(timedOut);
          if Ended(ends, now) {
            return Sent(Timeout, now, starts);
          }
          delay := Backoff(p, attempt);
          if attempt >= p.retries || !CanWait(p, now, delay, attempt) {
            break;
          }
      }
      if delay > 0 {
        if Ended(ends, now + delay) {
          return Sent(Timeout, Max(now, ends.value), starts);
        }
        now := now + delay + trip.lag;
      }
      attempt := attempt + 1;
    }
    sent := Sent(ErrorReply(lastTransport), now, starts);
  }

  // ---- policies and delays ----

  /** Durations far from the limits of 64 bits, as every policy of the table has them: below 70 years, the
      base of the backoff below a day. */
  predicate Modest(p: Policy) {
    0 <= p.timeout <= MAX / 4 && 0 <= p.deadline <= MAX / 4 && 0 <= p.backoff <= MAX / 0x1_0000
    && 0 <= p.backoffMax <= MAX / 4
  }

  lemma {:induction false} DoubledGrows(x: int, m: nat, n: nat)
    requires 0 <= x && m <= n <= 16
    ensures x <= Doubled(x, m) <= Doubled(x, n)
  {
    if n == 0 {
    } else if m == n {
      DoubledGrows(x, m - 1, n - 1);
    } else {
      DoubledGrows(x, m, n - 1);
    }
  }

  lemma DoubledFits(x: int)
    requires 0 <= x <= MAX / 0x1_0000
    ensures Doubled(x, 16) <= MAX
  {
    var x1 := Doubled(x, 1);
    assert Doubled(x, 0) == x;
    assert Doubled(x, 2) == 4 * x;
    assert Doubled(x, 4) == 16 * x by { assert Doubled(x, 3) == 8 * x; }
    assert Doubled(x, 6) == 64 * x by { assert Doubled(x, 5) == 32 * x; }
    assert Doubled(x, 8) == 256 * x by { assert Doubled(x, 7) == 128 * x; }
    assert Doubled(x, 10) == 1024 * x by { assert Doubled(x, 9) == 512 * x; }
    assert Doubled(x, 12) == 4096 * x by { assert Doubled(x, 11) == 2048 * x; }
    assert Doubled(x, 14) == 0x4000 * x by { assert Doubled(x, 13) == 0x2000 * x; }
    assert Doubled(x, 16) == 0x1_0000 * x by { assert Doubled(x, 15) == 0x8000 * x; }
  }

  /** The wait starts at the base, never shrinks, and never passes the cap. */
  lemma BackoffGrows(p: Policy, m: nat, n: nat)
    requires Modest(p) && m <= n
    ensures p.backoff <= Backoff(p, m) <= Backoff(p, n) <= Max(p.backoffMax, p.backoff)
    ensures Backoff(p, 0) == p.backoff
  {
    hide Doubled, Wrap;
    DoubledGrows(p.backoff, Min(m, 16), Min(n, 16));
    DoubledGrows(p.backoff, Min(n, 16), 16);
    DoubledFits(p.backoff);
    DoubledNone(p.backoff);
  }

  lemma DoubledNone(x: int)
    ensures Doubled(x, 0) == x
  {
  }

  /** It doubles up to the sixteenth wait, within the cap. */
  lemma BackoffDoubles(p: Policy, n: nat)
    requires Modest(p)
    ensures Backoff(p, 0) == p.backoff
    ensures Backoff(p, n + 1) == if n < 16 then Min(2 * Backoff(p, n), Max(p.backoffMax, p.backoff)) else Backoff(p, n)
  {
    hide Doubled, Wrap;
    DoubledNone(p.backoff);
    DoubledGrows(p.backoff, Min(n, 16), 16);
    DoubledGrows(p.backoff, Min(n + 1, 16), 16);
    DoubledFits(p.backoff);
    DoubledNext(p.backoff, n);
  }

  lemma DoubledNext(x: int, n: nat)
    ensures Doubled(x, n + 1) == 2 * Doubled(x, n)
  {
  }

  /** A number of seconds is waited as it stands if and only if it is below about 292 years; larger ones
      wrap. A date is at most the largest duration ahead. */
  lemma RetryAfterExact(n: Duration)
    requires 0 <= n
    ensures ParseRetryAfter(Seconds(n)) == n * SECOND <==> n <= 9223372036
    ensures 0 <= ParseRetryAfter(Date(n)) == n
  {
  }

  /** 584 years and more are asked for, and less than a third of a second is waited. */
  lemma RetryAfterWraps()
    ensures ParseRetryAfter(Seconds(18446744074)) == 290448384
  {
  }

  // ---- how long it takes ----

  /** Every attempt keeps its timeout. */
  ghost predicate Timely(p: Policy, world: World) {
    forall k :: world(k).took <= p.timeout
  }

  /** And no wait between two attempts ends later than this. */
  ghost predicate Prompt(p: Policy, world: World, lag: nat) {
    Timely(p, world) && forall k :: 0 <= k < p.retries ==> world(k).lag <= lag
  }

  /** How far past the deadline a wait that ends late may push the return. */
  function Overrun(p: Policy, lag: nat): int {
    if lag > p.timeout then lag - p.timeout else 0
  }

  /** The guard that the sum of canWait depends on: elapsed time, delay and timeout do not fit 64 bits. */
  predicate TooLong(p: Policy, elapsed: int, delay: Duration) {
    elapsed + delay + p.timeout > MAX
  }

  /** An attempt that may be repeated is answered with a delay too long for that sum. */
  predicate OverflowsAt(p: Policy, world: World, starts: seq<int>, k: nat) {
    && k < |starts| && k < p.retries && Transient(world(k).answer)
    && TooLong(p, starts[k] + world(k).took, DelayAfter(p, world(k).answer, k))
  }

  ghost predicate Overflows(p: Policy, world: World, starts: seq<int>) {
    exists k: nat :: OverflowsAt(p, world, starts, k)
  }

  /** The sum decides as meant exactly while it fits; once it does not, it wraps and allows the wait. */
  lemma CanWaitExact(p: Policy, now: int, delay: Duration, attempt: nat)
    requires Modest(p) && 0 < p.deadline && 0 <= now <= 2 * p.deadline && 0 <= delay && attempt < p.retries
    ensures CanWait(p, now, delay, attempt) <==> TooLong(p, now, delay) || now + delay + p.timeout <= p.deadline
  {
  }

  lemma LastNeverWaits(p: Policy, now: int, delay: Duration, attempt: nat)
    ensures CanWait(p, now, delay, attempt) ==> attempt < p.retries
  {
  }

  lemma NoTimeLeftExact(p: Policy, now: int)
    requires Modest(p) && 0 < p.deadline && 0 <= now <= MAX / 2
    ensures NoTimeLeft(p, now) <==> now + p.timeout > p.deadline
  {
  }

  lemma DelayIsPositive(p: Policy, a: Answer, attempt: nat)
    requires Modest(p)
    ensures 0 <= DelayAfter(p, a, attempt)
  {
    hide Backoff;
    BackoffGrows(p, attempt, attempt);
  }

  /** Time does not run backwards, and the starts made so far stay. */
  lemma {:induction false} Onward(p: Policy, world: World, ends: Option<int>, attempt: nat, now: int,
                                  last: Option<bool>, starts: seq<int>)
    ensures var s := SendFrom(p, world, ends, attempt, now, last, starts);
            now <= s.at && starts <= s.starts && |s.starts| <= |starts| + Max(0, p.retries + 1 - attempt)
    decreases p.retries + 1 - attempt
  {
    hide IsTransientStatus, DelayAfter, CanWait, NoTimeLeft;
    if attempt <= p.retries && !Ended(ends, now) && !NoTimeLeft(p, now) {
      var trip := world(attempt);
      var after := now + trip.took;
      var delay := DelayAfter(p, trip.answer, attempt);
      if CanWait(p, after, delay, attempt) {
        Onward(p, world, ends, attempt + 1, Woken(after, delay, trip.lag), NextLast(trip.answer, last), starts + [now]);
      }
    }
  }

  /** The cases of one attempt. */
  lemma OneAttempt(p: Policy, world: World, ends: Option<int>, attempt: nat, now: int, last: Option<bool>, starts: seq<int>)
    requires attempt <= p.retries && !Ended(ends, now) && !NoTimeLeft(p, now)
    ensures var s := SendFrom(p, world, ends, attempt, now, last, starts);
            var trip, after := world(attempt), now + world(attempt).took;
            var delay := DelayAfter(p, trip.answer, attempt);
            if !Transient(trip.answer) || !CanWait(p, after, delay, attempt) || (trip.answer.Failed? && Ended(ends, after))
            then s.at == after && s.starts == starts + [now]
            else if delay > 0 && Ended(ends, after + delay) then s.at == Max(after, ends.value) && s.starts == starts + [now]
            else s == SendFrom(p, world, ends, attempt + 1, Woken(after, delay, trip.lag), NextLast(trip.answer, last), starts + [now])
  {
    hide IsTransientStatus, DelayAfter, NoTimeLeft, Wrap, Saturate, Woken, NextLast;
  }

  /** What the theorem says of the rest of a call. */
  ghost predicate InTime(p: Policy, world: World, ends: Option<int>, lag: nat, from: nat, s: Sent) {
    if exists k: nat :: from <= k && OverflowsAt(p, world, s.starts, k) then
      lag <= p.timeout ==> (s.at <= p.deadline <==> ends.Some? && ends.value <= p.deadline)
    else
      && s.at <= p.deadline + Overrun(p, lag)
      && forall k :: from <= k < |s.starts| ==> s.starts[k] + p.timeout <= p.deadline
  }

  /** The first attempt whose delay does not fit: the wait is allowed, and ends past the deadline unless
      the caller gives up before. */
  lemma OverflowWaits(p: Policy, world: World, ends: Option<int>, attempt: nat, now: int, last: Option<bool>,
                      starts: seq<int>, lag: nat)
    requires Modest(p) && 0 < p.deadline && p.timeout <= p.deadline && Prompt(p, world, lag)
    requires |starts| == attempt < p.retries && 0 <= now && now + p.timeout <= p.deadline && !Ended(ends, now)
    requires Transient(world(attempt).answer)
    requires TooLong(p, now + world(attempt).took, DelayAfter(p, world(attempt).answer, attempt))
    ensures InTime(p, world, ends, lag, attempt, SendFrom(p, world, ends, attempt, now, last, starts))
  {
    hide IsTransientStatus, DelayAfter, CanWait, NoTimeLeft, SendFrom;
    var trip := world(attempt);
    var after := now + trip.took;
    var delay := DelayAfter(p, trip.answer, attempt);
    DelayIsPositive(p, trip.answer, attempt);
    NoTimeLeftExact(p, now);
    OneAttempt(p, world, ends, attempt, now, last, starts);
    CanWaitExact(p, after, delay, attempt);
    var s := SendFrom(p, world, ends, attempt, now, last, starts);
    if !(trip.answer.Failed? && Ended(ends, after)) && !Ended(ends, after + delay) {
      Onward(p, world, ends, attempt + 1, Woken(after, delay, trip.lag), NextLast(trip.answer, last), starts + [now]);
    }
    assert starts + [now] <= s.starts;
    assert s.starts[attempt] == (starts + [now])[attempt] == now;
    assert OverflowsAt(p, world, s.starts, attempt);
  }

  lemma {:induction false} TimeFrom(p: Policy, world: World, ends: Option<int>, attempt: nat, now: int,
                                    last: Option<bool>, starts: seq<int>, lag: nat)
    requires Modest(p) && 0 < p.deadline && p.timeout <= p.deadline && Prompt(p, world, lag) && lag <= MAX / 4
    requires |starts| == attempt <= p.retries + 1 && 0 <= now <= p.deadline + Overrun(p, lag)
    ensures InTime(p, world, ends, lag, attempt, SendFrom(p, world, ends, attempt, now, last, starts))
    decreases p.retries + 1 - attempt
  {
    hide IsTransientStatus, DelayAfter, CanWait, NoTimeLeft, Transient, TooLong;
    NoTimeLeftExact(p, now);
    var s := SendFrom(p, world, ends, attempt, now, last, starts);
    if attempt > p.retries || Ended(ends, now) || NoTimeLeft(p, now) {
    } else {
      var trip := world(attempt);
      var after := now + trip.took;
      var delay := DelayAfter(p, trip.answer, attempt);
      DelayIsPositive(p, trip.answer, attempt);
      if attempt < p.retries && Transient(trip.answer) && TooLong(p, after, delay) {
        OverflowWaits(p, world, ends, attempt, now, last, starts, lag);
      } else {
        NotTooLong(p, world, ends, attempt, now, last, starts, lag);
      }
    }
  }

  lemma NotTooLong(p: Policy, world: World, ends: Option<int>, attempt: nat, now: int, last: Option<bool>,
                   starts: seq<int>, lag: nat)
    requires Modest(p) && 0 < p.deadline && p.timeout <= p.deadline && Prompt(p, world, lag) && lag <= MAX / 4
    requires |starts| == attempt <= p.retries && 0 <= now && now + p.timeout <= p.deadline && !Ended(ends, now)
    requires attempt == p.retries || !Transient(world(attempt).answer)
             || !TooLong(p, now + world(attempt).took, DelayAfter(p, world(attempt).answer, attempt))
    ensures InTime(p, world, ends, lag, attempt, SendFrom(p, world, ends, attempt, now, last, starts))
    decreases p.retries + 1 - attempt, 0
  {
    hide IsTransientStatus, DelayAfter, CanWait, NoTimeLeft, TooLong, SendFrom;
    var trip := world(attempt);
    var after := now + trip.took;
    var delay := DelayAfter(p, trip.answer, attempt);
    DelayIsPositive(p, trip.answer, attempt);
    NoTimeLeftExact(p, now);
    OneAttempt(p, world, ends, attempt, now, last, starts);
    var s := SendFrom(p, world, ends, attempt, now, last, starts);
    LastNeverWaits(p, after, delay, attempt);
    if attempt < p.retries && Transient(trip.answer) {
      CanWaitExact(p, after, delay, attempt);
    }
    var woken := Woken(after, delay, trip.lag);
    if attempt < p.retries && Transient(trip.answer) && CanWait(p, after, delay, attempt)
       && !(trip.answer.Failed? && Ended(ends, after)) && !(delay > 0 && Ended(ends, after + delay)) {
      TimeFrom(p, world, ends, attempt + 1, woken, NextLast(trip.answer, last), starts + [now], lag);
      Onward(p, world, ends, attempt + 1, woken, NextLast(trip.answer, last), starts + [now]);
    } else {
      assert s.starts == starts + [now];
    }
    assert s.starts[attempt] == (starts + [now])[attempt] == now;
    NextInTime(p, world, ends, lag, attempt, s);
  }

  /** One more start on record, neither too long nor too late. */
  lemma NextInTime(p: Policy, world: World, ends: Option<int>, lag: nat, attempt: nat, s: Sent)
    requires InTime(p, world, ends, lag, attempt + 1, s) && attempt < |s.starts|
    requires !OverflowsAt(p, world, s.starts, attempt) && s.starts[attempt] + p.timeout <= p.deadline
    ensures InTime(p, world, ends, lag, attempt, s)
  {
    hide OverflowsAt;
    if k: nat :| attempt <= k && OverflowsAt(p, world, s.starts, k) {
      assert attempt + 1 <= k;
    }
  }

  /** If every attempt keeps its timeout and no wait ends late by more than a timeout, the call is over by
      the policy's deadline if and only if no delay is so long that canWait's 64-bit sum of it, the
      elapsed time and the timeout wraps, or the caller gives up by the deadline anyway. While nothing
      wraps, a later wait can push the return past the deadline by no more than what it exceeds a timeout
      by, and no attempt starts without room for its whole timeout. There are never more than
      retries + 1 attempts. */
  lemma WithinDeadline(p: Policy, world: World, ends: Option<int>, lag: nat)
    requires Modest(p) && 0 < p.deadline && p.timeout <= p.deadline && Prompt(p, world, lag) && lag <= MAX / 4
    ensures var s := SendFrom(p, world, ends, 0, 0, None, []);
            && |s.starts| <= p.retries + 1
            && (lag <= p.timeout ==>
                  (s.at <= p.deadline <==> !Overflows(p, world, s.starts) || (ends.Some? && ends.value <= p.deadline)))
            && (!Overflows(p, world, s.starts) ==>
                  && s.at <= p.deadline + Overrun(p, lag)
                  && forall k :: 0 <= k < |s.starts| ==> s.starts[k] + p.timeout <= p.deadline)
  {
    hide OverflowsAt;
    TimeFrom(p, world, ends, 0, 0, None, [], lag);
    Onward(p, world, ends, 0, 0, None, []);
    var s := SendFrom(p, world, ends, 0, 0, None, []);
    if k: nat :| OverflowsAt(p, world, s.starts, k) {
      assert 0 <= k;
    }
  }

  /** Delays that leave room for the deadline and the timeout in 64 bits. */
  ghost predicate ShortDelays(p: Policy, world: World) {
    forall k: nat :: DelayAfter(p, world(k).answer, k) <= MAX - p.deadline - p.timeout
  }

  lemma {:induction false} ShortFrom(p: Policy, world: World, ends: Option<int>, attempt: nat, now: int,
                                     last: Option<bool>, starts: seq<int>, lag: nat)
    requires Modest(p) && 0 < p.deadline && p.timeout <= p.deadline && Prompt(p, world, lag) && lag <= MAX / 4
    requires |starts| == attempt <= p.retries + 1 && 0 <= now <= p.deadline + Overrun(p, lag) && ShortDelays(p, world)
    ensures var s := SendFrom(p, world, ends, attempt, now, last, starts);
            forall k: nat :: attempt <= k ==> !OverflowsAt(p, world, s.starts, k)
    decreases p.retries + 1 - attempt
  {
    hide IsTransientStatus, DelayAfter, CanWait, NoTimeLeft, Transient;
    NoTimeLeftExact(p, now);
    if attempt > p.retries || Ended(ends, now) || NoTimeLeft(p, now) {
    } else {
      var trip := world(attempt);
      var after := now + trip.took;
      var delay := DelayAfter(p, trip.answer, attempt);
      DelayIsPositive(p, trip.answer, attempt);
      LastNeverWaits(p, after, delay, attempt);
      OneAttempt(p, world, ends, attempt, now, last, starts);
      var s := SendFrom(p, world, ends, attempt, now, last, starts);
      var woken := Woken(after, delay, trip.lag);
      if attempt < p.retries {
        CanWaitExact(p, after, delay, attempt);
        if CanWait(p, after, delay, attempt) {
          ShortFrom(p, world, ends, attempt + 1, woken, NextLast(trip.answer, last), starts + [now], lag);
          Onward(p, world, ends, attempt + 1, woken, NextLast(trip.answer, last), starts + [now]);
        }
      }
      assert starts + [now] <= s.starts;
      assert s.starts[attempt] == (starts + [now])[attempt] == now;
    }
  }

  /** So a call is in time whenever every delay leaves that room, as every one up to about 292 years does. */
  lemma ShortDelaysAreInTime(p: Policy, world: World, ends: Option<int>, lag: nat)
    requires Modest(p) && 0 < p.deadline && p.timeout <= p.deadline && Prompt(p, world, lag) && lag <= p.timeout
    requires ShortDelays(p, world)
    ensures SendFrom(p, world, ends, 0, 0, None, []).at <= p.deadline
  {
    hide SendFrom, OverflowsAt;
    ShortFrom(p, world, ends, 0, 0, None, [], lag);
    WithinDeadline(p, world, ends, lag);
  }

  /** Busy at once, every time, naming this wait. */
  function Busy(header: RetryAfter): World {
    (k: nat) => Trip(0, Replied(503, header), 0)
  }

  /** So a server can hold a heartbeat for centuries: 9223372036 seconds fit 64 bits, their sum with the
      timeout does not, and the wait is allowed. A date far enough ahead does the same. */
  lemma RetryAfterOverflows(header: RetryAfter)
    requires header == Seconds(9223372036) || (header.Date? && header.ahead > MAX - 8 * SECOND)
    ensures var p := PolicyFor(Heartbeat);
            var s := SendFrom(p, Busy(header), None, 0, 0, None, []);
            Overflows(p, Busy(header), s.starts) && s.at > p.deadline
  {
    hide Wrap;
    var p := PolicyFor(Heartbeat);
    var s := SendFrom(p, Busy(header), None, 0, 0, None, []);
    FirstStarts(p, Busy(header));
    assert OverflowsAt(p, Busy(header), s.starts, 0);
    WithinDeadline(p, Busy(header), None, 0);
  }

  lemma StartsInTime(p: Policy)
    requires Modest(p) && (p.deadline == 0 || p.timeout <= p.deadline)
    ensures !NoTimeLeft(p, 0)
  {
  }

  /** The first attempt starts at once. */
  lemma FirstStarts(p: Policy, world: World)
    requires Modest(p) && (p.deadline == 0 || p.timeout <= p.deadline)
    ensures var s := SendFrom(p, world, None, 0, 0, None, []); s.starts != [] && s.starts[0] == 0
  {
    hide IsTransientStatus, DelayAfter, CanWait, SendFrom, NoTimeLeft;
    StartsInTime(p);
    OneAttempt(p, world, None, 0, 0, None, []);
    var trip := world(0);
    var delay := DelayAfter(p, trip.answer, 0);
    if CanWait(p, trip.took, delay, 0) {
      Onward(p, world, None, 1, Woken(trip.took, delay, trip.lag), NextLast(trip.answer, None), [] + [0]);
    }
  }

  // ---- what is returned ----

  /** The attempts before the one at hand were transient, and each waited for its delay. */
  ghost predicate Waited(p: Policy, world: World, starts: seq<int>, ready: int) {
    && |starts| <= p.retries + 1
    && (forall k :: 0 <= k < |starts| ==> k < p.retries + 1 && NotBefore(p, world, starts, ready, k))
  }

  ghost predicate NotBefore(p: Policy, world: World, starts: seq<int>, ready: int, k: nat)
    requires k < |starts|
  {
    Transient(world(k).answer)
    && starts[k] + world(k).took + DelayAfter(p, world(k).answer, k) <= if k + 1 < |starts| then starts[k + 1] else ready
  }

  /** What a finished call means. */
  ghost predicate Faithful(p: Policy, world: World, s: Sent) {
    && |s.starts| <= p.retries + 1
    && (forall k :: 0 <= k < |s.starts| - 1 ==> NotBefore(p, world, s.starts, s.at, k))
    && (s.reply.Response? ==>
          s.starts != [] && world(|s.starts| - 1).answer.Replied? && world(|s.starts| - 1).answer.status == s.reply.status)
    && (s.starts != [] && !Transient(world(|s.starts| - 1).answer) ==> s.reply.Response?)
  }

  lemma WaitedMore(p: Policy, world: World, starts: seq<int>, now: int, ready: int)
    requires Waited(p, world, starts, now) && |starts| <= p.retries && Transient(world(|starts|).answer)
    requires now + world(|starts|).took + DelayAfter(p, world(|starts|).answer, |starts|) <= ready
    ensures Waited(p, world, starts + [now], ready)
  {
    hide Transient, DelayAfter;
    var more := starts + [now];
    forall k | 0 <= k < |more| ensures NotBefore(p, world, more, ready, k) {
      if k < |starts| {
        assert NotBefore(p, world, starts, now, k);
      }
    }
  }

  lemma WaitedThenDone(p: Policy, world: World, starts: seq<int>, now: int, at: int)
    requires Waited(p, world, starts, now) && |starts| <= p.retries
    ensures forall k :: 0 <= k < |starts| ==> NotBefore(p, world, starts + [now], at, k)
  {
    hide Transient, DelayAfter;
    forall k | 0 <= k < |starts| ensures NotBefore(p, world, starts + [now], at, k) {
      assert NotBefore(p, world, starts, now, k);
    }
  }

  lemma {:induction false} AnswerFrom(p: Policy, world: World, ends: Option<int>, now: int, last: Option<bool>, starts: seq<int>)
    requires Modest(p) && Waited(p, world, starts, now)
    ensures Faithful(p, world, SendFrom(p, world, ends, |starts|, now, last, starts))
    decreases p.retries + 1 - |starts|
  {
    hide IsTransientStatus, DelayAfter, NoTimeLeft, Wrap, Saturate;
    var attempt := |starts|;
    if attempt > p.retries || Ended(ends, now) || NoTimeLeft(p, now) {
      StillWaited(p, world, starts, now, now);
    } else {
      var trip := world(attempt);
      var after := now + trip.took;
      var delay := DelayAfter(p, trip.answer, attempt);
      DelayIsPositive(p, trip.answer, attempt);
      var s := SendFrom(p, world, ends, attempt, now, last, starts);
      if Transient(trip.answer) && CanWait(p, after, delay, attempt) && !(trip.answer.Failed? && Ended(ends, after))
         && !(delay > 0 && Ended(ends, after + delay)) {
        var ready := Woken(after, delay, trip.lag);
        WaitedMore(p, world, starts, now, ready);
        AnswerFrom(p, world, ends, ready, NextLast(trip.answer, last), starts + [now]);
      } else {
        WaitedThenDone(p, world, starts, now, s.at);
      }
    }
  }

  lemma StillWaited(p: Policy, world: World, starts: seq<int>, now: int, at: int)
    requires Waited(p, world, starts, now)
    ensures starts != [] ==> Transient(world(|starts| - 1).answer)
    ensures forall k :: 0 <= k < |starts| - 1 ==> NotBefore(p, world, starts, at, k)
  {
    hide Transient, DelayAfter;
    if starts != [] {
      assert NotBefore(p, world, starts, now, |starts| - 1);
    }
    forall k | 0 <= k < |starts| - 1 ensures NotBefore(p, world, starts, at, k) {
      assert NotBefore(p, world, starts, now, k);
    }
  }

  /** A reply handed to the caller is the last attempt's own; every attempt before it met a transport
      error or a transient status, and the next one started only after the wait that Retry-After stands
      for, or the backoff when it stands for none; a final status always reaches the caller. Seconds are
      waited as they stand when they are at most 9223372036 (RetryAfterExact). */
  lemma RepliesAreFaithful(p: Policy, world: World, ends: Option<int>)
    requires Modest(p)
    ensures var s := SendFrom(p, world, ends, 0, 0, None, []);
            && Faithful(p, world, s)
            && forall k, n :: 0 <= k < |s.starts| - 1 && 0 < n <= 9223372036
                              && world(k).answer.Replied? && world(k).answer.retryAfter == Seconds(n) ==>
                 s.starts[k] + world(k).took + n * SECOND <= s.starts[k + 1]
  {
    hide SendFrom, Transient, Wrap;
    AnswerFrom(p, world, ends, 0, None, []);
    var s := SendFrom(p, world, ends, 0, 0, None, []);
    forall k, n | 0 <= k < |s.starts| - 1 && 0 < n <= 9223372036
                  && world(k).answer.Replied? && world(k).answer.retryAfter == Seconds(n)
      ensures s.starts[k] + world(k).took + n * SECOND <= s.starts[k + 1]
    {
      assert NotBefore(p, world, s.starts, s.at, k);
      RetryAfterExact(n);
    }
  }

  // ---- which answers are final ----

  /** What one attempt of a finished call led to. */
  ghost predicate Continued(p: Policy, world: World, ends: Option<int>, s: Sent, k: nat) {
    k < |s.starts| ==>
      var a, after := world(k).answer, s.starts[k] + world(k).took;
      var delay := DelayAfter(p, a, k);
      var woken := Woken(after, delay, world(k).lag);
      && 0 <= s.starts[k]
      && (!Transient(a) || k >= p.retries ==> |s.starts| == k + 1 && (a.Replied? ==> s.reply == Response(a.status) && s.at == after))
      && (Transient(a) && CanWait(p, after, delay, k) && !NoTimeLeft(p, woken)
          && !Ended(ends, after) && !Ended(ends, after + delay) && !Ended(ends, woken) ==>
            k + 1 < |s.starts| && s.starts[k + 1] == woken)
  }

  lemma {:induction false} ContinuedFrom(p: Policy, world: World, ends: Option<int>, now: int, last: Option<bool>,
                                         starts: seq<int>, k: nat)
    requires Modest(p) && 0 <= now && |starts| <= k
    ensures Continued(p, world, ends, SendFrom(p, world, ends, |starts|, now, last, starts), k)
    decreases p.retries + 1 - |starts|
  {
    hide IsTransientStatus, DelayAfter, NoTimeLeft, CanWait, Woken, SendFrom;
    var attempt := |starts|;
    Unfolded(p, world, ends, attempt, now, last, starts);
    if attempt <= p.retries && !Ended(ends, now) && !NoTimeLeft(p, now) {
      var trip := world(attempt);
      var after := now + trip.took;
      var delay := DelayAfter(p, trip.answer, attempt);
      var woken := Woken(after, delay, trip.lag);
      DelayIsPositive(p, trip.answer, attempt);
      LastNeverWaits(p, after, delay, attempt);
      OneAttempt(p, world, ends, attempt, now, last, starts);
      WokenLater(after, delay, trip.lag);
      if Transient(trip.answer) && CanWait(p, after, delay, attempt) && !(trip.answer.Failed? && Ended(ends, after))
         && !(delay > 0 && Ended(ends, after + delay)) {
        var more := NextLast(trip.answer, last);
        Onward(p, world, ends, attempt + 1, woken, more, starts + [now]);
        Unfolded(p, world, ends, attempt + 1, woken, more, starts + [now]);
        if k > attempt {
          ContinuedFrom(p, world, ends, woken, more, starts + [now], k);
        } else {
          StartsAt(SendFrom(p, world, ends, attempt + 1, woken, more, starts + [now]), starts, now, woken);
        }
      }
    }
  }

  lemma WokenLater(now: int, delay: Duration, lag: nat)
    requires 0 <= now && 0 <= delay
    ensures 0 <= now <= Woken(now, delay, lag)
  {
  }

  /** The top of the loop. */
  lemma Unfolded(p: Policy, world: World, ends: Option<int>, attempt: nat, now: int, last: Option<bool>, starts: seq<int>)
    ensures var s := SendFrom(p, world, ends, attempt, now, last, starts);
            if attempt > p.retries || Ended(ends, now) || NoTimeLeft(p, now) then s.starts == starts
            else starts + [now] <= s.starts
                 && (var a := world(attempt).answer;
                     a.Replied? && (!Transient(a) || attempt >= p.retries) ==>
                       s == Sent(Response(a.status), now + world(attempt).took, starts + [now]))
  {
    hide IsTransientStatus, DelayAfter, NoTimeLeft, CanWait, Woken;
    if attempt <= p.retries && !Ended(ends, now) && !NoTimeLeft(p, now) {
      var trip := world(attempt);
      var after := now + trip.took;
      var delay := DelayAfter(p, trip.answer, attempt);
      if CanWait(p, after, delay, attempt) {
        LastNeverWaits(p, after, delay, attempt);
        Onward(p, world, ends, attempt + 1, Woken(after, delay, trip.lag), NextLast(trip.answer, last), starts + [now]);
      }
    }
  }

  lemma StartsAt(s: Sent, starts: seq<int>, now: int, woken: int)
    requires starts + [now] <= s.starts
    ensures s.starts[|starts|] == now
    ensures starts + [now] + [woken] <= s.starts ==> |s.starts| > |starts| + 1 && s.starts[|starts| + 1] == woken
  {
    assert (starts + [now])[|starts|] == now;
    if starts + [now] + [woken] <= s.starts {
      assert (starts + [now] + [woken])[|starts| + 1] == woken;
    }
  }

  /** Every attempt of every call: a status other than 408, 429, 500, 502, 503 and 504 is the answer, at
      once; so is whatever the last attempt is answered; anything else is followed by another attempt, as
      long as the caller waits and the deadline leaves room for its timeout, exactly when the wait is over.
      The wait is what Retry-After asks for, up to 9223372036 seconds, and the backoff otherwise. */
  lemma TransientIsRetried(p: Policy, world: World, ends: Option<int>, k: nat)
    requires Modest(p) && k < |SendFrom(p, world, ends, 0, 0, None, []).starts|
    ensures var s := SendFrom(p, world, ends, 0, 0, None, []);
            var a, after := world(k).answer, s.starts[k] + world(k).took;
            if a.Replied? && a.status != 408 && a.status != 429 && a.status != 500 && a.status != 502 && a.status != 503
               && a.status != 504
            then |s.starts| == k + 1 && s.reply == Response(a.status) && s.at == after
            else if k >= p.retries then |s.starts| == k + 1 && (a.Replied? ==> s.reply == Response(a.status) && s.at == after)
            else if a.Replied? && a.retryAfter.Seconds? && a.retryAfter.seconds > 9223372036 then true
            else
              var delay: int := if a.Replied? && a.retryAfter.Seconds? && 0 < a.retryAfter.seconds then a.retryAfter.seconds * SECOND
                                else if a.Replied? && a.retryAfter.Date? && 0 < a.retryAfter.ahead then Min(a.retryAfter.ahead, MAX)
                                else Backoff(p, k);
              var woken := if delay > 0 then after + delay + world(k).lag else after;
              (ends.None? || woken < ends.value) && (p.deadline <= 0 || woken + p.timeout <= p.deadline) ==>
                k + 1 < |s.starts| && s.starts[k + 1] == woken
  {
    hide SendFrom, Backoff, NoTimeLeft, CanWait;
    ContinuedFrom(p, world, ends, 0, None, [], k);
    var s := SendFrom(p, world, ends, 0, 0, None, []);
    var a, after := world(k).answer, s.starts[k] + world(k).took;
    BackoffGrows(p, k, k);
    if k < p.retries {
      var delay := DelayAfter(p, a, k);
      var woken := Woken(after, delay, world(k).lag);
      DelayIsPositive(p, a, k);
      if p.deadline <= 0 || woken + p.timeout <= p.deadline {
        RoomIsLeft(p, woken);
        WaitIsAllowed(p, after, delay, k);
      }
    }
  }

  // ---- no attempt is lost ----

  /** Every attempt fails, and no reply names a wait. */
  ghost predicate Persistent(world: World) {
    forall k :: Transient(world(k).answer)
                && (world(k).answer.Replied? ==> ParseRetryAfter(world(k).answer.retryAfter) <= 0)
  }

  function TotalBackoff(p: Policy, n: nat): int {
    if n == 0 then 0 else TotalBackoff(p, n - 1) + Backoff(p, n - 1)
  }

  function TotalLag(world: World, n: nat): nat {
    if n == 0 then 0 else TotalLag(world, n - 1) + world(n - 1).lag
  }

  /** The longest a persistent failure can take: every attempt its timeout, every wait its backoff. */
  function Longest(p: Policy): int {
    Times(p.retries + 1, p.timeout) + TotalBackoff(p, p.retries)
  }

  function Times(n: nat, x: int): int {
    if n == 0 then 0 else Times(n - 1, x) + x
  }

  lemma {:induction false} TotalsGrow(p: Policy, world: World, m: nat, n: nat)
    requires Modest(p) && m <= n
    ensures TotalBackoff(p, m) <= TotalBackoff(p, n) && TotalLag(world, m) <= TotalLag(world, n)
    ensures Times(m, p.timeout) <= Times(n, p.timeout)
  {
    hide Backoff;
    if m < n {
      BackoffGrows(p, n - 1, n - 1);
      TotalsGrow(p, world, m, n - 1);
    }
  }

  /** What every attempt made means for the reply. */
  predicate Exhausted(p: Policy, world: World, s: Sent) {
    && |s.starts| == p.retries + 1
    && match world(p.retries).answer
       case Replied(status, _) => s.reply == Response(status)
       case Failed(timedOut) => s.reply == if timedOut then Timeout else Network
  }

  lemma {:induction false} AllFrom(p: Policy, world: World, now: int, last: Option<bool>, starts: seq<int>, attempt: nat)
    requires Modest(p) && Persistent(world) && Timely(p, world) && attempt <= p.retries && |starts| == attempt
    requires p.deadline == 0 || Longest(p) + TotalLag(world, p.retries) <= p.deadline
    requires 0 <= now <= Times(attempt, p.timeout) + TotalBackoff(p, attempt) + TotalLag(world, attempt)
    ensures var s := SendFrom(p, world, None, attempt, now, last, starts);
            Exhausted(p, world, s) && s.at <= Longest(p) + TotalLag(world, p.retries)
    decreases p.retries - attempt
  {
    hide IsTransientStatus, Backoff, TotalBackoff, TotalLag, Times, Persistent, Timely, CanWait, NoTimeLeft, SendFrom, DelayAfter;
    TripIsPrompt(p, world, attempt);
    BackoffGrows(p, attempt, attempt);
    TotalsGrow(p, world, attempt, p.retries);
    TimesNext(p.timeout, attempt);
    TotalsGrow(p, world, attempt + 1, p.retries + 1);
    RoomIsLeft(p, now);
    if attempt < p.retries {
      TotalsGrow(p, world, attempt + 1, p.retries);
      NextTotals(p, world, attempt);
      TimesNext(p.timeout, attempt + 1);
      TotalsGrow(p, world, attempt + 2, p.retries + 1);
      var trip := world(attempt);
      var delay := DelayAfter(p, trip.answer, attempt);
      WaitIsAllowed(p, now + trip.took, delay, attempt);
      AllFrom(p, world, Woken(now + trip.took, delay, trip.lag), NextLast(trip.answer, last), starts + [now], attempt + 1);
      OneAttempt(p, world, None, attempt, now, last, starts);
    } else {
      LastAttempt(p, world, now, last, starts);
    }
  }

  /** The last attempt of a persistent failure. */
  lemma LastAttempt(p: Policy, world: World, now: int, last: Option<bool>, starts: seq<int>)
    requires |starts| == p.retries && Transient(world(p.retries).answer) && !NoTimeLeft(p, now)
    ensures var s := SendFrom(p, world, None, p.retries, now, last, starts);
            Exhausted(p, world, s) && s.at == now + world(p.retries).took
  {
    hide IsTransientStatus, NoTimeLeft, DelayAfter, Wrap, Saturate;
  }

  lemma RoomIsLeft(p: Policy, now: int)
    requires Modest(p) && 0 <= now && (p.deadline > 0 ==> now + p.timeout <= p.deadline)
    ensures !NoTimeLeft(p, now)
  {
  }

  lemma WaitIsAllowed(p: Policy, now: int, delay: Duration, attempt: nat)
    requires Modest(p) && 0 <= now && 0 <= delay && attempt < p.retries
    requires p.deadline > 0 ==> now + delay + p.timeout <= p.deadline
    ensures CanWait(p, now, delay, attempt)
  {
  }

  lemma TimesNext(x: int, n: nat)
    ensures Times(n + 1, x) == Times(n, x) + x
  {
  }

  lemma NextTotals(p: Policy, world: World, attempt: nat)
    ensures TotalBackoff(p, attempt + 1) == TotalBackoff(p, attempt) + Backoff(p, attempt)
    ensures TotalLag(world, attempt + 1) == TotalLag(world, attempt) + world(attempt).lag
  {
    hide Backoff;
  }

  lemma TripIsPrompt(p: Policy, world: World, attempt: nat)
    requires Persistent(world) && Timely(p, world)
    ensures world(attempt).took <= p.timeout && Transient(world(attempt).answer)
    ensures DelayAfter(p, world(attempt).answer, attempt) == Backoff(p, attempt)
  {
    hide IsTransientStatus, Backoff;
  }

  /** A policy whose deadline covers every timeout and every backoff never loses an attempt: under a
      persistent failure without Retry-After exactly retries + 1 are made, as long as the waits together
      end no later than the spare time, and the last attempt's outcome is what the caller gets. */
  lemma EveryAttemptIsMade(p: Policy, world: World)
    requires Modest(p) && Persistent(world) && Timely(p, world)
    requires p.deadline == 0 || Longest(p) + TotalLag(world, p.retries) <= p.deadline
    ensures var s := SendFrom(p, world, None, 0, 0, None, []);
            Exhausted(p, world, s) && s.at <= Longest(p) + TotalLag(world, p.retries)
  {
    AllFrom(p, world, 0, None, [], 0);
  }

  /** Every attempt uses its whole timeout and fails; no wait is late. */
  function Slowest(p: Policy): World
    requires Modest(p)
  {
    (k: nat) => Trip(p.timeout, Failed(true), 0)
  }

  lemma {:induction false} SlowestFrom(p: Policy, attempt: nat, last: Option<bool>, starts: seq<int>)
    requires Modest(p) && 0 < p.deadline < Longest(p) && attempt <= p.retries && |starts| == attempt
    requires Times(attempt, p.timeout) + TotalBackoff(p, attempt) <= p.deadline
    ensures |SendFrom(p, Slowest(p), None, attempt, Times(attempt, p.timeout) + TotalBackoff(p, attempt), last, starts).starts|
            <= p.retries
    decreases p.retries - attempt
  {
    hide Backoff, TotalBackoff, Times, CanWait, NoTimeLeft, SendFrom, DelayAfter;
    var now := Times(attempt, p.timeout) + TotalBackoff(p, attempt);
    TimesNext(p.timeout, attempt);
    TotalsGrow(p, Slowest(p), 0, attempt);
    assert 0 <= now by { NoTotals(p); }
    NoTimeLeftExact(p, now);
    if NoTimeLeft(p, now) {
      OutOfTime(p, Slowest(p), attempt, now, last, starts);
    } else {
      OneAttempt(p, Slowest(p), None, attempt, now, last, starts);
      var delay := DelayAfter(p, Failed(true), attempt);
      PlainDelay(p, attempt);
      BackoffGrows(p, attempt, attempt);
      LastNeverWaits(p, now + p.timeout, delay, attempt);
      if attempt < p.retries {
        CanWaitExact(p, now + p.timeout, delay, attempt);
        if CanWait(p, now + p.timeout, delay, attempt) {
          NextTotals(p, Slowest(p), attempt);
          SlowestFrom(p, attempt + 1, Some(true), starts + [now]);
        }
      }
    }
  }

  lemma NoTotals(p: Policy)
    ensures TotalBackoff(p, 0) == 0 && Times(0, p.timeout) == 0
  {
  }

  lemma PlainDelay(p: Policy, attempt: nat)
    ensures DelayAfter(p, Failed(true), attempt) == Backoff(p, attempt)
  {
  }

  lemma OutOfTime(p: Policy, world: World, attempt: nat, now: int, last: Option<bool>, starts: seq<int>)
    requires attempt <= p.retries && NoTimeLeft(p, now)
    ensures SendFrom(p, world, None, attempt, now, last, starts).starts == starts
  {
    hide NoTimeLeft;
  }

  /** And only such a policy: the spare time is needed. When the deadline is shorter than the longest
      run, a server that is slow enough costs the caller at least one attempt. */
  lemma DeadlineDecides(p: Policy)
    requires Modest(p) && 0 < p.deadline
    ensures |SendFrom(p, Slowest(p), None, 0, 0, None, []).starts| == p.retries + 1 <==> Longest(p) <= p.deadline
  {
    hide SendFrom;
    if Longest(p) <= p.deadline {
      NoLag(p, p.retries);
      EveryAttemptIsMade(p, Slowest(p));
    } else {
      NoTotals(p);
      SlowestFrom(p, 0, None, []);
    }
  }

  lemma {:induction false} NoLag(p: Policy, n: nat)
    requires Modest(p)
    ensures TotalLag(Slowest(p), n) == 0
  {
    if n > 0 {
      NoLag(p, n - 1);
    }
  }

  /** Every policy of the table with a deadline leaves at least three seconds to spare, and heartbeat
      leaves no more. */
  lemma TableIsAmple(operation: Operation)
    ensures var p := PolicyFor(operation);
            Modest(p) && (p.deadline > 0 ==> Longest(p) + 3 * SECOND <= p.deadline && p.timeout <= p.deadline)
    ensures PolicyFor(operation).deadline == 0 <==> operation.Download? || operation.UpdateStream?
    ensures Longest(PolicyFor(Heartbeat)) + 3 * SECOND == PolicyFor(Heartbeat).deadline
  {
    hide Backoff, Longest;
    LongestOfTwo(PolicyFor(Heartbeat));
    FirstBackoffs(PolicyFor(Heartbeat));
    var p := PolicyFor(operation);
    FirstBackoffs(p);
    if p.retries == 2 {
      LongestOfTwo(p);
    } else if p.retries == 1 {
      LongestOfOne(p);
    }
  }

  lemma FirstBackoffs(p: Policy)
    requires Modest(p)
    ensures Backoff(p, 0) == p.backoff
    ensures 2 * p.backoff <= p.backoffMax ==> Backoff(p, 1) == 2 * p.backoff
  {
    assert Doubled(p.backoff, 1) == 2 * p.backoff;
  }

  lemma LongestOfTwo(p: Policy)
    requires p.retries == 2
    ensures Longest(p) == 3 * p.timeout + Backoff(p, 0) + Backoff(p, 1)
  {
    hide Backoff;
    assert TotalBackoff(p, 1) == Backoff(p, 0);
    assert Times(1, p.timeout) == p.timeout;
    assert Times(2, p.timeout) == 2 * p.timeout;
  }

  lemma LongestOfOne(p: Policy)
    requires p.retries == 1
    ensures Longest(p) == 2 * p.timeout + Backoff(p, 0)
  {
    hide Backoff;
    assert TotalBackoff(p, 1) == Backoff(p, 0);
    assert Times(1, p.timeout) == p.timeout;
  }

  /** For every operation: under persistent failure without Retry-After, retries + 1 attempts, all within
      the deadline, as long as the waits together end at most three seconds late. */
  lemma NoOperationIsCutShort(operation: Operation, world: World)
    requires Persistent(world) && Timely(PolicyFor(operation), world)
    requires TotalLag(world, PolicyFor(operation).retries) <= 3 * SECOND
    ensures var p, s := PolicyFor(operation), SendFrom(PolicyFor(operation), world, None, 0, 0, None, []);
            && Exhausted(p, world, s) && (p.deadline > 0 ==> s.at <= p.deadline)
            && |s.starts| == match operation
                             case TrustedTime | OnlineKeyManifest | UpdateCheck | Heartbeat | OperationAuthorization | Download => 3
                             case UpdateStream => 1
                             case _ => 2
  {
    RetriesOf(operation);
    hide PolicyFor, Persistent, Timely, SendFrom, Longest, TotalLag, Modest;
    TableIsAmple(operation);
    ModestDeadline(operation);
    EveryAttemptIsMade(PolicyFor(operation), world);
  }

  lemma RetriesOf(operation: Operation)
    ensures PolicyFor(operation).retries
            == match operation
               case TrustedTime | OnlineKeyManifest | UpdateCheck | Heartbeat | OperationAuthorization | Download => 2
               case UpdateStream => 0
               case _ => 1
  {
  }

  lemma ModestDeadline(operation: Operation)
    ensures PolicyFor(operation).deadline >= 0
  {
  }
}
