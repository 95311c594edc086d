/** The verified update stream: one connection's messages, and the reconnect loop over them. */
module UpdateStream {
  import opened Basics
  import opened Text
  import opened TrustChain
  import KeyRing

  datatype UpdateEvent = UpdateEvent(id: Bytes, eventType: Bytes, body: Bytes)

  /** json.Unmarshal into a carrier and into an event, and strings.TrimSpace. */
  datatype Decoder = Decoder(carrier: Bytes -> Option<Carrier>, event: Bytes -> Option<UpdateEvent>,
                             trim: Bytes -> Bytes)

  /** The trusted second and the device id when a message is dispatched. */
  datatype Moment = Moment(now: int, deviceId: Bytes)

  /** A message, the first line after the message before it, and the blank line that completes it. */
  datatype Message = Message(name: Bytes, id: Bytes, data: seq<Bytes>, from: nat, at: nat)

  datatype ErrorKind = Unauthorized | Integrity | Protocol | Network | SessionLost | DeviceBlocked
                     | UnsupportedVersion | UpdateRegionBlocked | OtherKind

  datatype Outcome = Stopped | Cancelled | Failed(kind: ErrorKind)

  /** What a connection did, in order: gate openings and yielded events, each with the carrier that
      was verified, the ring it was verified under, and the line that completed it. */
  datatype Entry =
    | GateOpened(carrier: Carrier, keys: seq<KeyRing.Key>, at: nat)
    | Yielded(event: UpdateEvent, carrier: Carrier, keys: seq<KeyRing.Key>, at: nat)

  /** A connection so far: the client's state, whether the gate is open, and the log. */
  datatype Progress = Progress(state: State, gate: bool, log: seq<Entry>)

  /** How many events the consumer was handed. */
  function YieldCount(log: seq<Entry>): nat {
    if log == [] then 0
    else YieldCount(log[..|log| - 1]) + (if log[|log| - 1].Yielded? then 1 else 0)
  }

  /** One opened connection: its request nonce, the lines read before it ended, how it ended, the
      moment of each line, what other calls of the client received before it, and whether the consumer
      wants more after each event. What they receive after the last message counts for the next attempt. */
  datatype Connection = Connection(nonce: Bytes, lines: seq<Bytes>, cancelled: bool, moments: nat -> Moment,
                                   others: nat -> seq<Event>, wants: nat -> bool)

  datatype Setup = Setup(options: Options, crypto: Crypto, decoder: Decoder, moments: nat -> Moment,
                         others: nat -> seq<Event>, wants: nat -> bool)

  /** What the network does with one attempt to open the stream. */
  datatype Opening = Refused(kind: ErrorKind) | Opened(connection: Connection)

  /** One attempt: what other calls of the client received before it, the trusted second at which it asks
      for the session, what the network answers, and whether the wait after it runs to its end. */
  datatype Attempt = Attempt(meanwhile: seq<Event>, now: int, opening: Opening, resumes: bool)

  /** One opened connection, the ring it met, its log, and how it ended. */
  datatype Visit = Visit(connection: Connection, keys: seq<KeyRing.Key>, log: seq<Entry>, outcome: Outcome)

  /** Pending: the given attempts are used up. Silent: the sequence ended without an error. */
  datatype Ending = Pending | Silent | Reported(outcome: Outcome)

  function KindOf(e: AuthzError): ErrorKind {
    match e
    case CarrierInvalid => Protocol
    case CarrierMissing => Protocol
    case AuthzInvalid => Unauthorized
    case KeyUnknown => Unauthorized
    case DataMismatch => Integrity
    case SignatureInvalid => Integrity
  }

  predicate Named(name: Bytes, literal: string) {
    Lower(name) == Lit(literal)
  }

  function CarrierOf(u: Setup, m: Message): Option<Carrier> {
    u.decoder.carrier(Join(m.data, NEWLINE))
  }

  predicate Verifies(u: Setup, nonce: Bytes, s: State, m: Message) {
    AuthzAccepted(u.options, u.crypto, s.keys, CarrierOf(u, m), nonce, u.moments(m.at).deviceId, u.moments(m.at).now)
  }

  function AfterVerify(u: Setup, nonce: Bytes, s: State, m: Message): State {
    AfterAuthz(u.options, u.crypto, s, CarrierOf(u, m), nonce, u.moments(m.at).deviceId, u.moments(m.at).now)
  }

  function Fault(u: Setup, nonce: Bytes, s: State, m: Message): ErrorKind {
    KindOf(AuthzFault(u.options, u.crypto, s.keys, CarrierOf(u, m), nonce, u.moments(m.at).deviceId,
                      u.moments(m.at).now))
  }

  /** An event keeps its own id and type; the stream's fill in for missing ones. */
  function Completed(event: UpdateEvent, m: Message): UpdateEvent {
    event.(id := if event.id == [] then m.id else event.id,
           eventType := if event.eventType == [] then m.name else event.eventType)
  }

  /** What other calls make of the state. */
  function Met(o: Options, c: Crypto, s: State, events: seq<Event>): State
    decreases |events|
  {
    if events == [] then s else Met(o, c, TrustChain.After(o, c, s, events[0]), events[1..])
  }

  /** What they receive before the lines from one up to another. */
  function Between(others: nat -> seq<Event>, from: nat, end: nat): seq<Event> {
    if end <= from then [] else Between(others, from, end - 1) + others(end - 1)
  }

  /** One message, in the state that the calls before it left. */
  function Dispatched(u: Setup, nonce: Bytes, p: Progress, m: Message): (Progress, Option<Outcome>) {
    Handled(u, nonce, p.(state := Met(u.options, u.crypto, p.state, Between(u.others, m.from, m.at + 1))), m)
  }

  /** parseSSEMessage and the dispatch around it; no outcome means the connection goes on. */
  function Handled(u: Setup, nonce: Bytes, p: Progress, m: Message): (Progress, Option<Outcome>) {
    if m.data == [] || Named(m.name, "connected") then (p, None)
    else if Named(m.name, "authz_expired") || Named(m.name, "authz-expired") then
      (p.(state := p.state.(session := [], sessionExpiresAt := 0)), Some(Failed(SessionLost)))
    else if !Named(m.name, "authz") && !p.gate then (p, None)
    else if !Verifies(u, nonce, p.state, m) then (p, Some(Failed(Fault(u, nonce, p.state, m))))
    else
      var carrier, next := CarrierOf(u, m).value, AfterVerify(u, nonce, p.state, m);
      if Named(m.name, "authz") then
        (Progress(next, true, p.log + [GateOpened(carrier, p.state.keys, m.at)]), None)
      else
        var event := u.decoder.event(carrier.data);
        if event.None? then (p.(state := next), Some(Failed(Protocol)))
        else
          var entry := Yielded(Completed(event.value, m), carrier, p.state.keys, m.at);
          (Progress(next, true, p.log + [entry]), if u.wants(YieldCount(p.log)) then None else Some(Stopped))
  }

  /** All messages of a connection, then its end. */
  function Connected(u: Setup, nonce: Bytes, cancelled: bool, p: Progress, messages: seq<Message>): (Progress, Outcome)
    decreases |messages|
  {
    if messages == [] then
      (p, if cancelled then Cancelled else Failed(if p.gate then Network else Unauthorized))
    else
      var step := Dispatched(u, nonce, p, messages[0]);
      if step.1.Some? then (step.0, step.1.value)
      else Connected(u, nonce, cancelled, step.0, messages[1..])
  }

  function NoSession(s: State): State {
    s.(session := [], sessionExpiresAt := 0)
  }

  /** The last arm of the loop: stop silently, report, or go on. */
  function Decided(reconnect: bool, outcome: Outcome, resumes: bool): (r: Option<Ending>)
    ensures r.None? ==> reconnect && Reconnectable(outcome)
  {
    if outcome == Stopped then Some(Silent)
    else if !reconnect || !Reconnectable(outcome) then Some(Reported(outcome))
    else if outcome == Cancelled || !resumes then Some(Silent)
    else None
  }

  predicate Reconnectable(outcome: Outcome) {
    match outcome
    case Stopped => false
    case Cancelled => true
    case Failed(kind) =>
      !kind.DeviceBlocked? && !kind.UnsupportedVersion? && !kind.UpdateRegionBlocked?
      && !kind.Unauthorized? && !kind.Integrity?
  }

  function SetupFor(o: Options, c: Crypto, d: Decoder, connection: Connection): Setup {
    Setup(o, c, d, connection.moments, connection.others, connection.wants)
  }

  /** One whole connection, starting with the gate closed. */
  function Once(o: Options, c: Crypto, d: Decoder, s: State, connection: Connection): (Progress, Outcome) {
    Connected(SetupFor(o, c, d, connection), connection.nonce, connection.cancelled, Progress(s, false, []),
              Messages(d.trim, connection.lines, 0, FIRST))
  }

  /** One attempt: the state and the visits after it, and how it went. */
  function Attempted(o: Options, c: Crypto, d: Decoder, before: State, a: Attempt): (State, seq<Visit>, Outcome) {
    Tried(o, c, d, Met(o, c, before, a.meanwhile), a)
  }

  function Tried(o: Options, c: Crypto, d: Decoder, s: State, a: Attempt): (State, seq<Visit>, Outcome) {
    if s.session == [] || s.sessionExpiresAt <= a.now then (NoSession(s), [], Failed(SessionLost))
    else match a.opening
      case Refused(kind) => (s, [], Failed(kind))
      case Opened(connection) =>
        var ended := Once(o, c, d, s, connection);
        (ended.0.state, [Visit(connection, s.keys, ended.0.log, ended.1)], ended.1)
  }

  /** The reconnect loop over the given attempts. */
  function Watched(o: Options, c: Crypto, d: Decoder, reconnect: bool, s: State, attempts: seq<Attempt>):
    (State, seq<Visit>, Ending)
    decreases |attempts|
  {
    if attempts == [] then (s, [], Pending)
    else
      var first := Attempted(o, c, d, s, attempts[0]);
      var after := Decided(reconnect, first.2, attempts[0].resumes);
      if after.Some? then (first.0, first.1, after.value)
      else
        var rest := Watched(o, c, d, reconnect, first.0, attempts[1..]);
        (rest.0, first.1 + rest.1, rest.2)
  }

  // ---- lines ----

  const FIRST: Message := Message([], [], [], 0, 0)

  /** The messages that blank lines end; what follows the last blank line is never dispatched. */
  function Messages(trim: Bytes -> Bytes, lines: seq<Bytes>, from: nat, pending: Message): seq<Message>
    requires from <= |lines|
    decreases |lines| - from
  {
    if from == |lines| then []
    else if lines[from] == [] then
      [pending.(at := from)] + Messages(trim, lines, from + 1, FIRST.(from := from + 1))
    else Messages(trim, lines, from + 1, WithLine(trim, lines[from], pending))
  }

  function WithLine(trim: Bytes -> Bytes, line: Bytes, m: Message): Message {
    if Starts(line, ":") then m
    else if Starts(line, "event:") then m.(name := trim(line[6..]))
    else if Starts(line, "id:") then m.(id := trim(line[3..]))
    else if Starts(line, "data:") then m.(data := m.data + [trim(line[5..])])
    else m
  }

  // ---- the loops ----

  class Stream {
    const client: Client
    const decoder: Decoder

    ghost predicate Valid()
      reads this, client
    {
      client.Valid()
    }

    constructor (client: Client, decoder: Decoder)
      requires client.Valid()
      ensures Valid() && this.client == client && this.decoder == decoder
    {
      this.client := client;
      this.decoder := decoder;
    }

    method Handle(u: Setup, nonce: Bytes, gate: bool, log: seq<Entry>, m: Message)
      returns (gateAfter: bool, logAfter: seq<Entry>, outcome: Option<Outcome>)
      requires Valid() && u.options == client.options && u.crypto == client.crypto && u.decoder == decoder
      modifies client`session, client`sessionExpiresAt
      ensures Valid()
      ensures (Progress(client.Now(), gateAfter, logAfter), outcome)
              == Handled(u, nonce, Progress(old(client.Now()), gate, log), m)
    {
      hide AuthzAccepted, AfterAuthz, AuthzFault, Lit, Lower, Join;
      gateAfter, logAfter, outcome := gate, log, None;
      if m.data == [] || Named(m.name, "connected") {
        return;
      }
      var carrier := decoder.carrier(Join(m.data, NEWLINE));
      var moment := u.moments(m.at);
      if Named(m.name, "authz_expired") || Named(m.name, "authz-expired") {
        client.ClearSession();
        outcome := Some(Failed(SessionLost));
        return;
      }
      if Named(m.name, "authz") {
        var verified := client.VerifyAuthz(carrier, nonce, moment.deviceId, moment.now);
        if verified.Err? {
          outcome := Some(Failed(KindOf(verified.error)));
          NothingChanged(u, nonce, old(client.Now()), m);
          return;
        }
        CarrierPresent(u, nonce, old(client.Now()), m);
        gateAfter := true;
        logAfter := log + [GateOpened(carrier.value, client.Keys(), m.at)];
        return;
      }
      if !gate {
        return;
      }
      var verified := client.VerifyAuthz(carrier, nonce, moment.deviceId, moment.now);
      if verified.Err? {
        outcome := Some(Failed(KindOf(verified.error)));
        NothingChanged(u, nonce, old(client.Now()), m);
        return;
      }
      CarrierPresent(u, nonce, old(client.Now()), m);
      var event := decoder.event(verified.value);
      if event.None? {
        outcome := Some(Failed(Protocol));
        return;
      }
      logAfter := log + [Yielded(Completed(event.value, m), carrier.value, client.Keys(), m.at)];
      if !u.wants(YieldCount(log)) {
        outcome := Some(Stopped);
      }
    }

    /** The other calls, one after the other. */
    method Meet(events: seq<Event>)
      requires Valid()
      modifies client
      ensures Valid()
      ensures client.Now() == Met(client.options, client.crypto, old(client.Now()), events)
    {
      hide AfterAuthz, AfterManifest, AuthzAccepted, ManifestVerified;
      assert events[0..] == events;
      for k := 0 to |events|
        invariant Valid()
        invariant Met(client.options, client.crypto, old(client.Now()), events)
               == Met(client.options, client.crypto, client.Now(), events[k..])
      {
        assert events[k..][1..] == events[k + 1..];
        match events[k] {
          case ManifestReceived(manifest, now) =>
            var error := client.AcceptKeyManifest(manifest, now);
          case AuthzReceived(carrier, nonce, deviceId, now) =>
            var verified := client.VerifyAuthz(carrier, nonce, deviceId, now);
          case SessionAsked(now) =>
            var session := client.EnsureSession(now);
          case SessionCleared =>
            client.ClearSession();
        }
      }
    }

    /** What other calls receive before the lines from one up to another. */
    static method Collect(others: nat -> seq<Event>, from: nat, end: nat) returns (events: seq<Event>)
      requires from <= end
      ensures events == Between(others, from, end)
    {
      events := [];
      for k := from to end
        invariant events == Between(others, from, k)
      {
        events := events + others(k);
      }
    }

    method Dispatch(u: Setup, nonce: Bytes, gate: bool, log: seq<Entry>, m: Message)
      returns (gateAfter: bool, logAfter: seq<Entry>, outcome: Option<Outcome>)
      requires Valid() && u.options == client.options && u.crypto == client.crypto && u.decoder == decoder
      requires m.from <= m.at
      modifies client
      ensures Valid()
      ensures (Progress(client.Now(), gateAfter, logAfter), outcome)
              == Dispatched(u, nonce, Progress(old(client.Now()), gate, log), m)
    {
      hide Handled, Met, Between;
      var events := Collect(u.others, m.from, m.at + 1);
      Meet(events);
      gateAfter, logAfter, outcome := Handle(u, nonce, gate, log, m);
    }

    /** readUpdateStreamOnce, from the opened response on. */
    method ReadOnce(connection: Connection) returns (log: seq<Entry>, outcome: Outcome)
      requires Valid()
      modifies client
      ensures Valid()
      ensures var ended := Once(client.options, client.crypto, decoder, old(client.Now()), connection);
              ended.0.state == client.Now() && ended.0.log == log && ended.1 == outcome
    {
      hide Dispatched, WithLine;
      log := [];
      var authzVerified := false;
      var pending := FIRST;
      var u := SetupFor(client.options, client.crypto, decoder, connection);
      var nonce, cancelled := connection.nonce, connection.cancelled;
      ghost var whole := Connected(u, nonce, cancelled, Progress(client.Now(), false, []),
                                   Messages(u.decoder.trim, connection.lines, 0, pending));
      for k := 0 to |connection.lines|
        invariant Valid() && pending.from <= k
        invariant whole == Connected(u, nonce, cancelled, Progress(client.Now(), authzVerified, log),
                                     Messages(u.decoder.trim, connection.lines, k, pending))
      {
        var line := connection.lines[k];
        if line == [] {
          ghost var rest := Messages(u.decoder.trim, connection.lines, k + 1, FIRST.(from := k + 1));
          assert ([pending.(at := k)] + rest)[1..] == rest;
          var ended: Option<Outcome>;
          authzVerified, log, ended := Dispatch(u, nonce, authzVerified, log, pending.(at := k));
          if ended.Some? {
            return log, ended.value;
          }
          pending := FIRST.(from := k + 1);
        } else {
          LineKeepsFrom(decoder.trim, line, pending);
          pending := WithLine(decoder.trim, line, pending);
        }
      }
      outcome := if cancelled then Cancelled else Failed(if authzVerified then Network else Unauthorized);
    }

    /** openUpdateStream and readUpdateStreamOnce. */
    method Try(a: Attempt) returns (visits: seq<Visit>, outcome: Outcome)
      requires Valid()
      modifies client
      ensures Valid()
      ensures (client.Now(), visits, outcome)
              == Attempted(client.options, client.crypto, decoder, old(client.Now()), a)
    {
      hide Once, Met;
      Meet(a.meanwhile);
      var session := client.EnsureSession(a.now);
      if session.None? {
        return [], Failed(SessionLost);
      }
      match a.opening
      case Refused(kind) =>
        return [], Failed(kind);
      case Opened(connection) =>
        var keys := client.Keys();
        var log, ended := ReadOnce(connection);
        return [Visit(connection, keys, log, ended)], ended;
    }

    /** WatchUpdates over a script of attempts. */
    method Watch(reconnect: bool, attempts: seq<Attempt>) returns (visits: seq<Visit>, ending: Ending)
      requires Valid()
      modifies client
      ensures Valid()
      ensures (client.Now(), visits, ending)
              == Watched(client.options, client.crypto, decoder, reconnect, old(client.Now()), attempts)
    {
      hide Attempted, Decided;
      visits := [];
      ghost var whole := Watched(client.options, client.crypto, decoder, reconnect, client.Now(), attempts);
      assert attempts[0..] == attempts && [] + whole.1 == whole.1;
      for k := 0 to |attempts|
        invariant Valid()
        invariant var rest := Watched(client.options, client.crypto, decoder, reconnect, client.Now(), attempts[k..]);
                  whole == (rest.0, visits + rest.1, rest.2)
      {
        assert attempts[k..][1..] == attempts[k + 1..];
        ghost var rest := Watched(client.options, client.crypto, decoder, reconnect, client.Now(), attempts[k..]);
        ghost var before := visits;
        var more, outcome := Try(attempts[k]);
        visits := visits + more;
        var after := Decided(reconnect, outcome, attempts[k].resumes);
        if after.Some? {
          return visits, after.value;
        }
        ghost var later := Watched(client.options, client.crypto, decoder, reconnect, client.Now(), attempts[k + 1..]);
        assert before + (more + later.1) == visits + later.1;
      }
      ending := Pending;
      assert visits + [] == visits;
    }
  }

  lemma CarrierPresent(u: Setup, nonce: Bytes, s: State, m: Message)
    requires Verifies(u, nonce, s, m)
    ensures CarrierOf(u, m).Some?
  {
  }

  lemma NothingChanged(u: Setup, nonce: Bytes, s: State, m: Message)
    requires !Verifies(u, nonce, s, m)
    ensures AfterVerify(u, nonce, s, m) == s
  {
  }

  // ---- the gate ----

  /** What one event that other calls receive makes of the ring. */
  function KeysAfter(o: Options, c: Crypto, keys: seq<KeyRing.Key>, e: Event): seq<KeyRing.Key> {
    if e.ManifestReceived? && e.manifest.Some? && ManifestVerified(o, c, e.manifest.value, e.now)
    then KeyRing.Step(keys, ManifestKey(e.manifest.value)) else keys
  }

  function KeysMet(o: Options, c: Crypto, keys: seq<KeyRing.Key>, events: seq<Event>): seq<KeyRing.Key>
    decreases |events|
  {
    if events == [] then keys else KeysMet(o, c, KeysAfter(o, c, keys, events[0]), events[1..])
  }

  /** The ring at a line of a connection that met the given one: the key manifests that other calls
      received since, and nothing else, made it. */
  function RingAt(u: Setup, keys: seq<KeyRing.Key>, line: nat): seq<KeyRing.Key> {
    KeysMet(u.options, u.crypto, keys, Between(u.others, 0, line + 1))
  }

  lemma {:induction false} MetKeys(o: Options, c: Crypto, s: State, events: seq<Event>)
    ensures Met(o, c, s, events).keys == KeysMet(o, c, s.keys, events)
    decreases |events|
  {
    hide AuthzAccepted, ManifestVerified, KeyRing.Step;
    if events != [] {
      MetKeys(o, c, TrustChain.After(o, c, s, events[0]), events[1..]);
    }
  }

  lemma {:induction false} KeysMetConcat(o: Options, c: Crypto, keys: seq<KeyRing.Key>, a: seq<Event>, b: seq<Event>)
    ensures KeysMet(o, c, keys, a + b) == KeysMet(o, c, KeysMet(o, c, keys, a), b)
    decreases |a|
  {
    hide KeysAfter;
    if a == [] {
      assert a + b == b;
    } else {
      assert (a + b)[1..] == a[1..] + b && (a + b)[0] == a[0];
      KeysMetConcat(o, c, KeysAfter(o, c, keys, a[0]), a[1..], b);
    }
  }

  lemma {:induction false} BetweenConcat(others: nat -> seq<Event>, from: nat, middle: nat, end: nat)
    requires from <= middle <= end
    ensures Between(others, from, end) == Between(others, from, middle) + Between(others, middle, end)
    decreases end
  {
    if middle < end {
      BetweenConcat(others, from, middle, end - 1);
    }
  }

  /** The carrier was verified under the ring of its line with this connection's nonce, at the second and
      for the device of that line; an event is what the verified data decodes to. */
  predicate EntryVerified(u: Setup, nonce: Bytes, keys: seq<KeyRing.Key>, e: Entry) {
    && e.keys == RingAt(u, keys, e.at)
    && AuthzAccepted(u.options, u.crypto, e.keys, Some(e.carrier), nonce, u.moments(e.at).deviceId, u.moments(e.at).now)
    && (e.Yielded? ==> u.decoder.event(e.carrier.data).Some? && Extends(u.decoder.event(e.carrier.data).value, e.event))
  }

  /** Nothing the sender gave is changed. */
  predicate Extends(sent: UpdateEvent, event: UpdateEvent) {
    event.body == sent.body && (sent.id != [] ==> event.id == sent.id)
    && (sent.eventType != [] ==> event.eventType == sent.eventType)
  }

  /** Every entry was verified with this connection's nonce, and the first is a gate opening. */
  predicate Gated(u: Setup, nonce: Bytes, keys: seq<KeyRing.Key>, log: seq<Entry>) {
    && (forall k :: 0 <= k < |log| ==> EntryVerified(u, nonce, keys, log[k]))
    && (log != [] ==> log[0].GateOpened?)
  }

  /** The ring once all lines before one are read. */
  function RingBefore(u: Setup, keys: seq<KeyRing.Key>, line: nat): seq<KeyRing.Key> {
    KeysMet(u.options, u.crypto, keys, Between(u.others, 0, line))
  }

  lemma HandledKeepsGate(u: Setup, nonce: Bytes, keys: seq<KeyRing.Key>, p: Progress, m: Message)
    requires Gated(u, nonce, keys, p.log) && (p.gate <==> p.log != []) && p.state.keys == RingAt(u, keys, m.at)
    ensures var q := Handled(u, nonce, p, m);
            && Gated(u, nonce, keys, q.0.log) && (q.0.gate <==> q.0.log != []) && p.log <= q.0.log
            && q.0.state.keys == p.state.keys
            && (q.1 == Some(Failed(SessionLost)) ==> q.0.state.session == [])
  {
    hide AuthzAccepted, Lit, Lower, Join, RingAt;
    if Verifies(u, nonce, p.state, m) {
      CarrierPresent(u, nonce, p.state, m);
      var q := Handled(u, nonce, p, m).0;
      AuthzKeepsKeys(u, nonce, p.state, m);
      forall k | 0 <= k < |q.log| ensures EntryVerified(u, nonce, keys, q.log[k]) {
        assert k < |p.log| ==> q.log[k] == p.log[k];
        assert Some(CarrierOf(u, m).value) == CarrierOf(u, m);
      }
    }
  }

  lemma DispatchKeepsGate(u: Setup, nonce: Bytes, keys: seq<KeyRing.Key>, p: Progress, m: Message)
    requires Gated(u, nonce, keys, p.log) && (p.gate <==> p.log != [])
    requires m.from <= m.at && p.state.keys == RingBefore(u, keys, m.from)
    ensures var q := Dispatched(u, nonce, p, m);
            && Gated(u, nonce, keys, q.0.log) && (q.0.gate <==> q.0.log != []) && p.log <= q.0.log
            && q.0.state.keys == RingBefore(u, keys, m.at + 1)
            && (q.1 == Some(Failed(SessionLost)) ==> q.0.state.session == [])
  {
    hide Handled, Gated, Met, KeysMet, Between;
    var events := Between(u.others, m.from, m.at + 1);
    MetKeys(u.options, u.crypto, p.state, events);
    BetweenConcat(u.others, 0, m.from, m.at + 1);
    KeysMetConcat(u.options, u.crypto, keys, Between(u.others, 0, m.from), events);
    HandledKeepsGate(u, nonce, keys, p.(state := Met(u.options, u.crypto, p.state, events)), m);
  }

  lemma AuthzKeepsKeys(u: Setup, nonce: Bytes, s: State, m: Message)
    ensures AfterVerify(u, nonce, s, m).keys == s.keys
  {
    hide AuthzAccepted;
  }

  /** Messages follow one another without a gap. */
  predicate Chained(messages: seq<Message>, from: nat)
    decreases |messages|
  {
    messages != [] ==> messages[0].from == from <= messages[0].at && Chained(messages[1..], messages[0].at + 1)
  }

  lemma {:induction false} MessagesAreChained(trim: Bytes -> Bytes, lines: seq<Bytes>, from: nat, pending: Message)
    requires pending.from <= from <= |lines|
    ensures Chained(Messages(trim, lines, from, pending), pending.from)
    decreases |lines| - from
  {
    hide WithLine;
    if from == |lines| {
    } else if lines[from] == [] {
      var rest := Messages(trim, lines, from + 1, FIRST.(from := from + 1));
      MessagesAreChained(trim, lines, from + 1, FIRST.(from := from + 1));
      assert ([pending.(at := from)] + rest)[1..] == rest;
    } else {
      LineKeepsFrom(trim, lines[from], pending);
      MessagesAreChained(trim, lines, from + 1, WithLine(trim, lines[from], pending));
    }
  }

  lemma LineKeepsFrom(trim: Bytes -> Bytes, line: Bytes, m: Message)
    ensures WithLine(trim, line, m).from == m.from
  {
    hide Starts;
  }

  /** On every connection, from whatever state, whatever other calls receive while it is read: an event is
      yielded only after an authz message that was verified on that connection with its nonce, its own
      carrier was verified too, each under the ring of its line, and it is what the verified data decodes
      to. The stream itself does not touch the ring, and an expiry message leaves no session. */
  lemma {:induction false} ConnectionIsGated(u: Setup, nonce: Bytes, cancelled: bool, keys: seq<KeyRing.Key>, from: nat,
                                             p: Progress, messages: seq<Message>)
    requires Gated(u, nonce, keys, p.log) && (p.gate <==> p.log != [])
    requires Chained(messages, from) && p.state.keys == RingBefore(u, keys, from)
    ensures var ended := Connected(u, nonce, cancelled, p, messages);
            && Gated(u, nonce, keys, ended.0.log)
            && (exists end: nat :: ended.0.state.keys == RingBefore(u, keys, end))
            && (ended.1 == Failed(SessionLost) ==> ended.0.state.session == [])
    decreases |messages|
  {
    hide Dispatched, Gated, RingBefore;
    if messages == [] {
    } else {
      DispatchKeepsGate(u, nonce, keys, p, messages[0]);
      var step := Dispatched(u, nonce, p, messages[0]);
      if step.1.None? {
        ConnectionIsGated(u, nonce, cancelled, keys, messages[0].at + 1, step.0, messages[1..]);
      }
    }
  }

  // ---- the whole watch ----

  /** The log of this visit is gated by this visit's nonce, under the ring it met and what became of it. */
  predicate VisitGated(o: Options, c: Crypto, d: Decoder, v: Visit) {
    Gated(SetupFor(o, c, d, v.connection), v.connection.nonce, v.keys, v.log)
  }

  predicate AllGated(o: Options, c: Crypto, d: Decoder, visits: seq<Visit>) {
    forall k :: 0 <= k < |visits| ==> VisitGated(o, c, d, visits[k])
  }

  /** Every visit but the last ended in a way that lets the stream reconnect. */
  predicate OnlyLastEnds(visits: seq<Visit>) {
    forall k :: 0 <= k < |visits| - 1 ==> Reconnectable(visits[k].outcome)
  }

  lemma OnceGated(o: Options, c: Crypto, d: Decoder, s: State, connection: Connection)
    ensures var ended := Once(o, c, d, s, connection);
            && VisitGated(o, c, d, Visit(connection, s.keys, ended.0.log, ended.1))
            && (exists end: nat :: ended.0.state.keys == RingBefore(SetupFor(o, c, d, connection), s.keys, end))
            && (ended.1 == Failed(SessionLost) ==> ended.0.state.session == [])
  {
    hide Connected, Messages;
    MessagesAreChained(d.trim, connection.lines, 0, FIRST);
    ConnectionIsGated(SetupFor(o, c, d, connection), connection.nonce, connection.cancelled, s.keys, 0,
                      Progress(s, false, []), Messages(d.trim, connection.lines, 0, FIRST));
  }

  /** One attempt, from the state it meets. */
  lemma TriedGated(o: Options, c: Crypto, d: Decoder, s: State, a: Attempt)
    ensures var t := Tried(o, c, d, s, a);
            && AllGated(o, c, d, t.1) && |t.1| <= 1
            && (t.0.keys == s.keys
                || (a.opening.Opened?
                    && exists end: nat :: t.0.keys == RingBefore(SetupFor(o, c, d, a.opening.connection), s.keys, end)))
            && (forall v :: v in t.1 ==> v.outcome == t.2 && v.keys == s.keys)
            && (t.1 != [] && t.2 == Failed(SessionLost) ==> t.0.session == [])
            && (s.session == [] ==> t.1 == [] && t.0.session == [])
  {
    hide Once, VisitGated, RingBefore;
    if s.session == [] || s.sessionExpiresAt <= a.now {
    } else if a.opening.Opened? {
      OnceGated(o, c, d, s, a.opening.connection);
    }
  }

  /** Over the whole watch, from any state, whatever other calls receive in between: on every connection
      that opens, an event is yielded only after an authz message verified on that same connection with
      that connection's nonce, under the ring of that moment, so the gate closes again on each reconnect;
      nothing follows a connection that ended in a terminal way; an error is reported at most once, at
      the end, and only for a reason that stops the stream. */
  lemma {:induction false} WatchIsGated(o: Options, c: Crypto, d: Decoder, reconnect: bool, s: State,
                                        attempts: seq<Attempt>)
    ensures var w := Watched(o, c, d, reconnect, s, attempts);
            && AllGated(o, c, d, w.1) && OnlyLastEnds(w.1)
            && (w.2.Reported? ==> w.2.outcome != Stopped && (!reconnect || !Reconnectable(w.2.outcome)))
            && (!reconnect ==> |w.1| <= 1)
    decreases |attempts|
  {
    hide Tried, Met, VisitGated, Reconnectable;
    if attempts == [] {
    } else {
      TriedGated(o, c, d, Met(o, c, s, attempts[0].meanwhile), attempts[0]);
      var first := Attempted(o, c, d, s, attempts[0]);
      if Decided(reconnect, first.2, attempts[0].resumes).None? {
        WatchIsGated(o, c, d, reconnect, first.0, attempts[1..]);
      }
    }
  }

  /** Every key of a ring was signed by the configured root. */
  ghost predicate RingOf(o: Options, c: Crypto, keys: seq<KeyRing.Key>) {
    forall i :: 0 <= i < |keys| ==> RootSigned(o, c, keys[i])
  }

  /** A ring as every run leaves it. */
  ghost predicate SoundRing(o: Options, c: Crypto, keys: seq<KeyRing.Key>) {
    KeyRing.Distinct(keys) && |keys| <= KeyRing.RING_SIZE && RingOf(o, c, keys)
  }

  lemma {:induction false} KeysMetSound(o: Options, c: Crypto, keys: seq<KeyRing.Key>, events: seq<Event>)
    requires SoundRing(o, c, keys)
    ensures SoundRing(o, c, KeysMet(o, c, keys, events))
    decreases |events|
  {
    hide RootSigned, ManifestVerified, KeyRing.Step;
    if events != [] {
      var e := events[0];
      if e.ManifestReceived? && e.manifest.Some? && ManifestVerified(o, c, e.manifest.value, e.now) {
        StepKeepsRootSigned(o, c, keys, e.manifest.value, e.now);
      }
      KeysMetSound(o, c, KeysAfter(o, c, keys, e), events[1..]);
    }
  }

  /** The ring that a visit met, and those its entries were verified under. */
  ghost predicate VisitRings(o: Options, c: Crypto, v: Visit) {
    RingOf(o, c, v.keys) && forall i :: 0 <= i < |v.log| ==> RingOf(o, c, v.log[i].keys)
  }

  ghost predicate AllMeetRing(o: Options, c: Crypto, visits: seq<Visit>) {
    forall k :: 0 <= k < |visits| ==> VisitRings(o, c, visits[k])
  }

  lemma MeetRingAppend(o: Options, c: Crypto, a: seq<Visit>, b: seq<Visit>)
    requires AllMeetRing(o, c, a) && AllMeetRing(o, c, b)
    ensures AllMeetRing(o, c, a + b)
  {
    hide VisitRings;
  }

  lemma GatedRings(o: Options, c: Crypto, d: Decoder, v: Visit)
    requires SoundRing(o, c, v.keys) && VisitGated(o, c, d, v)
    ensures VisitRings(o, c, v)
  {
    hide RingOf, AuthzAccepted, KeysMet, Between;
    var u := SetupFor(o, c, d, v.connection);
    forall i | 0 <= i < |v.log| ensures RingOf(o, c, v.log[i].keys) {
      assert EntryVerified(u, v.connection.nonce, v.keys, v.log[i]);
      KeysMetSound(o, c, v.keys, Between(u.others, 0, v.log[i].at + 1));
    }
  }

  /** One attempt from a sound ring: its visit's rings, and the ring it leaves. */
  lemma TriedRings(o: Options, c: Crypto, d: Decoder, s: State, a: Attempt)
    requires SoundRing(o, c, s.keys)
    ensures var t := Tried(o, c, d, s, a); SoundRing(o, c, t.0.keys) && AllMeetRing(o, c, t.1)
  {
    hide Tried, SoundRing, VisitRings, VisitGated, KeysMet, Between;
    TriedGated(o, c, d, s, a);
    var t := Tried(o, c, d, s, a);
    forall k | 0 <= k < |t.1| ensures VisitRings(o, c, t.1[k]) {
      assert t.1[k] in t.1;
      GatedRings(o, c, d, t.1[k]);
    }
    if t.0.keys != s.keys {
      var u := SetupFor(o, c, d, a.opening.connection);
      var end: nat :| t.0.keys == RingBefore(u, s.keys, end);
      KeysMetSound(o, c, s.keys, Between(u.others, 0, end));
    }
  }

  /** Whatever key manifests arrive between the connections and while they are read, every ring that a
      connection meets or verifies under holds keys signed by the configured root only. */
  lemma {:induction false} VisitsMeetRootKeys(o: Options, c: Crypto, d: Decoder, reconnect: bool, s: State,
                                              attempts: seq<Attempt>)
    requires SoundRing(o, c, s.keys)
    ensures AllMeetRing(o, c, Watched(o, c, d, reconnect, s, attempts).1)
    decreases |attempts|
  {
    hide Tried, Met, SoundRing, VisitRings;
    if attempts == [] {
    } else {
      var met := Met(o, c, s, attempts[0].meanwhile);
      MetKeys(o, c, s, attempts[0].meanwhile);
      KeysMetSound(o, c, s.keys, attempts[0].meanwhile);
      TriedRings(o, c, d, met, attempts[0]);
      var first := Attempted(o, c, d, s, attempts[0]);
      if Decided(reconnect, first.2, attempts[0].resumes).None? {
        VisitsMeetRootKeys(o, c, d, reconnect, first.0, attempts[1..]);
        MeetRingAppend(o, c, first.1, Watched(o, c, d, reconnect, first.0, attempts[1..]).1);
      }
    }
  }

  // ---- after an expiry message ----

  /** No other call receives an authorization before these attempts. */
  predicate NoAuthz(attempts: seq<Attempt>) {
    forall k :: 0 <= k < |attempts| ==> NoAuthzIn(attempts[k].meanwhile)
  }

  predicate NoAuthzIn(events: seq<Event>) {
    forall i :: 0 <= i < |events| ==> !events[i].AuthzReceived?
  }

  lemma {:induction false} StillNoSession(o: Options, c: Crypto, s: State, events: seq<Event>)
    requires s.session == [] && NoAuthzIn(events)
    ensures Met(o, c, s, events).session == []
    decreases |events|
  {
    hide AfterManifest;
    if events == [] {
    } else {
      ManifestKeepsSession(o, c, s, events[0]);
      StillNoSession(o, c, TrustChain.After(o, c, s, events[0]), events[1..]);
    }
  }

  lemma ManifestKeepsSession(o: Options, c: Crypto, s: State, e: Event)
    requires !e.AuthzReceived?
    ensures s.session == [] ==> TrustChain.After(o, c, s, e).session == []
  {
    hide ManifestVerified;
  }

  /** Without a session, and without another call that gets one, nothing opens and none appears. */
  lemma {:induction false} NoSessionNoVisit(o: Options, c: Crypto, d: Decoder, reconnect: bool, s: State,
                                            attempts: seq<Attempt>)
    requires s.session == [] && NoAuthz(attempts)
    ensures var w := Watched(o, c, d, reconnect, s, attempts); w.1 == [] && w.0.session == []
    decreases |attempts|
  {
    hide Tried, Met, Decided, NoAuthzIn;
    if attempts == [] {
    } else {
      StillNoSession(o, c, s, attempts[0].meanwhile);
      TriedGated(o, c, d, Met(o, c, s, attempts[0].meanwhile), attempts[0]);
      var first := Attempted(o, c, d, s, attempts[0]);
      if Decided(reconnect, first.2, attempts[0].resumes).None? {
        NoSessionNoVisit(o, c, d, reconnect, first.0, attempts[1..]);
      }
    }
  }

  /** A connection that an expiry message ended: the session is gone, and while no other call receives an
      authorization the loop never opens another one, however often it tries. */
  lemma {:induction false} NothingAfterExpiry(o: Options, c: Crypto, d: Decoder, reconnect: bool, s: State,
                                              attempts: seq<Attempt>, k: nat)
    requires var visits := Watched(o, c, d, reconnect, s, attempts).1;
             k < |visits| && visits[k].outcome == Failed(SessionLost)
    requires NoAuthz(attempts)
    ensures var w := Watched(o, c, d, reconnect, s, attempts); k == |w.1| - 1 && w.0.session == []
    decreases |attempts|
  {
    hide Tried, Met, Decided, NoAuthzIn;
    TriedGated(o, c, d, Met(o, c, s, attempts[0].meanwhile), attempts[0]);
    var first := Attempted(o, c, d, s, attempts[0]);
    assert forall i :: 0 <= i < |first.1| ==> first.1[i] in first.1;
    if Decided(reconnect, first.2, attempts[0].resumes).None? {
      if k < |first.1| {
        NoSessionNoVisit(o, c, d, reconnect, first.0, attempts[1..]);
      } else {
        NothingAfterExpiry(o, c, d, reconnect, first.0, attempts[1..], k - |first.1|);
      }
    }
  }
}
