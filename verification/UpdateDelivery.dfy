/** What the update stream delivers: a printed stream comes through as its events. */
module UpdateDelivery {
  import opened Basics
  import opened Text
  import opened TrustChain
  import opened UpdateStream
  import opened SseFields
  import KeyRing

  // ---- the printer ----

  /** The block's lines and the blank line after them stand at a line of the stream. */
  predicate Stands(lines: seq<Bytes>, from: nat, b: Block) {
    && from + |b| < |lines| && lines[from + |b|] == []
    && forall i :: 0 <= i < |b| ==> lines[from + i] == PrintField(b[i])
  }

  function MessageOf(trim: Bytes -> Bytes, b: Block, from: nat, at: nat): Message {
    Message(NameOf(trim, b), IdOf(trim, b), DataOf(trim, b), from, at)
  }

  // ---- reading a block back ----

  lemma OneField(trim: Bytes -> Bytes, b: Block, from: nat)
    requires b != [] && ValidField(b[|b| - 1])
    ensures PrintField(b[|b| - 1]) != []
    ensures WithLine(trim, PrintField(b[|b| - 1]), MessageOf(trim, b[..|b| - 1], from, 0)) == MessageOf(trim, b, from, 0)
  {
    hide Starts, Lit;
    var last := b[|b| - 1];
    if !last.OtherLine? {
      PrefixesDiffer(last.raw);
    }
    assert DataOf(trim, b[..|b| - 1]) + [] == DataOf(trim, b[..|b| - 1]);
  }

  lemma {:induction false} FieldsRead(trim: Bytes -> Bytes, lines: seq<Bytes>, from: nat, b: Block, n: nat)
    requires Stands(lines, from, b) && ValidBlock(b) && n <= |b|
    ensures Messages(trim, lines, from, FIRST.(from := from))
            == Messages(trim, lines, from + n, MessageOf(trim, b[..n], from, 0))
  {
    hide WithLine, PrintField;
    if n > 0 {
      FieldsRead(trim, lines, from, b, n - 1);
      assert b[..n][..n - 1] == b[..n - 1] && b[..n][n - 1] == b[n - 1];
      OneField(trim, b[..n], from);
      assert lines[from + (n - 1)] == PrintField(b[n - 1]);
    }
  }

  /** A printed block is read back as its message. */
  lemma BlockRead(trim: Bytes -> Bytes, lines: seq<Bytes>, from: nat, b: Block)
    requires Stands(lines, from, b) && ValidBlock(b)
    ensures var next := from + |b| + 1;
            Messages(trim, lines, from, FIRST.(from := from))
            == [MessageOf(trim, b, from, from + |b|)] + Messages(trim, lines, next, FIRST.(from := next))
  {
    hide NameOf, IdOf, DataOf, PrintField;
    FieldsRead(trim, lines, from, b, |b|);
    assert b[..|b|] == b;
  }

  // ---- what a block makes the stream do ----

  /** Quiet: nothing. Opening: the gate opens on a verified carrier. Delivery: the consumer is handed the
      event that a verified carrier holds. */
  datatype Item = Quiet | Opening(carrier: Carrier) | Delivery(carrier: Carrier, sent: UpdateEvent)

  predicate OneOf(name: Bytes, a: string, b: string) {
    Lower(name) == Lit(a) || Lower(name) == Lit(b)
  }

  /** The block's data decodes to a carrier that is accepted with the connection's nonce under the ring of
      its last line, for the device and at the second of that line. */
  predicate Carries(u: Setup, nonce: Bytes, keys: seq<KeyRing.Key>, b: Block, at: nat, carrier: Carrier) {
    && DataOf(u.decoder.trim, b) != [] && u.decoder.carrier(Join(DataOf(u.decoder.trim, b), NEWLINE)) == Some(carrier)
    && AuthzAccepted(u.options, u.crypto, RingAt(u, keys, at), Some(carrier), nonce, u.moments(at).deviceId, u.moments(at).now)
  }

  predicate Fits(u: Setup, nonce: Bytes, keys: seq<KeyRing.Key>, gate: bool, b: Block, at: nat, item: Item) {
    var name := NameOf(u.decoder.trim, b);
    match item
    case Quiet =>
      DataOf(u.decoder.trim, b) == [] || Lower(name) == Lit("connected")
      || (!gate && Lower(name) != Lit("authz") && !OneOf(name, "authz_expired", "authz-expired"))
    case Opening(carrier) => Lower(name) == Lit("authz") && Carries(u, nonce, keys, b, at, carrier)
    case Delivery(carrier, sent) =>
      && gate && !OneOf(name, "authz", "connected") && !OneOf(name, "authz_expired", "authz-expired")
      && Carries(u, nonce, keys, b, at, carrier) && u.decoder.event(carrier.data) == Some(sent)
  }

  /** The entry that an item leaves: an event with the printed id and type where the sent ones are empty. */
  function EntryOf(u: Setup, keys: seq<KeyRing.Key>, b: Block, at: nat, item: Item): seq<Entry> {
    match item
    case Quiet => []
    case Opening(carrier) => [GateOpened(carrier, RingAt(u, keys, at), at)]
    case Delivery(carrier, sent) =>
      [Yielded(UpdateEvent(if sent.id != [] then sent.id else IdOf(u.decoder.trim, b),
                           if sent.eventType != [] then sent.eventType else NameOf(u.decoder.trim, b), sent.body),
               carrier, RingAt(u, keys, at), at)]
  }

  /** What the client meets while a block is read: the calls of others, then the block's carrier. */
  function MetBy(u: Setup, nonce: Bytes, from: nat, at: nat, item: Item): seq<Event> {
    Between(u.others, from, at + 1)
    + (if item.Quiet? then []
       else [AuthzReceived(Some(item.carrier), nonce, u.moments(at).deviceId, u.moments(at).now)])
  }

  lemma {:induction false} MetConcat(o: Options, c: Crypto, s: State, a: seq<Event>, b: seq<Event>)
    ensures Met(o, c, s, a + b) == Met(o, c, Met(o, c, s, a), b)
    decreases |a|
  {
    hide TrustChain.After;
    if a == [] {
      assert a + b == b;
    } else {
      assert (a + b)[1..] == a[1..] + b && (a + b)[0] == a[0];
      MetConcat(o, c, TrustChain.After(o, c, s, a[0]), a[1..], b);
    }
  }

  lemma MetOne(o: Options, c: Crypto, s: State, e: Event)
    ensures Met(o, c, s, [e]) == TrustChain.After(o, c, s, e)
    ensures Met(o, c, s, []) == s
  {
    hide TrustChain.After;
    assert [e][1..] == [];
    assert Met(o, c, TrustChain.After(o, c, s, e), []) == TrustChain.After(o, c, s, e);
  }

  lemma NamesDiffer()
    ensures Lit("authz") != Lit("connected") && Lit("authz") != Lit("authz_expired") && Lit("authz") != Lit("authz-expired")
    ensures Lit("connected") != Lit("authz_expired") && Lit("connected") != Lit("authz-expired")
  {
    assert |Lit("authz")| == 5 && |Lit("connected")| == 9 && |Lit("authz_expired")| == 13 && |Lit("authz-expired")| == 13;
  }

  /** The message alone, in the state that the calls before it left. */
  lemma ItemHandled(u: Setup, nonce: Bytes, keys: seq<KeyRing.Key>, p: Progress, b: Block, from: nat, item: Item)
    requires var at := from + |b|;
             p.state.keys == RingAt(u, keys, at) && Fits(u, nonce, keys, p.gate, b, at, item)
    ensures var m := MessageOf(u.decoder.trim, b, from, from + |b|);
            var after := if item.Quiet? then p.state else AfterVerify(u, nonce, p.state, m);
            Handled(u, nonce, p, m)
            == (Progress(after, p.gate || item.Opening?, p.log + EntryOf(u, keys, b, from + |b|, item)),
                if item.Delivery? && !u.wants(YieldCount(p.log)) then Some(Stopped) else None)
  {
    hide AuthzAccepted, AfterAuthz, AuthzFault, Lit, Lower, Join, RingAt, NameOf, IdOf, DataOf;
    NamesDiffer();
    assert p.log + [] == p.log;
    if !item.Quiet? {
      CarrierPresent(u, nonce, p.state, MessageOf(u.decoder.trim, b, from, from + |b|));
    }
  }

  /** One block, with what other calls receive before its end. */
  lemma BlockDispatched(u: Setup, nonce: Bytes, keys: seq<KeyRing.Key>, p: Progress, b: Block, from: nat, item: Item)
    requires p.state.keys == RingBefore(u, keys, from) && Fits(u, nonce, keys, p.gate, b, from + |b|, item)
    ensures var at := from + |b|;
            var d := Dispatched(u, nonce, p, MessageOf(u.decoder.trim, b, from, at));
            && d == (Progress(Met(u.options, u.crypto, p.state, MetBy(u, nonce, from, at, item)), p.gate || item.Opening?,
                              p.log + EntryOf(u, keys, b, at, item)),
                     if item.Delivery? && !u.wants(YieldCount(p.log)) then Some(Stopped) else None)
            && d.0.state.keys == RingBefore(u, keys, at + 1)
  {
    hide Handled, Fits, EntryOf, KeysMet, Between, AfterAuthz, Met, NameOf, IdOf, DataOf;
    var at := from + |b|;
    var events := Between(u.others, from, at + 1);
    var m := MessageOf(u.decoder.trim, b, from, at);
    var s := Met(u.options, u.crypto, p.state, events);
    MetKeys(u.options, u.crypto, p.state, events);
    BetweenConcat(u.others, 0, from, at + 1);
    KeysMetConcat(u.options, u.crypto, keys, Between(u.others, 0, from), events);
    ItemHandled(u, nonce, keys, p.(state := s), b, from, item);
    AuthzKeepsKeys(u, nonce, s, m);
    if item.Quiet? {
      assert MetBy(u, nonce, from, at, item) == events;
    } else {
      var received := AuthzReceived(Some(item.carrier), nonce, u.moments(at).deviceId, u.moments(at).now);
      MetConcat(u.options, u.crypto, p.state, events, [received]);
      MetOne(u.options, u.crypto, s, received);
      FitCarrier(u, nonce, keys, p.gate, b, from, item);
    }
  }

  lemma FitCarrier(u: Setup, nonce: Bytes, keys: seq<KeyRing.Key>, gate: bool, b: Block, from: nat, item: Item)
    requires Fits(u, nonce, keys, gate, b, from + |b|, item) && !item.Quiet?
    ensures CarrierOf(u, MessageOf(u.decoder.trim, b, from, from + |b|)) == Some(item.carrier)
  {
    hide AuthzAccepted, RingAt, Join, Lower, Lit, NameOf, IdOf, DataOf;
  }

  // ---- a whole stream ----

  /** A printed block, and what it is meant to do. */
  datatype Sending = Sending(block: Block, item: Item)

  function PrintBlock(b: Block): (lines: seq<Bytes>)
    ensures |lines| == |b| + 1
  {
    seq(|b|, i requires 0 <= i < |b| => PrintField(b[i])) + [[]]
  }

  function PrintAll(sendings: seq<Sending>): seq<Bytes> {
    if sendings == [] then [] else PrintBlock(sendings[0].block) + PrintAll(sendings[1..])
  }

  /** Every block does what it is meant to, where it stands. */
  predicate AllFit(u: Setup, nonce: Bytes, keys: seq<KeyRing.Key>, gate: bool, sendings: seq<Sending>, from: nat)
    decreases |sendings|
  {
    sendings != [] ==>
      var b, item := sendings[0].block, sendings[0].item;
      && ValidBlock(b) && Fits(u, nonce, keys, gate, b, from + |b|, item)
      && AllFit(u, nonce, keys, gate || item.Opening?, sendings[1..], from + |b| + 1)
  }

  /** The log they leave, in their order. */
  function Entries(u: Setup, keys: seq<KeyRing.Key>, sendings: seq<Sending>, from: nat): seq<Entry>
    decreases |sendings|
  {
    if sendings == [] then []
    else
      var b := sendings[0].block;
      EntryOf(u, keys, b, from + |b|, sendings[0].item) + Entries(u, keys, sendings[1..], from + |b| + 1)
  }

  /** All that the client meets meanwhile. */
  function AllMet(u: Setup, nonce: Bytes, sendings: seq<Sending>, from: nat): seq<Event>
    decreases |sendings|
  {
    if sendings == [] then []
    else
      var b := sendings[0].block;
      MetBy(u, nonce, from, from + |b|, sendings[0].item) + AllMet(u, nonce, sendings[1..], from + |b| + 1)
  }

  function Deliveries(sendings: seq<Sending>): nat {
    if sendings == [] then 0 else (if sendings[0].item.Delivery? then 1 else 0) + Deliveries(sendings[1..])
  }

  predicate Opens(sendings: seq<Sending>) {
    exists k :: 0 <= k < |sendings| && sendings[k].item.Opening?
  }

  lemma OpensFirst(sendings: seq<Sending>)
    requires sendings != []
    ensures Opens(sendings) <==> sendings[0].item.Opening? || Opens(sendings[1..])
  {
    if Opens(sendings) {
      var k :| 0 <= k < |sendings| && sendings[k].item.Opening?;
      assert k > 0 ==> sendings[1..][k - 1].item.Opening?;
    }
    if Opens(sendings[1..]) {
      var k :| 0 <= k < |sendings[1..]| && sendings[1..][k].item.Opening?;
      assert sendings[k + 1].item.Opening?;
    }
  }

  lemma CountMore(log: seq<Entry>, more: seq<Entry>)
    requires |more| <= 1
    ensures YieldCount(log + more) == YieldCount(log) + (if more != [] && more[0].Yielded? then 1 else 0)
  {
    if more == [] {
      assert log + more == log;
    } else {
      assert (log + more)[..|log + more| - 1] == log;
    }
  }

  lemma EntryCount(u: Setup, keys: seq<KeyRing.Key>, log: seq<Entry>, b: Block, at: nat, item: Item)
    ensures YieldCount(log + EntryOf(u, keys, b, at, item)) == YieldCount(log) + (if item.Delivery? then 1 else 0)
  {
    hide YieldCount;
    CountMore(log, EntryOf(u, keys, b, at, item));
  }

  /** Where the first block stands, and where the others do. */
  lemma FirstStands(lines: seq<Bytes>, from: nat, sendings: seq<Sending>, rest: seq<Bytes>)
    requires sendings != [] && from <= |lines| && lines[from..] == PrintAll(sendings) + rest
    ensures var b := sendings[0].block;
            && Stands(lines, from, b) && |PrintAll(sendings)| == |b| + 1 + |PrintAll(sendings[1..])|
            && lines[from + |b| + 1..] == PrintAll(sendings[1..]) + rest
  {
    hide PrintField, PrintBlock;
    var b := sendings[0].block;
    var block, others := PrintBlock(b), PrintAll(sendings[1..]);
    assert (block + others) + rest == block + (others + rest);
    Onwards(lines, from, block, others + rest);
    BlockLines(lines, from, b);
  }

  lemma Onwards(lines: seq<Bytes>, from: nat, block: seq<Bytes>, rest: seq<Bytes>)
    requires from <= |lines| && lines[from..] == block + rest
    ensures from + |block| <= |lines| && lines[from + |block|..] == rest
    ensures forall i :: 0 <= i < |block| ==> lines[from + i] == block[i]
  {
    var whole := lines[from..];
    assert whole[|block|..] == rest;
    assert whole[|block|..] == lines[from + |block|..];
    forall i | 0 <= i < |block| ensures lines[from + i] == block[i] {
      assert whole[i] == block[i];
    }
  }

  lemma BlockLines(lines: seq<Bytes>, from: nat, b: Block)
    requires from + |PrintBlock(b)| <= |lines|
    requires forall i :: 0 <= i < |PrintBlock(b)| ==> lines[from + i] == PrintBlock(b)[i]
    ensures Stands(lines, from, b)
  {
    hide PrintField;
    assert lines[from + |b|] == PrintBlock(b)[|b|];
    forall i | 0 <= i < |b| ensures lines[from + i] == PrintField(b[i]) {
      assert lines[from + i] == PrintBlock(b)[i];
    }
  }

  /** From wherever a connection stands: the blocks are consumed, and the log, the gate and the state are
      what they are meant to be. */
  lemma {:induction false} BlocksConsumed(u: Setup, nonce: Bytes, cancelled: bool, keys: seq<KeyRing.Key>, lines: seq<Bytes>,
                                          from: nat, p: Progress, sendings: seq<Sending>, rest: seq<Bytes>)
    requires from <= |lines| && lines[from..] == PrintAll(sendings) + rest
    requires p.state.keys == RingBefore(u, keys, from) && AllFit(u, nonce, keys, p.gate, sendings, from)
    requires forall i: nat :: YieldCount(p.log) <= i < YieldCount(p.log) + Deliveries(sendings) ==> u.wants(i)
    ensures var end := from + |PrintAll(sendings)|;
            var q := Progress(Met(u.options, u.crypto, p.state, AllMet(u, nonce, sendings, from)), p.gate || Opens(sendings),
                              p.log + Entries(u, keys, sendings, from));
            && Connected(u, nonce, cancelled, p, Messages(u.decoder.trim, lines, from, FIRST.(from := from)))
               == Connected(u, nonce, cancelled, q, Messages(u.decoder.trim, lines, end, FIRST.(from := end)))
            && q.state.keys == RingBefore(u, keys, end)
            && YieldCount(q.log) == YieldCount(p.log) + Deliveries(sendings)
    decreases |sendings|
  {
    hide Dispatched, Fits, RingBefore, Messages, WithLine, PrintBlock, MetBy, Opens, YieldCount, Connected, Met, KeysMet, Between,
         MessageOf, EntryOf;
    if sendings == [] {
      assert p.log + [] == p.log;
      MetOne(u.options, u.crypto, p.state, SessionCleared);
      assert !Opens(sendings) by { NoneOpens(sendings); }
    } else {
      var b, item := sendings[0].block, sendings[0].item;
      var at, next := from + |b|, from + |b| + 1;
      FirstStands(lines, from, sendings, rest);
      BlockRead(u.decoder.trim, lines, from, b);
      BlockDispatched(u, nonce, keys, p, b, from, item);
      OpensFirst(sendings);
      var entry := EntryOf(u, keys, b, at, item);
      EntryCount(u, keys, p.log, b, at, item);
      var q := Dispatched(u, nonce, p, MessageOf(u.decoder.trim, b, from, at)).0;
      OneStep(u, nonce, cancelled, p, MessageOf(u.decoder.trim, b, from, at),
              Messages(u.decoder.trim, lines, next, FIRST.(from := next)));
      BlocksConsumed(u, nonce, cancelled, keys, lines, next, q, sendings[1..], rest);
      MetConcat(u.options, u.crypto, p.state, MetBy(u, nonce, from, at, item), AllMet(u, nonce, sendings[1..], next));
      assert (p.log + entry) + Entries(u, keys, sendings[1..], next) == p.log + (entry + Entries(u, keys, sendings[1..], next));
    }
  }

  lemma NoneOpens(sendings: seq<Sending>)
    requires sendings == []
    ensures !Opens(sendings)
  {
  }

  lemma OneStep(u: Setup, nonce: Bytes, cancelled: bool, p: Progress, m: Message, rest: seq<Message>)
    ensures var step := Dispatched(u, nonce, p, m);
            Connected(u, nonce, cancelled, p, [m] + rest)
            == if step.1.Some? then (step.0, step.1.value) else Connected(u, nonce, cancelled, step.0, rest)
  {
    hide Dispatched;
    assert ([m] + rest)[1..] == rest;
  }

  /** Lines that no blank line ends are no message. */
  lemma {:induction false} NothingEnds(trim: Bytes -> Bytes, lines: seq<Bytes>, from: nat, pending: Message)
    requires from <= |lines| && forall i :: from <= i < |lines| ==> lines[i] != []
    ensures Messages(trim, lines, from, pending) == []
    decreases |lines| - from
  {
    hide WithLine;
    if from < |lines| {
      NothingEnds(trim, lines, from + 1, WithLine(trim, lines[from], pending));
    }
  }

  /** The blocks of a connection from its first line on. */
  lemma FromTheStart(o: Options, c: Crypto, d: Decoder, s: State, connection: Connection, sendings: seq<Sending>,
                     rest: seq<Bytes>) returns (p: Progress)
    requires connection.lines == PrintAll(sendings) + rest
    requires AllFit(SetupFor(o, c, d, connection), connection.nonce, s.keys, false, sendings, 0)
    requires forall i: nat :: i < Deliveries(sendings) ==> connection.wants(i)
    ensures var u, end := SetupFor(o, c, d, connection), |PrintAll(sendings)|;
            && p == Progress(Met(o, c, s, AllMet(u, connection.nonce, sendings, 0)), Opens(sendings),
                             Entries(u, s.keys, sendings, 0))
            && p.state.keys == RingBefore(u, s.keys, end) && YieldCount(p.log) == Deliveries(sendings)
            && Once(o, c, d, s, connection)
               == Connected(u, connection.nonce, connection.cancelled, p,
                            Messages(d.trim, connection.lines, end, FIRST.(from := end)))
  {
    hide AllFit, Connected, Messages, Met, KeysMet, Entries, AllMet, Opens, PrintAll;
    var u := SetupFor(o, c, d, connection);
    assert connection.lines[0..] == connection.lines;
    assert Between(u.others, 0, 0) == [] && KeysMet(o, c, s.keys, []) == s.keys by { MetNothing(u, s.keys); }
    BlocksConsumed(u, connection.nonce, connection.cancelled, s.keys, connection.lines, 0, Progress(s, false, []), sendings, rest);
    p := Progress(Met(o, c, s, AllMet(u, connection.nonce, sendings, 0)), Opens(sendings), [] + Entries(u, s.keys, sendings, 0));
    assert [] + Entries(u, s.keys, sendings, 0) == Entries(u, s.keys, sendings, 0);
  }

  lemma MetNothing(u: Setup, keys: seq<KeyRing.Key>)
    ensures Between(u.others, 0, 0) == [] && KeysMet(u.options, u.crypto, keys, []) == keys
  {
  }

  /** A connection that prints blocks and then ends: the log is exactly the gate openings and the events
      that were printed, in their order, each with its own carrier and the ring of its line; the client has
      met exactly the calls of others and those carriers; the end is the caller's or the server's. */
  lemma StreamIsDelivered(o: Options, c: Crypto, d: Decoder, s: State, connection: Connection, sendings: seq<Sending>,
                          tail: seq<Bytes>)
    requires connection.lines == PrintAll(sendings) + tail && [] !in tail
    requires AllFit(SetupFor(o, c, d, connection), connection.nonce, s.keys, false, sendings, 0)
    requires forall i: nat :: i < Deliveries(sendings) ==> connection.wants(i)
    ensures var u, ended := SetupFor(o, c, d, connection), Once(o, c, d, s, connection);
            && ended.0.log == Entries(u, s.keys, sendings, 0)
            && ended.0.state == Met(o, c, s, AllMet(u, connection.nonce, sendings, 0))
            && ended.1 == if connection.cancelled then Cancelled
                          else if exists k :: 0 <= k < |sendings| && sendings[k].item.Opening? then Failed(Network)
                          else Failed(Unauthorized)
  {
    hide AllFit, Once, Met, KeysMet, Entries, AllMet, PrintAll, Messages, Connected, Between;
    var p := FromTheStart(o, c, d, s, connection, sendings, tail);
    TailIsNoMessage(d.trim, connection.lines, PrintAll(sendings), tail);
    ConnectionEnds(SetupFor(o, c, d, connection), connection.nonce, connection.cancelled, p);
  }

  lemma TailIsNoMessage(trim: Bytes -> Bytes, lines: seq<Bytes>, before: seq<Bytes>, tail: seq<Bytes>)
    requires lines == before + tail && [] !in tail
    ensures Messages(trim, lines, |before|, FIRST.(from := |before|)) == []
  {
    hide Messages;
    forall i | |before| <= i < |lines| ensures lines[i] != [] {
      assert lines[i] == tail[i - |before|];
    }
    NothingEnds(trim, lines, |before|, FIRST.(from := |before|));
  }

  lemma ConnectionEnds(u: Setup, nonce: Bytes, cancelled: bool, p: Progress)
    ensures Connected(u, nonce, cancelled, p, [])
            == (p, if cancelled then Cancelled else if p.gate then Failed(Network) else Failed(Unauthorized))
  {
  }

  // ---- what ends a connection early ----

  /** Why a block ends the connection: the authorization expired; its carrier is missing or refused; the
      verified data is no event; the consumer wants no more. */
  datatype Cause = Expiry | Refusal | Garble(carrier: Carrier) | Enough(carrier: Carrier, sent: UpdateEvent)

  predicate Ends(u: Setup, nonce: Bytes, keys: seq<KeyRing.Key>, gate: bool, b: Block, at: nat, cause: Cause) {
    var name, data := NameOf(u.decoder.trim, b), DataOf(u.decoder.trim, b);
    match cause
    case Expiry => data != [] && OneOf(name, "authz_expired", "authz-expired")
    case Refusal =>
      && data != [] && Lower(name) != Lit("connected") && !OneOf(name, "authz_expired", "authz-expired")
      && (Lower(name) == Lit("authz") || gate)
      && !AuthzAccepted(u.options, u.crypto, RingAt(u, keys, at), u.decoder.carrier(Join(data, NEWLINE)), nonce,
                        u.moments(at).deviceId, u.moments(at).now)
    case Garble(carrier) =>
      && gate && !OneOf(name, "authz", "connected") && !OneOf(name, "authz_expired", "authz-expired")
      && Carries(u, nonce, keys, b, at, carrier) && u.decoder.event(carrier.data) == None
    case Enough(carrier, sent) => Fits(u, nonce, keys, gate, b, at, Delivery(carrier, sent))
  }

  lemma ExpiryHandled(u: Setup, nonce: Bytes, keys: seq<KeyRing.Key>, p: Progress, b: Block, from: nat)
    requires Ends(u, nonce, keys, p.gate, b, from + |b|, Expiry)
    ensures var h := Handled(u, nonce, p, MessageOf(u.decoder.trim, b, from, from + |b|));
            h.0.log == p.log && h.1 == Some(Failed(SessionLost)) && h.0.state.session == []
  {
    hide AuthzAccepted, AfterAuthz, AuthzFault, Lit, Lower, Join, NameOf, IdOf, DataOf;
    NamesDiffer();
  }

  lemma RefusalHandled(u: Setup, nonce: Bytes, keys: seq<KeyRing.Key>, p: Progress, b: Block, from: nat)
    requires p.state.keys == RingAt(u, keys, from + |b|) && Ends(u, nonce, keys, p.gate, b, from + |b|, Refusal)
    ensures var at := from + |b|;
            var h := Handled(u, nonce, p, MessageOf(u.decoder.trim, b, from, at));
            && h.0.log == p.log
            && h.1 == Some(Failed(KindOf(AuthzFault(u.options, u.crypto, RingAt(u, keys, at),
                                                    u.decoder.carrier(Join(DataOf(u.decoder.trim, b), NEWLINE)), nonce,
                                                    u.moments(at).deviceId, u.moments(at).now))))
  {
    hide AuthzFault, KindOf, Handled, Ends, Join, RingAt, MessageOf, DataOf, Named, Verifies, Fault;
    var m := MessageOf(u.decoder.trim, b, from, from + |b|);
    RefusalMeans(u, nonce, keys, p.state, p.gate, b, from);
    RefusedMessage(u, nonce, p, m);
    FaultIs(u, nonce, p.state, b, from);
  }

  lemma FaultIs(u: Setup, nonce: Bytes, s: State, b: Block, from: nat)
    ensures Fault(u, nonce, s, MessageOf(u.decoder.trim, b, from, from + |b|))
            == KindOf(AuthzFault(u.options, u.crypto, s.keys, u.decoder.carrier(Join(DataOf(u.decoder.trim, b), NEWLINE)), nonce,
                                 u.moments(from + |b|).deviceId, u.moments(from + |b|).now))
  {
    hide AuthzFault, KindOf, Join, NameOf, IdOf, DataOf;
  }

  lemma RefusalMeans(u: Setup, nonce: Bytes, keys: seq<KeyRing.Key>, s: State, gate: bool, b: Block, from: nat)
    requires s.keys == RingAt(u, keys, from + |b|) && Ends(u, nonce, keys, gate, b, from + |b|, Refusal)
    ensures var m := MessageOf(u.decoder.trim, b, from, from + |b|);
            && m.data != [] && !Named(m.name, "connected") && !Named(m.name, "authz_expired") && !Named(m.name, "authz-expired")
            && (Named(m.name, "authz") || gate) && !Verifies(u, nonce, s, m)
  {
    hide AuthzAccepted, Lit, Lower, Join, RingAt, NameOf, IdOf, DataOf;
  }

  lemma RefusedMessage(u: Setup, nonce: Bytes, p: Progress, m: Message)
    requires m.data != [] && !Named(m.name, "connected") && !Named(m.name, "authz_expired") && !Named(m.name, "authz-expired")
    requires (Named(m.name, "authz") || p.gate) && !Verifies(u, nonce, p.state, m)
    ensures Handled(u, nonce, p, m) == (p, Some(Failed(Fault(u, nonce, p.state, m))))
  {
    hide Named, Verifies, Fault, CarrierOf, AfterVerify, Completed;
  }

  lemma GarbleHandled(u: Setup, nonce: Bytes, keys: seq<KeyRing.Key>, p: Progress, b: Block, from: nat, carrier: Carrier)
    requires p.state.keys == RingAt(u, keys, from + |b|) && Ends(u, nonce, keys, p.gate, b, from + |b|, Garble(carrier))
    ensures var h := Handled(u, nonce, p, MessageOf(u.decoder.trim, b, from, from + |b|));
            h.0.log == p.log && h.1 == Some(Failed(Protocol))
  {
    hide AuthzAccepted, AfterAuthz, AuthzFault, Lit, Lower, Join, RingAt, NameOf, IdOf, DataOf;
    CarrierPresent(u, nonce, p.state, MessageOf(u.decoder.trim, b, from, from + |b|));
  }

  lemma KindExactly(e: AuthzError)
    ensures KindOf(e) == if e == CarrierInvalid || e == CarrierMissing then Protocol
                         else if e == AuthzInvalid || e == KeyUnknown then Unauthorized else Integrity
  {
  }

  /** A block that ends the connection does so whatever follows it: everything before it was delivered, and
      nothing after it is read. */
  lemma StreamIsEnded(o: Options, c: Crypto, d: Decoder, s: State, connection: Connection, sendings: seq<Sending>,
                      b: Block, cause: Cause, rest: seq<Bytes>)
    requires connection.lines == PrintAll(sendings) + (PrintBlock(b) + rest) && ValidBlock(b)
    requires AllFit(SetupFor(o, c, d, connection), connection.nonce, s.keys, false, sendings, 0)
    requires forall i: nat :: i < Deliveries(sendings) ==> connection.wants(i)
    requires Ends(SetupFor(o, c, d, connection), connection.nonce, s.keys,
                  exists k :: 0 <= k < |sendings| && sendings[k].item.Opening?, b, |PrintAll(sendings)| + |b|, cause)
    requires cause.Enough? ==> !connection.wants(Deliveries(sendings))
    ensures var u, ended := SetupFor(o, c, d, connection), Once(o, c, d, s, connection);
            var at := |PrintAll(sendings)| + |b|;
            && ended.0.log == Entries(u, s.keys, sendings, 0)
                              + (if cause.Enough? then EntryOf(u, s.keys, b, at, Delivery(cause.carrier, cause.sent)) else [])
            && (cause.Expiry? ==> ended.1 == Failed(SessionLost) && ended.0.state.session == [])
            && (cause.Refusal? ==>
                  var fault := AuthzFault(o, c, RingAt(u, s.keys, at), d.carrier(Join(DataOf(d.trim, b), NEWLINE)),
                                          connection.nonce, connection.moments(at).deviceId, connection.moments(at).now);
                  ended.1 == Failed(if fault == CarrierInvalid || fault == CarrierMissing then Protocol
                                    else if fault == AuthzInvalid || fault == KeyUnknown then Unauthorized else Integrity))
            && (cause.Garble? ==> ended.1 == Failed(Protocol))
            && (cause.Enough? ==> ended.1 == Stopped)
  {
    hide AllFit, Once, KeysMet, Entries, AllMet, PrintAll, PrintField, PrintBlock, AuthzFault, KindOf, Handled, MessageOf, DataOf,
         Ends, AuthzAccepted, Between, EntryOf, Join, RingAt;
    var u, nonce, end := SetupFor(o, c, d, connection), connection.nonce, |PrintAll(sendings)|;
    var at := end + |b|;
    var p := BlockReached(o, c, d, s, connection, sendings, b, rest);
    assert p.log + [] == p.log;
    match cause
    case Expiry =>
      ExpiryHandled(u, nonce, s.keys, p, b, end);
    case Refusal =>
      RefusalHandled(u, nonce, s.keys, p, b, end);
      KindExactly(AuthzFault(o, c, RingAt(u, s.keys, at), d.carrier(Join(DataOf(d.trim, b), NEWLINE)),
                             nonce, connection.moments(at).deviceId, connection.moments(at).now));
    case Garble(carrier) =>
      GarbleHandled(u, nonce, s.keys, p, b, end, carrier);
    case Enough(carrier, sent) =>
      EnoughFits(u, nonce, s.keys, p.gate, b, at, carrier, sent);
      ItemHandled(u, nonce, s.keys, p, b, end, Delivery(carrier, sent));
  }

  lemma EnoughFits(u: Setup, nonce: Bytes, keys: seq<KeyRing.Key>, gate: bool, b: Block, at: nat, carrier: Carrier,
                   sent: UpdateEvent)
    ensures Ends(u, nonce, keys, gate, b, at, Enough(carrier, sent)) == Fits(u, nonce, keys, gate, b, at, Delivery(carrier, sent))
  {
    hide Fits;
  }

  /** The state in which a block is met, and that its end is the connection's. */
  lemma BlockReached(o: Options, c: Crypto, d: Decoder, s: State, connection: Connection, sendings: seq<Sending>,
                     b: Block, rest: seq<Bytes>) returns (p: Progress)
    requires connection.lines == PrintAll(sendings) + (PrintBlock(b) + rest) && ValidBlock(b)
    requires AllFit(SetupFor(o, c, d, connection), connection.nonce, s.keys, false, sendings, 0)
    requires forall i: nat :: i < Deliveries(sendings) ==> connection.wants(i)
    ensures var u, end := SetupFor(o, c, d, connection), |PrintAll(sendings)|;
            var h := Handled(u, connection.nonce, p, MessageOf(d.trim, b, end, end + |b|));
            && p.gate == (exists k :: 0 <= k < |sendings| && sendings[k].item.Opening?)
            && p.log == Entries(u, s.keys, sendings, 0) && YieldCount(p.log) == Deliveries(sendings)
            && p.state.keys == RingAt(u, s.keys, end + |b|)
            && (h.1.Some? ==> Once(o, c, d, s, connection) == (h.0, h.1.value))
  {
    hide AllFit, Once, Met, KeysMet, Entries, AllMet, PrintAll, PrintField, Handled, MessageOf, Between, Connected;
    var u, end := SetupFor(o, c, d, connection), |PrintAll(sendings)|;
    var at := end + |b|;
    var before := FromTheStart(o, c, d, s, connection, sendings, PrintBlock(b) + rest);
    BlockStands(connection.lines, PrintAll(sendings), b, rest);
    BlockRead(d.trim, connection.lines, end, b);
    var events := Between(u.others, end, at + 1);
    MetKeys(o, c, before.state, events);
    BetweenConcat(u.others, 0, end, at + 1);
    KeysMetConcat(o, c, s.keys, Between(u.others, 0, end), events);
    p := before.(state := Met(o, c, before.state, events));
    MessageLines(d.trim, b, end, at);
    OneStep(u, connection.nonce, connection.cancelled, before, MessageOf(d.trim, b, end, at),
            Messages(d.trim, connection.lines, at + 1, FIRST.(from := at + 1)));
  }

  lemma MessageLines(trim: Bytes -> Bytes, b: Block, from: nat, at: nat)
    ensures MessageOf(trim, b, from, at).from == from && MessageOf(trim, b, from, at).at == at
  {
  }

  lemma BlockStands(lines: seq<Bytes>, before: seq<Bytes>, b: Block, rest: seq<Bytes>)
    requires lines == before + (PrintBlock(b) + rest)
    ensures Stands(lines, |before|, b)
  {
    hide PrintField;
    var block := PrintBlock(b);
    assert lines[|before| + |b|] == block[|b|] == [];
    forall i | 0 <= i < |b| ensures lines[|before| + i] == PrintField(b[i]) {
      assert lines[|before| + i] == block[i];
    }
  }

  // ---- every connection is one of these ----

  /** The block up to the first blank line, if there is one. */
  lemma {:induction false} FirstBlock(lines: seq<Bytes>) returns (b: Block, rest: seq<Bytes>)
    requires [] in lines
    ensures ValidBlock(b) && lines == PrintBlock(b) + rest
    decreases |lines|
  {
    hide FieldOf, PrintField, ValidField;
    if lines[0] == [] {
      b, rest := [], lines[1..];
      assert lines == [[]] + lines[1..];
    } else {
      assert [] in lines[1..];
      var later;
      later, rest := FirstBlock(lines[1..]);
      b := [FieldOf(lines[0])] + later;
      FieldIsPrinted(lines[0]);
      assert PrintBlock(b) == [lines[0]] + PrintBlock(later);
      assert lines == [lines[0]] + lines[1..];
    }
  }

  /** A block fits an item, or it ends the connection. */
  lemma BlockMeans(u: Setup, nonce: Bytes, keys: seq<KeyRing.Key>, gate: bool, b: Block, at: nat)
    returns (item: Option<Item>, cause: Cause)
    ensures item.Some? ==> Fits(u, nonce, keys, gate, b, at, item.value)
    ensures item.None? ==> Ends(u, nonce, keys, gate, b, at, cause) && !cause.Enough?
  {
    hide AuthzAccepted, Lit, Lower, Join, RingAt, NameOf, IdOf, DataOf;
    item, cause := None, Expiry;
    var name, data := NameOf(u.decoder.trim, b), DataOf(u.decoder.trim, b);
    var carrier := u.decoder.carrier(Join(data, NEWLINE));
    NamesDiffer();
    if data == [] || Lower(name) == Lit("connected") {
      item := Some(Quiet);
    } else if OneOf(name, "authz_expired", "authz-expired") {
    } else if Lower(name) != Lit("authz") && !gate {
      item := Some(Quiet);
    } else if !AuthzAccepted(u.options, u.crypto, RingAt(u, keys, at), carrier, nonce, u.moments(at).deviceId, u.moments(at).now) {
      cause := Refusal;
    } else {
      AcceptedIsThere(u.options, u.crypto, RingAt(u, keys, at), carrier, nonce, u.moments(at).deviceId, u.moments(at).now);
      if Lower(name) == Lit("authz") {
        item := Some(Opening(carrier.value));
      } else if u.decoder.event(carrier.value.data).None? {
        cause := Garble(carrier.value);
      } else {
        item := Some(Delivery(carrier.value, u.decoder.event(carrier.value.data).value));
      }
    }
  }

  lemma AcceptedIsThere(o: Options, c: Crypto, keys: seq<KeyRing.Key>, r: Option<Carrier>, nonce: Bytes, deviceId: Bytes, now: int)
    requires AuthzAccepted(o, c, keys, r, nonce, deviceId, now)
    ensures r.Some?
  {
  }

  /** The lines from one on, when so many events were handed over. */
  lemma {:induction false} LinesMean(u: Setup, nonce: Bytes, keys: seq<KeyRing.Key>, gate: bool, lines: seq<Bytes>, from: nat,
                                     count: nat)
    returns (sendings: seq<Sending>, stop: Option<(Block, Cause)>, rest: seq<Bytes>)
    ensures AllFit(u, nonce, keys, gate, sendings, from)
    ensures forall i: nat :: count <= i < count + Deliveries(sendings) ==> u.wants(i)
    ensures stop.None? ==> lines == PrintAll(sendings) + rest && [] !in rest
    ensures stop.Some? ==>
              && lines == PrintAll(sendings) + (PrintBlock(stop.value.0) + rest) && ValidBlock(stop.value.0)
              && Ends(u, nonce, keys, gate || Opens(sendings), stop.value.0, from + |PrintAll(sendings)| + |stop.value.0|,
                      stop.value.1)
              && (stop.value.1.Enough? ==> !u.wants(count + Deliveries(sendings)))
    decreases |lines|
  {
    hide Fits, Ends, PrintBlock, PrintAll, ValidBlock, Opens, AllFit, Deliveries;
    sendings, stop, rest := [], None, lines;
    NothingMeant(u, nonce, keys, gate, from);
    assert [] + lines == lines;
    if [] !in lines {
      return;
    }
    var b, later := FirstBlock(lines);
    var at := from + |b|;
    var item, cause := BlockMeans(u, nonce, keys, gate, b, at);
    if item.None? {
      return [], Some((b, cause)), later;
    }
    if item.value.Delivery? && !u.wants(count) {
      EnoughFits(u, nonce, keys, gate, b, at, item.value.carrier, item.value.sent);
      return [], Some((b, Enough(item.value.carrier, item.value.sent))), later;
    }
    var others;
    var handed := if item.value.Delivery? then 1 else 0;
    others, stop, rest := LinesMean(u, nonce, keys, gate || item.value.Opening?, later, at + 1, count + handed);
    sendings := [Sending(b, item.value)] + others;
    AllMean(u, nonce, keys, gate, b, item.value, others, from);
    var end := if stop.None? then rest else PrintBlock(stop.value.0) + rest;
    assert (PrintBlock(b) + PrintAll(others)) + end == PrintBlock(b) + (PrintAll(others) + end);
  }

  lemma NothingMeant(u: Setup, nonce: Bytes, keys: seq<KeyRing.Key>, gate: bool, from: nat)
    ensures PrintAll([]) == [] && Deliveries([]) == 0 && !Opens([]) && AllFit(u, nonce, keys, gate, [], from)
  {
  }

  lemma AllMean(u: Setup, nonce: Bytes, keys: seq<KeyRing.Key>, gate: bool, b: Block, item: Item, others: seq<Sending>, from: nat)
    requires ValidBlock(b) && Fits(u, nonce, keys, gate, b, from + |b|, item)
    requires AllFit(u, nonce, keys, gate || item.Opening?, others, from + |b| + 1)
    ensures var all := [Sending(b, item)] + others;
            && AllFit(u, nonce, keys, gate, all, from) && PrintAll(all) == PrintBlock(b) + PrintAll(others)
            && Deliveries(all) == (if item.Delivery? then 1 else 0) + Deliveries(others)
            && (Opens(all) <==> item.Opening? || Opens(others))
  {
    hide ValidBlock, Fits, Opens, PrintBlock;
    var all := [Sending(b, item)] + others;
    assert all[1..] == others;
    OpensFirst(all);
  }

  /** Every connection, whatever its lines are, is one that StreamIsDelivered or StreamIsEnded is about. */
  lemma EveryStreamMeans(o: Options, c: Crypto, d: Decoder, s: State, connection: Connection)
    returns (sendings: seq<Sending>, stop: Option<(Block, Cause)>, rest: seq<Bytes>)
    ensures AllFit(SetupFor(o, c, d, connection), connection.nonce, s.keys, false, sendings, 0)
    ensures forall i: nat :: i < Deliveries(sendings) ==> connection.wants(i)
    ensures stop.None? ==> connection.lines == PrintAll(sendings) + rest && [] !in rest
    ensures stop.Some? ==>
              && connection.lines == PrintAll(sendings) + (PrintBlock(stop.value.0) + rest) && ValidBlock(stop.value.0)
              && Ends(SetupFor(o, c, d, connection), connection.nonce, s.keys,
                      exists k :: 0 <= k < |sendings| && sendings[k].item.Opening?, stop.value.0,
                      |PrintAll(sendings)| + |stop.value.0|, stop.value.1)
              && (stop.value.1.Enough? ==> !connection.wants(Deliveries(sendings)))
  {
    hide AllFit, Ends, PrintBlock, PrintAll, ValidBlock;
    sendings, stop, rest := LinesMean(SetupFor(o, c, d, connection), connection.nonce, s.keys, false, connection.lines, 0, 0);
  }

  // ---- the whole watch ----

  /** How one attempt went: the state it left, the connection it read, if any, and its outcome. */
  datatype Leg = Leg(after: State, visits: seq<Visit>, outcome: Outcome)

  /** Without a live session nothing is opened and the session is forgotten; otherwise the connection that
      opens is read. */
  ghost predicate Went(o: Options, c: Crypto, d: Decoder, before: State, a: Attempt, leg: Leg) {
    var s := Met(o, c, before, a.meanwhile);
    if s.session == [] || a.now >= s.sessionExpiresAt then
      leg.visits == [] && leg.outcome == Failed(SessionLost) && leg.after == State(s.keys, [], 0)
    else if a.opening.Refused? then leg.visits == [] && leg.outcome == Failed(a.opening.kind) && leg.after == s
    else
      var connection, ended := a.opening.connection, Once(o, c, d, s, a.opening.connection);
      && leg.visits == [Visit(connection, s.keys, ended.0.log, ended.1)]
      && leg.outcome == ended.1 && leg.after == ended.0.state
  }

  /** The loop goes on after a failure that is not one of five, when it may reconnect and its wait ends. */
  predicate GoesOn(reconnect: bool, outcome: Outcome, resumes: bool) {
    && reconnect && resumes && outcome.Failed?
    && outcome.kind != DeviceBlocked && outcome.kind != UnsupportedVersion && outcome.kind != UpdateRegionBlocked
    && outcome.kind != Unauthorized && outcome.kind != Integrity
  }

  /** Each attempt starts from the state that the one before it left, and all but the last go on. */
  ghost predicate Linked(o: Options, c: Crypto, d: Decoder, reconnect: bool, s: State, attempts: seq<Attempt>, legs: seq<Leg>)
    decreases |legs|
  {
    legs != [] ==>
      && attempts != [] && Went(o, c, d, s, attempts[0], legs[0])
      && (|legs| > 1 ==> GoesOn(reconnect, legs[0].outcome, attempts[0].resumes))
      && Linked(o, c, d, reconnect, legs[0].after, attempts[1..], legs[1..])
  }

  function VisitsOf(legs: seq<Leg>): seq<Visit> {
    if legs == [] then [] else legs[0].visits + VisitsOf(legs[1..])
  }

  lemma OneLeg(o: Options, c: Crypto, d: Decoder, reconnect: bool, s: State, a: Attempt, leg: Leg)
    requires Went(o, c, d, s, a, leg)
    ensures Attempted(o, c, d, s, a) == (leg.after, leg.visits, leg.outcome)
    ensures Decided(reconnect, leg.outcome, a.resumes).None? <==> GoesOn(reconnect, leg.outcome, a.resumes)
    ensures Decided(reconnect, leg.outcome, a.resumes)
            == if GoesOn(reconnect, leg.outcome, a.resumes) then None
               else if leg.outcome == Stopped then Some(Silent)
               else if !reconnect || (leg.outcome.Failed? && !GoesOn(true, leg.outcome, true)) then Some(Reported(leg.outcome))
               else Some(Silent)
  {
    hide Once, Met;
  }

  /** The attempts of a watch, one after the other, until one of them ends it or they are used up: the
      consumer gets the events of every connection that opened, in order, and then nothing more, silently
      after its own stop, its cancellation or a wait that was cut off, and with the error otherwise. */
  lemma {:induction false} WatchIsItsLegs(o: Options, c: Crypto, d: Decoder, reconnect: bool, s: State, attempts: seq<Attempt>,
                                          legs: seq<Leg>)
    requires legs != [] && |legs| <= |attempts| && Linked(o, c, d, reconnect, s, attempts, legs)
    requires var last := |legs| - 1;
             |legs| == |attempts| || !GoesOn(reconnect, legs[last].outcome, attempts[last].resumes)
    ensures var last := legs[|legs| - 1];
            Watched(o, c, d, reconnect, s, attempts)
            == (last.after, VisitsOf(legs),
                if GoesOn(reconnect, last.outcome, attempts[|legs| - 1].resumes) then Pending
                else if last.outcome == Stopped then Silent
                else if !reconnect || (last.outcome.Failed? && !GoesOn(true, last.outcome, true)) then Reported(last.outcome)
                else Silent)
    decreases |legs|
  {
    hide Went, Attempted, Decided, GoesOn;
    OneLeg(o, c, d, reconnect, s, attempts[0], legs[0]);
    if |legs| > 1 {
      WatchIsItsLegs(o, c, d, reconnect, legs[0].after, attempts[1..], legs[1..]);
    } else {
      assert VisitsOf(legs[1..]) == [] && legs[0].visits + [] == legs[0].visits;
      if GoesOn(reconnect, legs[0].outcome, attempts[0].resumes) {
        assert attempts[1..] == [];
      }
    }
  }

  /** And every watch has such attempts. */
  lemma {:induction false} EveryWatchHasLegs(o: Options, c: Crypto, d: Decoder, reconnect: bool, s: State,
                                             attempts: seq<Attempt>) returns (legs: seq<Leg>)
    requires attempts != []
    ensures legs != [] && |legs| <= |attempts| && Linked(o, c, d, reconnect, s, attempts, legs)
    ensures var last := |legs| - 1;
            |legs| == |attempts| || !GoesOn(reconnect, legs[last].outcome, attempts[last].resumes)
    decreases |attempts|
  {
    hide GoesOn, Once, Met;
    var one := Attempted(o, c, d, s, attempts[0]);
    var leg := Leg(one.0, one.1, one.2);
    legs := [leg];
    if |attempts| > 1 && GoesOn(reconnect, leg.outcome, attempts[0].resumes) {
      var more := EveryWatchHasLegs(o, c, d, reconnect, leg.after, attempts[1..]);
      legs := [leg] + more;
      assert legs[1..] == more;
    } else {
      assert legs[1..] == [];
    }
  }
}
