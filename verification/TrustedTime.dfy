/** refresh_trusted_time of the C++ client: a root-signed server time, checked against its request, sets
    the millisecond clock. */
module TrustedTime {
  import opened Basics
  import opened SignedMessages
  import TrustChain
  import TC = TrustedClock

  datatype TimeManifest = TimeManifest(manifestVersion: Bytes, appId: Bytes, releaseId: Bytes, nonce: Bytes,
                                       rootTrustKeyId: Bytes, signature: Bytes, serverTimeMs: int, expiresAtMs: int)

  /** One exchange: the nonce of the request, what came back, and the ticks around it. */
  datatype Exchange = Exchange(nonce: Bytes, manifest: Option<TimeManifest>, started: TC.Tick, received: TC.Tick)

  datatype TimeError = Unreadable | Invalid | SignatureInvalid | ClockRefused(fault: TC.Fault)

  function TimeText(m: TimeManifest): Bytes {
    ServerTimeText(ServerTime(m.appId, m.releaseId, m.nonce, m.serverTimeMs, m.expiresAtMs, m.rootTrustKeyId))
  }

  predicate TimeFits(o: TrustChain.Options, m: TimeManifest, nonce: Bytes) {
    && m.manifestVersion == Lit("server_time_v1") && m.appId == o.appId && m.releaseId == o.releaseId
    && m.nonce == nonce && m.rootTrustKeyId == o.rootTrustKeyId
    && 0 < m.serverTimeMs < m.expiresAtMs <= m.serverTimeMs + 60000
  }

  /** The root signed this time for this application, release and request. */
  predicate TimeVerified(o: TrustChain.Options, c: TrustChain.Crypto, x: Exchange) {
    && x.manifest.Some? && TimeFits(o, x.manifest.value, x.nonce)
    && c.verify(o.rootTrustPublicKey, TimeText(x.manifest.value), x.manifest.value.signature)
  }

  function StampOf(x: Exchange): TC.Stamp
    requires x.manifest.Some?
  {
    TC.Stamp(x.manifest.value.serverTimeMs, x.started, x.received)
  }

  function After(o: TrustChain.Options, c: TrustChain.Crypto, s: TC.State, x: Exchange): TC.State {
    if TimeVerified(o, c, x) then TC.Anchored(s, StampOf(x)) else s
  }

  /** The first check that fails. */
  function TimeFault(o: TrustChain.Options, c: TrustChain.Crypto, x: Exchange): Option<TimeError> {
    if x.manifest.None? then Some(Unreadable)
    else if !TimeFits(o, x.manifest.value, x.nonce) then Some(Invalid)
    else if !TimeVerified(o, c, x) then Some(SignatureInvalid)
    else
      var fault := TC.FaultOf(StampOf(x));
      if fault.Some? then Some(ClockRefused(fault.value)) else None
  }

  method RefreshTrustedTime(o: TrustChain.Options, c: TrustChain.Crypto, clock: TC.Clock, x: Exchange)
    returns (error: Option<TimeError>)
    modifies clock
    ensures error.None? <==> TimeVerified(o, c, x) && TC.FaultOf(StampOf(x)).None?
    ensures error == TimeFault(o, c, x)
    ensures clock.Now() == After(o, c, old(clock.Now()), x)
    ensures error == if x.manifest.None? then Some(Unreadable)
                     else
                       var m := x.manifest.value;
                       if !(&& m.manifestVersion == Lit("server_time_v1") && m.appId == o.appId
                            && m.releaseId == o.releaseId && m.nonce == x.nonce && m.rootTrustKeyId == o.rootTrustKeyId
                            && 0 < m.serverTimeMs < m.expiresAtMs && m.expiresAtMs - m.serverTimeMs <= 60000)
                       then Some(Invalid)
                       else if !c.verify(o.rootTrustPublicKey, TimeText(m), m.signature) then Some(SignatureInvalid)
                       else if m.serverTimeMs < 1577836800000 || m.serverTimeMs > 4102444800000 || x.received < x.started
                       then Some(ClockRefused(TC.OutOfRange))
                       else if x.received - x.started > 5000 then Some(ClockRefused(TC.TooSlow))
                       else None
    ensures (clock.initialized, clock.anchorUnix, clock.anchorTick)
            == if error.None? then (true, x.manifest.value.serverTimeMs + (x.received - x.started) / 2, x.received)
               else old((clock.initialized, clock.anchorUnix, clock.anchorTick))
  {
    hide TC.FaultOf, TC.Anchored, Lit, TimeText;
    if x.manifest.None? {
      return Some(Unreadable);
    }
    var m := x.manifest.value;
    if m.manifestVersion != Lit("server_time_v1")
       || m.appId != o.appId
       || m.releaseId != o.releaseId
       || m.nonce != x.nonce
       || m.rootTrustKeyId != o.rootTrustKeyId
       || m.serverTimeMs <= 0
       || m.expiresAtMs <= m.serverTimeMs
       || m.expiresAtMs - m.serverTimeMs > 60000 {
      return Some(Invalid);
    }
    if !c.verify(o.rootTrustPublicKey, TimeText(m), m.signature) {
      return Some(SignatureInvalid);
    }
    var fault := clock.SetAuthoritativeTime(m.serverTimeMs, x.started, x.received);
    return if fault.Some? then Some(ClockRefused(fault.value)) else None;
  }

  function Run(o: TrustChain.Options, c: TrustChain.Crypto, exchanges: seq<Exchange>): TC.State {
    if exchanges == [] then TC.UNSET
    else After(o, c, Run(o, c, exchanges[..|exchanges| - 1]), exchanges[|exchanges| - 1])
  }

  /** The exchange that the anchor comes from: verified, accepted by the clock, and its time. */
  predicate Anchors(o: TrustChain.Options, c: TrustChain.Crypto, s: TC.State, x: Exchange) {
    TimeVerified(o, c, x) && TC.FaultOf(StampOf(x)).None? && s == TC.Anchored(TC.UNSET, StampOf(x))
  }

  /** What the root signs for the nonce of an exchange is the server's own clock, read while that
      exchange was under way. */
  ghost predicate RootIsHonest(o: TrustChain.Options, c: TrustChain.Crypto, x: Exchange, offset: int) {
    forall m: TimeManifest ::
      m.nonce == x.nonce && c.verify(o.rootTrustPublicKey, TimeText(m), m.signature) ==>
        x.started <= m.serverTimeMs - offset <= x.received
  }

  lemma AnchoredAfresh(s: TC.State, stamp: TC.Stamp)
    requires TC.FaultOf(stamp).None?
    ensures TC.Anchored(s, stamp) == TC.Anchored(TC.UNSET, stamp)
  {
  }

  /** In every run of exchanges, honest or not, a clock that shows a time was set by one of them: a time
      that the configured root signed for this application, release and that exchange's own nonce. */
  lemma {:induction false} ClockIsRootSigned(o: TrustChain.Options, c: TrustChain.Crypto, exchanges: seq<Exchange>)
    ensures var s := Run(o, c, exchanges);
            s.initialized ==> exists i :: 0 <= i < |exchanges| && Anchors(o, c, s, exchanges[i])
  {
    hide TimeFits, TimeText, TC.Anchored, TC.FaultOf;
    if exchanges == [] {
    } else {
      var front, x := exchanges[..|exchanges| - 1], exchanges[|exchanges| - 1];
      var before, s := Run(o, c, front), Run(o, c, exchanges);
      ClockIsRootSigned(o, c, front);
      if TimeVerified(o, c, x) && TC.FaultOf(StampOf(x)).None? {
        AnchoredAfresh(before, StampOf(x));
        assert Anchors(o, c, s, exchanges[|exchanges| - 1]);
      } else {
        RefusedLeaves(o, c, before, x);
        if s.initialized {
          var i :| 0 <= i < |front| && Anchors(o, c, before, front[i]);
          assert exchanges[i] == front[i];
        }
      }
    }
  }

  lemma RefusedLeaves(o: TrustChain.Options, c: TrustChain.Crypto, s: TC.State, x: Exchange)
    requires !(TimeVerified(o, c, x) && TC.FaultOf(StampOf(x)).None?)
    ensures After(o, c, s, x) == s
  {
  }

  /** So if the root is honest about every nonce, the clock is within 2500 ms of the server's at every
      later reading, whatever else arrived. */
  lemma SignedTimeIsNear(o: TrustChain.Options, c: TrustChain.Crypto, exchanges: seq<Exchange>, offset: int, tick: TC.Tick)
    requires forall i :: 0 <= i < |exchanges| ==> RootIsHonest(o, c, exchanges[i], offset)
    requires TC.Readable(Run(o, c, exchanges), tick)
    ensures -2500 <= TC.Error(Run(o, c, exchanges), tick, offset) <= 2500
  {
    hide Run, TimeText;
    ClockIsRootSigned(o, c, exchanges);
    var s := Run(o, c, exchanges);
    var i :| 0 <= i < |exchanges| && Anchors(o, c, s, exchanges[i]);
    var x := exchanges[i];
    assert RootIsHonest(o, c, x, offset);
    assert TC.Honest(StampOf(x), offset);
    TC.ErrorOfAnchor(TC.UNSET, StampOf(x), tick, offset);
  }
}
