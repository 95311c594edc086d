/** The client's signed-response state: the online key ring and the session. */
module TrustChain {
  import opened Basics
  import opened KeyRing
  import opened SignedMessages

  datatype Options = Options(appId: Bytes, releaseId: Bytes, rootTrustKeyId: Bytes, rootTrustPublicKey: Bytes)

  /** verifyEd25519(public key, message, signature) and sha256Hex, left uninterpreted. */
  datatype Crypto = Crypto(verify: (Bytes, Bytes, Bytes) -> bool, sha256Hex: Bytes -> Bytes)

  datatype Envelope = Envelope(version: Bytes, decision: Bytes, releaseId: Bytes, deviceId: Bytes, nonce: Bytes,
                               dataSha256: Bytes, session: Bytes, issuedAt: int, expiresAt: int, keyId: Bytes,
                               reason: Bytes, signature: Bytes)

  datatype Carrier = Carrier(data: Bytes, authz: Envelope)

  datatype Manifest = Manifest(manifestVersion: Bytes, purpose: Bytes, appId: Bytes, releaseId: Bytes,
                               keyId: Bytes, publicKey: Bytes, rootTrustKeyId: Bytes,
                               rootTrustSignature: Bytes, issuedAt: int, refreshAfter: int)

  datatype AuthzError = CarrierInvalid | CarrierMissing | AuthzInvalid | KeyUnknown | DataMismatch
                      | SignatureInvalid

  datatype KeyError = ManifestUnreadable | ManifestInvalid | ManifestOutsideLifetime | RootSignatureInvalid
                    | KeyRebound

  /** How the request for the key manifest ended. */
  datatype KeyResponse = SendFailed | ErrorStatus(transient: bool) | Body(manifest: Option<Manifest>)

  /** What the client holds between calls. */
  datatype State = State(keys: seq<Key>, session: Bytes, sessionExpiresAt: int)

  // ---- what makes a response acceptable ----

  function SignedText(o: Options, e: Envelope): Bytes {
    AuthzText(Authz(o.appId, e.releaseId, e.deviceId, e.nonce, e.decision, e.reason, e.dataSha256, e.session,
                    e.issuedAt, e.expiresAt, e.keyId))
  }

  predicate EnvelopeFits(o: Options, e: Envelope, nonce: Bytes, deviceId: Bytes, now: int) {
    && e.version == Lit("authz_v3") && e.decision == Lit("allow")
    && e.releaseId == o.releaseId && e.deviceId == deviceId && e.nonce == nonce && e.keyId != []
    && 0 < e.issuedAt < e.expiresAt <= e.issuedAt + 900
    && e.issuedAt <= now + 120 && now - 120 <= e.expiresAt
  }

  /** Verified under a key that the ring holds. */
  predicate SignedByRing(o: Options, c: Crypto, keys: seq<Key>, e: Envelope) {
    exists i :: 0 <= i < |keys| && keys[i].keyId == e.keyId
                && c.verify(keys[i].publicKey, SignedText(o, e), e.signature)
  }

  predicate AuthzAccepted(o: Options, c: Crypto, keys: seq<Key>, r: Option<Carrier>, nonce: Bytes,
                          deviceId: Bytes, now: int)
  {
    && r.Some? && r.value.data != [] && r.value.authz.signature != []
    && EnvelopeFits(o, r.value.authz, nonce, deviceId, now)
    && Lower(r.value.authz.dataSha256) == Lower(c.sha256Hex(r.value.data))
    && SignedByRing(o, c, keys, r.value.authz)
  }

  /** The first check that a refused carrier fails. */
  function AuthzFault(o: Options, c: Crypto, keys: seq<Key>, r: Option<Carrier>, nonce: Bytes, deviceId: Bytes,
                      now: int): AuthzError
  {
    if r.None? then CarrierInvalid
    else if r.value.data == [] || r.value.authz.signature == [] then CarrierMissing
    else if !EnvelopeFits(o, r.value.authz, nonce, deviceId, now) then AuthzInvalid
    else if !Holds(keys, r.value.authz.keyId) then KeyUnknown
    else if Lower(r.value.authz.dataSha256) != Lower(c.sha256Hex(r.value.data)) then DataMismatch
    else SignatureInvalid
  }

  /** The text the root signs for one online key of this application and release. */
  function KeyText(o: Options, k: Key): Bytes {
    KeyManifestText(KeyManifest(Lit("online_body"), o.appId, o.releaseId, k.keyId, k.publicKey,
                                o.rootTrustKeyId, k.issuedAt, k.refreshAfter))
  }

  predicate ManifestFits(o: Options, m: Manifest) {
    && m.manifestVersion == Lit("online_key_manifest_v1") && m.purpose == Lit("online_body")
    && m.appId == o.appId && m.releaseId == o.releaseId && m.rootTrustKeyId == o.rootTrustKeyId
    && m.keyId != [] && m.publicKey != [] && m.rootTrustSignature != []
    && 0 < m.issuedAt < m.refreshAfter <= m.issuedAt + 30 * 24 * 60 * 60
  }

  function ManifestKey(m: Manifest): Key {
    Key(m.keyId, m.publicKey, m.issuedAt, m.refreshAfter)
  }

  predicate ManifestVerified(o: Options, c: Crypto, m: Manifest, now: int) {
    && ManifestFits(o, m) && m.issuedAt <= now + 120 && now - 120 <= m.refreshAfter
    && c.verify(o.rootTrustPublicKey, KeyText(o, ManifestKey(m)), m.rootTrustSignature)
  }

  /** The first check that a refused manifest fails; a rebind is only met by a verified one. */
  function KeyFault(o: Options, c: Crypto, keys: seq<Key>, m: Option<Manifest>, now: int): Option<KeyError> {
    if m.None? then Some(ManifestUnreadable)
    else if !ManifestFits(o, m.value) then Some(ManifestInvalid)
    else if m.value.issuedAt > now + 120 || m.value.refreshAfter < now - 120 then Some(ManifestOutsideLifetime)
    else if !ManifestVerified(o, c, m.value, now) then Some(RootSignatureInvalid)
    else if Rebinds(keys, ManifestKey(m.value)) then Some(KeyRebound)
    else None
  }

  // ---- what a response does to the state ----

  function AfterAuthz(o: Options, c: Crypto, s: State, r: Option<Carrier>, nonce: Bytes, deviceId: Bytes,
                      now: int): State
  {
    if AuthzAccepted(o, c, s.keys, r, nonce, deviceId, now) && r.value.authz.session != []
    then s.(session := r.value.authz.session, sessionExpiresAt := r.value.authz.expiresAt)
    else s
  }

  function AfterManifest(o: Options, c: Crypto, s: State, m: Option<Manifest>, now: int): State {
    if m.Some? && ManifestVerified(o, c, m.value, now) then s.(keys := Step(s.keys, ManifestKey(m.value))) else s
  }

  // ---- the client ----

  class Client {
    const options: Options
    const crypto: Crypto
    var session: Bytes
    var sessionExpiresAt: int
    var currentKey: Option<Key>
    var previousKeys: seq<Key>

    ghost predicate Valid()
      reads this
    {
      && |previousKeys| < RING_SIZE && (previousKeys != [] ==> currentKey.Some?)
      && Distinct(Keys())
    }

    /** The ring, oldest key first. */
    function Keys(): seq<Key>
      reads this
    {
      if currentKey.Some? then previousKeys + [currentKey.value] else previousKeys
    }

    function Now(): State
      reads this
    {
      State(Keys(), session, sessionExpiresAt)
    }

    constructor (options: Options, crypto: Crypto)
      ensures Valid() && this.options == options && this.crypto == crypto
      ensures Now() == State([], [], 0)
    {
      this.options := options;
      this.crypto := crypto;
      session := [];
      sessionExpiresAt := 0;
      currentKey := None;
      previousKeys := [];
    }

    /** Current key first, then the previous keys from the newest. */
    method FindKey(keyId: Bytes) returns (r: Option<Key>)
      requires Valid()
      ensures r.Some? ==> r.value in Keys() && r.value.keyId == keyId
      ensures r.None? <==> !Holds(Keys(), keyId)
    {
      if currentKey.Some? && currentKey.value.keyId == keyId {
        assert Keys()[|previousKeys|] == currentKey.value;
        return currentKey;
      }
      var index := |previousKeys|;
      while index > 0
        invariant 0 <= index <= |previousKeys|
        invariant forall j :: index <= j < |previousKeys| ==> previousKeys[j].keyId != keyId
      {
        index := index - 1;
        if previousKeys[index].keyId == keyId {
          assert Keys()[index] == previousKeys[index];
          return Some(previousKeys[index]);
        }
      }
      return None;
    }

    /** An id already held with other key material is refused; otherwise the key becomes current. */
    method InstallKey(next: Key) returns (ok: bool)
      requires Valid()
      modifies this`currentKey, this`previousKeys
      ensures Valid()
      ensures ok <==> !Rebinds(old(Keys()), next)
      ensures ok ==> currentKey == Some(next)
      ensures Keys() == Step(old(Keys()), next)
    {
      hide Without, Distinct;
      ghost var before := Keys();
      if currentKey.Some? && currentKey.value.keyId == next.keyId {
        assert before[|previousKeys|] == currentKey.value;
        if currentKey.value.publicKey != next.publicKey {
          return false;
        }
        ReplaceLast(before, next);
        DistinctAfter(before, next);
        currentKey := Some(next);
        return true;
      }
      var index := 0;
      while index < |previousKeys|
        invariant 0 <= index <= |previousKeys| && previousKeys == old(previousKeys)
        invariant forall j :: 0 <= j < index ==> previousKeys[j].keyId != next.keyId
      {
        if previousKeys[index].keyId == next.keyId {
          assert before[index] == previousKeys[index];
          if previousKeys[index].publicKey != next.publicKey {
            return false;
          }
          previousKeys := previousKeys[..index] + previousKeys[index + 1..];
          break;
        }
        index := index + 1;
      }
      ghost var kept := RemoveHeld(old(previousKeys), index, currentKey, next);
      assert kept == if currentKey.Some? then previousKeys + [currentKey.value] else previousKeys;
      if currentKey.Some? {
        previousKeys := previousKeys + [currentKey.value];
        while |previousKeys| >= RING_SIZE
          invariant |previousKeys| <= RING_SIZE
          invariant previousKeys == kept || (|kept| == RING_SIZE && previousKeys == kept[1..])
        {
          previousKeys := previousKeys[1..];
        }
      }
      DistinctAfter(before, next);
      assert previousKeys + [next] == LastFive(kept + [next]);
      currentKey := Some(next);
      return true;
    }

    /** Check an authz_v3 carrier: what is accepted, which check a refused one fails first, and that only
        an accepted one touches the session. */
    method VerifyAuthz(carrier: Option<Carrier>, requestNonce: Bytes, deviceId: Bytes, now: int)
      returns (r: Result<Bytes, AuthzError>)
      requires Valid()
      modifies this`session, this`sessionExpiresAt
      ensures Valid()
      ensures r.Ok? <==> AuthzAccepted(options, crypto, Keys(), carrier, requestNonce, deviceId, now)
      ensures r.Ok? ==> r.value == carrier.value.data
      ensures r.Err? ==> r.error == AuthzFault(options, crypto, Keys(), carrier, requestNonce, deviceId, now)
      ensures Now() == AfterAuthz(options, crypto, old(Now()), carrier, requestNonce, deviceId, now)
      ensures r == if carrier.None? then Err(CarrierInvalid)
                   else
                     var data, e := carrier.value.data, carrier.value.authz;
                     if data == [] || e.signature == [] then Err(CarrierMissing)
                     else if !(&& e.version == Lit("authz_v3") && e.decision == Lit("allow")
                               && e.releaseId == options.releaseId && e.deviceId == deviceId && e.nonce == requestNonce
                               && e.keyId != [] && 0 < e.issuedAt < e.expiresAt && e.expiresAt - e.issuedAt <= 900
                               && e.issuedAt - 120 <= now <= e.expiresAt + 120) then Err(AuthzInvalid)
                     else if forall k :: k in Keys() ==> k.keyId != e.keyId then Err(KeyUnknown)
                     else if Lower(e.dataSha256) != Lower(crypto.sha256Hex(data)) then Err(DataMismatch)
                     else if exists k :: k in Keys() && k.keyId == e.keyId
                                         && crypto.verify(k.publicKey, SignedText(options, e), e.signature) then Ok(data)
                     else Err(SignatureInvalid)
      ensures Keys() == old(Keys())
      ensures (session, sessionExpiresAt)
              == if r.Ok? && carrier.value.authz.session != []
                 then (carrier.value.authz.session, carrier.value.authz.expiresAt)
                 else old((session, sessionExpiresAt))
    {
      AuthzResult(options, crypto, Keys(), carrier, requestNonce, deviceId, now);
      if carrier.None? {
        return Err(CarrierInvalid);
      }
      var envelope := carrier.value.authz;
      if carrier.value.data == [] || envelope.signature == [] {
        return Err(CarrierMissing);
      }
      if envelope.version != Lit("authz_v3")
         || envelope.decision != Lit("allow")
         || envelope.releaseId != options.releaseId
         || envelope.deviceId != deviceId
         || envelope.nonce != requestNonce
         || envelope.keyId == []
         || envelope.issuedAt <= 0
         || envelope.expiresAt <= envelope.issuedAt
         || envelope.expiresAt - envelope.issuedAt > 900
         || envelope.issuedAt > now + 120
         || envelope.expiresAt < now - 120 {
        return Err(AuthzInvalid);
      }
      hide SignedText, Lit, Lower;
      var key := FindKey(envelope.keyId);
      if key.None? {
        return Err(KeyUnknown);
      }
      if Lower(envelope.dataSha256) != Lower(crypto.sha256Hex(carrier.value.data)) {
        return Err(DataMismatch);
      }
      OnlyKey(options, crypto, Keys(), key.value, envelope);
      if !crypto.verify(key.value.publicKey, SignedText(options, envelope), envelope.signature) {
        return Err(SignatureInvalid);
      }
      if envelope.session != [] {
        session := envelope.session;
        sessionExpiresAt := envelope.expiresAt;
      }
      return Ok(carrier.value.data);
    }

    /** The manifest half of refreshOnlineKeys: check the response body, then install the key. */
    method AcceptKeyManifest(manifest: Option<Manifest>, now: int) returns (r: Option<KeyError>)
      requires Valid()
      modifies this`currentKey, this`previousKeys
      ensures Valid()
      ensures r.None? <==> manifest.Some? && ManifestVerified(options, crypto, manifest.value, now)
                           && !Rebinds(old(Keys()), ManifestKey(manifest.value))
      ensures r == KeyFault(options, crypto, old(Keys()), manifest, now)
      ensures Now() == AfterManifest(options, crypto, old(Now()), manifest, now)
      ensures r == if manifest.None? then Some(ManifestUnreadable)
                   else
                     var m := manifest.value;
                     if !(&& m.manifestVersion == Lit("online_key_manifest_v1") && m.purpose == Lit("online_body")
                          && m.appId == options.appId && m.releaseId == options.releaseId
                          && m.rootTrustKeyId == options.rootTrustKeyId
                          && m.keyId != [] && m.publicKey != [] && m.rootTrustSignature != []
                          && 0 < m.issuedAt < m.refreshAfter && m.refreshAfter - m.issuedAt <= 30 * 24 * 60 * 60)
                     then Some(ManifestInvalid)
                     else if !(m.issuedAt - 120 <= now <= m.refreshAfter + 120) then Some(ManifestOutsideLifetime)
                     else if !crypto.verify(options.rootTrustPublicKey, KeyText(options, ManifestKey(m)), m.rootTrustSignature)
                     then Some(RootSignatureInvalid)
                     else if exists k :: k in old(Keys()) && k.keyId == m.keyId && k.publicKey != m.publicKey
                     then Some(KeyRebound)
                     else None
      ensures r.None? ==> currentKey == Some(Key(manifest.value.keyId, manifest.value.publicKey, manifest.value.issuedAt,
                                                 manifest.value.refreshAfter))
      ensures r.Some? ==> Keys() == old(Keys())
      ensures session == old(session) && sessionExpiresAt == old(sessionExpiresAt)
    {
      if manifest.None? {
        return Some(ManifestUnreadable);
      }
      var m := manifest.value;
      if m.manifestVersion != Lit("online_key_manifest_v1")
         || m.purpose != Lit("online_body")
         || m.appId != options.appId
         || m.releaseId != options.releaseId
         || m.rootTrustKeyId != options.rootTrustKeyId
         || m.keyId == []
         || m.publicKey == []
         || m.rootTrustSignature == []
         || m.issuedAt <= 0
         || m.refreshAfter <= m.issuedAt
         || m.refreshAfter - m.issuedAt > 30 * 24 * 60 * 60 {
        return Some(ManifestInvalid);
      }
      if m.issuedAt > now + 120 || m.refreshAfter < now - 120 {
        return Some(ManifestOutsideLifetime);
      }
      if !crypto.verify(options.rootTrustPublicKey, KeyText(options, ManifestKey(m)), m.rootTrustSignature) {
        return Some(RootSignatureInvalid);
      }
      RebindsExactly(Keys(), ManifestKey(m));
      var ok := InstallKey(ManifestKey(m));
      return if ok then None else Some(KeyRebound);
    }

    function UsableFor(clock: Option<int>, margin: int): bool
      reads this
    {
      currentKey.Some? && clock.Some? && clock.value < currentKey.value.refreshAfter - margin
    }

    /** refreshOnlineKeys. The clock is the trusted second, if there is one: at the call, and again
        once time was refreshed and the manifest requested; it may have been set back. A fresh enough key
        needs no request. A failed request is tolerated while the current key is usable, an error status
        only if it is transient. A manifest counts exactly when it is verified and no rebind. Success
        leaves a current key that is at most 120 seconds past its refresh time. */
    method RefreshOnlineKeys(force: bool, clock: Option<int>, later: Option<int>, response: KeyResponse)
      returns (ok: bool)
      requires Valid()
      requires clock.Some? ==> later.Some?
      modifies this`currentKey, this`previousKeys
      ensures Valid()
      ensures ok <==>
                (!force && clock.Some? && old(currentKey).Some? && clock.value < old(currentKey).value.refreshAfter - 300)
                || (later.Some? &&
                    match response
                    case SendFailed => old(currentKey).Some? && later.value < old(currentKey).value.refreshAfter
                    case ErrorStatus(transient) =>
                      transient && old(currentKey).Some? && later.value < old(currentKey).value.refreshAfter
                    case Body(manifest) =>
                      manifest.Some? && ManifestVerified(options, crypto, manifest.value, later.value)
                      && !Rebinds(old(Keys()), ManifestKey(manifest.value)))
      ensures ok ==> currentKey.Some?
      ensures ok && later.Some? ==> later.value <= currentKey.value.refreshAfter + 120
                                    || (!force && old(UsableFor(clock, 300)))
      ensures Now() == if (!force && old(UsableFor(clock, 300))) || later.None? || !response.Body? then old(Now())
                       else AfterManifest(options, crypto, old(Now()), response.manifest, later.value)
    {
      if !force && UsableFor(clock, 300) {
        return true;
      }
      if clock.None? && later.None? {
        return UsableFor(later, 0);
      }
      match response
      case SendFailed =>
        return UsableFor(later, 0);
      case ErrorStatus(transient) =>
        return transient && UsableFor(later, 0);
      case Body(manifest) =>
        var error := AcceptKeyManifest(manifest, later.value);
        if error.None? {
          assert Keys()[|Keys()| - 1] == ManifestKey(manifest.value);
        }
        return error.None?;
    }

    /** The current session, if it is still valid; an expired one is forgotten. */
    method EnsureSession(now: int) returns (r: Option<Bytes>)
      requires Valid()
      modifies this`session, this`sessionExpiresAt
      ensures Valid()
      ensures r.Some? <==> old(session) != [] && now < old(sessionExpiresAt)
      ensures r.Some? ==> r.value == old(session)
      ensures Now() == if r.Some? then old(Now()) else old(Now()).(session := [], sessionExpiresAt := 0)
    {
      if session == [] || sessionExpiresAt <= now {
        session := [];
        sessionExpiresAt := 0;
        return None;
      }
      return Some(session);
    }

    method ClearSession()
      requires Valid()
      modifies this`session, this`sessionExpiresAt
      ensures Valid() && Now() == old(Now()).(session := [], sessionExpiresAt := 0)
    {
      session := [];
      sessionExpiresAt := 0;
    }

    /** The key a request is encrypted to: the newest key of the ring, until its refresh time. */
    method GetCurrentKey(clockInitialized: bool, now: int) returns (r: Option<Key>)
      requires Valid()
      ensures r.Some? <==> Keys() != [] && !(clockInitialized && now >= Keys()[|Keys()| - 1].refreshAfter)
      ensures r.Some? ==> r.value == Keys()[|Keys()| - 1]
    {
      if currentKey.None? || (clockInitialized && now >= currentKey.value.refreshAfter) {
        return None;
      }
      return currentKey;
    }
  }

  lemma RebindsExactly(keys: seq<Key>, next: Key)
    ensures Rebinds(keys, next) <==> exists k :: k in keys && k.keyId == next.keyId && k.publicKey != next.publicKey
  {
    if k :| k in keys && k.keyId == next.keyId && k.publicKey != next.publicKey {
      var i :| 0 <= i < |keys| && keys[i] == k;
    }
  }

  /** The outcome, check by check. */
  lemma AuthzResult(o: Options, c: Crypto, keys: seq<Key>, carrier: Option<Carrier>, requestNonce: Bytes,
                    deviceId: Bytes, now: int)
    ensures (if AuthzAccepted(o, c, keys, carrier, requestNonce, deviceId, now) then Ok(carrier.value.data)
             else Err(AuthzFault(o, c, keys, carrier, requestNonce, deviceId, now)))
            == if carrier.None? then Err(CarrierInvalid)
               else
                 var data, e := carrier.value.data, carrier.value.authz;
                 if data == [] || e.signature == [] then Err(CarrierMissing)
                 else if !(&& e.version == Lit("authz_v3") && e.decision == Lit("allow")
                           && e.releaseId == o.releaseId && e.deviceId == deviceId && e.nonce == requestNonce
                           && e.keyId != [] && 0 < e.issuedAt < e.expiresAt && e.expiresAt - e.issuedAt <= 900
                           && e.issuedAt - 120 <= now <= e.expiresAt + 120) then Err(AuthzInvalid)
                 else if forall k :: k in keys ==> k.keyId != e.keyId then Err(KeyUnknown)
                 else if Lower(e.dataSha256) != Lower(c.sha256Hex(data)) then Err(DataMismatch)
                 else if exists k :: k in keys && k.keyId == e.keyId
                                     && c.verify(k.publicKey, SignedText(o, e), e.signature) then Ok(data)
                 else Err(SignatureInvalid)
  {
    hide Lit, Lower, SignedText;
    if carrier.Some? {
      SomeKeySigned(o, c, keys, carrier.value.authz);
    }
  }

  lemma SomeKeySigned(o: Options, c: Crypto, keys: seq<Key>, e: Envelope)
    ensures SignedByRing(o, c, keys, e)
            <==> exists k :: k in keys && k.keyId == e.keyId && c.verify(k.publicKey, SignedText(o, e), e.signature)
    ensures Holds(keys, e.keyId) <==> !forall k :: k in keys ==> k.keyId != e.keyId
  {
    hide SignedText;
    if k :| k in keys && k.keyId == e.keyId && c.verify(k.publicKey, SignedText(o, e), e.signature) {
      var i :| 0 <= i < |keys| && keys[i] == k;
    }
    if k :| k in keys && k.keyId == e.keyId {
      var i :| 0 <= i < |keys| && keys[i] == k;
    }
  }

  lemma ReplaceLast(keys: seq<Key>, next: Key)
    requires keys != [] && Distinct(keys) && keys[|keys| - 1].keyId == next.keyId
    ensures Without(keys, next.keyId) == keys[..|keys| - 1]
  {
    WithoutHeld(keys, |keys| - 1, next.keyId);
  }

  /** The search loop stopped at the held entry, or found none: what is left of the ring. */
  lemma RemoveHeld(previous: seq<Key>, index: nat, current: Option<Key>, next: Key) returns (kept: seq<Key>)
    requires index <= |previous|
    requires forall j :: 0 <= j < index ==> previous[j].keyId != next.keyId
    requires index < |previous| ==> previous[index].keyId == next.keyId
    requires current.Some? ==> current.value.keyId != next.keyId
    requires Distinct(if current.Some? then previous + [current.value] else previous)
    ensures kept == Without(if current.Some? then previous + [current.value] else previous, next.keyId)
    ensures kept == (if index < |previous| then previous[..index] + previous[index + 1..] else previous)
                    + (if current.Some? then [current.value] else [])
  {
    hide Without, Distinct;
    var tail := if current.Some? then [current.value] else [];
    var all := previous + tail;
    assert all == if current.Some? then previous + [current.value] else previous;
    assert all[..|previous|] == previous;
    WithoutConcat(previous, tail, next.keyId);
    WithoutAbsent(tail, next.keyId);
    if index < |previous| {
      DistinctFront(previous, tail);
      WithoutHeld(previous, index, next.keyId);
    } else {
      WithoutAbsent(previous, next.keyId);
    }
    kept := Without(all, next.keyId);
  }

  lemma DistinctFront(a: seq<Key>, b: seq<Key>)
    requires Distinct(a + b)
    ensures Distinct(a)
  {
    assert forall j :: 0 <= j < |a| ==> a[j] == (a + b)[j];
  }

  lemma WithoutHeld(keys: seq<Key>, index: nat, keyId: Bytes)
    requires Distinct(keys) && index < |keys| && keys[index].keyId == keyId
    ensures Without(keys, keyId) == keys[..index] + keys[index + 1..]
  {
    var front, back := keys[..index], keys[index + 1..];
    assert keys == front + ([keys[index]] + back);
    WithoutConcat(front, [keys[index]] + back, keyId);
    assert ([keys[index]] + back)[1..] == back;
    WithoutAbsent(front, keyId);
    WithoutAbsent(back, keyId);
  }

  lemma DistinctAfter(keys: seq<Key>, next: Key)
    requires Distinct(keys)
    ensures Distinct(Without(keys, next.keyId) + [next]) && Distinct(Step(keys, next))
  {
    hide Without, Distinct;
    WithoutDistinct(keys, next.keyId);
    var w := Without(keys, next.keyId);
    DistinctLast(w, next);
    DistinctSuffix(w + [next]);
  }

  lemma DistinctLast(w: seq<Key>, next: Key)
    requires Distinct(w) && forall k :: k in w ==> k.keyId != next.keyId
    ensures Distinct(w + [next])
  {
    assert forall i :: 0 <= i < |w| ==> w[i] in w;
  }

  lemma DistinctSuffix(keys: seq<Key>)
    requires Distinct(keys)
    ensures Distinct(LastFive(keys))
  {
  }

  /** With distinct ids, the key that was found is the only one that can have signed. */
  lemma OnlyKey(o: Options, c: Crypto, keys: seq<Key>, k: Key, e: Envelope)
    requires Distinct(keys) && k in keys && k.keyId == e.keyId
    ensures SignedByRing(o, c, keys, e) <==> c.verify(k.publicKey, SignedText(o, e), e.signature)
  {
    hide SignedText;
    var i :| 0 <= i < |keys| && keys[i] == k;
    assert keys[i].keyId == e.keyId;
  }

  // ---- every run ----

  datatype Event =
    | ManifestReceived(manifest: Option<Manifest>, now: int)
    | AuthzReceived(carrier: Option<Carrier>, nonce: Bytes, deviceId: Bytes, now: int)
    | SessionAsked(now: int)
    | SessionCleared

  function After(o: Options, c: Crypto, s: State, e: Event): State {
    match e
    case ManifestReceived(m, now) => AfterManifest(o, c, s, m, now)
    case AuthzReceived(r, nonce, deviceId, now) => AfterAuthz(o, c, s, r, nonce, deviceId, now)
    case SessionAsked(now) =>
      if s.session != [] && now < s.sessionExpiresAt then s else s.(session := [], sessionExpiresAt := 0)
    case SessionCleared => s.(session := [], sessionExpiresAt := 0)
  }

  function RunEvents(o: Options, c: Crypto, events: seq<Event>): State {
    if events == [] then State([], [], 0)
    else After(o, c, RunEvents(o, c, events[..|events| - 1]), events[|events| - 1])
  }

  ghost predicate RootSigned(o: Options, c: Crypto, k: Key) {
    && k.keyId != [] && k.publicKey != [] && 0 < k.issuedAt < k.refreshAfter
    && exists signature :: c.verify(o.rootTrustPublicKey, KeyText(o, k), signature)
  }

  /** In every run, every key of the ring was signed by the configured root. */
  lemma {:induction false} RingIsRootSigned(o: Options, c: Crypto, events: seq<Event>)
    ensures var s := RunEvents(o, c, events);
            && Distinct(s.keys) && |s.keys| <= RING_SIZE
            && forall i :: 0 <= i < |s.keys| ==> RootSigned(o, c, s.keys[i])
  {
    hide KeyText, AuthzAccepted;
    if events == [] {
    } else {
      var before, e := RunEvents(o, c, events[..|events| - 1]), events[|events| - 1];
      RingIsRootSigned(o, c, events[..|events| - 1]);
      if e.ManifestReceived? && e.manifest.Some? && ManifestVerified(o, c, e.manifest.value, e.now) {
        StepKeepsRootSigned(o, c, before.keys, e.manifest.value, e.now);
      }
    }
  }

  lemma StepKeepsRootSigned(o: Options, c: Crypto, keys: seq<Key>, m: Manifest, now: int)
    requires Distinct(keys) && |keys| <= RING_SIZE && ManifestVerified(o, c, m, now)
    requires forall i :: 0 <= i < |keys| ==> RootSigned(o, c, keys[i])
    ensures var after := Step(keys, ManifestKey(m));
            && Distinct(after) && |after| <= RING_SIZE
            && forall i :: 0 <= i < |after| ==> RootSigned(o, c, after[i])
  {
    hide KeyText;
    var next := ManifestKey(m);
    DistinctAfter(keys, next);
    assert RootSigned(o, c, next);
    forall k | k in Without(keys, next.keyId) + [next] ensures RootSigned(o, c, k) {
      assert k == next || k in keys;
    }
    var after := Step(keys, next);
    if !Rebinds(keys, next) {
      assert forall i :: 0 <= i < |after| ==> after[i] in Without(keys, next.keyId) + [next];
    }
  }

  /** The event that a session comes from: an allow envelope for this release, device and nonce, of its
      time, over its data, signed by a key that the ring held then. */
  ghost predicate Grants(o: Options, c: Crypto, events: seq<Event>, i: nat, s: State) {
    && i < |events| && events[i].AuthzReceived? && events[i].carrier.Some?
    && var r, a := events[i], events[i].carrier.value.authz;
       && a.decision == Lit("allow") && a.releaseId == o.releaseId && a.deviceId == r.deviceId && a.nonce == r.nonce
       && a.expiresAt - a.issuedAt <= 900 && a.issuedAt - 120 <= r.now <= a.expiresAt + 120
       && Lower(a.dataSha256) == Lower(c.sha256Hex(r.carrier.value.data))
       && (exists k :: k in RunEvents(o, c, events[..i]).keys && k.keyId == a.keyId
                       && c.verify(k.publicKey, SignedText(o, a), a.signature))
       && a.session == s.session && a.expiresAt == s.sessionExpiresAt && s.sessionExpiresAt <= r.now + 1020
  }

  /** In every run, a held session came from an allow envelope for this release, device and nonce,
      signed by a key then in the ring, and ends at most 1020 seconds after it was accepted. */
  lemma {:induction false} SessionIsGranted(o: Options, c: Crypto, events: seq<Event>)
    requires RunEvents(o, c, events).session != []
    ensures exists i :: 0 <= i < |events| && Grants(o, c, events, i, RunEvents(o, c, events))
  {
    hide AuthzAccepted, ManifestVerified;
    if events == [] {
    } else {
      var n := |events| - 1;
      var front, e := events[..n], events[n];
      var before, after := RunEvents(o, c, front), RunEvents(o, c, events);
      if after.session == before.session && after.sessionExpiresAt == before.sessionExpiresAt && before.session != [] {
        SessionIsGranted(o, c, front);
        var i :| 0 <= i < |front| && Grants(o, c, front, i, before);
        GrantStays(o, c, events, i, before, after);
      } else {
        LastGrants(o, c, events, n);
      }
    }
  }

  lemma GrantStays(o: Options, c: Crypto, events: seq<Event>, i: nat, before: State, after: State)
    requires events != [] && i < |events| - 1 && Grants(o, c, events[..|events| - 1], i, before)
    requires before.session == after.session && before.sessionExpiresAt == after.sessionExpiresAt
    ensures Grants(o, c, events, i, after)
  {
    hide SignedText, RunEvents, Lower, Lit;
    var front := events[..|events| - 1];
    assert front[..i] == events[..i] && front[i] == events[i];
  }

  lemma LastGrants(o: Options, c: Crypto, events: seq<Event>, n: nat)
    requires events != [] && n == |events| - 1 && events[n].AuthzReceived?
    requires var e, s := events[n], RunEvents(o, c, events[..n]);
             && AuthzAccepted(o, c, s.keys, e.carrier, e.nonce, e.deviceId, e.now)
             && e.carrier.value.authz.session != []
    ensures Grants(o, c, events, n, RunEvents(o, c, events))
  {
    hide SignedText, Lower, Lit, AuthzAccepted;
    var e, s := events[n], RunEvents(o, c, events[..n]);
    AuthzResult(o, c, s.keys, e.carrier, e.nonce, e.deviceId, e.now);
    assert RunEvents(o, c, events) == AfterAuthz(o, c, s, e.carrier, e.nonce, e.deviceId, e.now);
  }
}
