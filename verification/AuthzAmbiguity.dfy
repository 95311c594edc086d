/** When the signed text of an accepted authorization can be read in two ways. */
module AuthzAmbiguity {
  import opened Basics
  import opened Text
  import opened SignedMessages
  import opened TrustChain
  import KeyRing

  /** What stands between the reason and the session. */
  function Marker(digest: Bytes): Bytes {
    [NEWLINE] + Lit("data_sha256:") + digest + [NEWLINE] + Lit("session:")
  }

  /** The text up to the reason. */
  function Head(o: Options, e: Envelope): Bytes {
    Join([Lit("authz_v3"), Lit("app_id:") + o.appId, Lit("release_id:") + e.releaseId, Lit("device_id:") + e.deviceId,
          Lit("nonce:") + e.nonce, Lit("decision:") + e.decision], NEWLINE) + [NEWLINE] + Lit("reason:")
  }

  /** The two times after the session. */
  function TimeLines(e: Envelope): seq<Bytes> {
    [Lit("issued_at:") + FormatInt(e.issuedAt), Lit("expires_at:") + FormatInt(e.expiresAt)]
  }

  /** The last line, with the newline before it. */
  function KeyLine(keyId: Bytes): Bytes {
    [NEWLINE] + Lit("key_id:") + keyId
  }

  function Middle(e: Envelope): Bytes {
    e.reason + Marker(e.dataSha256) + e.session
  }

  // ---- the text in parts ----

  lemma JoinThree(x: Bytes, y: Bytes, z: Bytes, sep: Byte)
    ensures Join([x, y, z], sep) == x + [sep] + (y + [sep] + z)
  {
    assert [x, y, z][1..] == [y, z] && [y, z][1..] == [z];
    assert Join([z], sep) == z;
    assert Join([y, z], sep) == y + [sep] + z;
  }

  lemma TextInParts(o: Options, e: Envelope)
    ensures SignedText(o, e) == Head(o, e) + Middle(e) + ([NEWLINE] + Join(TimeLines(e), NEWLINE)) + KeyLine(e.keyId)
  {
    hide Lit, FormatInt, Join;
    var front := [Lit("authz_v3"), Lit("app_id:") + o.appId, Lit("release_id:") + e.releaseId,
                  Lit("device_id:") + e.deviceId, Lit("nonce:") + e.nonce, Lit("decision:") + e.decision];
    var x, y, z := Lit("reason:") + e.reason, Lit("data_sha256:") + e.dataSha256, Lit("session:") + e.session;
    var times, key := TimeLines(e), [Lit("key_id:") + e.keyId];
    AllLines(o, e, front, [x, y, z], times, key);
    JoinConcat(front, [x, y, z] + (times + key), NEWLINE);
    JoinConcat([x, y, z], times + key, NEWLINE);
    JoinConcat(times, key, NEWLINE);
    JoinOne(key[0], NEWLINE);
    JoinThree(x, y, z, NEWLINE);
    PartsTogether(Join(front, NEWLINE), e, Join(times, NEWLINE));
  }

  lemma PartsTogether(front: Bytes, e: Envelope, times: Bytes)
    ensures var x, y, z := Lit("reason:") + e.reason, Lit("data_sha256:") + e.dataSha256, Lit("session:") + e.session;
            front + [NEWLINE]
            + ((x + [NEWLINE] + (y + [NEWLINE] + z)) + [NEWLINE] + (times + [NEWLINE] + (Lit("key_id:") + e.keyId)))
            == (front + [NEWLINE] + Lit("reason:")) + Middle(e) + ([NEWLINE] + times) + KeyLine(e.keyId)
  {
    hide Lit;
    var x, y, z := Lit("reason:") + e.reason, Lit("data_sha256:") + e.dataSha256, Lit("session:") + e.session;
    var key := Lit("key_id:") + e.keyId;
    assert x + [NEWLINE] + (y + [NEWLINE] + z) == Lit("reason:") + Middle(e);
    assert (Lit("reason:") + Middle(e)) + [NEWLINE] + (times + [NEWLINE] + key)
           == Lit("reason:") + (Middle(e) + ([NEWLINE] + times) + KeyLine(e.keyId));
  }

  lemma AllLines(o: Options, e: Envelope, front: seq<Bytes>, middle: seq<Bytes>, times: seq<Bytes>, key: seq<Bytes>)
    requires front == [Lit("authz_v3"), Lit("app_id:") + o.appId, Lit("release_id:") + e.releaseId,
                       Lit("device_id:") + e.deviceId, Lit("nonce:") + e.nonce, Lit("decision:") + e.decision]
    requires middle == [Lit("reason:") + e.reason, Lit("data_sha256:") + e.dataSha256, Lit("session:") + e.session]
    requires times == TimeLines(e) && key == [Lit("key_id:") + e.keyId]
    ensures SignedText(o, e) == Join(front + (middle + (times + key)), NEWLINE)
  {
    hide Lit, FormatInt, Join;
    var a := Authz(o.appId, e.releaseId, e.deviceId, e.nonce, e.decision, e.reason, e.dataSha256, e.session,
                   e.issuedAt, e.expiresAt, e.keyId);
    assert Lines("authz_v3", AuthzFields(a)) == front + (middle + (times + key));
  }

  // ---- what the last lines determine ----

  /** One more byte in front of the parts. */
  function Prepended(first: Byte, parts: seq<Bytes>, sep: Byte): seq<Bytes>
    requires parts != []
  {
    if first == sep then [[]] + parts else [[first] + parts[0]] + parts[1..]
  }

  lemma SplitNext(s: Bytes, sep: Byte)
    requires s != []
    ensures Split(s, sep) == Prepended(s[0], Split(s[1..], sep), sep)
  {
  }

  lemma PrependedAppend(first: Byte, a: seq<Bytes>, b: seq<Bytes>, sep: Byte)
    requires a != []
    ensures Prepended(first, a + b, sep) == Prepended(first, a, sep) + b
  {
    assert (a + b)[1..] == a[1..] + b;
  }

  lemma {:induction false} SplitAppend(s: Bytes, rest: Bytes, sep: Byte)
    ensures Split(s + [sep] + rest, sep) == Split(s, sep) + Split(rest, sep)
  {
    hide Split, Prepended;
    if s == [] {
      SplitWhole([], sep);
      SplitFirst([], sep, rest);
    } else {
      SplitAppend(s[1..], rest, sep);
      var whole := s + [sep] + rest;
      assert whole[1..] == s[1..] + [sep] + rest && whole[0] == s[0];
      SplitNext(s, sep);
      SplitNext(whole, sep);
      PrependedAppend(s[0], Split(s[1..], sep), Split(rest, sep), sep);
    }
  }

  lemma SameEnd(x: Bytes, a: seq<Bytes>, y: Bytes, b: seq<Bytes>, sep: Byte)
    requires |a| == |b| > 0 && Free(a, sep) && Free(b, sep)
    requires x + ([sep] + Join(a, sep)) == y + ([sep] + Join(b, sep))
    ensures x == y && a == b
  {
    hide Split, Join;
    assert x + ([sep] + Join(a, sep)) == x + [sep] + Join(a, sep);
    assert y + ([sep] + Join(b, sep)) == y + [sep] + Join(b, sep);
    SplitAppend(x, Join(a, sep), sep);
    SplitAppend(y, Join(b, sep), sep);
    SplitJoin(a, sep);
    SplitJoin(b, sep);
    var p, q := Split(x, sep), Split(y, sep);
    assert p + a == q + b;
    assert p == (p + a)[..|p|] == (q + b)[..|q|] == q;
    assert a == (p + a)[|p|..] == (q + b)[|q|..] == b;
    JoinSplit(x, sep);
    JoinSplit(y, sep);
  }

  /** A text that holds a marker for a digest. */
  predicate Inside(text: Bytes, before: Bytes, digest: Bytes, after: Bytes) {
    text == before + Marker(digest) + after
  }

  predicate OneLine(s: Bytes) {
    NEWLINE !in s
  }

  lemma MarkerBytes(digest: Bytes)
    ensures var m := Marker(digest);
            && |m| == |digest| + 22 && m[0] == NEWLINE && m[1] == 'd' as int
            && m[13 + |digest|] == NEWLINE && m[14 + |digest|] == 's' as int
            && (OneLine(digest) ==> forall i :: 0 <= i < |m| && m[i] == NEWLINE ==> i == 0 || i == 13 + |digest|)
  {
    var d, s := Lit("data_sha256:"), Lit("session:");
    assert d[0] == 'd' as int && s[0] == 's' as int;
    assert NEWLINE !in d && NEWLINE !in s;
    var m := Marker(digest);
    assert forall i :: 0 <= i < |m| ==>
      m[i] == if i == 0 then NEWLINE else if i < 13 then d[i - 1] else if i < 13 + |digest| then digest[i - 13]
              else if i == 13 + |digest| then NEWLINE else s[i - 14 - |digest|];
  }

  /** Two markers never overlap. */
  lemma NoOverlap(g: Bytes, h: Bytes, shift: nat)
    requires |g| == |h| && OneLine(g) && 0 < shift < |Marker(g)|
    ensures Marker(g)[shift] != Marker(h)[0] || (shift + 1 < |Marker(g)| && Marker(g)[shift + 1] != Marker(h)[1])
  {
    hide Marker;
    MarkerBytes(g);
    MarkerBytes(h);
  }

  /** Equal middles with a shorter reason: the longer reason holds the marker of the one, and the session
      of the other holds the marker of it. */
  lemma Shifted(r: Bytes, g: Bytes, s: Bytes, r': Bytes, h: Bytes, s': Bytes) returns (x: Bytes)
    requires |g| == |h| && OneLine(g) && |r| < |r'| && r + Marker(g) + s == r' + Marker(h) + s'
    ensures Inside(r', r, g, x) && Inside(s, x, h, s')
  {
    hide Marker;
    var t := r + Marker(g) + s;
    var n, shift := |Marker(g)|, |r'| - |r|;
    MarkerBytes(g);
    MarkerBytes(h);
    assert t == r' + Marker(h) + s';
    if shift < n {
      assert t[|r'|] == Marker(h)[0] && t[|r'| + 1] == Marker(h)[1];
      assert t[|r| + shift] == Marker(g)[shift];
      assert shift + 1 < n ==> t[|r| + shift + 1] == Marker(g)[shift + 1];
      NoOverlap(g, h, shift);
    }
    x := r'[|r| + n..];
    assert r' == t[..|r'|];
    assert t[..|r|] == r && t[|r|..|r| + n] == Marker(g);
    assert r' == r + Marker(g) + x;
    assert s == t[|r| + n..];
    assert s == x + Marker(h) + s';
  }

  // ---- acceptance ----

  /** The library's digests: 64 hexadecimal characters. */
  ghost predicate HexDigests(c: Crypto) {
    forall data :: |c.sha256Hex(data)| == 64 && OneLine(c.sha256Hex(data))
  }

  /** One id ends in the last line for the other. */
  predicate Nested(longer: Bytes, shorter: Bytes) {
    |KeyLine(shorter)| <= |longer| && longer[|longer| - |KeyLine(shorter)|..] == KeyLine(shorter)
  }

  predicate NoNestedIds(keys: seq<KeyRing.Key>) {
    forall i, j :: 0 <= i < |keys| && 0 <= j < |keys| ==> !Nested(keys[i].keyId, keys[j].keyId)
  }

  /** Some data has this digest. */
  ghost predicate Names(c: Crypto, digest: Bytes) {
    exists data: Bytes :: data != [] && Lower(digest) == Lower(c.sha256Hex(data))
  }

  ghost predicate Hides(c: Crypto, text: Bytes) {
    exists before, digest, after :: Inside(text, before, digest, after) && Names(c, digest)
  }

  lemma DigestShape(c: Crypto, digest: Bytes, data: Bytes)
    requires HexDigests(c) && Lower(digest) == Lower(c.sha256Hex(data))
    ensures |digest| == 64 && OneLine(digest)
  {
    var d := c.sha256Hex(data);
    assert |Lower(digest)| == |digest| && |Lower(d)| == |d| == 64 && OneLine(d);
    forall i | 0 <= i < |digest| ensures digest[i] != NEWLINE {
      assert Lower(digest)[i] == Lower(d)[i];
      assert d[i] != NEWLINE;
    }
  }

  lemma TimesAreOneLines(e: Envelope)
    ensures Free(TimeLines(e), NEWLINE)
  {
    hide FormatInt;
    assert NEWLINE !in Lit("issued_at:") && NEWLINE !in Lit("expires_at:");
    assert NEWLINE !in FormatInt(e.issuedAt) && NEWLINE !in FormatInt(e.expiresAt);
  }

  lemma TimesDetermine(e: Envelope, f: Envelope)
    requires TimeLines(e) == TimeLines(f)
    ensures e.issuedAt == f.issuedAt && e.expiresAt == f.expiresAt
  {
    hide FormatInt, Lit;
    var a, b := TimeLines(e), TimeLines(f);
    assert a[0] == b[0] && a[1] == b[1];
    assert a[0][10..] == FormatInt(e.issuedAt) && b[0][10..] == FormatInt(f.issuedAt);
    assert a[1][11..] == FormatInt(e.expiresAt) && b[1][11..] == FormatInt(f.expiresAt);
    FormatIntInjective(e.issuedAt, f.issuedAt);
    FormatIntInjective(e.expiresAt, f.expiresAt);
  }

  /** Another envelope for the same request that the same signature covers. */
  predicate Twin(o: Options, c: Crypto, keys: seq<KeyRing.Key>, r: Carrier, q: Carrier, nonce: Bytes, deviceId: Bytes, now: int) {
    && AuthzAccepted(o, c, keys, Some(q), nonce, deviceId, now)
    && SignedText(o, q.authz) == SignedText(o, r.authz) && q.authz.signature == r.authz.signature && q.authz != r.authz
  }

  /** The parts of two accepted envelopes with one text and one key. */
  lemma TwinParts(o: Options, c: Crypto, keys: seq<KeyRing.Key>, r: Carrier, q: Carrier, nonce: Bytes, deviceId: Bytes, now: int)
    requires AuthzAccepted(o, c, keys, Some(r), nonce, deviceId, now) && Twin(o, c, keys, r, q, nonce, deviceId, now)
    requires q.authz.keyId == r.authz.keyId
    ensures Middle(r.authz) == Middle(q.authz)
    ensures q.authz == r.authz.(reason := q.authz.reason, dataSha256 := q.authz.dataSha256, session := q.authz.session)
  {
    hide SignedText, Lit, Lower, Join, Marker, TimeLines, KeyLine;
    var e, f := r.authz, q.authz;
    TextInParts(o, e);
    TextInParts(o, f);
    TimesAreOneLines(e);
    TimesAreOneLines(f);
    TimesCount(e);
    TimesCount(f);
    var times, times' := [NEWLINE] + Join(TimeLines(e), NEWLINE), [NEWLINE] + Join(TimeLines(f), NEWLINE);
    SameBefore(Head(o, e) + Middle(e) + times, Head(o, f) + Middle(f) + times', KeyLine(e.keyId));
    SameEnd(Head(o, e) + Middle(e), TimeLines(e), Head(o, f) + Middle(f), TimeLines(f), NEWLINE);
    TimesDetermine(e, f);
    assert Head(o, e) == Head(o, f);
    SameAfter(Head(o, e), Middle(e), Middle(f));
  }

  lemma SameAfter(head: Bytes, a: Bytes, b: Bytes)
    requires head + a == head + b
    ensures a == b
  {
    assert a == (head + a)[|head|..] == (head + b)[|head|..] == b;
  }

  lemma SameBefore(a: Bytes, b: Bytes, tail: Bytes)
    requires a + tail == b + tail
    ensures a == b
  {
    assert |a + tail| == |b + tail|;
    assert a == (a + tail)[..|a|] == (b + tail)[..|b|] == b;
  }

  lemma TimesCount(e: Envelope)
    ensures |TimeLines(e)| == 2
  {
  }

  lemma KeyLineBytes(keyId: Bytes)
    ensures var k := KeyLine(keyId);
            |k| == |keyId| + 8 && k[0] == NEWLINE && k[8..] == keyId && forall i :: 1 <= i < 8 ==> k[i] != NEWLINE
  {
    var name := Lit("key_id:");
    assert NEWLINE !in name;
    var k := KeyLine(keyId);
    assert forall i :: 1 <= i < 8 ==> k[i] == name[i - 1];
  }

  /** Equal texts that end in different key lines: the longer id ends in the line of the shorter one. */
  lemma EndsNest(a: Bytes, shorter: Bytes, b: Bytes, longer: Bytes)
    requires a + KeyLine(shorter) == b + KeyLine(longer) && |shorter| <= |longer| && shorter != longer
    ensures Nested(longer, shorter)
  {
    hide KeyLine;
    KeyLineBytes(shorter);
    KeyLineBytes(longer);
    var t, k, l := a + KeyLine(shorter), KeyLine(shorter), KeyLine(longer);
    var shift := |longer| - |shorter|;
    assert t == b + l && |a| == |b| + shift;
    assert t[|a|..] == k && t[|b|..] == l && t[|a|] == NEWLINE;
    assert forall i :: 0 <= i < |l| ==> t[|b| + i] == l[i];
    assert t[|b| + shift] == NEWLINE;
    assert shift >= 8;
    assert t[|b| + 8..] == l[8..] == longer;
    assert longer[shift - 8..] == t[|a|..] == k;
  }

  /** A twin under another key id: one of the two ids in the ring ends in the last line for the other. */
  lemma OtherKeyNests(o: Options, c: Crypto, keys: seq<KeyRing.Key>, r: Carrier, q: Carrier, nonce: Bytes, deviceId: Bytes, now: int)
    requires AuthzAccepted(o, c, keys, Some(r), nonce, deviceId, now) && Twin(o, c, keys, r, q, nonce, deviceId, now)
    requires q.authz.keyId != r.authz.keyId
    ensures Nested(q.authz.keyId, r.authz.keyId) || Nested(r.authz.keyId, q.authz.keyId)
    ensures !NoNestedIds(keys)
  {
    hide SignedText, Lit, Lower, Join, Marker, TimeLines, KeyLine, Nested;
    var e, f := r.authz, q.authz;
    TextInParts(o, e);
    TextInParts(o, f);
    var a := Head(o, e) + Middle(e) + ([NEWLINE] + Join(TimeLines(e), NEWLINE));
    var b := Head(o, f) + Middle(f) + ([NEWLINE] + Join(TimeLines(f), NEWLINE));
    if |e.keyId| <= |f.keyId| {
      EndsNest(a, e.keyId, b, f.keyId);
    } else {
      EndsNest(b, f.keyId, a, e.keyId);
    }
    var i :| 0 <= i < |keys| && keys[i].keyId == e.keyId;
    var j :| 0 <= j < |keys| && keys[j].keyId == f.keyId;
  }

  /** A marker that names some data, in the reason: the same signature also covers the shorter reason, with
      all the rest in the session. */
  lemma ReasonTwin(o: Options, c: Crypto, keys: seq<KeyRing.Key>, r: Carrier, nonce: Bytes, deviceId: Bytes, now: int,
                   before: Bytes, digest: Bytes, after: Bytes, data: Bytes) returns (q: Carrier)
    requires AuthzAccepted(o, c, keys, Some(r), nonce, deviceId, now)
    requires Inside(r.authz.reason, before, digest, after) && data != [] && Lower(digest) == Lower(c.sha256Hex(data))
    ensures Twin(o, c, keys, r, q, nonce, deviceId, now) && q.authz.keyId == r.authz.keyId
    ensures q.authz.reason == before && q.authz.session == after + Marker(r.authz.dataSha256) + r.authz.session
    ensures q.data == data && q.authz.session != r.authz.session && q.authz.session != []
  {
    hide SignedText, Lit, Lower, Join;
    var e := r.authz;
    var f := e.(reason := before, dataSha256 := digest, session := after + Marker(e.dataSha256) + e.session);
    q := Carrier(data, f);
    assert Middle(e) == Middle(f);
    TextInParts(o, e);
    TextInParts(o, f);
    StillSigned(o, c, keys, e, f);
    assert |f.session| > |e.session|;
  }

  lemma StillSigned(o: Options, c: Crypto, keys: seq<KeyRing.Key>, e: Envelope, f: Envelope)
    requires SignedByRing(o, c, keys, e) && SignedText(o, e) == SignedText(o, f) && e.keyId == f.keyId && e.signature == f.signature
    ensures SignedByRing(o, c, keys, f)
  {
    hide SignedText;
    var i :| 0 <= i < |keys| && keys[i].keyId == e.keyId && c.verify(keys[i].publicKey, SignedText(o, e), e.signature);
    assert keys[i].keyId == f.keyId;
  }

  /** And in the session: it also covers the longer reason. */
  lemma SessionTwin(o: Options, c: Crypto, keys: seq<KeyRing.Key>, r: Carrier, nonce: Bytes, deviceId: Bytes, now: int,
                    before: Bytes, digest: Bytes, after: Bytes, data: Bytes) returns (q: Carrier)
    requires AuthzAccepted(o, c, keys, Some(r), nonce, deviceId, now)
    requires Inside(r.authz.session, before, digest, after) && data != [] && Lower(digest) == Lower(c.sha256Hex(data))
    ensures Twin(o, c, keys, r, q, nonce, deviceId, now) && q.authz.keyId == r.authz.keyId
    ensures q.authz.session == after && q.authz.session != r.authz.session
  {
    hide SignedText, Lit, Lower, Join;
    var e := r.authz;
    var f := e.(reason := e.reason + Marker(e.dataSha256) + before, dataSha256 := digest, session := after);
    q := Carrier(data, f);
    assert Middle(e) == Middle(f);
    TextInParts(o, e);
    TextInParts(o, f);
    StillSigned(o, c, keys, e, f);
    assert |f.session| < |e.session|;
  }

  /** An accepted envelope has a twin under the same key, accepted for the same request with the same
      signature, if and only if its reason or its session holds a line with a digest of some data followed
      by a session line. Over all other accepted envelopes of one key the signed text is injective. */
  lemma AmbiguousExactly(o: Options, c: Crypto, keys: seq<KeyRing.Key>, r: Carrier, nonce: Bytes, deviceId: Bytes, now: int)
    requires AuthzAccepted(o, c, keys, Some(r), nonce, deviceId, now) && HexDigests(c)
    ensures (exists q :: Twin(o, c, keys, r, q, nonce, deviceId, now) && q.authz.keyId == r.authz.keyId)
            <==> Hides(c, r.authz.reason) || Hides(c, r.authz.session)
  {
    hide AuthzAccepted, Inside, HexDigests;
    if q :| Twin(o, c, keys, r, q, nonce, deviceId, now) && q.authz.keyId == r.authz.keyId {
      TwinHides(o, c, keys, r, q, nonce, deviceId, now);
    }
    if Hides(c, r.authz.reason) {
      var before, digest, after :| Inside(r.authz.reason, before, digest, after) && Names(c, digest);
      var data: Bytes :| data != [] && Lower(digest) == Lower(c.sha256Hex(data));
      var q := ReasonTwin(o, c, keys, r, nonce, deviceId, now, before, digest, after, data);
    }
    if Hides(c, r.authz.session) {
      var before, digest, after :| Inside(r.authz.session, before, digest, after) && Names(c, digest);
      var data: Bytes :| data != [] && Lower(digest) == Lower(c.sha256Hex(data));
      var q := SessionTwin(o, c, keys, r, nonce, deviceId, now, before, digest, after, data);
    }
  }

  /** In a ring where no id ends in the last line for another, as when ids hold no newline, these are all
      the twins there are. */
  lemma AmbiguousInPlainRing(o: Options, c: Crypto, keys: seq<KeyRing.Key>, r: Carrier, nonce: Bytes, deviceId: Bytes, now: int)
    requires AuthzAccepted(o, c, keys, Some(r), nonce, deviceId, now) && HexDigests(c) && NoNestedIds(keys)
    ensures (exists q :: Twin(o, c, keys, r, q, nonce, deviceId, now))
            <==> Hides(c, r.authz.reason) || Hides(c, r.authz.session)
  {
    hide AuthzAccepted, Hides, HexDigests, NoNestedIds, Twin;
    AmbiguousExactly(o, c, keys, r, nonce, deviceId, now);
    if q :| Twin(o, c, keys, r, q, nonce, deviceId, now) {
      if q.authz.keyId != r.authz.keyId {
        OtherKeyNests(o, c, keys, r, q, nonce, deviceId, now);
      }
    }
  }

  lemma TwinHides(o: Options, c: Crypto, keys: seq<KeyRing.Key>, r: Carrier, q: Carrier, nonce: Bytes, deviceId: Bytes, now: int)
    requires AuthzAccepted(o, c, keys, Some(r), nonce, deviceId, now) && Twin(o, c, keys, r, q, nonce, deviceId, now)
    requires HexDigests(c) && q.authz.keyId == r.authz.keyId
    ensures Hides(c, r.authz.reason) || Hides(c, r.authz.session)
  {
    hide SignedText, Lit, Lower, Join, Marker, HexDigests, Inside;
    var e, f := r.authz, q.authz;
    TwinParts(o, c, keys, r, q, nonce, deviceId, now);
    DigestShape(c, e.dataSha256, r.data);
    DigestShape(c, f.dataSha256, q.data);
    assert Names(c, f.dataSha256);
    if |f.reason| < |e.reason| {
      var x := Shifted(f.reason, f.dataSha256, f.session, e.reason, e.dataSha256, e.session);
      assert Inside(e.reason, f.reason, f.dataSha256, x);
    } else if |e.reason| < |f.reason| {
      var x := Shifted(e.reason, e.dataSha256, e.session, f.reason, f.dataSha256, f.session);
      assert Inside(e.session, x, f.dataSha256, f.session);
    } else {
      SameMiddle(e, f);
      assert false;
    }
  }

  lemma SameMiddle(e: Envelope, f: Envelope)
    requires Middle(e) == Middle(f) && |e.reason| == |f.reason| && |e.dataSha256| == |f.dataSha256|
    ensures e.reason == f.reason && e.dataSha256 == f.dataSha256 && e.session == f.session
  {
    var m, n, k := Middle(e), |e.reason|, |Marker(e.dataSha256)|;
    MarkerBytes(e.dataSha256);
    MarkerBytes(f.dataSha256);
    assert e.reason == m[..n] == f.reason;
    assert m[n..n + k] == Marker(e.dataSha256) == Marker(f.dataSha256);
    assert Marker(e.dataSha256)[13..13 + |e.dataSha256|] == e.dataSha256;
    assert Marker(f.dataSha256)[13..13 + |f.dataSha256|] == f.dataSha256;
    assert e.session == m[n + k..] == f.session;
  }

  /** One signature, two sessions: with reason "r", the digest again and "s1" on three lines, and session
      "s2", the envelope has a twin with reason "r" and the rest of it in the session. */
  lemma OneSignatureTwoSessions(o: Options, c: Crypto, keys: seq<KeyRing.Key>, r: Carrier, nonce: Bytes, deviceId: Bytes,
                                now: int, reason: Bytes, session: Bytes) returns (q: Carrier)
    requires AuthzAccepted(o, c, keys, Some(r), nonce, deviceId, now)
    requires r.authz.reason == reason + Marker(r.authz.dataSha256) + session
    ensures Twin(o, c, keys, r, q, nonce, deviceId, now) && q.data == r.data
    ensures q.authz.reason == reason && q.authz.session == session + Marker(r.authz.dataSha256) + r.authz.session
    ensures forall s: State :: s.keys == keys ==> AfterAuthz(o, c, s, Some(q), nonce, deviceId, now).session == q.authz.session
    ensures q.authz.session != r.authz.session
  {
    hide Lit, Lower, SignedText, Marker;
    q := ReasonTwin(o, c, keys, r, nonce, deviceId, now, reason, r.authz.dataSha256, session, r.data);
  }
}

/** When the signed text of a verified key manifest can be read in two ways. */
module ManifestAmbiguity {
  import opened Basics
  import opened Text
  import opened SignedMessages
  import opened TrustChain
  import opened AuthzAmbiguity

  /** What stands between the key id and the key. */
  function KeyMarker(): Bytes {
    [NEWLINE] + Lit("public_key:")
  }

  /** The text up to the key id. */
  function ManifestHead(o: Options): Bytes {
    Join([Lit("online_key_manifest_v1"), Lit("purpose:") + Lit("online_body"), Lit("app_id:") + o.appId,
          Lit("release_id:") + o.releaseId], NEWLINE) + [NEWLINE] + Lit("key_id:")
  }

  /** The line of the root key, with the newline before it. */
  function RootLine(o: Options): Bytes {
    [NEWLINE] + (Lit("root_trust_key_id:") + o.rootTrustKeyId)
  }

  function LifetimeLines(m: Manifest): seq<Bytes> {
    [Lit("issued_at:") + FormatInt(m.issuedAt), Lit("refresh_after:") + FormatInt(m.refreshAfter)]
  }

  function IdAndKey(m: Manifest): Bytes {
    m.keyId + KeyMarker() + m.publicKey
  }

  lemma ManifestInParts(o: Options, m: Manifest)
    ensures KeyText(o, ManifestKey(m))
            == ManifestHead(o) + IdAndKey(m) + RootLine(o) + ([NEWLINE] + Join(LifetimeLines(m), NEWLINE))
  {
    hide Lit, FormatInt, Join;
    var front := [Lit("online_key_manifest_v1"), Lit("purpose:") + Lit("online_body"), Lit("app_id:") + o.appId,
                  Lit("release_id:") + o.releaseId];
    var x, y, z := Lit("key_id:") + m.keyId, Lit("public_key:") + m.publicKey, Lit("root_trust_key_id:") + o.rootTrustKeyId;
    var tail := LifetimeLines(m);
    ManifestLines(o, m, front, [x, y, z], tail);
    JoinConcat(front, [x, y, z] + tail, NEWLINE);
    JoinConcat([x, y, z], tail, NEWLINE);
    JoinThree(x, y, z, NEWLINE);
    ManifestTogether(o, Join(front, NEWLINE), m, Join(tail, NEWLINE));
  }

  lemma ManifestLines(o: Options, m: Manifest, front: seq<Bytes>, middle: seq<Bytes>, tail: seq<Bytes>)
    requires front == [Lit("online_key_manifest_v1"), Lit("purpose:") + Lit("online_body"), Lit("app_id:") + o.appId,
                       Lit("release_id:") + o.releaseId]
    requires middle == [Lit("key_id:") + m.keyId, Lit("public_key:") + m.publicKey,
                        Lit("root_trust_key_id:") + o.rootTrustKeyId]
    requires tail == LifetimeLines(m)
    ensures KeyText(o, ManifestKey(m)) == Join(front + (middle + tail), NEWLINE)
  {
    hide Lit, FormatInt, Join;
    var k := KeyManifest(Lit("online_body"), o.appId, o.releaseId, m.keyId, m.publicKey, o.rootTrustKeyId, m.issuedAt,
                         m.refreshAfter);
    assert Lines("online_key_manifest_v1", KeyManifestFields(k)) == front + (middle + tail);
  }

  lemma ManifestTogether(o: Options, front: Bytes, m: Manifest, tail: Bytes)
    ensures var x, y, z := Lit("key_id:") + m.keyId, Lit("public_key:") + m.publicKey,
                           Lit("root_trust_key_id:") + o.rootTrustKeyId;
            front + [NEWLINE] + ((x + [NEWLINE] + (y + [NEWLINE] + z)) + [NEWLINE] + tail)
            == (front + [NEWLINE] + Lit("key_id:")) + IdAndKey(m) + RootLine(o) + ([NEWLINE] + tail)
  {
    hide Lit;
  }

  /** Another manifest that the same root signature covers, and that is verified too. */
  predicate Twin(o: Options, c: Crypto, m: Manifest, n: Manifest, now: int) {
    ManifestVerified(o, c, n, now) && KeyText(o, ManifestKey(n)) == KeyText(o, ManifestKey(m))
    && n.rootTrustSignature == m.rootTrustSignature && n != m
  }

  /** The id of a key holds a line that names another key; what is before it is not empty. */
  predicate NamesKey(keyId: Bytes, before: Bytes, after: Bytes) {
    before != [] && keyId == before + KeyMarker() + after
  }

  /** The key holds such a line; what is after it is not empty. */
  predicate EndsKey(publicKey: Bytes, before: Bytes, after: Bytes) {
    after != [] && publicKey == before + KeyMarker() + after
  }

  lemma LifetimeDetermines(m: Manifest, n: Manifest)
    requires LifetimeLines(m) == LifetimeLines(n)
    ensures m.issuedAt == n.issuedAt && m.refreshAfter == n.refreshAfter
  {
    hide FormatInt, Lit;
    var a, b := LifetimeLines(m), LifetimeLines(n);
    assert a[0] == b[0] && a[1] == b[1];
    assert a[0][10..] == FormatInt(m.issuedAt) && b[0][10..] == FormatInt(n.issuedAt);
    assert a[1][14..] == FormatInt(m.refreshAfter) && b[1][14..] == FormatInt(n.refreshAfter);
    FormatIntInjective(m.issuedAt, n.issuedAt);
    FormatIntInjective(m.refreshAfter, n.refreshAfter);
  }

  lemma LifetimeIsOneLines(m: Manifest)
    ensures Free(LifetimeLines(m), NEWLINE) && |LifetimeLines(m)| == 2
  {
    hide FormatInt;
    assert NEWLINE !in Lit("issued_at:") && NEWLINE !in Lit("refresh_after:");
    assert NEWLINE !in FormatInt(m.issuedAt) && NEWLINE !in FormatInt(m.refreshAfter);
  }

  lemma TwinParts(o: Options, c: Crypto, m: Manifest, n: Manifest, now: int)
    requires ManifestVerified(o, c, m, now) && Twin(o, c, m, n, now)
    ensures IdAndKey(m) == IdAndKey(n) && n == m.(keyId := n.keyId, publicKey := n.publicKey)
  {
    hide KeyText, Lit, Join, LifetimeLines, RootLine, IdAndKey, ManifestHead;
    ManifestInParts(o, m);
    ManifestInParts(o, n);
    LifetimeIsOneLines(m);
    LifetimeIsOneLines(n);
    var head := ManifestHead(o);
    SameEnd(head + IdAndKey(m) + RootLine(o), LifetimeLines(m), head + IdAndKey(n) + RootLine(o), LifetimeLines(n), NEWLINE);
    LifetimeDetermines(m, n);
    SameBefore(head + IdAndKey(m), head + IdAndKey(n), RootLine(o));
    SameAfter(head, IdAndKey(m), IdAndKey(n));
  }

  lemma KeyMarkerBytes()
    ensures |KeyMarker()| == 12 && KeyMarker()[0] == NEWLINE && forall i :: 1 <= i < 12 ==> KeyMarker()[i] != NEWLINE
  {
    var name := Lit("public_key:");
    assert NEWLINE !in name;
    assert forall i :: 1 <= i < 12 ==> KeyMarker()[i] == name[i - 1];
  }

  /** Equal parts with a shorter id: the longer id names the shorter one's key, up to its own. */
  lemma Shifted(id: Bytes, key: Bytes, id': Bytes, key': Bytes) returns (x: Bytes)
    requires |id| < |id'| && id + KeyMarker() + key == id' + KeyMarker() + key'
    ensures id' == id + KeyMarker() + x && key == x + KeyMarker() + key'
  {
    hide KeyMarker;
    KeyMarkerBytes();
    var t, m := id + KeyMarker() + key, KeyMarker();
    var shift := |id'| - |id|;
    assert t == id' + m + key';
    assert t[|id'|] == NEWLINE;
    assert forall i :: 0 <= i < 12 ==> t[|id| + i] == m[i];
    assert t[|id| + shift] == NEWLINE;
    assert shift >= 12;
    x := id'[|id| + 12..];
    assert id' == t[..|id'|] && t[..|id|] == id && t[|id|..|id| + 12] == m;
    assert id' == id + m + x;
    assert key == t[|id| + 12..];
    assert key == x + m + key';
  }

  /** The twin that a line inside the id gives. */
  lemma IdTwin(o: Options, c: Crypto, m: Manifest, now: int, before: Bytes, after: Bytes) returns (n: Manifest)
    requires ManifestVerified(o, c, m, now) && NamesKey(m.keyId, before, after)
    ensures Twin(o, c, m, n, now) && n.keyId == before && n.publicKey == after + KeyMarker() + m.publicKey
  {
    hide KeyText, Lit, Join;
    n := m.(keyId := before, publicKey := after + KeyMarker() + m.publicKey);
    assert IdAndKey(m) == IdAndKey(n);
    ManifestInParts(o, m);
    ManifestInParts(o, n);
    assert |n.keyId| < |m.keyId|;
  }

  /** The twin that a line inside the key gives. */
  lemma KeyTwin(o: Options, c: Crypto, m: Manifest, now: int, before: Bytes, after: Bytes) returns (n: Manifest)
    requires ManifestVerified(o, c, m, now) && EndsKey(m.publicKey, before, after)
    ensures Twin(o, c, m, n, now) && n.keyId == m.keyId + KeyMarker() + before && n.publicKey == after
  {
    hide KeyText, Lit, Join;
    n := m.(keyId := m.keyId + KeyMarker() + before, publicKey := after);
    assert IdAndKey(m) == IdAndKey(n);
    ManifestInParts(o, m);
    ManifestInParts(o, n);
    assert |n.publicKey| < |m.publicKey|;
  }

  /** A verified manifest has a twin, verified under the same root signature, if and only if its key id or
      its key holds a line that names a key. The twin brings another id and another key. */
  lemma ManifestAmbiguousExactly(o: Options, c: Crypto, m: Manifest, now: int)
    requires ManifestVerified(o, c, m, now)
    ensures (exists n :: Twin(o, c, m, n, now))
            <==> (exists x, y :: NamesKey(m.keyId, x, y)) || (exists x, y :: EndsKey(m.publicKey, x, y))
  {
    hide ManifestVerified, KeyText, KeyMarker, IdAndKey;
    if n :| Twin(o, c, m, n, now) {
      TwinNames(o, c, m, n, now);
    }
    if x, y :| NamesKey(m.keyId, x, y) {
      var n := IdTwin(o, c, m, now, x, y);
    }
    if x, y :| EndsKey(m.publicKey, x, y) {
      var n := KeyTwin(o, c, m, now, x, y);
    }
  }

  lemma TwinNames(o: Options, c: Crypto, m: Manifest, n: Manifest, now: int)
    requires ManifestVerified(o, c, m, now) && Twin(o, c, m, n, now)
    ensures (exists x, y :: NamesKey(m.keyId, x, y)) || (exists x, y :: EndsKey(m.publicKey, x, y))
    ensures n.keyId != m.keyId && n.publicKey != m.publicKey
  {
    hide KeyText, KeyMarker, Lit;
    TwinParts(o, c, m, n, now);
    if |n.keyId| < |m.keyId| {
      var x := Shifted(n.keyId, n.publicKey, m.keyId, m.publicKey);
      assert NamesKey(m.keyId, n.keyId, x);
    } else if |m.keyId| < |n.keyId| {
      var x := Shifted(m.keyId, m.publicKey, n.keyId, n.publicKey);
      assert EndsKey(m.publicKey, x, n.publicKey);
    } else {
      SameIds(m, n);
    }
    SameLengths(m, n);
  }

  /** Ids of one length are one id, and then the keys are one key. */
  lemma SameIds(m: Manifest, n: Manifest)
    requires IdAndKey(m) == IdAndKey(n) && |m.keyId| == |n.keyId|
    ensures m.keyId == n.keyId && m.publicKey == n.publicKey
  {
    var t, k := IdAndKey(m), |m.keyId|;
    assert m.keyId == t[..k] == n.keyId;
    assert m.publicKey == t[k + |KeyMarker()|..] == n.publicKey;
  }

  lemma SameLengths(m: Manifest, n: Manifest)
    requires IdAndKey(m) == IdAndKey(n)
    ensures |m.keyId| + |m.publicKey| == |n.keyId| + |n.publicKey|
  {
  }
}
