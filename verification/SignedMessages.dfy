/** The byte layouts that Ed25519 signatures are checked over. */
module SignedMessages {
  import opened Basics
  import opened Text
  import opened Rim2Wire

  /** The fields of an authz_v3 envelope that are signed, with the application id. */
  datatype Authz = Authz(appId: Bytes, releaseId: Bytes, deviceId: Bytes, nonce: Bytes, decision: Bytes,
                         reason: Bytes, dataSha256: Bytes, session: Bytes, issuedAt: int, expiresAt: int,
                         keyId: Bytes)

  datatype ServerTime = ServerTime(appId: Bytes, releaseId: Bytes, nonce: Bytes, serverTimeMs: int,
                                   expiresAtMs: int, rootTrustKeyId: Bytes)

  datatype KeyManifest = KeyManifest(purpose: Bytes, appId: Bytes, releaseId: Bytes, keyId: Bytes,
                                     publicKey: Bytes, rootTrustKeyId: Bytes, issuedAt: int, refreshAfter: int)

  type NamedField = (string, Bytes)

  function AuthzFields(a: Authz): seq<NamedField> {
    [ ("app_id:", a.appId),
      ("release_id:", a.releaseId),
      ("device_id:", a.deviceId),
      ("nonce:", a.nonce),
      ("decision:", a.decision),
      ("reason:", a.reason),
      ("data_sha256:", a.dataSha256),
      ("session:", a.session),
      ("issued_at:", FormatInt(a.issuedAt)),
      ("expires_at:", FormatInt(a.expiresAt)),
      ("key_id:", a.keyId) ]
  }

  function ServerTimeFields(t: ServerTime): seq<NamedField> {
    [ ("app_id:", t.appId),
      ("release_id:", t.releaseId),
      ("nonce:", t.nonce),
      ("server_time_ms:", FormatInt(t.serverTimeMs)),
      ("expires_at_ms:", FormatInt(t.expiresAtMs)),
      ("root_trust_key_id:", t.rootTrustKeyId) ]
  }

  function KeyManifestFields(k: KeyManifest): seq<NamedField> {
    [ ("purpose:", k.purpose),
      ("app_id:", k.appId),
      ("release_id:", k.releaseId),
      ("key_id:", k.keyId),
      ("public_key:", k.publicKey),
      ("root_trust_key_id:", k.rootTrustKeyId),
      ("issued_at:", FormatInt(k.issuedAt)),
      ("refresh_after:", FormatInt(k.refreshAfter)) ]
  }

  /** A version line, then one line a field: its name, then its value. */
  function Lines(version: string, fields: seq<NamedField>): (lines: seq<Bytes>)
    ensures |lines| == 1 + |fields| && lines[0] == Lit(version)
    ensures forall i :: 0 <= i < |fields| ==> lines[i + 1] == Lit(fields[i].0) + fields[i].1
  {
    [Lit(version)] + seq(|fields|, i requires 0 <= i < |fields| => Lit(fields[i].0) + fields[i].1)
  }

  function AuthzText(a: Authz): Bytes {
    Join(Lines("authz_v3", AuthzFields(a)), NEWLINE)
  }

  function ServerTimeText(t: ServerTime): Bytes {
    Join(Lines("server_time_v1", ServerTimeFields(t)), NEWLINE)
  }

  function KeyManifestText(k: KeyManifest): Bytes {
    Join(Lines("online_key_manifest_v1", KeyManifestFields(k)), NEWLINE)
  }

  /** The lines of the three texts. */
  lemma AuthzLines(a: Authz)
    ensures AuthzText(a)
            == Join([Lit("authz_v3"), Lit("app_id:") + a.appId, Lit("release_id:") + a.releaseId,
                     Lit("device_id:") + a.deviceId, Lit("nonce:") + a.nonce, Lit("decision:") + a.decision,
                     Lit("reason:") + a.reason, Lit("data_sha256:") + a.dataSha256, Lit("session:") + a.session,
                     Lit("issued_at:") + FormatInt(a.issuedAt), Lit("expires_at:") + FormatInt(a.expiresAt),
                     Lit("key_id:") + a.keyId], 10)
  {
    hide Lit, FormatInt, Join;
    var lines, f := Lines("authz_v3", AuthzFields(a)), AuthzFields(a);
    assert lines[1] == Lit(f[0].0) + f[0].1;
    assert lines[2] == Lit(f[1].0) + f[1].1;
    assert lines[3] == Lit(f[2].0) + f[2].1;
    assert lines[4] == Lit(f[3].0) + f[3].1;
    assert lines[5] == Lit(f[4].0) + f[4].1;
    assert lines[6] == Lit(f[5].0) + f[5].1;
    assert lines[7] == Lit(f[6].0) + f[6].1;
    assert lines[8] == Lit(f[7].0) + f[7].1;
    assert lines[9] == Lit(f[8].0) + f[8].1;
    assert lines[10] == Lit(f[9].0) + f[9].1;
    assert lines[11] == Lit(f[10].0) + f[10].1;
    assert lines
           == [Lit("authz_v3"), Lit("app_id:") + a.appId, Lit("release_id:") + a.releaseId,
               Lit("device_id:") + a.deviceId, Lit("nonce:") + a.nonce, Lit("decision:") + a.decision,
               Lit("reason:") + a.reason, Lit("data_sha256:") + a.dataSha256, Lit("session:") + a.session,
               Lit("issued_at:") + FormatInt(a.issuedAt), Lit("expires_at:") + FormatInt(a.expiresAt),
               Lit("key_id:") + a.keyId];
  }

  lemma ServerTimeLines(t: ServerTime)
    ensures ServerTimeText(t)
            == Join([Lit("server_time_v1"), Lit("app_id:") + t.appId, Lit("release_id:") + t.releaseId,
                     Lit("nonce:") + t.nonce, Lit("server_time_ms:") + FormatInt(t.serverTimeMs),
                     Lit("expires_at_ms:") + FormatInt(t.expiresAtMs), Lit("root_trust_key_id:") + t.rootTrustKeyId], 10)
  {
    hide Lit, FormatInt, Join;
    var lines, f := Lines("server_time_v1", ServerTimeFields(t)), ServerTimeFields(t);
    assert lines[1] == Lit(f[0].0) + f[0].1;
    assert lines[2] == Lit(f[1].0) + f[1].1;
    assert lines[3] == Lit(f[2].0) + f[2].1;
    assert lines[4] == Lit(f[3].0) + f[3].1;
    assert lines[5] == Lit(f[4].0) + f[4].1;
    assert lines[6] == Lit(f[5].0) + f[5].1;
    assert lines
           == [Lit("server_time_v1"), Lit("app_id:") + t.appId, Lit("release_id:") + t.releaseId,
               Lit("nonce:") + t.nonce, Lit("server_time_ms:") + FormatInt(t.serverTimeMs),
               Lit("expires_at_ms:") + FormatInt(t.expiresAtMs), Lit("root_trust_key_id:") + t.rootTrustKeyId];
  }

  lemma KeyManifestLines(k: KeyManifest)
    ensures KeyManifestText(k)
            == Join([Lit("online_key_manifest_v1"), Lit("purpose:") + k.purpose, Lit("app_id:") + k.appId,
                     Lit("release_id:") + k.releaseId, Lit("key_id:") + k.keyId, Lit("public_key:") + k.publicKey,
                     Lit("root_trust_key_id:") + k.rootTrustKeyId, Lit("issued_at:") + FormatInt(k.issuedAt),
                     Lit("refresh_after:") + FormatInt(k.refreshAfter)], 10)
  {
    hide Lit, FormatInt, Join;
    var lines, f := Lines("online_key_manifest_v1", KeyManifestFields(k)), KeyManifestFields(k);
    assert lines[1] == Lit(f[0].0) + f[0].1;
    assert lines[2] == Lit(f[1].0) + f[1].1;
    assert lines[3] == Lit(f[2].0) + f[2].1;
    assert lines[4] == Lit(f[3].0) + f[3].1;
    assert lines[5] == Lit(f[4].0) + f[4].1;
    assert lines[6] == Lit(f[5].0) + f[5].1;
    assert lines[7] == Lit(f[6].0) + f[6].1;
    assert lines[8] == Lit(f[7].0) + f[7].1;
    assert lines
           == [Lit("online_key_manifest_v1"), Lit("purpose:") + k.purpose, Lit("app_id:") + k.appId,
               Lit("release_id:") + k.releaseId, Lit("key_id:") + k.keyId, Lit("public_key:") + k.publicKey,
               Lit("root_trust_key_id:") + k.rootTrustKeyId, Lit("issued_at:") + FormatInt(k.issuedAt),
               Lit("refresh_after:") + FormatInt(k.refreshAfter)];
  }

  const KEY_DOMAIN: string := "OPLUS_RELEASE_KEY_V2"
  const MANIFEST_DOMAIN: string := "OPLUS_RELEASE_MANIFEST_V2"

  /** The root signs the signer's key for one application. */
  function Rim2KeyMessage(app: Bytes, rootKeyId: Bytes, signerKeyId: Bytes, signerPublic: Bytes): Bytes {
    (Lit(KEY_DOMAIN) + [0]) + (app + (Prefixed(rootKeyId, 1) + (Prefixed(signerKeyId, 1) + signerPublic)))
  }

  function Rim2ManifestMessage(body: Bytes): Bytes {
    (Lit(MANIFEST_DOMAIN) + [0]) + body
  }

  // ---- every signed message, of any kind ----

  datatype Message =
    | AuthzMessage(authz: Authz)
    | TimeMessage(time: ServerTime)
    | KeyMessage(key: KeyManifest)
    | Rim2Key(app: Bytes, rootKeyId: Bytes, signerKeyId: Bytes, signerPublic: Bytes)
    | Rim2Manifest(body: Bytes)

  function Layout(m: Message): Bytes {
    match m
    case AuthzMessage(a) => AuthzText(a)
    case TimeMessage(t) => ServerTimeText(t)
    case KeyMessage(k) => KeyManifestText(k)
    case Rim2Key(app, root, signer, public) => Rim2KeyMessage(app, root, signer, public)
    case Rim2Manifest(body) => Rim2ManifestMessage(body)
  }

  predicate NewlineFree(m: Message) {
    match m
    case AuthzMessage(a) =>
      && NEWLINE !in a.appId && NEWLINE !in a.releaseId && NEWLINE !in a.deviceId && NEWLINE !in a.nonce
      && NEWLINE !in a.decision && NEWLINE !in a.reason && NEWLINE !in a.dataSha256 && NEWLINE !in a.session
      && NEWLINE !in a.keyId
    case TimeMessage(t) =>
      NEWLINE !in t.appId && NEWLINE !in t.releaseId && NEWLINE !in t.nonce && NEWLINE !in t.rootTrustKeyId
    case KeyMessage(k) =>
      && NEWLINE !in k.purpose && NEWLINE !in k.appId && NEWLINE !in k.releaseId && NEWLINE !in k.keyId
      && NEWLINE !in k.publicKey && NEWLINE !in k.rootTrustKeyId
    case _ => true
  }

  /** Fixed-size fields have their size, and each one-byte length fits. */
  predicate Bounded(m: Message) {
    m.Rim2Key? ==> |m.app| == 16 && |m.signerPublic| == 32 && |m.rootKeyId| <= 255 && |m.signerKeyId| <= 255
  }

  // ---- the line-based texts ----

  predicate Plain(name: string) {
    forall i :: 0 <= i < |name| ==> name[i] as int < 128 && name[i] != '\n'
  }

  lemma LitFree(name: string)
    requires Plain(name)
    ensures NEWLINE !in Lit(name)
  {
  }

  predicate FreeFields(fields: seq<NamedField>) {
    forall i :: 0 <= i < |fields| ==> Plain(fields[i].0) && NEWLINE !in fields[i].1
  }

  lemma LinesFree(version: string, fields: seq<NamedField>)
    requires Plain(version) && FreeFields(fields)
    ensures Free(Lines(version, fields), NEWLINE)
  {
    hide Plain;
    var lines := Lines(version, fields);
    LitFree(version);
    forall i | 0 <= i < |lines| ensures NEWLINE !in lines[i] {
      if i > 0 {
        LitFree(fields[i - 1].0);
        assert lines[i] == Lit(fields[i - 1].0) + fields[i - 1].1;
      }
    }
  }

  predicate SameNames(a: seq<NamedField>, b: seq<NamedField>) {
    |a| == |b| && forall i :: 0 <= i < |a| ==> a[i].0 == b[i].0
  }

  /** Newline-free texts with the same field names have the same version and the same values. */
  lemma TextsEqual(v: string, a: seq<NamedField>, w: string, b: seq<NamedField>)
    requires Plain(v) && Plain(w) && FreeFields(a) && FreeFields(b)
    requires Join(Lines(v, a), NEWLINE) == Join(Lines(w, b), NEWLINE)
    ensures Lit(v) == Lit(w) && |a| == |b|
    ensures SameNames(a, b) ==> a == b
  {
    hide Plain, Join, Lit;
    LinesFree(v, a);
    LinesFree(w, b);
    JoinInjective(Lines(v, a), Lines(w, b), NEWLINE);
    if SameNames(a, b) {
      forall i | 0 <= i < |a| ensures a[i] == b[i] {
        assert Lines(v, a)[i + 1] == Lines(w, b)[i + 1];
        SuffixEqual(Lit(a[i].0), a[i].1, b[i].1);
      }
    }
  }

  lemma SuffixEqual(p: Bytes, a: Bytes, b: Bytes)
    requires p + a == p + b
    ensures a == b
  {
    assert (p + a)[|p|..] == a;
    assert (p + b)[|p|..] == b;
  }

  lemma NumberFree(n: int)
    ensures NEWLINE !in FormatInt(n)
  {
  }

  lemma CommonNames()
    ensures Plain("app_id:") && Plain("release_id:") && Plain("nonce:") && Plain("key_id:")
    ensures Plain("root_trust_key_id:") && Plain("issued_at:")
  {
  }

  lemma AuthzNames()
    ensures Plain("authz_v3") && Plain("device_id:") && Plain("decision:") && Plain("reason:")
    ensures Plain("data_sha256:") && Plain("session:") && Plain("expires_at:")
  {
  }

  lemma OtherNames()
    ensures Plain("server_time_v1") && Plain("server_time_ms:") && Plain("expires_at_ms:")
    ensures Plain("online_key_manifest_v1") && Plain("purpose:") && Plain("public_key:") && Plain("refresh_after:")
  {
    hide Plain;
    TimeNames();
    KeyNames();
  }

  lemma TimeNames()
    ensures Plain("server_time_v1") && Plain("server_time_ms:") && Plain("expires_at_ms:")
  {
  }

  lemma KeyNames()
    ensures Plain("online_key_manifest_v1") && Plain("purpose:") && Plain("public_key:") && Plain("refresh_after:")
  {
  }

  lemma AuthzFree(a: Authz)
    requires NewlineFree(AuthzMessage(a))
    ensures Plain("authz_v3") && FreeFields(AuthzFields(a))
  {
    hide Plain, FormatInt;
    CommonNames();
    AuthzNames();
    NumberFree(a.issuedAt);
    NumberFree(a.expiresAt);
  }

  lemma TimeFree(t: ServerTime)
    requires NewlineFree(TimeMessage(t))
    ensures Plain("server_time_v1") && FreeFields(ServerTimeFields(t))
  {
    hide Plain, FormatInt;
    CommonNames();
    OtherNames();
    NumberFree(t.serverTimeMs);
    NumberFree(t.expiresAtMs);
  }

  lemma KeyFree(k: KeyManifest)
    requires NewlineFree(KeyMessage(k))
    ensures Plain("online_key_manifest_v1") && FreeFields(KeyManifestFields(k))
  {
    hide Plain, FormatInt;
    CommonNames();
    OtherNames();
    NumberFree(k.issuedAt);
    NumberFree(k.refreshAfter);
  }

  lemma AuthzInjective(a: Authz, b: Authz)
    requires NewlineFree(AuthzMessage(a)) && NewlineFree(AuthzMessage(b)) && AuthzText(a) == AuthzText(b)
    ensures a == b
  {
    hide Plain, FormatInt, Join, Lines, FreeFields;
    AuthzFree(a);
    AuthzFree(b);
    var f, g := AuthzFields(a), AuthzFields(b);
    TextsEqual("authz_v3", f, "authz_v3", g);
    assert f[0].1 == g[0].1 && f[1].1 == g[1].1 && f[2].1 == g[2].1 && f[3].1 == g[3].1;
    assert f[4].1 == g[4].1 && f[5].1 == g[5].1 && f[6].1 == g[6].1 && f[7].1 == g[7].1;
    assert f[8].1 == g[8].1 && f[9].1 == g[9].1 && f[10].1 == g[10].1;
    FormatIntInjective(a.issuedAt, b.issuedAt);
    FormatIntInjective(a.expiresAt, b.expiresAt);
  }

  lemma TimeInjective(a: ServerTime, b: ServerTime)
    requires NewlineFree(TimeMessage(a)) && NewlineFree(TimeMessage(b)) && ServerTimeText(a) == ServerTimeText(b)
    ensures a == b
  {
    hide Plain, FormatInt, Join, Lines, FreeFields;
    TimeFree(a);
    TimeFree(b);
    var f, g := ServerTimeFields(a), ServerTimeFields(b);
    TextsEqual("server_time_v1", f, "server_time_v1", g);
    assert f[0].1 == g[0].1 && f[1].1 == g[1].1 && f[2].1 == g[2].1;
    assert f[3].1 == g[3].1 && f[4].1 == g[4].1 && f[5].1 == g[5].1;
    FormatIntInjective(a.serverTimeMs, b.serverTimeMs);
    FormatIntInjective(a.expiresAtMs, b.expiresAtMs);
  }

  lemma KeyInjective(a: KeyManifest, b: KeyManifest)
    requires NewlineFree(KeyMessage(a)) && NewlineFree(KeyMessage(b)) && KeyManifestText(a) == KeyManifestText(b)
    ensures a == b
  {
    hide Plain, FormatInt, Join, Lines, FreeFields;
    KeyFree(a);
    KeyFree(b);
    var f, g := KeyManifestFields(a), KeyManifestFields(b);
    TextsEqual("online_key_manifest_v1", f, "online_key_manifest_v1", g);
    assert f[0].1 == g[0].1 && f[1].1 == g[1].1 && f[2].1 == g[2].1 && f[3].1 == g[3].1;
    assert f[4].1 == g[4].1 && f[5].1 == g[5].1 && f[6].1 == g[6].1 && f[7].1 == g[7].1;
    FormatIntInjective(a.issuedAt, b.issuedAt);
    FormatIntInjective(a.refreshAfter, b.refreshAfter);
  }

  // ---- the RIM2 messages ----

  lemma PrefixedInjective(v: Bytes, a: Bytes, w: Bytes, b: Bytes)
    requires |v| <= 255 && |w| <= 255 && Prefixed(v, 1) + a == Prefixed(w, 1) + b
    ensures v == w && a == b
  {
    hide Big, Number, Limit;
    var s, t := Prefixed(v, 1) + a, Prefixed(w, 1) + b;
    Limits();
    assert Big(|v|, 1) == s[..1] == t[..1] == Big(|w|, 1);
    NumberOfBig(|v|, 1);
    NumberOfBig(|w|, 1);
    assert s[1..1 + |v|] == v && t[1..1 + |w|] == w;
    assert s[1 + |v|..] == a && t[1 + |w|..] == b;
  }

  lemma Rim2KeyInjective(a: Message, b: Message)
    requires a.Rim2Key? && b.Rim2Key? && Bounded(a) && Bounded(b) && Layout(a) == Layout(b)
    ensures a == b
  {
    hide Prefixed, Lit;
    var rest := (m: Message) requires m.Rim2Key? =>
      Prefixed(m.rootKeyId, 1) + (Prefixed(m.signerKeyId, 1) + m.signerPublic);
    SuffixEqual(Lit(KEY_DOMAIN) + [0], a.app + rest(a), b.app + rest(b));
    assert a.app == (a.app + rest(a))[..16] && b.app == (b.app + rest(b))[..16];
    SuffixEqual(a.app, rest(a), rest(b));
    PrefixedInjective(a.rootKeyId, Prefixed(a.signerKeyId, 1) + a.signerPublic,
                      b.rootKeyId, Prefixed(b.signerKeyId, 1) + b.signerPublic);
    PrefixedInjective(a.signerKeyId, a.signerPublic, b.signerKeyId, b.signerPublic);
  }

  // ---- one kind is never another ----

  /** The bytes tell the kind of message. */
  lemma KindsDiffer(a: Message, b: Message)
    requires NewlineFree(a) && NewlineFree(b) && Layout(a) == Layout(b)
    ensures a.AuthzMessage? == b.AuthzMessage? && a.TimeMessage? == b.TimeMessage?
    ensures a.KeyMessage? == b.KeyMessage? && a.Rim2Key? == b.Rim2Key?
  {
    FirstBytes(a);
    FirstBytes(b);
  }

  lemma JoinStarts(version: string, fields: seq<NamedField>)
    requires fields != []
    ensures Lit(version) + [NEWLINE] <= Join(Lines(version, fields), NEWLINE)
  {
    var lines := Lines(version, fields);
    assert Join(lines, NEWLINE) == Lit(version) + [NEWLINE] + Join(lines[1..], NEWLINE);
  }

  lemma FirstBytes(m: Message)
    ensures var s := Layout(m);
            && s != []
            && (m.AuthzMessage? <==> s[0] == 'a' as int)
            && (m.TimeMessage? <==> s[0] == 's' as int)
            && (m.KeyMessage? <==> s[0] == 'o' as int)
            && (m.Rim2Key? <==> |s| > 14 && s[0] == 'O' as int && s[14] == 'K' as int)
  {
    hide Join, Lines, Prefixed;
    match m
    case AuthzMessage(a) => JoinStarts("authz_v3", AuthzFields(a));
    case TimeMessage(t) => JoinStarts("server_time_v1", ServerTimeFields(t));
    case KeyMessage(k) => JoinStarts("online_key_manifest_v1", KeyManifestFields(k));
    case Rim2Key(_, _, _, _) =>
    case Rim2Manifest(_) =>
  }

  /** Equal signed bytes come from equal messages of the same kind. */
  lemma LayoutInjective(a: Message, b: Message)
    requires NewlineFree(a) && NewlineFree(b) && Bounded(a) && Bounded(b)
    requires Layout(a) == Layout(b)
    ensures a == b
  {
    hide AuthzText, ServerTimeText, KeyManifestText, Rim2KeyMessage;
    KindsDiffer(a, b);
    match a
    case AuthzMessage(x) => AuthzInjective(x, b.authz);
    case TimeMessage(x) => TimeInjective(x, b.time);
    case KeyMessage(x) => KeyInjective(x, b.key);
    case Rim2Key(_, _, _, _) => Rim2KeyInjective(a, b);
    case Rim2Manifest(x) => SuffixEqual(Lit(MANIFEST_DOMAIN) + [0], x, b.body);
  }
}
