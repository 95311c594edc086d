/** parse_rim2: structure, then release identity, then the two signatures. */
module Rim2Verify {
  import opened Basics
  import opened Rim2
  import opened Rim2Path
  import opened Rim2Wire
  import Text
  import opened SignedMessages
  import Base64
  import Hex

  datatype Rim2Error = HostManifestInvalid | HostReleaseMismatch | HostRootSignatureInvalid
                     | HostManifestSignatureInvalid

  datatype Expected = Expected(appId: Bytes, releaseId: Bytes, version: Bytes, versionCode: Option<int>,
                               arch: Bytes, rootKeyId: Bytes)

  /** ed25519_verify(public key text, message, signature text). */
  type Verifier = (Bytes, Bytes, Bytes) -> bool

  function ArchByte(arch: Bytes): Byte {
    var value := Lower(arch);
    if value == Lit("x86") || value == Lit("i386") || value == Lit("win-x86") then 1
    else if value == Lit("x64") || value == Lit("amd64") || value == Lit("win-x64") then 2
    else 0
  }

  /** static_cast<std::uint64_t> of an int. */
  function AsUint64(n: int): int {
    n % 0x1_0000_0000_0000_0000
  }

  predicate MatchesRelease(m: Rim2.Manifest, e: Expected) {
    && Hex.GuidText(m.body.app) == e.appId && Hex.GuidText(m.body.release) == e.releaseId
    && m.body.platform == 1 && m.body.architecture == ArchByte(e.arch)
    && m.body.version == e.version
    && (e.versionCode.Some? ==> m.body.versionCode == AsUint64(e.versionCode.value))
    && m.trailer.rootKeyId == e.rootKeyId
  }

  predicate SignerCertified(m: Rim2.Manifest, rootPublicKey: Bytes, verify: Verifier) {
    var t := m.trailer;
    verify(rootPublicKey, Rim2KeyMessage(m.body.app, t.rootKeyId, t.signerKeyId, t.signerPublic),
           Base64.Encoded(t.rootSignature))
  }

  predicate BodySigned(m: Rim2.Manifest, verify: Verifier) {
    verify(Base64.Encoded(m.trailer.signerPublic), Rim2ManifestMessage(EncodeBody(m.body)),
           Base64.Encoded(m.trailer.manifestSignature))
  }

  /** The bytes are the encoding of a well-formed manifest. */
  predicate Encodes(manifest: Bytes, m: Rim2.Manifest) {
    WellFormed(m) && manifest == Encode(m)
  }

  /** The release, field by field. */
  lemma MatchesExactly(m: Rim2.Manifest, e: Expected)
    ensures MatchesRelease(m, e) <==>
              && Hex.GuidText(m.body.app) == e.appId && Hex.GuidText(m.body.release) == e.releaseId
              && m.body.platform == 1 && m.body.version == e.version && m.trailer.rootKeyId == e.rootKeyId
              && (m.body.architecture == 1 <==> Lower(e.arch) in [Lit("x86"), Lit("i386"), Lit("win-x86")])
              && (m.body.architecture == 2 <==> Lower(e.arch) in [Lit("x64"), Lit("amd64"), Lit("win-x64")])
              && m.body.architecture <= 2
              && (e.versionCode.Some? ==> m.body.versionCode == e.versionCode.value % 0x1_0000_0000_0000_0000)
  {
    hide Lower, Hex.GuidText, ArchByte;
    ArchExactly(e.arch);
  }

  lemma ArchExactly(arch: Bytes)
    ensures ArchByte(arch) <= 2
    ensures ArchByte(arch) == 1 <==> Lower(arch) in [Lit("x86"), Lit("i386"), Lit("win-x86")]
    ensures ArchByte(arch) == 2 <==> Lower(arch) in [Lit("x64"), Lit("amd64"), Lit("win-x64")]
  {
    hide Lower;
    assert Lit("x86")[1] != Lit("x64")[1] && Lit("win-x86")[5] != Lit("win-x64")[5];
    assert Lit("i386") != Lit("x64");
  }

  /** Both signatures, over the bytes that are signed. */
  lemma SignedExactly(m: Rim2.Manifest, rootPublicKey: Bytes, verify: Verifier)
    ensures SignerCertified(m, rootPublicKey, verify) <==>
              verify(rootPublicKey,
                     Lit("OPLUS_RELEASE_KEY_V2") + [0] + m.body.app + Big(|m.trailer.rootKeyId|, 1) + m.trailer.rootKeyId
                     + Big(|m.trailer.signerKeyId|, 1) + m.trailer.signerKeyId + m.trailer.signerPublic,
                     Base64.Encoded(m.trailer.rootSignature))
    ensures BodySigned(m, verify) <==>
              verify(Base64.Encoded(m.trailer.signerPublic), Lit("OPLUS_RELEASE_MANIFEST_V2") + [0] + EncodeBody(m.body),
                     Base64.Encoded(m.trailer.manifestSignature))
  {
    hide Lit, Big, EncodeBody, Base64.Encoded;
    var t := m.trailer;
    assert Rim2KeyMessage(m.body.app, t.rootKeyId, t.signerKeyId, t.signerPublic)
           == Lit("OPLUS_RELEASE_KEY_V2") + [0] + m.body.app + Big(|t.rootKeyId|, 1) + t.rootKeyId
              + Big(|t.signerKeyId|, 1) + t.signerKeyId + t.signerPublic;
  }

  /** Every path ends below every directory, by exactly the parts between its slashes. */
  ghost predicate AllDescend(files: seq<File>) {
    forall i, directory :: 0 <= i < |files| ==>
      Reached(directory, files[i].path) == directory + Text.Split(files[i].path, SLASH)
  }

  lemma PathsDescend(m: Rim2.Manifest)
    requires WellFormed(m)
    ensures AllDescend(m.body.files)
  {
    hide Reached, Text.Split, Lower, Encode;
    WellFormedExactly(m);
  }

  /** Acceptance, and each refusal, exactly; what its four parts mean is said, over the bytes and the
      fields, in WellFormedExactly, EncodedBytes, MatchesExactly and SignedExactly. */
  method ParseRim2(manifest: Bytes, expected: Expected, rootPublicKey: Bytes, verify: Verifier)
    returns (r: Result<Rim2.Manifest, Rim2Error>)
    ensures forall m :: r == Ok(m) <==>
              && Encodes(manifest, m) && MatchesRelease(m, expected)
              && SignerCertified(m, rootPublicKey, verify) && BodySigned(m, verify)
    ensures r.Ok? ==> manifest == Encode(r.value) && AllDescend(r.value.body.files)
    ensures r == Err(HostManifestInvalid) <==> forall m :: !Encodes(manifest, m)
    ensures r == Err(HostReleaseMismatch) <==> exists m :: Encodes(manifest, m) && !MatchesRelease(m, expected)
    ensures r == Err(HostRootSignatureInvalid) <==>
            exists m :: Encodes(manifest, m) && MatchesRelease(m, expected)
                        && !SignerCertified(m, rootPublicKey, verify)
    ensures r == Err(HostManifestSignatureInvalid) <==>
            exists m :: Encodes(manifest, m) && MatchesRelease(m, expected)
                        && SignerCertified(m, rootPublicKey, verify) && !BodySigned(m, verify)
  {
    hide WellFormed, Encode, MatchesRelease, Rim2KeyMessage, Rim2ManifestMessage, Base64.Encoded, Lit, Lower, Big,
         AllDescend, EncodeBody, Hex.GuidText;
    var structure := ParseStructure(manifest);
    if structure.None? {
      return Err(HostManifestInvalid);
    }
    var m := structure.value;
    assert Encodes(manifest, m);
    if !MatchesRelease(m, expected) {
      return Err(HostReleaseMismatch);
    }
    var t := m.trailer;
    var rootSignatureText := Base64.Encode(t.rootSignature);
    if !verify(rootPublicKey, Rim2KeyMessage(m.body.app, t.rootKeyId, t.signerKeyId, t.signerPublic), rootSignatureText) {
      return Err(HostRootSignatureInvalid);
    }
    var signerPublicText := Base64.Encode(t.signerPublic);
    var manifestSignatureText := Base64.Encode(t.manifestSignature);
    if !verify(signerPublicText, Rim2ManifestMessage(EncodeBody(m.body)), manifestSignatureText) {
      return Err(HostManifestSignatureInvalid);
    }
    PathsDescend(m);
    return Ok(m);
  }

  /** Two manifests that match one release carry the same identifier bytes: the text that is compared
      loses nothing. */
  lemma ReleaseBytesDetermined(a: Rim2.Manifest, b: Rim2.Manifest, expected: Expected)
    requires WellFormed(a) && WellFormed(b) && MatchesRelease(a, expected) && MatchesRelease(b, expected)
    ensures a.body.app == b.body.app && a.body.release == b.body.release
  {
    Hex.GuidTextInjective(a.body.app, b.body.app);
    Hex.GuidTextInjective(a.body.release, b.body.release);
  }
}
