/** The state directory's identity file and the platform's key store. */
module KeyStore {
  import opened Basics
  import opened Text
  import Hex

  /** The identity file (unsealed), its temporary file, and the keys by name, each with its public key. */
  datatype Snapshot = Snapshot(file: Option<Bytes>, temporary: Option<Bytes>, keys: map<Bytes, Bytes>)

  /** What a protected write meets. */
  datatype Writing = Writing(protects: bool, writes: bool, swaps: bool)

  function Record(installId: Bytes, keyName: Bytes): Bytes {
    Join([Lit("v2"), installId, keyName], NEWLINE) + [NEWLINE]
  }

  predicate Blank(s: Bytes) {
    forall i :: 0 <= i < |s| ==> s[i] == 0x20 || 9 <= s[i] <= 13
  }

  /** The installation and the key name that an identity file holds. */
  function Metadata(file: Option<Bytes>): Option<(Bytes, Bytes)> {
    if file.None? then None
    else
      var parts := Split(file.value, NEWLINE);
      if |parts| < 3 || parts[0] != Lit("v2") || |parts[1]| != 32 || Blank(parts[2]) then None
      else Some((parts[1], parts[2]))
  }

  /** The stored metadata, if any, names a key that exists. */
  predicate Sound(s: Snapshot) {
    Metadata(s.file).Some? ==> Metadata(s.file).value.1 in s.keys
  }

  function InstallId(random: Bytes): (id: Bytes)
    requires |random| == 16
    ensures |id| == 32
  {
    Hex.Text(random)
  }

  /** appDigest is the SHA-256 of the application id. */
  function KeyName(appDigest: Bytes, installId: Bytes): Bytes
    requires |appDigest| == 32
  {
    Lit("SwmSdk.") + Hex.Text(appDigest)[..12] + Lit(".") + installId
  }

  lemma HexIsOneLine(value: Bytes)
    ensures NEWLINE !in Hex.Text(value)
  {
    var t := Hex.Text(value);
    forall i | 0 <= i < |t| ensures t[i] != NEWLINE {
      assert i == 2 * (i / 2) || i == 2 * (i / 2) + 1;
    }
  }

  lemma KeyNameIsOneLine(appDigest: Bytes, random: Bytes)
    requires |appDigest| == 32 && |random| == 16
    ensures NEWLINE !in KeyName(appDigest, InstallId(random)) && NEWLINE !in InstallId(random)
    ensures !Blank(KeyName(appDigest, InstallId(random)))
  {
    hide Hex.Text;
    HexIsOneLine(appDigest);
    HexIsOneLine(random);
    var name := KeyName(appDigest, InstallId(random));
    assert NEWLINE !in Lit("SwmSdk.") && NEWLINE !in Lit(".");
    assert name[0] == Lit("SwmSdk.")[0] == 'S' as int;
  }

  /** What is written is what is read back. */
  lemma RecordRoundTrip(installId: Bytes, keyName: Bytes)
    requires |installId| == 32 && NEWLINE !in installId && NEWLINE !in keyName && !Blank(keyName)
    ensures Metadata(Some(Record(installId, keyName))) == Some((installId, keyName))
  {
    hide Split, Join, Blank;
    var fields := [Lit("v2"), installId, keyName];
    assert NEWLINE !in Lit("v2");
    assert Free(fields, NEWLINE);
    JoinEnd(fields, NEWLINE);
    SplitJoin(fields + [[]], NEWLINE);
  }

  lemma RecordBytes(installId: Bytes, keyName: Bytes)
    ensures Record(installId, keyName) == Lit("v2") + [10] + installId + [10] + keyName + [10]
  {
    hide Lit;
    assert [Lit("v2"), installId, keyName][1..] == [installId, keyName];
    assert [installId, keyName][1..] == [keyName];
    assert Join([keyName], NEWLINE) == keyName;
    assert Join([installId, keyName], NEWLINE) == installId + [NEWLINE] + keyName;
  }

  /** What an identity file must be, byte for byte, to be read: a version line, an id of 32 bytes, and a
      key name that is not blank; what comes after that line does not matter. */
  lemma MetadataExactly(t: Bytes, installId: Bytes, keyName: Bytes)
    ensures Metadata(Some(t)) == Some((installId, keyName)) <==>
              && |installId| == 32 && NEWLINE !in installId && NEWLINE !in keyName
              && (exists i :: 0 <= i < |keyName| && keyName[i] != 0x20 && !(9 <= keyName[i] <= 13))
              && Begins(t, [Lit("v2"), installId, keyName])
  {
    hide Split, Begins;
    var lines, parts := [Lit("v2"), installId, keyName], Split(t, NEWLINE);
    assert NEWLINE !in lines[0];
    if NEWLINE in installId || NEWLINE in keyName {
      assert forall i :: 0 <= i < |parts| ==> NEWLINE !in parts[i];
    } else {
      BeginsExactly(t, lines);
      if |parts| >= 3 {
        assert parts[..3] == [parts[0], parts[1], parts[2]];
      }
    }
  }

  /** Every step that changes the disk or the key store is recorded, so that a crash between any two of
      them is covered. */
  class Store {
    var file: Option<Bytes>
    var temporary: Option<Bytes>
    var keys: map<Bytes, Bytes>
    ghost var history: seq<Snapshot>

    function Now(): Snapshot
      reads this
    {
      Snapshot(file, temporary, keys)
    }

    ghost predicate Valid()
      reads this
    {
      history != [] && history[|history| - 1] == Now()
    }

    /** At every step so far the metadata named a key that existed. */
    ghost predicate AllSound()
      reads this
    {
      forall i :: 0 <= i < |history| ==> Sound(history[i])
    }

    constructor (file: Option<Bytes>, keys: map<Bytes, Bytes>)
      ensures Valid() && Now() == Snapshot(file, None, keys) && history == [Now()]
    {
      this.file, this.temporary, this.keys := file, None, keys;
      this.history := [Snapshot(file, None, keys)];
    }

    /** A key is created under a name that is not taken. */
    method CreateKey(name: Bytes, publicKey: Bytes, creates: bool) returns (created: bool)
      requires Valid()
      modifies this
      ensures Valid() && old(history) <= history && created == (creates && name !in old(keys))
      ensures Now() == old(Now()).(keys := if created then old(keys)[name := publicKey] else old(keys))
      ensures old(AllSound()) ==> AllSound()
    {
      assert AllSound() ==> Sound(Now());
      created := creates && name !in keys;
      if created {
        keys := keys[name := publicKey];
        history := history + [Now()];
      }
    }

    method DeleteKey(name: Bytes, deletes: bool)
      requires Valid()
      modifies this
      ensures Valid() && old(history) <= history
      ensures Now() == old(Now()).(keys := if deletes then old(keys) - {name} else old(keys))
      ensures old(AllSound()) && (deletes && Metadata(old(file)).Some? ==> Metadata(old(file)).value.1 != name) ==> AllSound()
    {
      hide Metadata;
      assert AllSound() ==> Sound(Now());
      if deletes {
        keys := keys - {name};
        history := history + [Now()];
      }
    }

    method DeleteFile(deletes: bool)
      requires Valid()
      modifies this
      ensures Valid() && old(history) <= history
      ensures Now() == old(Now()).(file := if deletes then None else old(file))
      ensures old(AllSound()) ==> AllSound()
    {
      if deletes {
        file := None;
        history := history + [Now()];
      }
    }

    /** writeProtected: a temporary file, then its replacement of the file. */
    method WriteProtected(text: Bytes, w: Writing) returns (written: bool)
      requires Valid()
      modifies this
      ensures Valid() && old(history) <= history && written == (w.protects && w.writes && w.swaps)
      ensures Now() == Snapshot(if written then Some(text) else old(file),
                                if w.protects && w.writes then None else old(temporary), old(keys))
      ensures old(AllSound()) && (Metadata(Some(text)).Some? ==> Metadata(Some(text)).value.1 in old(keys)) ==> AllSound()
    {
      hide Metadata;
      assert AllSound() ==> Sound(Now());
      if !w.protects {
        return false;
      }
      if !w.writes {
        return false;
      }
      temporary := Some(text);
      history := history + [Now()];
      if w.swaps {
        file, temporary := Some(text), None;
        history := history + [Now()];
        return true;
      }
      temporary := None;
      history := history + [Now()];
      return false;
    }
  }
}

/** The device identity: load or create it, and rotate its key. */
module KeyRotation {
  import opened Basics
  import opened KeyStore
  import Hex

  datatype Identity = Identity(installId: Bytes, keyName: Bytes, publicKey: Bytes)

  datatype Challenge = Challenge(challenge: Bytes, proofDigest: Bytes, expiresAt: int)
  datatype Confirmation = Confirmation(rotated: bool, registrationIsUuid: bool, installId: Bytes, keyId: Bytes)

  /** json.Unmarshal of the two response bodies, and the key id derived from a public key. */
  datatype Library = Library(challenge: Bytes -> Option<Challenge>, confirmation: Bytes -> Option<Confirmation>,
                             keyId: Bytes -> Bytes)

  /** A rotation request: the challenge it answers, and the digest its proof signs. */
  datatype Request = Request(challenge: Bytes, signed: Option<Bytes>)

  /** What the client's request pipeline hands back; Expired is a session that ran out before sending. */
  datatype Reply = Unsent | Expired | Answered(status: int, body: Bytes)

  /** One round: whether the registration can be built, whether the key signs, and the reply. */
  datatype Round = Round(registers: bool, signs: bool, reply: Reply)

  /** What creating an identity meets. */
  datatype Making = Making(random: Option<Bytes>, publicKey: Bytes, creates: bool, exports: bool, deletes: bool,
                           writing: Writing)

  predicate MakingOk(m: Making) {
    m.random.Some? ==> |m.random.value| == 16
  }

  function MadeName(appDigest: Bytes, m: Making): Bytes
    requires |appDigest| == 32 && MakingOk(m) && m.random.Some?
  {
    KeyName(appDigest, InstallId(m.random.value))
  }

  function Made(appDigest: Bytes, m: Making): Identity
    requires |appDigest| == 32 && MakingOk(m) && m.random.Some?
  {
    Identity(InstallId(m.random.value), MadeName(appDigest, m), m.publicKey)
  }

  /** A key can be made under its name. */
  predicate Makes(appDigest: Bytes, m: Making, keys: map<Bytes, Bytes>)
    requires |appDigest| == 32 && MakingOk(m)
  {
    m.random.Some? && m.creates && MadeName(appDigest, m) !in keys
  }

  /** The keys that a failed call leaves behind: those there were, and the one it made if that could not
      be deleted. */
  function Leftover(appDigest: Bytes, m: Making, before: map<Bytes, Bytes>): map<Bytes, Bytes>
    requires |appDigest| == 32 && MakingOk(m)
  {
    if Makes(appDigest, m, before) && !m.deletes then before[MadeName(appDigest, m) := m.publicKey] else before
  }

  /** The identity is the one on disk, and its key is there. */
  predicate OnDisk(i: Identity, s: Snapshot) {
    Metadata(s.file) == Some((i.installId, i.keyName)) && i.keyName in s.keys && s.keys[i.keyName] == i.publicKey
  }

  // ---- the rounds ----

  /** The server confirmed this very key. */
  predicate Confirms(l: Library, pending: Identity, r: Reply) {
    && r.Answered? && 200 <= r.status < 300 && l.confirmation(r.body).Some?
    && var c := l.confirmation(r.body).value;
       c.rotated && c.registrationIsUuid && c.installId == pending.installId && c.keyId == l.keyId(pending.publicKey)
  }

  predicate Challenges(l: Library, now: int, r: Reply) {
    && r.Answered? && r.status == 428 && l.challenge(r.body).Some?
    && var c := l.challenge(r.body).value; c.challenge != [] && c.proofDigest != [] && c.expiresAt > now
  }

  function Digest(c: Challenge): Option<Bytes> {
    var d := Hex.Decoded(c.proofDigest);
    if d.Some? && |d.value| == 32 then d else None
  }

  /** The requests sent: one without a proof, and, after a valid challenge, one that signs its digest. */
  function Requests(l: Library, now: int, first: Round, second: Round): seq<Request> {
    if !first.registers then []
    else
      [Request([], None)]
      + (if !Challenges(l, now, first.reply) then []
         else
           var c := l.challenge(first.reply.body).value;
           if second.registers && Digest(c).Some? && second.signs then [Request(c.challenge, Digest(c))] else [])
  }

  predicate Agreed(l: Library, pending: Identity, now: int, first: Round, second: Round) {
    var sent := |Requests(l, now, first, second)|;
    (sent == 1 && Confirms(l, pending, first.reply)) || (sent == 2 && Confirms(l, pending, second.reply))
  }

  /** The session ran out as one of the requests was to be sent. */
  predicate RanOut(l: Library, now: int, first: Round, second: Round) {
    var sent := |Requests(l, now, first, second)|;
    (sent == 1 && first.reply.Expired?) || (sent == 2 && second.reply.Expired?)
  }

  /** The part of the client that holds the identity, and the session bound to it. */
  class Client {
    const appDigest: Bytes
    const library: Library
    const store: Store
    var identity: Option<Identity>
    var session: Bytes
    var sessionExpiresAt: int
    /** Whether a budget state is held for the current identity. */
    var offline: bool

    ghost predicate Valid()
      reads this, store
    {
      |appDigest| == 32 && store.Valid()
    }

    constructor (appDigest: Bytes, library: Library, store: Store)
      requires |appDigest| == 32 && store.Valid()
      ensures Valid() && this.store == store && identity == None && session == [] && !offline
      ensures this.appDigest == appDigest && this.library == library
    {
      this.appDigest, this.library, this.store := appDigest, library, store;
      identity, session, sessionExpiresAt, offline := None, [], 0, false;
    }

    /** createPendingIdentity. */
    method CreatePending(m: Making) returns (pending: Option<Identity>)
      requires Valid() && MakingOk(m)
      modifies store
      ensures Valid() && old(store.history) <= store.history
      ensures old(store.AllSound()) ==> store.AllSound()
      ensures pending.Some? <==> Makes(appDigest, m, old(store.keys)) && m.exports
      ensures pending.Some? ==> pending.value == Made(appDigest, m)
                                && store.Now() == old(store.Now()).(keys := old(store.keys)[MadeName(appDigest, m) := m.publicKey])
      ensures pending.None? ==> store.Now() == old(store.Now()).(keys := Leftover(appDigest, m, old(store.keys)))
    {
      hide Metadata, KeyName, InstallId;
      if m.random.None? {
        return None;
      }
      ghost var before := store.Now();
      ghost var sound := store.AllSound();
      assert sound ==> Sound(before);
      var name := MadeName(appDigest, m);
      var created := store.CreateKey(name, m.publicKey, m.creates);
      if !created {
        return None;
      }
      if !m.exports {
        store.DeleteKey(name, m.deletes);
        assert before.keys[name := m.publicKey] - {name} == before.keys;
        return None;
      }
      return Some(Made(appDigest, m));
    }

    /** The second half of loadOrCreateIdentity: a new key, then its metadata. */
    method CreateIdentity(m: Making) returns (r: Option<Identity>)
      requires Valid() && MakingOk(m)
      modifies store
      ensures Valid() && old(store.history) <= store.history
      ensures old(store.AllSound()) ==> store.AllSound()
      ensures r.Some? <==> Makes(appDigest, m, old(store.keys)) && m.exports && m.writing == Writing(true, true, true)
      ensures r.Some? ==>
                && r.value == Made(appDigest, m) && OnDisk(r.value, store.Now())
                && store.keys == old(store.keys)[MadeName(appDigest, m) := m.publicKey]
      ensures r.None? ==> store.keys == Leftover(appDigest, m, old(store.keys)) && store.file == old(store.file)
    {
      hide Metadata, KeyName, InstallId;
      ghost var keys, kept, sound := store.keys, store.Now(), store.AllSound();
      assert sound ==> Sound(kept);
      r := CreatePending(m);
      if r.None? {
        return;
      }
      KeyNameIsOneLine(appDigest, m.random.value);
      RecordRoundTrip(r.value.installId, r.value.keyName);
      var written := store.WriteProtected(Record(r.value.installId, r.value.keyName), m.writing);
      if !written {
        store.DeleteKey(r.value.keyName, m.deletes);
        assert keys[r.value.keyName := m.publicKey] - {r.value.keyName} == keys;
        return None;
      }
    }

    /** loadOrCreateIdentity; readable and opens say what the disk and the key store do with the old one.
        It is loaded when it is there and opens, and nothing changes; otherwise its file is dropped and a
        new identity is made, exactly when every step of that succeeds. */
    method LoadOrCreate(readable: bool, opens: bool, deletesFile: bool, m: Making) returns (r: Option<Identity>)
      requires Valid() && MakingOk(m)
      modifies store
      ensures Valid() && old(store.history) <= store.history
      ensures old(store.AllSound()) ==> store.AllSound()
      ensures r.Some? ==> OnDisk(r.value, store.Now())
      ensures var held := if readable then Metadata(old(store.file)) else None;
              if held.Some? && opens && held.value.1 in old(store.keys) then
                r == Some(Identity(held.value.0, held.value.1, old(store.keys)[held.value.1]))
                && store.Now() == old(store.Now())
              else
                && (r.Some? <==> Makes(appDigest, m, old(store.keys)) && m.exports && m.writing == Writing(true, true, true))
                && (r.Some? ==> && r.value == Made(appDigest, m) && OnDisk(r.value, store.Now())
                                && store.keys == old(store.keys)[MadeName(appDigest, m) := m.publicKey])
                && (r.None? ==> && store.keys == Leftover(appDigest, m, old(store.keys))
                                && store.file == if held.Some? && deletesFile then None else old(store.file))
    {
      hide Metadata, Leftover, MakingOk, Makes, MadeName, Made;
      var held := if readable then Metadata(store.file) else None;
      if held.Some? {
        if opens && held.value.1 in store.keys {
          return Some(Identity(held.value.0, held.value.1, store.keys[held.value.1]));
        }
        store.DeleteFile(deletesFile);
      }
      r := CreateIdentity(m);
    }

    /** The two-round loop, up to the server's confirmation. */
    method Negotiate(pending: Identity, now: int, rounds: seq<Round>) returns (agreed: bool, sent: seq<Request>)
      requires |rounds| == 2
      modifies this`session, this`sessionExpiresAt
      ensures sent == Requests(library, now, rounds[0], rounds[1])
      ensures agreed == Agreed(library, pending, now, rounds[0], rounds[1])
      ensures (session, sessionExpiresAt) == if RanOut(library, now, rounds[0], rounds[1]) then ([], 0)
                                             else old((session, sessionExpiresAt))
    {
      hide Hex.Decoded;
      sent := [];
      var challenge, proofDigest := [], [];
      for attempt := 0 to 2
        invariant attempt < 2 && session == old(session) && sessionExpiresAt == old(sessionExpiresAt)
        invariant attempt == 0 ==> sent == [] && challenge == [] && proofDigest == []
        invariant attempt == 1 ==>
                    && rounds[0].registers && sent == [Request([], None)] && Challenges(library, now, rounds[0].reply)
                    && var c := library.challenge(rounds[0].reply.body).value;
                       challenge == c.challenge && proofDigest == c.proofDigest
      {
        var round := rounds[attempt];
        if !round.registers {
          return false, sent;
        }
        var signed: Option<Bytes> := None;
        if challenge != [] && proofDigest != [] {
          var digest := Hex.Decoded(proofDigest);
          if digest.None? || |digest.value| != 32 {
            return false, sent;
          }
          if !round.signs {
            return false, sent;
          }
          signed := digest;
        }
        sent := sent + [Request(challenge, signed)];
        match round.reply {
          case Unsent =>
            return false, sent;
          case Expired =>
            session, sessionExpiresAt := [], 0;
            return false, sent;
          case Answered(status, body) =>
            if status == 428 && attempt == 0 {
              var c := library.challenge(body);
              if c.None? || c.value.challenge == [] || c.value.proofDigest == [] || c.value.expiresAt <= now {
                return false, sent;
              }
              challenge, proofDigest := c.value.challenge, c.value.proofDigest;
              continue;
            }
            return Confirms(library, pending, round.reply), sent;
        }
      }
    }

    /** commitPending once the server agreed, and the deletion of the pending key otherwise. */
    method CommitPending(pending: Identity, m: Making, agreed: bool, ghost before: map<Bytes, Bytes>)
      returns (committed: bool)
      requires Valid() && MakingOk(m) && m.random.Some? && pending == Made(appDigest, m)
      requires pending.keyName !in before && store.keys == before[pending.keyName := m.publicKey]
      modifies store
      ensures Valid() && old(store.history) <= store.history
      ensures old(store.AllSound()) && (Metadata(old(store.file)).Some? ==> Metadata(old(store.file)).value.1 in before)
              ==> store.AllSound()
      ensures committed == (agreed && m.writing == Writing(true, true, true))
      ensures store.keys == if committed || !m.deletes then old(store.keys) else before
      ensures store.file == if committed then Some(Lit("v2") + [10] + pending.installId + [10] + pending.keyName + [10])
                            else old(store.file)
      ensures committed ==> OnDisk(pending, store.Now())
    {
      hide Metadata, KeyName, InstallId, Lit, Record;
      var name := pending.keyName;
      assert before[name := m.publicKey] - {name} == before;
      if !agreed {
        store.DeleteKey(name, m.deletes);
        return false;
      }
      KeyNameIsOneLine(appDigest, m.random.value);
      RecordRoundTrip(pending.installId, name);
      RecordBytes(pending.installId, name);
      committed := store.WriteProtected(Record(pending.installId, name), m.writing);
      if !committed {
        store.DeleteKey(name, m.deletes);
      }
    }

    /** RotateDeviceKey once time and keys are fresh and the session is held. Either the new identity is
        in memory and on disk, without a session and without the old budget, or the old one still is and
        nothing of the new key is left unless its deletion failed. */
    method RotateDeviceKey(m: Making, now: int, rounds: seq<Round>) returns (r: Option<Identity>, sent: seq<Request>)
      requires Valid() && MakingOk(m) && |rounds| == 2
      modifies this, store
      ensures Valid() && old(store.history) <= store.history
      ensures old(store.AllSound()) ==> store.AllSound()
      ensures |sent| <= 2
      ensures r.Some? <==>
                && m.random.Some? && m.creates && m.exports && m.writing == Writing(true, true, true)
                && Lit("SwmSdk.") + Hex.Text(appDigest)[..12] + Lit(".") + Hex.Text(m.random.value) !in old(store.keys)
                && sent != []
                && var reply := rounds[|sent| - 1].reply;
                   && reply.Answered? && 200 <= reply.status <= 299 && library.confirmation(reply.body).Some?
                   && var c := library.confirmation(reply.body).value;
                      && c.rotated && c.registrationIsUuid && c.installId == Hex.Text(m.random.value)
                      && c.keyId == library.keyId(m.publicKey)
      ensures r.Some? ==>
                && r.value.installId == Hex.Text(m.random.value) && r.value.publicKey == m.publicKey
                && r.value.keyName == Lit("SwmSdk.") + Hex.Text(appDigest)[..12] + Lit(".") + r.value.installId
                && identity == r && OnDisk(r.value, store.Now())
                && store.file == Some(Lit("v2") + [10] + r.value.installId + [10] + r.value.keyName + [10])
                && store.keys == old(store.keys)[r.value.keyName := m.publicKey]
                && session == [] && sessionExpiresAt == 0 && !offline
      ensures r.None? ==>
                && identity == old(identity) && offline == old(offline) && store.file == old(store.file)
                && store.keys == Leftover(appDigest, m, old(store.keys))
                && (session, sessionExpiresAt)
                   == if sent != [] && |sent| <= 2 && rounds[|sent| - 1].reply.Expired? then ([], 0)
                      else old((session, sessionExpiresAt))
      ensures sent == if Makes(appDigest, m, old(store.keys)) && m.exports
                      then Requests(library, now, rounds[0], rounds[1]) else []
    {
      hide Metadata, KeyName, InstallId, Requests, Agreed, RanOut, Hex.Text, Lit, Record, Makes, Made, MadeName, OnDisk,
           Leftover;
      sent := [];
      ghost var file, keys, sound := store.file, store.keys, store.AllSound();
      assert sound ==> Sound(store.Now());
      var pending := CreatePending(m);
      MakesExactly(appDigest, m, keys);
      if pending.None? {
        return None, sent;
      }
      var agreed;
      agreed, sent := Negotiate(pending.value, now, rounds);
      AgreedExactly(library, pending.value, now, rounds);
      RanOutExactly(library, now, rounds);
      var committed := CommitPending(pending.value, m, agreed, keys);
      if !committed {
        return None, sent;
      }
      identity := pending;
      offline := false;
      session, sessionExpiresAt := [], 0;
      return pending, sent;
    }
  }

  lemma RanOutExactly(l: Library, now: int, rounds: seq<Round>)
    requires |rounds| == 2
    ensures var sent := Requests(l, now, rounds[0], rounds[1]);
            |sent| <= 2 && (RanOut(l, now, rounds[0], rounds[1]) <==> sent != [] && rounds[|sent| - 1].reply.Expired?)
  {
  }

  lemma MakesExactly(appDigest: Bytes, m: Making, keys: map<Bytes, Bytes>)
    requires |appDigest| == 32 && MakingOk(m)
    ensures Makes(appDigest, m, keys) <==>
              && m.random.Some? && m.creates
              && Lit("SwmSdk.") + Hex.Text(appDigest)[..12] + Lit(".") + Hex.Text(m.random.value) !in keys
    ensures m.random.Some? ==>
              Made(appDigest, m)
              == Identity(Hex.Text(m.random.value),
                          Lit("SwmSdk.") + Hex.Text(appDigest)[..12] + Lit(".") + Hex.Text(m.random.value), m.publicKey)
              && MadeName(appDigest, m) == Made(appDigest, m).keyName
    ensures Leftover(appDigest, m, keys)
            == if Makes(appDigest, m, keys) && !m.deletes then keys[MadeName(appDigest, m) := m.publicKey] else keys
  {
    hide Hex.Text, Lit;
    if m.random.Some? {
      MadeExactly(appDigest, m);
    }
  }

  lemma MadeExactly(appDigest: Bytes, m: Making)
    requires |appDigest| == 32 && MakingOk(m) && m.random.Some?
    ensures Made(appDigest, m)
            == Identity(Hex.Text(m.random.value),
                        Lit("SwmSdk.") + Hex.Text(appDigest)[..12] + Lit(".") + Hex.Text(m.random.value), m.publicKey)
    ensures MadeName(appDigest, m) == Made(appDigest, m).keyName
  {
  }

  /** Agreement is the last reply's: a confirmation of this very key. */
  lemma AgreedExactly(l: Library, pending: Identity, now: int, rounds: seq<Round>)
    requires |rounds| == 2
    ensures var sent := Requests(l, now, rounds[0], rounds[1]);
            && |sent| <= 2
            && (Agreed(l, pending, now, rounds[0], rounds[1]) <==>
                  && sent != []
                  && var reply := rounds[|sent| - 1].reply;
                     && reply.Answered? && 200 <= reply.status <= 299 && l.confirmation(reply.body).Some?
                     && var c := l.confirmation(reply.body).value;
                        && c.rotated && c.registrationIsUuid && c.installId == pending.installId
                        && c.keyId == l.keyId(pending.publicKey))
  {
  }

  /** Exactly which requests are sent: the first one carries neither a challenge nor a proof; a second one
      is sent if and only if the first was answered by a live challenge whose digest is the text of 32
      bytes and the key signs, and it signs exactly those bytes. */
  lemma OnlyAChallengeIsSigned(l: Library, now: int, first: Round, second: Round)
    ensures var sent := Requests(l, now, first, second);
            && |sent| <= 2 && (sent != [] <==> first.registers) && (sent != [] ==> sent[0] == Request([], None))
            && (|sent| == 2 <==>
                  && first.registers && second.registers && second.signs
                  && first.reply.Answered? && first.reply.status == 428 && l.challenge(first.reply.body).Some?
                  && var c := l.challenge(first.reply.body).value;
                     && c.challenge != [] && c.proofDigest != [] && c.expiresAt > now
                     && exists d: Bytes :: |d| == 32 && Lower(c.proofDigest) == Hex.Text(d))
            && (|sent| == 2 ==>
                  && sent[1].challenge == l.challenge(first.reply.body).value.challenge
                  && sent[1].signed.Some? && |sent[1].signed.value| == 32
                  && Lower(l.challenge(first.reply.body).value.proofDigest) == Hex.Text(sent[1].signed.value))
  {
    hide Hex.Decoded, Hex.Text, Lower;
    if first.reply.Answered? && l.challenge(first.reply.body).Some? {
      DigestExactly(l.challenge(first.reply.body).value);
    }
  }

  lemma DigestExactly(c: Challenge)
    ensures Digest(c).Some? <==> exists d: Bytes :: |d| == 32 && Lower(c.proofDigest) == Hex.Text(d)
    ensures Digest(c).Some? ==> |Digest(c).value| == 32 && Lower(c.proofDigest) == Hex.Text(Digest(c).value)
  {
    hide Hex.Decoded, Hex.Text, Lower;
    if Digest(c).Some? {
      Hex.DecodedExact(c.proofDigest, Digest(c).value);
    }
    if d: Bytes :| |d| == 32 && Lower(c.proofDigest) == Hex.Text(d) {
      Hex.DecodedExact(c.proofDigest, d);
    }
  }
}
