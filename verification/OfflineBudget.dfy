/** How long the client may work without a verified server interaction, across restarts. */
module OfflineBudget {
  import opened Basics
  import opened Text
  import Int64

  const MAXIMUM_OFFLINE: int := 24 * 60 * 60 * 1000
  const PERSIST_INTERVAL: int := 5 * 60 * 1000

  const HEADER: Bytes := Lit("SwmSdkOfflineBudgetV1")

  /** A server time in milliseconds. */
  type Millis = Int64.Int64

  /** Whose record it is. */
  datatype Owner = Owner(installId: Bytes, keyThumbprint: Bytes)

  datatype State = State(loaded: bool, hasRecord: bool, latched: bool, hadVerified: bool,
                         lastVerified: Millis, lastPersisted: Millis)

  const FRESH: State := State(false, false, false, false, 0, 0)

  /** The record file, None when there is none or it cannot be unsealed. */
  type File = Option<Bytes>

  function Record(o: Owner, verified: Millis): Bytes {
    Join([HEADER, o.installId, o.keyThumbprint, FormatInt(verified)], NEWLINE) + [NEWLINE]
  }

  /** The time in a record of this owner. */
  function Recorded(o: Owner, file: File): Option<Millis> {
    if file.None? then None
    else
      var parts := Split(file.value, NEWLINE);
      if |parts| < 4 || parts[0] != HEADER || parts[1] != o.installId || parts[2] != o.keyThumbprint then None
      else
        var value := ParseInt(parts[3]);
        if value.None? || value.value <= 0 then None else Some(InRange(parts[3], value.value))
  }

  /** What ParseInt accepts fits 64 bits. */
  function InRange(text: Bytes, value: int): (t: Millis)
    requires ParseInt(text) == Some(value)
    ensures t == value
  {
    value
  }

  function Loaded(o: Owner, s: State, file: File): State {
    if s.loaded then s
    else
      var r := Recorded(o, file);
      if r.None? then s.(loaded := true)
      else s.(loaded := true, hasRecord := true, lastVerified := r.value, lastPersisted := r.value)
  }

  function LockedAt(s: State, now: Millis): bool {
    s.latched || !s.hasRecord || now <= 0 || now < s.lastVerified || now - s.lastVerified > MAXIMUM_OFFLINE
  }

  /** The fields after a verified interaction, before the record is written. */
  function Verified(s: State, now: Millis): State {
    s.(latched := s.latched || (s.hadVerified && s.hasRecord && now - s.lastVerified > MAXIMUM_OFFLINE),
       hadVerified := true, hasRecord := true,
       lastVerified := if now > s.lastVerified then now else s.lastVerified)
  }

  predicate MustPersist(s: State, now: Millis) {
    s.lastPersisted == 0 || now - s.lastPersisted >= PERSIST_INTERVAL
  }

  /** noteVerifiedInteraction; writes says whether the store can write. */
  function Noted(o: Owner, s: State, file: File, now: Millis, writes: bool): (State, File) {
    if now <= 0 then (s, file)
    else
      var v := Verified(Loaded(o, s, file), now);
      if MustPersist(v, now) && writes then (v.(lastPersisted := v.lastVerified), Some(Record(o, v.lastVerified)))
      else (v, file)
  }

  class Budget {
    const owner: Owner
    var loaded: bool
    var hasRecord: bool
    var latched: bool
    var hadVerified: bool
    var lastVerified: Millis
    var lastPersisted: Millis
    /** The store's record file. */
    var file: File

    function Now(): State
      reads this
    {
      State(loaded, hasRecord, latched, hadVerified, lastVerified, lastPersisted)
    }

    constructor (owner: Owner, file: File)
      ensures this.owner == owner && Now() == FRESH && this.file == file
    {
      this.owner, this.file := owner, file;
      loaded, hasRecord, latched, hadVerified, lastVerified, lastPersisted := false, false, false, false, 0, 0;
    }

    method EnsureLoaded()
      modifies this
      ensures Now() == Loaded(owner, old(Now()), file) && file == old(file)
    {
      hide Split, ParseInt, HEADER;
      if loaded {
        return;
      }
      loaded := true;
      if file.None? {
        return;
      }
      var parts := Split(file.value, NEWLINE);
      if |parts| < 4 || parts[0] != HEADER || parts[1] != owner.installId || parts[2] != owner.keyThumbprint {
        return;
      }
      var value := ParseInt(parts[3]);
      if value.None? || value.value <= 0 {
        return;
      }
      hasRecord := true;
      lastVerified := InRange(parts[3], value.value);
      lastPersisted := lastVerified;
    }

    method IsLocked(now: Millis) returns (locked: bool)
      modifies this
      ensures Now() == Loaded(owner, old(Now()), file) && file == old(file)
      ensures locked == LockedAt(Now(), now)
      ensures locked == (latched || !hasRecord || !(0 < now && lastVerified <= now <= lastVerified + 86400000))
    {
      EnsureLoaded();
      if latched {
        return true;
      }
      return !hasRecord || now <= 0 || now < lastVerified || now - lastVerified > MAXIMUM_OFFLINE;
    }

    method Persist(writes: bool)
      modifies this`lastPersisted, this`file
      ensures lastPersisted == (if writes then lastVerified else old(lastPersisted))
      ensures file == if writes then Some(Record(owner, lastVerified)) else old(file)
    {
      if writes {
        var text := Join([HEADER, owner.installId, owner.keyThumbprint, FormatInt(lastVerified)], NEWLINE) + [NEWLINE];
        file := Some(text);
        lastPersisted := lastVerified;
      }
    }

    method NoteVerifiedInteraction(now: Millis, writes: bool)
      modifies this
      ensures (Now(), file) == Noted(owner, old(Now()), old(file), now, writes)
      ensures now <= 0 ==> Now() == old(Now()) && file == old(file)
      ensures now > 0 ==>
                var before := Loaded(owner, old(Now()), old(file));
                && loaded && hasRecord && hadVerified
                && lastVerified == (if now > before.lastVerified then now else before.lastVerified)
                && (latched <==> before.latched
                                 || (before.hadVerified && before.hasRecord && now - before.lastVerified > 86400000))
                && (if writes && (before.lastPersisted == 0 || now - before.lastPersisted >= 300000)
                    then lastPersisted == lastVerified && file == Some(Record(owner, lastVerified))
                    else lastPersisted == before.lastPersisted && file == old(file))
    {
      hide Record;
      if now <= 0 {
        return;
      }
      EnsureLoaded();
      if hadVerified && hasRecord && now >= lastVerified && now - lastVerified > MAXIMUM_OFFLINE {
        latched := true;
      }
      hadVerified := true;
      hasRecord := true;
      if now > lastVerified {
        lastVerified := now;
      }
      if lastPersisted == 0 || now - lastPersisted >= PERSIST_INTERVAL {
        Persist(writes);
      }
    }
  }

  // ---- the record ----

  /** What is written is what is read back, by the owner and by no one else. */
  lemma RecordRoundTrip(o: Owner, reader: Owner, verified: Millis)
    requires NEWLINE !in o.installId && NEWLINE !in o.keyThumbprint && 0 < verified
    ensures Recorded(reader, Some(Record(o, verified))) == if reader == o then Some(verified) else None
  {
    hide Split, ParseInt, FormatInt, Join;
    var fields := [HEADER, o.installId, o.keyThumbprint, FormatInt(verified)];
    HeaderIsOneLine();
    assert NEWLINE !in FormatInt(verified);
    assert Free(fields, NEWLINE);
    SplitJoinEnd(fields, NEWLINE);
    ParseFormatInt(verified);
  }

  lemma RecordBytes(o: Owner, verified: Millis)
    ensures Record(o, verified)
            == Lit("SwmSdkOfflineBudgetV1") + [10] + o.installId + [10] + o.keyThumbprint + [10] + FormatInt(verified) + [10]
  {
    hide Lit, FormatInt;
    var a, b, c, d := HEADER, o.installId, o.keyThumbprint, FormatInt(verified);
    assert [a, b, c, d][1..] == [b, c, d] && [b, c, d][1..] == [c, d] && [c, d][1..] == [d];
    assert Join([d], NEWLINE) == d;
    assert Join([c, d], NEWLINE) == c + [10] + d;
    assert Join([b, c, d], NEWLINE) == b + [10] + (c + [10] + d);
  }

  /** What a record file must be, byte for byte, to be read by its owner: the header, the owner, and a line
      with a positive time; what comes after that line does not matter. */
  lemma RecordedExactly(o: Owner, t: Bytes, verified: Millis)
    requires NEWLINE !in o.installId && NEWLINE !in o.keyThumbprint
    ensures Recorded(o, Some(t)) == Some(verified) <==>
              && 0 < verified
              && exists line :: NEWLINE !in line && ParseInt(line) == Some(verified)
                                && Begins(t, [Lit("SwmSdkOfflineBudgetV1"), o.installId, o.keyThumbprint, line])
  {
    hide Split, ParseInt, Lit, Begins;
    HeaderIsOneLine();
    var parts := Split(t, NEWLINE);
    if Recorded(o, Some(t)) == Some(verified) {
      BeginsExactly(t, [HEADER, o.installId, o.keyThumbprint, parts[3]]);
      assert parts[..4] == [HEADER, o.installId, o.keyThumbprint, parts[3]];
    }
    if line :| NEWLINE !in line && ParseInt(line) == Some(verified)
               && Begins(t, [Lit("SwmSdkOfflineBudgetV1"), o.installId, o.keyThumbprint, line]) {
      BeginsExactly(t, [HEADER, o.installId, o.keyThumbprint, line]);
      assert parts[0] == parts[..4][0] && parts[1] == parts[..4][1] && parts[2] == parts[..4][2] && parts[3] == parts[..4][3];
    }
  }

  lemma HeaderIsOneLine()
    ensures NEWLINE !in HEADER
  {
  }

  lemma SplitJoinEnd(parts: seq<Bytes>, sep: Byte)
    requires parts != [] && Free(parts, sep)
    ensures Split(Join(parts, sep) + [sep], sep) == parts + [[]]
  {
    hide Split, Join;
    JoinEnd(parts, sep);
    SplitJoin(parts + [[]], sep);
  }

  // ---- runs ----

  /** A verified interaction and whether its write, if any, succeeds. */
  datatype Note = Note(now: Millis, writes: bool)

  function After(o: Owner, s: State, file: File, notes: seq<Note>): (State, File) {
    if notes == [] then (s, file)
    else
      var front := After(o, s, file, notes[..|notes| - 1]);
      Noted(o, front.0, front.1, notes[|notes| - 1].now, notes[|notes| - 1].writes)
  }

  /** The last verified time is on record to within five minutes. */
  predicate OnRecord(o: Owner, s: State, file: File) {
    s.loaded && s.hasRecord ==>
      && 0 < s.lastPersisted <= s.lastVerified < s.lastPersisted + PERSIST_INTERVAL
      && Recorded(o, file) == Some(s.lastPersisted)
  }

  predicate Sound(s: State) {
    (!s.loaded ==> s == FRESH) && s.lastVerified >= 0 && (s.loaded && !s.hasRecord ==> s.lastVerified == 0 == s.lastPersisted)
  }

  lemma NoteKeepsRecord(o: Owner, s: State, file: File, n: Note)
    requires NEWLINE !in o.installId && NEWLINE !in o.keyThumbprint
    requires Sound(s) && OnRecord(o, s, file) && n.writes
    ensures var t := Noted(o, s, file, n.now, true); Sound(t.0) && OnRecord(o, t.0, t.1)
  {
    hide Recorded, Record;
    RecordedIsPositive(o, file);
    if n.now > 0 {
      var v := Verified(Loaded(o, s, file), n.now);
      RecordRoundTrip(o, o, v.lastVerified);
    }
  }

  lemma RecordedIsPositive(o: Owner, file: File)
    ensures Recorded(o, file).Some? ==> Recorded(o, file).value > 0
  {
    hide Split, ParseInt, HEADER;
  }

  lemma {:induction false} RecordIsKept(o: Owner, file: File, notes: seq<Note>)
    requires NEWLINE !in o.installId && NEWLINE !in o.keyThumbprint
    requires forall i :: 0 <= i < |notes| ==> notes[i].writes
    ensures var t := After(o, FRESH, file, notes); Sound(t.0) && OnRecord(o, t.0, t.1)
  {
    hide Sound, OnRecord, Noted;
    if notes == [] {
      FreshIsSound(o, file);
    } else {
      var front := notes[..|notes| - 1];
      RecordIsKept(o, file, front);
      var t := After(o, FRESH, file, front);
      NoteKeepsRecord(o, t.0, t.1, notes[|notes| - 1]);
    }
  }

  lemma FreshIsSound(o: Owner, file: File)
    ensures Sound(FRESH) && OnRecord(o, FRESH, file)
  {
  }

  /** Whatever the writes do: one interaction never lowers the last verified time, never clears the latch
      or the record, and counts itself. */
  lemma NoteIsMonotone(o: Owner, s: State, file: File, n: Note)
    requires Sound(s)
    ensures var t := Noted(o, s, file, n.now, n.writes).0;
            && Sound(t) && s.lastVerified <= t.lastVerified && (s.latched ==> t.latched) && (s.hasRecord ==> t.hasRecord)
            && (n.now > 0 ==> n.now <= t.lastVerified)
  {
    hide Recorded, Record;
    RecordedIsPositive(o, file);
  }

  /** Over any run: later states are never behind earlier ones, and every interaction before them counts. */
  lemma {:induction false} RunIsMonotone(o: Owner, file: File, notes: seq<Note>, k: nat)
    requires k <= |notes|
    ensures var s, t := After(o, FRESH, file, notes[..k]).0, After(o, FRESH, file, notes).0;
            && Sound(t) && s.lastVerified <= t.lastVerified && (s.latched ==> t.latched)
            && (k < |notes| && notes[k].now > 0 ==> notes[k].now <= t.lastVerified)
  {
    hide Sound, Noted;
    if notes == [] {
      FreshIsSound(o, file);
      assert notes[..k] == notes;
    } else {
      var front, last := notes[..|notes| - 1], notes[|notes| - 1];
      var t := After(o, FRESH, file, front);
      if k == |notes| {
        assert notes[..k] == notes;
        RunIsMonotone(o, file, front, |front|);
      } else {
        RunIsMonotone(o, file, front, k);
        assert front[..k] == notes[..k];
      }
      NoteIsMonotone(o, t.0, t.1, last);
    }
  }

  /** Interaction i came more than 24 hours after the last verified time, in a process that had already
      had one. */
  predicate Late(o: Owner, file: File, notes: seq<Note>, i: nat)
    requires i < |notes|
  {
    var s := After(o, FRESH, file, notes[..i]).0;
    notes[i].now > 0 && s.hadVerified && notes[i].now - s.lastVerified > MAXIMUM_OFFLINE
  }

  /** One more interaction, and what it does to the latch. */
  lemma LatchStep(o: Owner, file: File, notes: seq<Note>)
    requires notes != []
    requires var s := After(o, FRESH, file, notes[..|notes| - 1]).0; s.hadVerified ==> s.loaded && s.hasRecord
    ensures var s, t := After(o, FRESH, file, notes[..|notes| - 1]).0, After(o, FRESH, file, notes).0;
            && (t.latched <==> s.latched || Late(o, file, notes, |notes| - 1))
            && (t.hadVerified <==> s.hadVerified || notes[|notes| - 1].now > 0)
            && (t.hadVerified ==> t.loaded && t.hasRecord)
  {
    hide Recorded, Record, MustPersist;
    UnloadedIsFresh(o, file, notes[..|notes| - 1]);
  }

  lemma {:induction false} UnloadedIsFresh(o: Owner, file: File, notes: seq<Note>)
    ensures var s := After(o, FRESH, file, notes).0; !s.loaded ==> s == FRESH
  {
    hide Recorded, Record, MustPersist;
    if notes != [] {
      UnloadedIsFresh(o, file, notes[..|notes| - 1]);
    }
  }

  lemma LateInFront(o: Owner, file: File, notes: seq<Note>, i: nat)
    requires i < |notes| - 1
    ensures Late(o, file, notes, i) <==> Late(o, file, notes[..|notes| - 1], i)
  {
    hide After;
    var front := notes[..|notes| - 1];
    assert notes[..i] == front[..i] && notes[i] == front[i];
  }

  /** The latch is set if and only if some interaction came too late. */
  lemma {:induction false} LatchedExactly(o: Owner, file: File, notes: seq<Note>)
    ensures var s := After(o, FRESH, file, notes).0;
            && (s.latched <==> exists i :: 0 <= i < |notes| && Late(o, file, notes, i))
            && (s.hadVerified ==> s.loaded && s.hasRecord)
            && (s.hadVerified <==> exists i :: 0 <= i < |notes| && notes[i].now > 0)
  {
    hide Late, Noted;
    if notes == [] {
    } else {
      var n := |notes| - 1;
      var front := notes[..n];
      LatchedExactly(o, file, front);
      LatchStep(o, file, notes);
      forall i | 0 <= i < n ensures Late(o, file, notes, i) <==> Late(o, file, front, i) {
        LateInFront(o, file, notes, i);
      }
      assert forall i :: 0 <= i < n ==> notes[i] == front[i];
      if exists i :: 0 <= i < |notes| && Late(o, file, notes, i) {
        var i :| 0 <= i < |notes| && Late(o, file, notes, i);
        assert i < n ==> Late(o, file, front, i);
      }
      if i :| 0 <= i < n && Late(o, file, front, i) {
        assert Late(o, file, notes, i);
      }
      if i :| 0 <= i < n && front[i].now > 0 {
        assert notes[i].now > 0;
      }
    }
  }

  // ---- restarts ----

  /** What a new process answers from the file alone. */
  function LockedAfterRestart(o: Owner, file: File, now: Millis): bool {
    LockedAt(Loaded(o, FRESH, file), now)
  }

  /** What the file holds is the last time that was persisted, whatever the writes did. */
  predicate Matching(o: Owner, s: State, file: File) {
    && (!s.loaded ==> s == FRESH)
    && (s.loaded ==> Recorded(o, file) == if s.lastPersisted == 0 then None else Some(s.lastPersisted))
    && 0 <= s.lastPersisted <= s.lastVerified && (s.hasRecord <==> s.lastVerified > 0)
  }

  lemma NoteKeepsMatching(o: Owner, s: State, file: File, n: Note)
    requires NEWLINE !in o.installId && NEWLINE !in o.keyThumbprint && Matching(o, s, file)
    ensures var t := Noted(o, s, file, n.now, n.writes); Matching(o, t.0, t.1)
  {
    hide Recorded, Record;
    RecordedIsPositive(o, file);
    if n.now > 0 {
      RecordRoundTrip(o, o, Verified(Loaded(o, s, file), n.now).lastVerified);
    }
  }

  lemma {:induction false} AlwaysMatching(o: Owner, file: File, notes: seq<Note>)
    requires NEWLINE !in o.installId && NEWLINE !in o.keyThumbprint
    ensures var t := After(o, FRESH, file, notes); Matching(o, t.0, t.1)
  {
    hide Noted, Recorded;
    if notes != [] {
      var front := notes[..|notes| - 1];
      AlwaysMatching(o, file, front);
      var t := After(o, FRESH, file, front);
      NoteKeepsMatching(o, t.0, t.1, notes[|notes| - 1]);
    }
  }

  /** After any run, whatever its writes did, at any time: a restart opens a locked client if and only if
      the latch locked it, or a clock that reads less than the last verified time, and the recorded time is
      at most 24 hours old and not in the future. */
  lemma RestartDecides(o: Owner, file: File, notes: seq<Note>, now: Millis)
    requires NEWLINE !in o.installId && NEWLINE !in o.keyThumbprint
    ensures var t := After(o, FRESH, file, notes);
            var s := Loaded(o, t.0, t.1);
            var before, after := LockedAt(s, now), LockedAfterRestart(o, t.1, now);
            && (before && !after <==>
                  (s.latched || now < s.lastVerified) && 0 < s.lastPersisted <= now && now - s.lastPersisted <= MAXIMUM_OFFLINE)
            && (!before && after <==>
                  !s.latched && 0 < s.lastVerified <= now && now - s.lastVerified <= MAXIMUM_OFFLINE
                  && (s.lastPersisted == 0 || now - s.lastPersisted > MAXIMUM_OFFLINE))
  {
    hide After, Recorded;
    RecordedIsPositive(o, After(o, FRESH, file, notes).1);
    AlwaysMatching(o, file, notes);
  }

  /** When every write succeeds, a restart shortens the budget in its last five minutes only; and without
      the latch it never extends it at times at or after the last verified one. */
  lemma RestartCostsLittle(o: Owner, file: File, notes: seq<Note>, now: Millis)
    requires NEWLINE !in o.installId && NEWLINE !in o.keyThumbprint
    requires forall i :: 0 <= i < |notes| ==> notes[i].writes
    ensures var t := After(o, FRESH, file, notes);
            var s := Loaded(o, t.0, t.1);
            var before, after := LockedAt(s, now), LockedAfterRestart(o, t.1, now);
            && (!before && after ==> MAXIMUM_OFFLINE - PERSIST_INTERVAL < now - s.lastVerified <= MAXIMUM_OFFLINE)
            && (!s.latched && s.lastVerified <= now && before ==> after)
  {
    hide After, Recorded, Record;
    RestartDecides(o, file, notes, now);
    RecordIsKept(o, file, notes);
    AlwaysMatching(o, file, notes);
    RecordedIsPositive(o, After(o, FRESH, file, notes).1);
  }

  /** Two interactions, the second more than a day after the first: the client stays locked for good,
      but a new process is not. */
  lemma RestartForgetsTheLatch(o: Owner)
    requires NEWLINE !in o.installId && NEWLINE !in o.keyThumbprint
    ensures var t := After(o, FRESH, None, [Note(1600000000000, true), Note(1600090000000, true)]);
            LockedAt(t.0, 1600090000000) && !LockedAfterRestart(o, t.1, 1600090000000)
  {
    hide Record, Recorded;
    var one := [Note(1600000000000, true)];
    var two := one + [Note(1600090000000, true)];
    assert two == [Note(1600000000000, true), Note(1600090000000, true)];
    assert one[..0] == [] && two[..1] == one;
    NoFile(o);
    assert After(o, FRESH, None, []) == (FRESH, None);
    var first := State(true, true, false, true, 1600000000000, 1600000000000);
    assert After(o, FRESH, None, one) == (first, Some(Record(o, 1600000000000)));
    assert After(o, FRESH, None, two).0.latched;
    RecordRoundTrip(o, o, 1600090000000);
  }

  /** Four minutes between two interactions, and a clock that then reads three seconds less: nothing is
      latched, the client is locked, and a new process is not. */
  lemma RestartForgetsTheLastTime(o: Owner)
    requires NEWLINE !in o.installId && NEWLINE !in o.keyThumbprint
    ensures var t := After(o, FRESH, None, [Note(1600000000000, true), Note(1600000240000, true)]);
            !t.0.latched && LockedAt(t.0, 1600000237000) && !LockedAfterRestart(o, t.1, 1600000237000)
  {
    hide Record, Recorded;
    var one := [Note(1600000000000, true)];
    var two := one + [Note(1600000240000, true)];
    assert two == [Note(1600000000000, true), Note(1600000240000, true)];
    assert one[..0] == [] && two[..1] == one;
    NoFile(o);
    assert After(o, FRESH, None, []) == (FRESH, None);
    var first := State(true, true, false, true, 1600000000000, 1600000000000);
    assert After(o, FRESH, None, one) == (first, Some(Record(o, 1600000000000)));
    RecordRoundTrip(o, o, 1600000000000);
  }

  lemma NoFile(o: Owner)
    ensures Recorded(o, None) == None
  {
  }
}
