/** What a download writes to the partial file. */
module Transfer {
  import opened Basics
  import Hex

  /** How a response body stops: at its end, by a failed read, or by the caller's cancellation. */
  datatype Ending = Eof | Broken | Cancelled

  function Concat(chunks: seq<Bytes>): Bytes {
    if chunks == [] then [] else chunks[0] + Concat(chunks[1..])
  }

  predicate Prefix(part: Option<Bytes>, artifact: Bytes) {
    part.Some? ==> part.value <= artifact
  }

  lemma PrefixStep(sofar: Bytes, chunk: Bytes, rest: Bytes, whole: Bytes)
    requires sofar + (chunk + rest) <= whole
    ensures (sofar + chunk) + rest <= whole && sofar + chunk <= whole && sofar <= whole
  {
    assert sofar + (chunk + rest) == (sofar + chunk) + rest;
  }

  lemma PrefixCut(sofar: Bytes, chunk: Bytes, whole: Bytes, n: nat)
    requires sofar + chunk <= whole && n <= |chunk|
    ensures sofar + chunk[..n] <= whole
  {
  }

  /** What comes from an offset continues the bytes before it. */
  lemma PrefixAt(artifact: Bytes, base: Bytes, body: Bytes)
    requires base <= artifact && body <= artifact[|base|..]
    ensures base + body <= artifact && (body == artifact[|base|..] ==> base + body == artifact)
  {
    assert artifact == base + artifact[|base|..];
  }

  /** The signed update, and the library's hash. */
  datatype Update = Update(size: int, checksum: Bytes, manifestValid: bool)
  type Hash = Bytes -> Bytes

  /** The file's SHA-256 is the signed checksum, and the manifest's signature holds. */
  predicate Matches(u: Update, hash: Hash, file: Bytes) {
    Lower(Hex.Text(hash(file))) == Lower(u.checksum) && u.manifestValid
  }
}

/** DownloadUpdate and downloadRange of the Go client. */
module GoDownload {
  import opened Basics
  import opened Transfer
  import Hex
  import Int64
  import Retry

  /** total: the total that Content-Range names, 0 when it names none. length: Content-Length. */
  datatype Response = Response(status: int, total: int, length: Option<nat>, chunks: seq<Bytes>, ending: Ending)

  datatype Fault = Stopped | Unsent | Rejected | DiskFault | Interrupted | LengthMismatch | NetworkFault
                 | Integrity | Unmoved

  datatype Exchange = Failed(fault: Fault) | Answered(response: Response)

  /** What the disk does during one attempt; room is what it can take before a write fails. */
  datatype Disk = Disk(stats: bool, removes: bool, opens: bool, room: Option<nat>, closes: bool)

  /** One attempt: the answer to a request for a given offset, the disk, and whether the wait after it
      runs to its end. */
  datatype Attempt = Attempt(exchange: nat -> Exchange, disk: Disk, sleeps: bool)

  /** What the disk does at the end. */
  datatype Final = Final(readable: bool, removesPart: bool, removesOld: bool, renames: bool)

  /** The write loop; room is what is left of it. */
  function Received(sofar: Bytes, chunks: seq<Bytes>, ending: Ending, room: Option<nat>): (Bytes, Option<Fault>)
    decreases |chunks|
  {
    if chunks == [] then
      (sofar, match ending case Eof => None case Broken => Some(Interrupted) case Cancelled => Some(Stopped))
    else if room.Some? && room.value < |chunks[0]| then (sofar + chunks[0][..room.value], Some(DiskFault))
    else
      Received(sofar + chunks[0], chunks[1..], ending,
               if room.Some? then Some(room.value - |chunks[0]|) else None)
  }

  function Oversized(part: Option<Bytes>, size: int, d: Disk): bool {
    part.Some? && d.stats && 0 < size < |part.value|
  }

  /** The partial file once an oversized one is gone, and the offset the request asks for. */
  function Kept(part: Option<Bytes>, size: int, d: Disk): Option<Bytes> {
    if Oversized(part, size, d) && d.removes then None else part
  }

  function Existing(part: Option<Bytes>, size: int, d: Disk): nat {
    if part.None? || !d.stats || Oversized(part, size, d) then 0 else |part.value|
  }

  function Appends(r: Response, existing: nat): bool {
    existing > 0 && r.status == 206
  }

  /** Sizes are 64-bit integers; their sum wraps. */
  function ExpectedTotal(r: Response, base: nat): int {
    if r.total > 0 then r.total else if r.length.Some? then Int64.Wrap(base + r.length.value) else r.total
  }

  /** downloadRange. */
  function Ranged(part: Option<Bytes>, size: int, a: Attempt): (Option<Bytes>, Option<Fault>) {
    var kept, k := Kept(part, size, a.disk), Existing(part, size, a.disk);
    match a.exchange(k)
    case Failed(fault) => (kept, Some(fault))
    case Answered(r) =>
      if r.status >= 400 then (kept, Some(Rejected))
      else if !a.disk.opens then (kept, Some(DiskFault))
      else Filled(if Appends(r, k) then part.value else [], r, a.disk)
  }

  function Filled(base: Bytes, r: Response, d: Disk): (Option<Bytes>, Option<Fault>) {
    var got := Received(base, r.chunks, r.ending, d.room);
    var total := ExpectedTotal(r, |base|);
    (Some(got.0),
     if got.1.Some? then got.1
     else if !d.closes then Some(DiskFault)
     else if total > 0 && |got.0| != total then Some(LengthMismatch)
     else None)
  }

  function Retries(): nat {
    Retry.PolicyFor(Retry.Download).retries
  }

  /** The retry loop of DownloadUpdate, from attempt n on. */
  function Tried(part: Option<Bytes>, size: int, attempts: nat -> Attempt, n: nat): (Option<Bytes>, Option<Fault>)
    decreases Retries() - n
  {
    var one := Ranged(part, size, attempts(n));
    if one.1.None? || one.1 == Some(Stopped) then one
    else if n >= Retries() then (one.0, Some(NetworkFault))
    else if !attempts(n).sleeps then (one.0, Some(Stopped))
    else Tried(one.0, size, attempts, n + 1)
  }

  /** Hash, compare, replace. */
  function Settled(u: Update, hash: Hash, part: Option<Bytes>, former: Option<Bytes>, f: Final):
    (Option<Bytes>, Option<Bytes>, Option<Fault>)
  {
    if part.None? || !f.readable then (part, former, Some(DiskFault))
    else if !Matches(u, hash, part.value) then (if f.removesPart then None else part, former, Some(Integrity))
    else if former.Some? && !f.removesOld then (part, former, Some(DiskFault))
    else if !f.renames then (part, None, Some(Unmoved))
    else (None, part, None)
  }

  function Downloaded(u: Update, hash: Hash, part: Option<Bytes>, former: Option<Bytes>, attempts: nat -> Attempt, f: Final):
    (Option<Bytes>, Option<Bytes>, Option<Fault>)
  {
    var tried := Tried(part, u.size, attempts, 0);
    if tried.1.Some? then (tried.0, former, tried.1) else Settled(u, hash, tried.0, former, f)
  }

  class Downloader {
    const hash: Hash
    /** The partial file and the destination, None when they do not exist. */
    var part: Option<Bytes>
    var destination: Option<Bytes>

    constructor (hash: Hash, part: Option<Bytes>, destination: Option<Bytes>)
      ensures this.hash == hash && this.part == part && this.destination == destination
    {
      this.hash := hash;
      this.part := part;
      this.destination := destination;
    }

    method DownloadRange(size: int, a: Attempt) returns (fault: Option<Fault>)
      modifies this`part
      ensures (part, fault) == Ranged(old(part), size, a)
    {
      var existing := 0;
      if part.Some? && a.disk.stats {
        existing := |part.value|;
      }
      ghost var before := part;
      if size > 0 && existing > size {
        if a.disk.removes {
          part := None;
        }
        existing := 0;
      }
      assert existing == Existing(before, size, a.disk) && part == Kept(before, size, a.disk);
      match a.exchange(existing)
      case Failed(why) =>
        return Some(why);
      case Answered(r) =>
        if r.status >= 400 {
          return Some(Rejected);
        }
        if !a.disk.opens {
          return Some(DiskFault);
        }
        if !Appends(r, existing) {
          existing := 0;
          part := Some([]);
        }
        var expected := ExpectedTotal(r, existing);
        ghost var base := part.value;
        var written := existing;
        var room: Option<nat> := a.disk.room;
        var ended: Option<Fault> := None;
        for i := 0 to |r.chunks|
          invariant part.Some? && written == |part.value| && ended == None
          invariant Received(base, r.chunks, r.ending, a.disk.room)
                 == Received(part.value, r.chunks[i..], r.ending, room)
        {
          var chunk := r.chunks[i];
          assert r.chunks[i..][0] == chunk && r.chunks[i..][1..] == r.chunks[i + 1..];
          if room.Some? && room.value < |chunk| {
            part := Some(part.value + chunk[..room.value]);
            return Some(DiskFault);
          }
          part := Some(part.value + chunk);
          written := written + |chunk|;
          room := if room.Some? then Some(room.value - |chunk|) else None;
        }
        if r.ending.Broken? {
          return Some(Interrupted);
        }
        if r.ending.Cancelled? {
          return Some(Stopped);
        }
        if !a.disk.closes {
          return Some(DiskFault);
        }
        fault := if expected > 0 && written != expected then Some(LengthMismatch) else None;
    }

    method DownloadUpdate(u: Update, attempts: nat -> Attempt, f: Final) returns (fault: Option<Fault>)
      modifies this`part, this`destination
      ensures (part, destination, fault) == Downloaded(u, hash, old(part), old(destination), attempts, f)
    {
      hide Ranged, Matches;
      var n := 0;
      fault := None;
      while true
        invariant 0 <= n <= Retries() && destination == old(destination)
        invariant Tried(old(part), u.size, attempts, 0) == Tried(part, u.size, attempts, n)
        decreases Retries() - n
      {
        var one := DownloadRange(u.size, attempts(n));
        if one == None {
          break;
        }
        if one == Some(Stopped) {
          return one;
        }
        if n >= Retries() {
          return Some(NetworkFault);
        }
        if !attempts(n).sleeps {
          return Some(Stopped);
        }
        n := n + 1;
      }
      if part.None? || !f.readable {
        return Some(DiskFault);
      }
      if !Matches(u, hash, part.value) {
        if f.removesPart {
          part := None;
        }
        return Some(Integrity);
      }
      if destination.Some? {
        if !f.removesOld {
          return Some(DiskFault);
        }
        destination := None;
      }
      if !f.renames {
        return Some(Unmoved);
      }
      part, destination := None, part;
    }
  }

  // ---- the destination ----

  /** Whatever the server sends and whatever fails: the destination is the file it was, or it is gone
      because the final rename failed, or it holds bytes whose SHA-256 is the signed checksum of a manifest
      whose signature holds; and the call reports success exactly in the last case, which some attempt
      that met no failure led to. */
  lemma DestinationIsVerified(u: Update, hash: Hash, part: Option<Bytes>, former: Option<Bytes>,
                              attempts: nat -> Attempt, f: Final)
    ensures var d := Downloaded(u, hash, part, former, attempts, f);
            && (d.2.Some? ==>
                  d.1 == former
                  || (d.1.None? && d.2 == Some(Unmoved) && d.0.Some? && u.manifestValid
                      && Lower(Hex.Text(hash(d.0.value))) == Lower(u.checksum)))
            && (d.2.None? ==>
                  && d.0.None? && d.1.Some? && u.manifestValid
                  && Lower(Hex.Text(hash(d.1.value))) == Lower(u.checksum)
                  && f.readable && f.renames && (former.Some? ==> f.removesOld)
                  && exists n, k: nat :: n <= 2 && Clean(attempts(n), k))
  {
    hide Tried, Lower, Hex.Text, Clean;
    SuccessIsClean(part, u.size, attempts, 0);
  }

  /** The request for an offset is answered without a refusal, the body ends as it should, and the disk
      takes it. */
  predicate Clean(a: Attempt, k: nat) {
    && a.exchange(k).Answered? && a.exchange(k).response.status < 400 && a.exchange(k).response.ending == Eof
    && a.disk.opens && a.disk.closes
  }

  lemma {:induction false} ReceivedToEnd(sofar: Bytes, chunks: seq<Bytes>, ending: Ending, room: Option<nat>)
    ensures Received(sofar, chunks, ending, room).1.None? ==> ending == Eof
    decreases |chunks|
  {
    if chunks != [] && !(room.Some? && room.value < |chunks[0]|) {
      ReceivedToEnd(sofar + chunks[0], chunks[1..], ending,
                    if room.Some? then Some(room.value - |chunks[0]|) else None);
    }
  }

  lemma RangedClean(part: Option<Bytes>, size: int, a: Attempt)
    ensures Ranged(part, size, a).1.None? ==> Clean(a, Existing(part, size, a.disk))
  {
    hide Received, ExpectedTotal;
    var k := Existing(part, size, a.disk);
    if a.exchange(k).Answered? {
      var r := a.exchange(k).response;
      ReceivedToEnd(if Appends(r, k) then part.value else [], r.chunks, r.ending, a.disk.room);
    }
  }

  lemma {:induction false} SuccessIsClean(part: Option<Bytes>, size: int, attempts: nat -> Attempt, n: nat)
    requires n <= 2
    ensures Tried(part, size, attempts, n).1.None? ==> exists m, k: nat :: m <= 2 && Clean(attempts(m), k)
    decreases 2 - n
  {
    hide Ranged, Clean;
    assert Retries() == 2;
    RangedClean(part, size, attempts(n));
    var one := Ranged(part, size, attempts(n));
    if one.1.Some? && one.1 != Some(Stopped) && n < 2 && attempts(n).sleeps {
      SuccessIsClean(one.0, size, attempts, n + 1);
    }
  }

  // ---- an honest server ----

  /** The answer to a request for an offset comes from the artifact: a partial one from that offset, any
      other from the start, cut anywhere; the sizes it names are right, and an answer without any size
      that ends without an error is whole. */
  predicate Honest(artifact: Bytes, k: nat, e: Exchange) {
    e.Answered? && e.response.status < 400 ==>
      var r := e.response;
      var from := if k > 0 && r.status == 206 then k else 0;
      && from <= |artifact| && Concat(r.chunks) <= artifact[from..]
      && (r.total > 0 ==> r.total == |artifact|)
      && (r.length.Some? ==> r.length.value == |artifact| - from)
      && (r.total <= 0 && r.length.None? && r.ending.Eof? ==> Concat(r.chunks) == artifact[from..])
  }

  ghost predicate HonestServer(artifact: Bytes, attempts: nat -> Attempt) {
    forall n, k :: Honest(artifact, k, attempts(n).exchange(k))
  }

  lemma {:induction false} ReceivedIsPrefix(sofar: Bytes, chunks: seq<Bytes>, ending: Ending, room: Option<nat>, whole: Bytes)
    requires sofar + Concat(chunks) <= whole
    ensures var got := Received(sofar, chunks, ending, room);
            got.0 <= whole && (got.1.None? ==> got.0 == sofar + Concat(chunks) && ending.Eof?)
    decreases |chunks|
  {
    if chunks == [] {
      assert sofar + [] == sofar;
    } else {
      PrefixStep(sofar, chunks[0], Concat(chunks[1..]), whole);
      if room.Some? && room.value < |chunks[0]| {
        PrefixCut(sofar, chunks[0], whole, room.value);
      } else {
        ReceivedIsPrefix(sofar + chunks[0], chunks[1..], ending,
                         if room.Some? then Some(room.value - |chunks[0]|) else None, whole);
        assert (sofar + chunks[0]) + Concat(chunks[1..]) == sofar + Concat(chunks);
      }
    }
  }

  /** What an honest answer says of the file it is appended to, or starts. */
  lemma HonestParts(artifact: Bytes, base: Bytes, k: nat, r: Response)
    requires Honest(artifact, k, Answered(r)) && r.status < 400
    requires |base| == (if Appends(r, k) then k else 0) && base <= artifact
    ensures Concat(r.chunks) <= artifact[|base|..] && (r.total > 0 ==> r.total == |artifact|)
    ensures r.length.Some? ==> r.length.value == |artifact| - |base|
    ensures r.total <= 0 && r.length.None? && r.ending.Eof? ==> Concat(r.chunks) == artifact[|base|..]
  {
    hide Concat;
  }

  lemma BaseIsPrefix(part: Option<Bytes>, size: int, d: Disk, artifact: Bytes)
    requires Prefix(part, artifact)
    ensures Prefix(Kept(part, size, d), artifact)
    ensures Existing(part, size, d) > 0 ==>
              part.Some? && |part.value| == Existing(part, size, d) && part.value <= artifact
  {
  }

  lemma RangedKeepsPrefix(part: Option<Bytes>, size: int, a: Attempt, artifact: Bytes)
    requires Prefix(part, artifact)
    requires Honest(artifact, Existing(part, size, a.disk), a.exchange(Existing(part, size, a.disk)))
    ensures var one := Ranged(part, size, a);
            Prefix(one.0, artifact) && (one.1.None? && |artifact| <= Int64.MAX ==> one.0 == Some(artifact))
  {
    hide Concat, Filled, Honest, Prefix, Kept, Existing;
    BaseIsPrefix(part, size, a.disk, artifact);
    var k := Existing(part, size, a.disk);
    match a.exchange(k)
    case Failed(_) =>
    case Answered(r) =>
      if r.status < 400 && a.disk.opens {
        var base := if Appends(r, k) then part.value else [];
        HonestParts(artifact, base, k, r);
        FilledIsWhole(base, r, a.disk, artifact);
      }
  }

  lemma FilledIsWhole(base: Bytes, r: Response, d: Disk, artifact: Bytes)
    requires base <= artifact && Concat(r.chunks) <= artifact[|base|..]
    requires r.total > 0 ==> r.total == |artifact|
    requires r.length.Some? ==> r.length.value == |artifact| - |base|
    requires r.total <= 0 && r.length.None? && r.ending.Eof? ==> Concat(r.chunks) == artifact[|base|..]
    ensures var one := Filled(base, r, d);
            Prefix(one.0, artifact) && (one.1.None? && |artifact| <= Int64.MAX ==> one.0 == Some(artifact))
  {
    hide Received, Concat, Int64.Wrap;
    var body := Concat(r.chunks);
    PrefixAt(artifact, base, body);
    ReceivedIsPrefix(base, r.chunks, r.ending, d.room, artifact);
    var got := Received(base, r.chunks, r.ending, d.room);
    if got.1.None? && (r.total > 0 || r.length.Some?) && |artifact| <= Int64.MAX {
      assert ExpectedTotal(r, |base|) == |artifact|;
      WholeByLength(got.0, artifact);
    }
  }

  lemma WholeByLength(got: Bytes, artifact: Bytes)
    requires got <= artifact
    ensures got == artifact <==> |got| == |artifact|
  {
    assert artifact[..|artifact|] == artifact;
  }

  lemma {:induction false} TriedKeepsPrefix(part: Option<Bytes>, size: int, attempts: nat -> Attempt, n: nat, artifact: Bytes)
    requires Prefix(part, artifact) && HonestServer(artifact, attempts)
    ensures var t := Tried(part, size, attempts, n);
            Prefix(t.0, artifact) && (t.1.None? && |artifact| <= Int64.MAX ==> t.0 == Some(artifact))
    decreases Retries() - n
  {
    hide Ranged, Honest;
    RangedKeepsPrefix(part, size, attempts(n), artifact);
    var one := Ranged(part, size, attempts(n));
    if one.1.Some? && one.1 != Some(Stopped) && n < Retries() && attempts(n).sleeps {
      TriedKeepsPrefix(one.0, size, attempts, n + 1, artifact);
    }
  }

  /** With an honest server, a partial file that starts as a prefix of the artifact stays one through
      every cut, failed write, retry and wait, and a call that succeeds leaves the artifact itself, whose
      size fits 64 bits, in the destination. */
  lemma PrefixIsKept(u: Update, hash: Hash, part: Option<Bytes>, former: Option<Bytes>, attempts: nat -> Attempt, f: Final,
                     artifact: Bytes)
    requires Prefix(part, artifact) && HonestServer(artifact, attempts)
    ensures var d := Downloaded(u, hash, part, former, attempts, f);
            Prefix(d.0, artifact) && (d.2.None? && |artifact| <= Int64.MAX ==> d.1 == Some(artifact))
  {
    hide Tried, Matches;
    TriedKeepsPrefix(part, u.size, attempts, 0, artifact);
  }

  // ---- when a download can finish ----

  /** A sound disk and a server that answers every request fully, as sections 14.2 and 15.5.17 of RFC 9110
      have it: from the offset when there is something left there, refusing when there is not. */
  function Ideal(artifact: Bytes): Attempt {
    Attempt((k: nat) =>
              if k == 0 then Answered(Response(200, 0, Some(|artifact|), [artifact], Eof))
              else if k < |artifact| then Answered(Response(206, |artifact|, Some(|artifact| - k), [artifact[k..]], Eof))
              else Answered(Response(416, |artifact|, None, [], Eof)),
            Disk(true, true, true, None, true), true)
  }

  lemma IdealIsHonest(artifact: Bytes, k: nat)
    ensures Honest(artifact, k, Ideal(artifact).exchange(k))
  {
    assert Concat([artifact]) == artifact + Concat([]);
    assert artifact[0..] == artifact;
    if k < |artifact| {
      assert Concat([artifact[k..]]) == artifact[k..] + Concat([]);
    }
  }

  /** What an ideal answer leaves of a partial file that is asked for from an offset. */
  function Continued(part: Option<Bytes>, k: nat, artifact: Bytes): Bytes
    requires k <= |artifact| && (k > 0 ==> part.Some?)
  {
    (if k > 0 then part.value else []) + artifact[k..]
  }

  /** The offset that is asked for has nothing left behind it. */
  predicate PastTheEnd(k: nat, artifact: Bytes) {
    0 < k && |artifact| <= k
  }

  lemma IdealOnce(artifact: Bytes, part: Option<Bytes>, size: int)
    requires |artifact| <= Int64.MAX
    ensures var a := Ideal(artifact);
            var k := Existing(part, size, a.disk);
            if PastTheEnd(k, artifact) then k == |part.value| && Ranged(part, size, a) == (part, Some(Rejected))
            else k <= |artifact| && Ranged(part, size, a) == (Some(Continued(part, k, artifact)), None)
  {
    hide Received, Int64.Wrap;
    var a := Ideal(artifact);
    var k := Existing(part, size, a.disk);
    if !PastTheEnd(k, artifact) {
      var r := a.exchange(k).response;
      var base := if Appends(r, k) then part.value else [];
      OneChunk(base, r.chunks[0]);
      assert artifact[0..] == artifact && [] + artifact == artifact;
    }
  }

  lemma OneChunk(base: Bytes, chunk: Bytes)
    ensures Received(base, [chunk], Eof, None) == (base + chunk, None)
  {
    assert [chunk][1..] == [];
    assert Received(base + chunk, [], Eof, None) == (base + chunk, None);
  }

  /** Over such a server and disk, for every partial file, update and artifact of a 64-bit size: a call is
      stuck if and only if the offset it asks for lies at or past the end of the artifact. It is then
      refused on every attempt and leaves everything as it was, so every later call meets the same state.
      Otherwise the partial file, continued by the rest of the artifact, is decided by the checksum alone:
      it becomes the destination, or it is removed. The offset is the partial file's length, or 0 when the
      update names a smaller size. */
  lemma OutcomeIsDecided(u: Update, hash: Hash, artifact: Bytes, part: Option<Bytes>, former: Option<Bytes>)
    requires |artifact| <= Int64.MAX
    ensures var k := if part.Some? && !(0 < u.size < |part.value|) then |part.value| else 0;
            var d := Downloaded(u, hash, part, former, _ => Ideal(artifact), Final(true, true, true, true));
            if 0 < k && |artifact| <= k then d == (part, former, Some(NetworkFault))
            else
              var file := (if k > 0 then part.value else []) + artifact[k..];
              d == if Lower(Hex.Text(hash(file))) == Lower(u.checksum) && u.manifestValid then (None, Some(file), None)
                   else (None, former, Some(Integrity))
  {
    hide Ranged, Lower, Hex.Text, Ideal;
    IdealOnce(artifact, part, u.size);
    SoundDisk(artifact);
    var attempts := _ => Ideal(artifact);
    if PastTheEnd(Existing(part, u.size, Ideal(artifact).disk), artifact) {
      StuckIsRefused(artifact, part, u.size, attempts, 2);
      StuckIsRefused(artifact, part, u.size, attempts, 1);
      StuckIsRefused(artifact, part, u.size, attempts, 0);
    }
  }

  /** Nobody cancels the attempt. */
  ghost predicate NotStopped(a: Attempt) {
    && a.sleeps && forall k :: a.exchange(k) != Failed(Stopped)
                               && (a.exchange(k).Answered? ==> !a.exchange(k).response.ending.Cancelled?)
  }

  /** Two attempts may fail in any way: whatever an honest server sent and the disk did, a third one that
      meets no failure finishes the download, unless an earlier one already wrote all of the artifact and
      only failed after that. */
  lemma RetriesFinish(u: Update, hash: Hash, artifact: Bytes, part: Option<Bytes>, former: Option<Bytes>,
                      attempts: nat -> Attempt)
    requires Prefix(part, artifact) && |artifact| <= Int64.MAX && HonestServer(artifact, attempts)
    requires NotStopped(attempts(0)) && NotStopped(attempts(1)) && attempts(2) == Ideal(artifact)
    requires Lower(Hex.Text(hash(artifact))) == Lower(u.checksum) && u.manifestValid
    ensures var d := Downloaded(u, hash, part, former, attempts, Final(true, true, true, true));
            d == (None, Some(artifact), None) || (artifact != [] && d == (Some(artifact), former, Some(NetworkFault)))
  {
    hide Tried, Lower, Hex.Text, HonestServer, NotStopped;
    TriedFinishes(artifact, part, u.size, attempts, 0);
  }

  lemma RangedNotStopped(part: Option<Bytes>, size: int, a: Attempt)
    requires NotStopped(a)
    ensures Ranged(part, size, a).1 != Some(Stopped)
  {
    hide ExpectedTotal, Received;
    var k := Existing(part, size, a.disk);
    if a.exchange(k).Answered? {
      var r := a.exchange(k).response;
      ReceivedNotStopped(if Appends(r, k) then part.value else [], r.chunks, r.ending, a.disk.room);
    }
  }

  lemma {:induction false} ReceivedNotStopped(sofar: Bytes, chunks: seq<Bytes>, ending: Ending, room: Option<nat>)
    requires !ending.Cancelled?
    ensures Received(sofar, chunks, ending, room).1 != Some(Stopped)
    decreases |chunks|
  {
    if chunks != [] && !(room.Some? && room.value < |chunks[0]|) {
      ReceivedNotStopped(sofar + chunks[0], chunks[1..], ending,
                         if room.Some? then Some(room.value - |chunks[0]|) else None);
    }
  }

  lemma {:induction false} TriedFinishes(artifact: Bytes, part: Option<Bytes>, size: int, attempts: nat -> Attempt, n: nat)
    requires n <= 2 && Prefix(part, artifact) && |artifact| <= Int64.MAX && HonestServer(artifact, attempts)
    requires NotStopped(attempts(0)) && NotStopped(attempts(1)) && attempts(2) == Ideal(artifact)
    ensures var t := Tried(part, size, attempts, n);
            t == (Some(artifact), None) || (artifact != [] && t == (Some(artifact), Some(NetworkFault)))
    decreases 2 - n
  {
    hide Ranged, Honest, Ideal;
    assert Retries() == 2;
    RangedKeepsPrefix(part, size, attempts(n), artifact);
    var one := Ranged(part, size, attempts(n));
    if n < 2 {
      RangedNotStopped(part, size, attempts(n));
      if one.1.Some? {
        TriedFinishes(artifact, one.0, size, attempts, n + 1);
      }
    } else {
      IdealOnce(artifact, part, size);
      SoundDisk(artifact);
      WholeByLength(if part.Some? then part.value else artifact, artifact);
    }
  }

  lemma StuckIsRefused(artifact: Bytes, part: Option<Bytes>, size: int, attempts: nat -> Attempt, n: nat)
    requires |artifact| <= Int64.MAX && n <= Retries() && attempts(n) == Ideal(artifact)
    requires PastTheEnd(Existing(part, size, Ideal(artifact).disk), artifact)
    requires n < Retries() ==> Tried(part, size, attempts, n + 1) == (part, Some(NetworkFault))
    ensures Tried(part, size, attempts, n) == (part, Some(NetworkFault))
  {
    hide Ranged;
    IdealOnce(artifact, part, size);
  }

  /** For an update that names the artifact's size: stuck exactly when the partial file has that size,
      whatever its bytes; a missing or longer one is downloaded whole, a shorter one is continued. */
  lemma StuckExactlyWhenComplete(u: Update, hash: Hash, artifact: Bytes, part: Option<Bytes>, former: Option<Bytes>)
    requires u.size == |artifact| > 0 && |artifact| <= Int64.MAX
    requires Lower(Hex.Text(hash(artifact))) == Lower(u.checksum) && u.manifestValid
    ensures var d := Downloaded(u, hash, part, former, _ => Ideal(artifact), Final(true, true, true, true));
            && (d == (part, former, Some(NetworkFault)) <==> part.Some? && |part.value| == u.size)
            && (part.None? || |part.value| > u.size || part.value < artifact ==> d == (None, Some(artifact), None))
            && (d.2.None? <==>
                  part.None? || |part.value| > u.size
                  || (|part.value| < u.size
                      && Lower(Hex.Text(hash(part.value + artifact[|part.value|..]))) == Lower(u.checksum)))
  {
    hide Downloaded, Ideal, Lower, Hex.Text;
    OutcomeIsDecided(u, hash, artifact, part, former);
    assert [] + artifact[0..] == artifact;
    if part.Some? && part.value < artifact {
      assert part.value + artifact[|part.value|..] == artifact;
    }
    if part.Some? && |part.value| < u.size {
      assert part.value == [] ==> part.value + artifact[|part.value|..] == artifact;
    }
  }

  lemma SoundDisk(artifact: Bytes)
    ensures Ideal(artifact).disk == Disk(true, true, true, None, true)
  {
  }
}
