/** download_update of the C++ client, after redirects. */
module CppDownload {
  import opened Basics
  import opened Transfer
  import CR = ContentRange
  import Hex
  import Text

  datatype Response = Response(status: int, contentRange: Option<Bytes>, contentLength: Option<Bytes>,
                               chunks: seq<Bytes>, ending: Ending)

  datatype Fault = Unsent | Protocol | Api | Length | Unread | Integrity | Unmoved

  /** What the disk does; room is what it can take before writes silently fail, readable whether the
      partial file can be read back for its hash. */
  datatype Disk = Disk(opens: bool, room: Option<nat>, readable: bool, removesPart: bool, removesOld: bool, renames: bool)

  /** The answers: to the first request, for a given offset, and to the second one, for offset 0. */
  datatype Server = Server(first: nat -> Option<Response>, second: Option<Response>)

  datatype Plan = Proceed(append: bool, existing: nat, expected: nat) | Again | Refuse(fault: Fault)

  /** The three files' state and the fault, None on success. */
  datatype Result = Result(part: Option<Bytes>, destination: Option<Bytes>, fault: Option<Fault>)

  /** One pass of the range loop. */
  function Examined(r: Response, existing: nat, last: bool): Plan {
    if r.status == 206 then
      if r.contentRange.None? then Refuse(Protocol)
      else
        var parsed := CR.Parse(r.contentRange.value);
        if parsed.None? then Refuse(Protocol)
        else if parsed.value.start != existing then (if last then Refuse(Protocol) else Again)
        else Proceed(existing > 0, existing, parsed.value.total)
    else if r.status != 200 then Refuse(Api)
    else Proceed(false, 0, 0)
  }

  /** Which response is read, and how. */
  function Chosen(server: Server, existing: nat): (Plan, Option<Response>) {
    var r := server.first(existing);
    if r.None? then (Refuse(Unsent), None)
    else if 300 <= r.value.status < 400 then (Refuse(Protocol), None)
    else if r.value.status >= 400 then (Refuse(Api), None)
    else
      var plan := Examined(r.value, existing, false);
      if plan != Again then (plan, r)
      else if server.second.None? then (Refuse(Unsent), None)
      else (Examined(server.second.value, 0, true), server.second)
  }

  /** None: the declared length cannot be read. */
  function Expected(r: Response, p: Plan): Option<nat>
    requires p.Proceed?
  {
    if p.expected != 0 then Some(p.expected)
    else if r.contentLength.None? then Some(p.existing)
    else
      var length := CR.Stoull(r.contentLength.value);
      if length.None? then None else Some((length.value + p.existing) % CR.LIMIT)
  }

  /** The file after the write loop: a failed write makes the stream ignore everything after it. */
  function Poured(sofar: Bytes, chunks: seq<Bytes>, room: Option<nat>): Bytes
    decreases |chunks|
  {
    if chunks == [] then sofar
    else if room.Some? && room.value < |chunks[0]| then sofar + chunks[0][..room.value]
    else Poured(sofar + chunks[0], chunks[1..], if room.Some? then Some(room.value - |chunks[0]|) else None)
  }

  function Removed(part: Bytes, d: Disk): Option<Bytes> {
    if d.removesPart then None else Some(part)
  }

  function Settled(u: Update, hash: Hash, part: Bytes, former: Option<Bytes>, d: Disk): Result {
    if !d.readable then Result(Removed(part, d), former, Some(Api))
    else if !Matches(u, hash, part) then Result(Removed(part, d), former, Some(Integrity))
    else if d.renames then Result(None, Some(part), None)
    else Result(Some(part), if d.removesOld then None else former, Some(Unmoved))
  }

  function Streamed(u: Update, hash: Hash, part: Option<Bytes>, former: Option<Bytes>, p: Plan, r: Response, d: Disk): Result
    requires p.Proceed? && (p.append ==> part.Some?)
  {
    var expected := Expected(r, p);
    if expected.None? then Result(part, former, Some(Protocol))
    else if !d.opens then Result(part, former, Some(Api))
    else
      var file := Poured(if p.append then part.value else [], r.chunks, d.room);
      var written := p.existing + |Concat(r.chunks)|;
      if r.ending != Eof then Result(Some(file), former, Some(Unread))
      else if expected.value > 0 && written != expected.value then Result(Removed(file, d), former, Some(Length))
      else Settled(u, hash, file, former, d)
  }

  function Size(part: Option<Bytes>): nat {
    if part.Some? then |part.value| else 0
  }

  function Downloaded(u: Update, hash: Hash, part: Option<Bytes>, former: Option<Bytes>, server: Server, d: Disk): Result {
    var chosen := Chosen(server, Size(part));
    match chosen.0
    case Refuse(fault) => Result(part, former, Some(fault))
    case Again => Result(part, former, Some(Protocol))
    case Proceed(_, _, _) => Streamed(u, hash, part, former, chosen.0, chosen.1.value, d)
  }

  class Downloader {
    const hash: Hash
    var part: Option<Bytes>
    var destination: Option<Bytes>

    constructor (hash: Hash, part: Option<Bytes>, destination: Option<Bytes>)
      ensures this.hash == hash && this.part == part && this.destination == destination
    {
      this.hash := hash;
      this.part := part;
      this.destination := destination;
    }

    /** The write loop. */
    method Pour(chunks: seq<Bytes>, room: Option<nat>) returns (read: nat)
      requires part.Some?
      modifies this`part
      ensures part == Some(Poured(old(part).value, chunks, room)) && read == |Concat(chunks)|
    {
      read := 0;
      var left: Option<nat> := room;
      var failed := false;
      assert chunks[0..] == chunks;
      for i := 0 to |chunks|
        invariant part.Some? && |Concat(chunks)| == read + |Concat(chunks[i..])|
        invariant Poured(old(part).value, chunks, room)
               == if failed then part.value else Poured(part.value, chunks[i..], left)
      {
        var chunk := chunks[i];
        assert chunks[i..][0] == chunk && chunks[i..][1..] == chunks[i + 1..];
        if !failed {
          if left.Some? && left.value < |chunk| {
            part := Some(part.value + chunk[..left.value]);
            failed := true;
          } else {
            part := Some(part.value + chunk);
            left := if left.Some? then Some(left.value - |chunk|) else None;
          }
        }
        read := read + |chunk|;
      }
    }

    /** The response to read: the range loop. */
    static method Choose(server: Server, size: nat) returns (plan: Plan, stream: Option<Response>)
      ensures plan == Chosen(server, size).0
      ensures plan.Proceed? ==> stream.Some? && stream == Chosen(server, size).1
    {
      hide CR.Parse;
      var existing := size;
      stream := server.first(existing);
      if stream.None? {
        return Refuse(Unsent), None;
      }
      if 300 <= stream.value.status < 400 {
        return Refuse(Protocol), None;
      }
      if stream.value.status >= 400 {
        return Refuse(Api), None;
      }
      for attempt := 0 to 2
        invariant stream.Some?
        invariant attempt == 0 ==> existing == size && stream == server.first(size)
        invariant attempt == 1 ==> existing == 0 && Chosen(server, size) == (Examined(stream.value, 0, true), stream)
        invariant attempt < 2
      {
        var r := stream.value;
        if r.status == 206 {
          if r.contentRange.None? {
            return Refuse(Protocol), None;
          }
          var parsed := CR.Parse(r.contentRange.value);
          if parsed.None? {
            return Refuse(Protocol), None;
          }
          if parsed.value.start != existing {
            if attempt != 0 {
              return Refuse(Protocol), None;
            }
            existing := 0;
            stream := server.second;
            if stream.None? {
              return Refuse(Unsent), None;
            }
            continue;
          }
          return Proceed(existing > 0, existing, parsed.value.total), stream;
        }
        if r.status != 200 {
          return Refuse(Api), None;
        }
        return Proceed(false, 0, 0), stream;
      }
    }

    method DownloadUpdate(u: Update, server: Server, d: Disk) returns (fault: Option<Fault>)
      modifies this`part, this`destination
      ensures Result(part, destination, fault) == Downloaded(u, hash, old(part), old(destination), server, d)
    {
      hide Poured, Matches, Chosen, Concat;
      var plan, stream := Choose(server, Size(part));
      ChosenAppends(server, part);
      if !plan.Proceed? {
        return Some(if plan.Refuse? then plan.fault else Protocol);
      }
      var r := stream.value;
      var existing, expected: nat := plan.existing, plan.expected;
      if expected == 0 {
        if r.contentLength.Some? {
          var length := CR.Stoull(r.contentLength.value);
          if length.None? {
            return Some(Protocol);
          }
          expected := (length.value + existing) % CR.LIMIT;
        } else {
          expected := existing;
        }
      }
      if !d.opens {
        return Some(Api);
      }
      if !plan.append {
        part := Some([]);
      }
      var read := Pour(r.chunks, d.room);
      var written := existing + read;
      if r.ending != Eof {
        return Some(Unread);
      }
      if expected > 0 && written != expected {
        part := Removed(part.value, d);
        return Some(Length);
      }
      if !d.readable {
        part := Removed(part.value, d);
        return Some(Api);
      }
      if !Matches(u, hash, part.value) {
        part := Removed(part.value, d);
        return Some(Integrity);
      }
      if d.removesOld {
        destination := None;
      }
      if !d.renames {
        return Some(Unmoved);
      }
      part, destination := None, part;
      return None;
    }
  }

  lemma ChosenAppends(server: Server, part: Option<Bytes>)
    ensures var c := Chosen(server, Size(part)); c.0.Proceed? ==> c.1.Some? && (c.0.append ==> part.Some?)
  {
    hide CR.Parse;
  }

  // ---- the destination ----

  /** Whatever the server sends and whatever fails: the destination is what it was, or gone because the
      final rename failed after verification, or bytes whose SHA-256 is the signed checksum of a manifest
      whose signature holds, read to the end of an answer with status 200 or 206. */
  lemma DestinationIsVerified(u: Update, hash: Hash, part: Option<Bytes>, former: Option<Bytes>, server: Server, d: Disk)
    ensures var r := Downloaded(u, hash, part, former, server, d);
            && (r.fault.Some? ==> r.destination == former
                                  || (r.destination.None? && r.fault == Some(Unmoved) && r.part.Some? && u.manifestValid
                                      && Lower(Hex.Text(hash(r.part.value))) == Lower(u.checksum)))
            && (r.fault.None? ==>
                  && r.part.None? && r.destination.Some? && u.manifestValid
                  && Lower(Hex.Text(hash(r.destination.value))) == Lower(u.checksum)
                  && d.opens && d.readable && d.renames
                  && exists a: Response :: (server.first(Size(part)) == Some(a) || server.second == Some(a))
                                           && (a.status == 200 || a.status == 206) && a.ending == Eof)
  {
    hide Poured, Expected, Lower, Hex.Text, CR.Parse;
    var c := Chosen(server, Size(part));
    if c.0.Proceed? {
      assert c.1 == server.first(Size(part)) || c.1 == server.second;
      assert c.1.value.status == 200 || c.1.value.status == 206;
    }
  }

  // ---- the offset ----

  /** How the bytes of the partial file came about. */
  predicate DeclaredAt(r: Response, offset: nat) {
    && r.status == 206 && r.contentRange.Some?
    && var parsed := CR.Parse(r.contentRange.value); parsed.Some? && parsed.value.start == offset
  }

  /** Whatever the server answers, a partial file is left alone, removed, written anew, or continued from
      exactly the offset that the response that is read declares, which is the file's own length. */
  lemma AppendsWhereDeclared(u: Update, hash: Hash, part: Option<Bytes>, former: Option<Bytes>, server: Server, d: Disk)
    ensures var r := Downloaded(u, hash, part, former, server, d);
            var read := Chosen(server, Size(part)).1;
            r.part.Some? && r.part != part ==>
              read.Some?
              && (r.part.value == Poured([], read.value.chunks, d.room)
                  || (part.Some? && DeclaredAt(read.value, |part.value|)
                      && r.part.value == Poured(part.value, read.value.chunks, d.room)))
  {
    hide Matches, Poured, Expected, CR.Parse;
  }

  /** The server may start where it likes, but says where: the body comes from the artifact at the
      declared offset, or from the start. */
  predicate Truthful(artifact: Bytes, r: Option<Response>) {
    r.Some? ==>
      && (r.value.status == 206 && r.value.contentRange.Some? ==>
            var parsed := CR.Parse(r.value.contentRange.value);
            parsed.Some? ==> parsed.value.start <= |artifact| && Concat(r.value.chunks) <= artifact[parsed.value.start..])
      && (r.value.status == 200 ==> Concat(r.value.chunks) <= artifact)
  }

  lemma {:induction false} PouredIsPrefix(sofar: Bytes, chunks: seq<Bytes>, room: Option<nat>, whole: Bytes)
    requires sofar + Concat(chunks) <= whole
    ensures Poured(sofar, chunks, room) <= whole
    decreases |chunks|
  {
    if chunks == [] {
      assert sofar + [] == sofar;
    } else {
      PrefixStep(sofar, chunks[0], Concat(chunks[1..]), whole);
      if room.Some? && room.value < |chunks[0]| {
        PrefixCut(sofar, chunks[0], whole, room.value);
      } else {
        PouredIsPrefix(sofar + chunks[0], chunks[1..],
                       if room.Some? then Some(room.value - |chunks[0]|) else None, whole);
      }
    }
  }

  lemma ChosenFits(server: Server, part: Option<Bytes>, artifact: Bytes)
    requires Prefix(part, artifact)
    requires Truthful(artifact, server.first(Size(part))) && Truthful(artifact, server.second)
    ensures var c := Chosen(server, Size(part));
            c.0.Proceed? ==> c.1.Some? && (c.0.append ==> part.Some?)
                             && (if c.0.append then part.value else []) + Concat(c.1.value.chunks) <= artifact
  {
    hide Concat, CR.Parse;
    var c := Chosen(server, Size(part));
    if c.0.Proceed? {
      var base := if c.0.append then part.value else [];
      assert artifact[0..] == artifact;
      PrefixAt(artifact, base, Concat(c.1.value.chunks));
    }
  }

  /** And the sizes it names, if any, are right; an answer without any that ends without an error is
      whole. */
  predicate Sized(artifact: Bytes, r: Option<Response>) {
    r.Some? && (r.value.status == 200 || r.value.status == 206) ==>
      var from := DeclaredStart(r.value);
      && (Total(r.value) != 0 ==> Total(r.value) == |artifact|)
      && (Total(r.value) == 0 && r.value.contentLength.Some? && CR.Stoull(r.value.contentLength.value).Some? ==>
            CR.Stoull(r.value.contentLength.value).value == |artifact| - from)
      && (Total(r.value) == 0 && r.value.contentLength.None? && r.value.ending == Eof ==>
            |Concat(r.value.chunks)| == |artifact| - from)
  }

  function DeclaredStart(r: Response): int {
    if r.status == 206 && r.contentRange.Some? && CR.Parse(r.contentRange.value).Some?
    then CR.Parse(r.contentRange.value).value.start else 0
  }

  /** The total that a partial response names, 0 when it names none. */
  function Total(r: Response): nat {
    if r.status == 206 && r.contentRange.Some? && CR.Parse(r.contentRange.value).Some?
    then CR.Parse(r.contentRange.value).value.total else 0
  }

  /** A disk with room for everything. */
  lemma {:induction false} PouredIsWhole(sofar: Bytes, chunks: seq<Bytes>)
    ensures Poured(sofar, chunks, None) == sofar + Concat(chunks)
    decreases |chunks|
  {
    if chunks == [] {
      assert sofar + [] == sofar;
    } else {
      PouredIsWhole(sofar + chunks[0], chunks[1..]);
      assert (sofar + chunks[0]) + Concat(chunks[1..]) == sofar + Concat(chunks);
    }
  }

  /** What the chosen response offers to be read. */
  lemma ChosenSizes(server: Server, part: Option<Bytes>, artifact: Bytes)
    requires Sized(artifact, server.first(Size(part))) && Sized(artifact, server.second)
    requires |artifact| < CR.LIMIT
    ensures var c := Chosen(server, Size(part));
            c.0.Proceed? ==>
              && c.1.Some? && (c.0.append ==> part.Some? && c.0.existing == |part.value|) && (!c.0.append ==> c.0.existing == 0)
              && Sized(artifact, c.1) && (c.1.value.status == 200 || c.1.value.status == 206)
              && DeclaredStart(c.1.value) == c.0.existing && Total(c.1.value) == c.0.expected
  {
    hide CR.Parse, Sized;
  }

  /** Eof, and as many bytes as were expected: the whole artifact. */
  lemma LengthDecides(artifact: Bytes, base: Bytes, p: Plan, r: Response)
    requires p.Proceed? && |base| == p.existing == DeclaredStart(r) && p.expected == Total(r) && |artifact| < CR.LIMIT
    requires Sized(artifact, Some(r)) && (r.status == 200 || r.status == 206)
    requires base + Concat(r.chunks) <= artifact && r.ending == Eof
    requires var e := Expected(r, p); e.Some? && (e.value > 0 ==> |base| + |Concat(r.chunks)| == e.value)
    ensures base + Concat(r.chunks) == artifact
  {
    hide CR.Stoull, Concat, Total, DeclaredStart;
    var file := base + Concat(r.chunks);
    if p.expected == 0 && r.contentLength.Some? {
      assert (|artifact| - p.existing + p.existing) % CR.LIMIT == |artifact|;
    }
    assert |file| == |artifact|;
    assert file == artifact[..|artifact|] == artifact;
  }

  /** With such a server, even one that picks another start than the one asked for, a partial file that
      is a prefix of the artifact stays one, whatever is cut or fails; and what a successful call leaves
      in the destination is a prefix that has the signed checksum. It is the artifact itself when no
      write failed silently and the sizes that the server names are right, or, whatever the disk did and
      the server named, when no shorter prefix has that checksum. */
  lemma PrefixIsKept(u: Update, hash: Hash, part: Option<Bytes>, former: Option<Bytes>, server: Server, d: Disk, artifact: Bytes)
    requires Prefix(part, artifact)
    requires Truthful(artifact, server.first(Size(part))) && Truthful(artifact, server.second)
    ensures var r := Downloaded(u, hash, part, former, server, d);
            && Prefix(r.part, artifact)
            && (r.fault.None? ==> r.destination.Some? && r.destination.value <= artifact
                                  && Lower(Hex.Text(hash(r.destination.value))) == Lower(u.checksum))
            && (r.fault.None? && d.room.None? && |artifact| < CR.LIMIT
                && Sized(artifact, server.first(Size(part))) && Sized(artifact, server.second) ==>
                  r.destination == Some(artifact))
            && (r.fault.None? && (forall file :: file < artifact ==> Lower(Hex.Text(hash(file))) != Lower(u.checksum)) ==>
                  r.destination == Some(artifact))
  {
    hide Lower, Hex.Text, Poured, Concat, Examined, Expected, Chosen, Sized, DeclaredStart, Total;
    ChosenFits(server, part, artifact);
    var c := Chosen(server, Size(part));
    if c.0.Proceed? {
      var base := if c.0.append then part.value else [];
      PouredIsPrefix(base, c.1.value.chunks, d.room, artifact);
      var r := Downloaded(u, hash, part, former, server, d);
      if r.fault.None? {
        assert r.destination.value == artifact || r.destination.value < artifact;
      }
      if r.fault.None? && d.room.None? && |artifact| < CR.LIMIT
         && Sized(artifact, server.first(Size(part))) && Sized(artifact, server.second)
      {
        PouredIsWhole(base, c.1.value.chunks);
        ChosenSizes(server, part, artifact);
        LengthDecides(artifact, base, c.0, c.1.value);
      }
    }
  }

  // ---- when a download can finish ----

  /** A server that answers every request fully, as sections 14.2 and 15.5.17 of RFC 9110 have it; named
      says whether Content-Range names the total, counted whether there is a Content-Length. */
  function Answer(artifact: Bytes, k: nat, named: bool, counted: bool): Option<Response> {
    if k == 0 then
      Some(Response(200, None, if counted then Some(Text.Decimal(|artifact|)) else None, [artifact], Eof))
    else if k < |artifact| then
      Some(Response(206, Some(CR.Print(k, |artifact| - 1, if named then Some(|artifact|) else None)),
                    if counted then Some(Text.Decimal(|artifact| - k)) else None, [artifact[k..]], Eof))
    else Some(Response(416, None, None, [], Eof))
  }

  function Ideal(artifact: Bytes, named: bool, counted: bool): Server {
    Server((k: nat) => Answer(artifact, k, named, counted), Answer(artifact, 0, named, counted))
  }

  const SOUND: Disk := Disk(true, None, true, true, true, true)

  lemma IdealChosen(artifact: Bytes, k: nat, named: bool, counted: bool)
    requires |artifact| < CR.LIMIT
    ensures var c := Chosen(Ideal(artifact, named, counted), k);
            if 0 < k && |artifact| <= k then c.0 == Refuse(Api)
            else c == (Proceed(k > 0, k, if k > 0 && named then |artifact| else 0), Answer(artifact, k, named, counted))
  {
    hide CR.Parse, CR.Print, Text.Decimal;
    if 0 < k < |artifact| {
      var total: Option<nat> := if named then Some(|artifact|) else None;
      CR.ParsePrint([], [], k, |artifact| - 1, total);
      assert [] + CR.Print(k, |artifact| - 1, total) + [] == CR.Print(k, |artifact| - 1, total);
    }
  }

  lemma IdealExpects(artifact: Bytes, k: nat, named: bool, counted: bool)
    requires |artifact| < CR.LIMIT && (k == 0 || k < |artifact|)
    ensures var p := Proceed(k > 0, k, if k > 0 && named then |artifact| else 0);
            Expected(Answer(artifact, k, named, counted).value, p)
            == Some(if counted || (k > 0 && named) then |artifact| else k)
  {
    hide CR.Stoull, CR.Print, Text.Decimal;
    CR.StoullDecimal(|artifact| - k);
    assert (|artifact| - k + k) % CR.LIMIT == |artifact|;
  }

  lemma OneChunk(base: Bytes, chunk: Bytes)
    ensures Poured(base, [chunk], None) == base + chunk && Concat([chunk]) == chunk
  {
    assert [chunk][1..] == [];
    assert Poured(base + chunk, [], None) == base + chunk;
    assert Concat([chunk]) == chunk + Concat([]);
  }

  /** Over such a server and a sound disk, for every partial file, update and artifact of a 64-bit size. A
      call is stuck if and only if the partial file is at least as long as the artifact and not empty,
      whatever its bytes: it is refused and leaves everything as it was, so every later call meets the
      same state. A call that continues a shorter one from an answer without any size always ends in a
      length fault and removes the partial file. Otherwise the partial file, continued by the rest of the
      artifact, is decided by the checksum alone. */
  lemma OutcomeIsDecided(u: Update, hash: Hash, artifact: Bytes, part: Option<Bytes>, former: Option<Bytes>,
                         named: bool, counted: bool)
    requires |artifact| < CR.LIMIT
    ensures var k := if part.Some? then |part.value| else 0;
            var r := Downloaded(u, hash, part, former, Ideal(artifact, named, counted), SOUND);
            if 0 < k && |artifact| <= k then r == Result(part, former, Some(Api))
            else if 0 < k && !named && !counted then r == Result(None, former, Some(Length))
            else
              var file := (if k > 0 then part.value else []) + artifact[k..];
              r == if Lower(Hex.Text(hash(file))) == Lower(u.checksum) && u.manifestValid then Result(None, Some(file), None)
                   else Result(None, former, Some(Integrity))
  {
    hide Lower, Hex.Text, Chosen, Poured, Expected, Concat, Ideal, CR.Print, Text.Decimal;
    var k := Size(part);
    IdealChosen(artifact, k, named, counted);
    if k == 0 || k < |artifact| {
      IdealExpects(artifact, k, named, counted);
      assert artifact[0..] == artifact;
      OneChunk(if k > 0 then part.value else [], artifact[k..]);
      assert |artifact[k..]| == |artifact| - k;
    }
  }

  /** An answer that starts elsewhere than asked costs nothing but a second request, for the whole artifact:
      the partial file is written anew, whatever it was. */
  lemma MisplacedStartsOver(u: Update, hash: Hash, artifact: Bytes, part: Option<Bytes>, former: Option<Bytes>,
                            server: Server, counted: bool)
    requires |artifact| < CR.LIMIT && server.second == Answer(artifact, 0, false, counted)
    requires var k := if part.Some? then |part.value| else 0;
             var r := server.first(k);
             && r.Some? && r.value.status == 206 && r.value.contentRange.Some?
             && CR.Parse(r.value.contentRange.value).Some? && CR.Parse(r.value.contentRange.value).value.start != k
    ensures Downloaded(u, hash, part, former, server, SOUND)
            == if Lower(Hex.Text(hash(artifact))) == Lower(u.checksum) && u.manifestValid
               then Result(None, Some(artifact), None) else Result(None, former, Some(Integrity))
  {
    hide Lower, Hex.Text, Poured, Expected, Concat, CR.Parse, CR.Print, Text.Decimal;
    IdealExpects(artifact, 0, false, counted);
    OneChunk([], artifact);
    assert [] + artifact == artifact;
    assert artifact[0..] == artifact;
  }

  /** In terms of success: the exact condition on the partial file. */
  lemma FinishesExactlyWhen(u: Update, hash: Hash, artifact: Bytes, part: Option<Bytes>, former: Option<Bytes>,
                            named: bool, counted: bool)
    requires |artifact| < CR.LIMIT
    ensures var k := if part.Some? then |part.value| else 0;
            var r := Downloaded(u, hash, part, former, Ideal(artifact, named, counted), SOUND);
            && (r.fault.None? <==>
                  u.manifestValid
                  && ((k == 0 && Lower(Hex.Text(hash(artifact))) == Lower(u.checksum))
                      || (0 < k < |artifact| && (named || counted)
                          && Lower(Hex.Text(hash(part.value + artifact[k..]))) == Lower(u.checksum))))
            && (Prefix(part, artifact) && r.fault.None? ==> r.destination == Some(artifact))
  {
    hide Lower, Hex.Text, Downloaded, Ideal;
    OutcomeIsDecided(u, hash, artifact, part, former, named, counted);
    assert [] + artifact[0..] == artifact;
    if part.Some? && part.value <= artifact {
      assert part.value + artifact[|part.value|..] == artifact;
    }
  }

  /** The size-less answer: one byte is there, the other one comes, and both are thrown away. */
  lemma SizelessResumeFails(u: Update, hash: Hash, former: Option<Bytes>, first: Byte, second: Byte)
    ensures Downloaded(u, hash, Some([first]), former, Ideal([first, second], false, false), SOUND)
            == Result(None, former, Some(Length))
  {
    hide Downloaded, Ideal, Matches;
    OutcomeIsDecided(u, hash, [first, second], Some([first]), former, false, false);
  }
}
