/** The line reader over a chunked response, and the server-sent events read from its lines. */
module Sse {
  import opened Basics
  import opened Text
  import opened Trim
  import SseFields
  import Transfer

  const RETURN: Byte := 13
  const LIMIT: nat := 256 * 1024
  const READ: nat := 32 * 1024

  datatype TooLong = TooLong

  // ---- lines ----

  function WithoutReturn(line: Bytes): Bytes {
    if line != [] && line[|line| - 1] == RETURN then line[..|line| - 1] else line
  }

  /** The next line of a text and what follows it; an unterminated last line keeps its carriage return. */
  function NextLine(t: Bytes): (r: Option<(Bytes, Bytes)>)
    ensures r.None? <==> t == []
    ensures r.Some? ==> |r.value.1| < |t|
  {
    if t == [] then None
    else
      var end := Find(t, NEWLINE, 0);
      if end.None? then Some((t, [])) else Some((WithoutReturn(t[..end.value]), t[end.value + 1..]))
  }

  function Lines(t: Bytes): seq<Bytes>
    decreases |t|
  {
    var next := NextLine(t);
    if next.None? then [] else [next.value.0] + Lines(next.value.1)
  }

  /** The next line takes at most so many bytes with its terminator, or fewer without one. */
  predicate HeadFits(t: Bytes, width: nat) {
    |t| < width || NEWLINE in t[..width]
  }

  /** And so does every later line. */
  predicate Fits(t: Bytes, width: nat)
    decreases |t|
  {
    var next := NextLine(t);
    next.Some? ==> HeadFits(t, width) && Fits(next.value.1, width)
  }

  lemma FitsStep(t: Bytes, width: nat)
    ensures Fits(t, width) <==> (NextLine(t).Some? ==> HeadFits(t, width) && Fits(NextLine(t).value.1, width))
  {
    hide NextLine, HeadFits;
  }

  /** Lines that never raise the size error, and lines that always do: 224 and 256 KiB. */
  const SAFE: nat := 224 * 1024 + 1
  const FULL: nat := 256 * 1024 + 1

  /** SseReader: incoming is what the connection will still deliver, one read at a time. */
  class Reader {
    var pending: Bytes
    var incoming: seq<Bytes>

    ghost predicate Valid()
      reads this
    {
      |pending| <= LIMIT && forall i :: 0 <= i < |incoming| ==> 0 < |incoming[i]| <= READ
    }

    /** Everything not yet handed out. */
    ghost function Remaining(): Bytes
      reads this
    {
      pending + Transfer.Concat(incoming)
    }

    constructor (incoming: seq<Bytes>)
      requires forall i :: 0 <= i < |incoming| ==> 0 < |incoming[i]| <= READ
      ensures Valid() && Remaining() == Transfer.Concat(incoming)
    {
      this.pending := [];
      this.incoming := incoming;
    }

    /** However the stream is cut, the line is the next one of everything that remains. The size error
        needs a line of more than 224 KiB and cannot be avoided by one of more than 256 KiB. */
    method ReadLine() returns (line: Result<Option<Bytes>, TooLong>)
      requires Valid()
      modifies this
      ensures line.Ok? ==> Valid()
      ensures line == Ok(None) ==> old(Remaining()) == [] && Remaining() == []
      ensures line.Ok? && line.value.Some? ==> NextLine(old(Remaining())) == Some((line.value.value, Remaining()))
      ensures line.Err? ==> |old(Remaining())| > LIMIT && !HeadFits(old(Remaining()), SAFE)
      ensures line.Ok? ==> HeadFits(old(Remaining()), FULL)
    {
      hide Find, Transfer.Concat, WithoutReturn;
      while true
        invariant Valid() && Remaining() == old(Remaining())
        decreases |incoming|
      {
        var end := Find(pending, NEWLINE, 0);
        if end.Some? {
          var text := pending[..end.value];
          TakesLine(pending, Transfer.Concat(incoming), end.value);
          pending := pending[end.value + 1..];
          return Ok(Some(WithoutReturn(text)));
        }
        if incoming == [] {
          Nothing();
          assert pending + [] == pending;
          if pending == [] {
            return Ok(None);
          }
          var last := pending;
          pending := [];
          assert [] + Transfer.Concat(incoming) == [];
          return Ok(Some(last));
        }
        ReadNext(pending, incoming);
        ghost var before := pending;
        pending, incoming := pending + incoming[0], incoming[1..];
        if |pending| > LIMIT {
          assert before <= old(Remaining()) && |before| >= LIMIT - READ + 1;
          return Err(TooLong.TooLong);
        }
      }
    }
  }

  lemma Nothing()
    ensures Transfer.Concat([]) == []
  {
  }

  lemma ReadNext(pending: Bytes, chunks: seq<Bytes>)
    requires chunks != []
    ensures pending + Transfer.Concat(chunks) == (pending + chunks[0]) + Transfer.Concat(chunks[1..])
  {
  }

  lemma TakesLine(pending: Bytes, later: Bytes, end: nat)
    requires Find(pending, NEWLINE, 0) == Some(end)
    ensures NextLine(pending + later) == Some((WithoutReturn(pending[..end]), pending[end + 1..] + later))
    ensures NEWLINE in (pending + later)[..end + 1]
  {
    hide Find, WithoutReturn;
    var t := pending + later;
    assert t[end] == pending[end];
    assert forall i :: 0 <= i < end ==> t[i] == pending[i];
    assert t[..end] == pending[..end] && t[end + 1..] == pending[end + 1..] + later;
    assert (t[..end + 1])[end] == NEWLINE;
  }

  /** All parts but the last, stripped, and the last one if there is anything in it. */
  function Stripped(parts: seq<Bytes>): seq<Bytes>
    requires parts != []
  {
    var n := |parts| - 1;
    seq(n, i requires 0 <= i < n => WithoutReturn(parts[i])) + (if parts[n] == [] then [] else [parts[n]])
  }

  lemma StrippedCons(first: Bytes, parts: seq<Bytes>)
    requires parts != []
    ensures Stripped([first] + parts) == [WithoutReturn(first)] + Stripped(parts)
  {
    hide WithoutReturn;
    var n, all := |parts| - 1, [first] + parts;
    var strip := seq(n, i requires 0 <= i < n => WithoutReturn(parts[i]));
    assert all[n + 1] == parts[n];
    assert seq(n + 1, i requires 0 <= i < n + 1 => WithoutReturn(all[i])) == [WithoutReturn(first)] + strip;
  }

  /** The terminated parts of the newline split, each without its carriage return, and the last part if
      there is anything in it. */
  lemma {:induction false} LinesAreSplit(t: Bytes)
    ensures Lines(t) == Stripped(Split(t, NEWLINE))
    decreases |t|
  {
    hide Find, Split, WithoutReturn, Lines, Stripped;
    LinesStep(t);
    var end := Find(t, NEWLINE, 0);
    if end.None? {
      LastLine(t);
    } else {
      var first, rest := t[..end.value], t[end.value + 1..];
      assert t == first + [NEWLINE] + rest;
      SplitFirst(first, NEWLINE, rest);
      LinesAreSplit(rest);
      StrippedCons(first, Split(rest, NEWLINE));
    }
  }

  lemma LastLine(t: Bytes)
    requires Find(t, NEWLINE, 0).None?
    ensures Lines(t) == Stripped(Split(t, NEWLINE))
  {
    hide Find, Split;
    assert NEWLINE !in t;
    SplitWhole(t, NEWLINE);
    if t != [] {
      assert NextLine(t) == Some((t, [])) && Lines([]) == [];
    }
  }

  lemma LinesStep(t: Bytes)
    ensures Lines(t) == if NextLine(t).None? then [] else [NextLine(t).value.0] + Lines(NextLine(t).value.1)
  {
    hide NextLine;
  }

  /** Reading on until the stream ends: however it was cut, the lines of everything delivered. */
  method ReadLines(reader: Reader) returns (lines: Result<seq<Bytes>, TooLong>)
    requires reader.Valid()
    modifies reader
    ensures lines.Ok? ==> lines.value == Lines(old(reader.Remaining())) && reader.Remaining() == []
    ensures lines.Err? ==> |old(reader.Remaining())| > LIMIT
    ensures Fits(old(reader.Remaining()), SAFE) ==> lines.Ok?
    ensures lines.Ok? ==> Fits(old(reader.Remaining()), FULL)
  {
    hide NextLine, Lines, Transfer.Concat, Fits, HeadFits;
    var sofar: seq<Bytes> := [];
    assert [] + Lines(reader.Remaining()) == Lines(reader.Remaining());
    while true
      invariant reader.Valid() && |reader.Remaining()| <= |old(reader.Remaining())|
      invariant Lines(old(reader.Remaining())) == sofar + Lines(reader.Remaining())
      invariant Fits(old(reader.Remaining()), SAFE) ==> Fits(reader.Remaining(), SAFE)
      invariant Fits(reader.Remaining(), FULL) ==> Fits(old(reader.Remaining()), FULL)
      decreases |reader.Remaining()|
    {
      LinesStep(reader.Remaining());
      FitsStep(reader.Remaining(), SAFE);
      FitsStep(reader.Remaining(), FULL);
      ghost var before := reader.Remaining();
      var line := reader.ReadLine();
      if line.Err? {
        return Err(line.error);
      }
      if line.value.None? {
        NoLine();
        FitsStep([], FULL);
        return Ok(sofar);
      }
      assert sofar + ([line.value.value] + Lines(reader.Remaining())) == (sofar + [line.value.value]) + Lines(reader.Remaining());
      sofar := sofar + [line.value.value];
    }
  }

  lemma NoLine()
    ensures NextLine([]) == None && Lines([]) == []
  {
  }

  // ---- events ----

  datatype Event = Event(name: Bytes, id: Bytes, data: Bytes)

  const BLANK: Event := Event([], [], [])

  /** One non-blank line. */
  function Fed(e: Event, line: Bytes): Event {
    if Starts(line, ":") then e
    else if Starts(line, "event:") then e.(name := Trimmed(line[6..]))
    else if Starts(line, "id:") then e.(id := Trimmed(line[3..]))
    else if Starts(line, "data:") then
      e.(data := e.data + (if e.data == [] then [] else [NEWLINE]) + Trimmed(line[5..]))
    else e
  }

  /** next_sse on a text: the event, if any, and what is left. */
  function NextEvent(t: Bytes, e: Event): (r: (Option<Event>, Bytes))
    ensures |r.1| <= |t|
    decreases |t|
  {
    var next := NextLine(t);
    if next.None? then (if e.data == [] then None else Some(e), [])
    else
      var line, rest := next.value.0, next.value.1;
      if line == [] then (if e.data != [] then (Some(e), rest) else NextEvent(rest, BLANK))
      else NextEvent(rest, Fed(e, line))
  }

  method NextSse(reader: Reader) returns (event: Result<Option<Event>, TooLong>)
    requires reader.Valid()
    modifies reader
    ensures event.Ok? ==> reader.Valid() && (event.value, reader.Remaining()) == NextEvent(old(reader.Remaining()), BLANK)
    ensures event.Err? ==> |old(reader.Remaining())| > LIMIT
    ensures Fits(old(reader.Remaining()), SAFE) ==> event.Ok? && Fits(reader.Remaining(), SAFE)
    ensures event.Ok? && Fits(reader.Remaining(), FULL) ==> Fits(old(reader.Remaining()), FULL)
  {
    hide NextLine, Fed, Transfer.Concat, Fits, HeadFits;
    var name, id, data := [], [], [];
    while true
      invariant reader.Valid() && |reader.Remaining()| <= |old(reader.Remaining())|
      invariant NextEvent(old(reader.Remaining()), BLANK) == NextEvent(reader.Remaining(), Event(name, id, data))
      invariant Fits(old(reader.Remaining()), SAFE) ==> Fits(reader.Remaining(), SAFE)
      invariant Fits(reader.Remaining(), FULL) ==> Fits(old(reader.Remaining()), FULL)
      decreases |reader.Remaining()|
    {
      FitsStep(reader.Remaining(), SAFE);
      FitsStep(reader.Remaining(), FULL);
      var line := reader.ReadLine();
      if line.Err? {
        return Err(line.error);
      }
      if line.value.None? {
        NoLine();
        FitsStep([], SAFE);
        return Ok(if data == [] then None else Some(Event(name, id, data)));
      }
      var text := line.value.value;
      if text == [] {
        if data != [] {
          return Ok(Some(Event(name, id, data)));
        }
        name, id := [], [];
        continue;
      }
      name, id, data := Feed(name, id, data, text);
    }
  }

  /** The branches of next_sse on a non-blank line. */
  method Feed(name: Bytes, id: Bytes, data: Bytes, line: Bytes) returns (name': Bytes, id': Bytes, data': Bytes)
    ensures Event(name', id', data') == Fed(Event(name, id, data), line)
  {
    hide Lit, Trimmed;
    name', id', data' := name, id, data;
    if Starts(line, ":") {
    } else if Starts(line, "event:") {
      name' := TrimAscii(line[6..]);
    } else if Starts(line, "id:") {
      id' := TrimAscii(line[3..]);
    } else if Starts(line, "data:") {
      if data' != [] {
        data' := data' + [NEWLINE];
      }
      var value := TrimAscii(line[5..]);
      data' := data' + value;
    }
  }

  // ---- any text ----

  /** What is left after so many lines. */
  function AfterLines(t: Bytes, n: nat): Bytes
    decreases n
  {
    if n == 0 then t
    else
      var next := NextLine(t);
      if next.None? then [] else AfterLines(next.value.1, n - 1)
  }

  lemma {:induction false} LineAt(t: Bytes, n: nat)
    requires n <= |Lines(t)|
    ensures Lines(AfterLines(t, n)) == Lines(t)[n..]
    ensures n < |Lines(t)| ==> NextLine(AfterLines(t, n)) == Some((Lines(t)[n], AfterLines(t, n + 1)))
    ensures n == |Lines(t)| ==> AfterLines(t, n) == []
    decreases n
  {
    hide NextLine;
    var next := NextLine(t);
    if n > 0 {
      LineAt(next.value.1, n - 1);
    } else if next.Some? {
      assert AfterLines(next.value.1, 0) == next.value.1;
    }
  }

  /** The fields that given lines are. */
  function BlockOf(lines: seq<Bytes>): SseFields.Block {
    seq(|lines|, i requires 0 <= i < |lines| => SseFields.FieldOf(lines[i]))
  }

  /** Data lines without the empty ones before all others. */
  function Dropped(values: seq<Bytes>): seq<Bytes> {
    if values != [] && values[0] == [] then Dropped(values[1..]) else values
  }

  function EventOf(b: SseFields.Block): Event {
    Event(SseFields.NameOf(Trimmed, b), SseFields.IdOf(Trimmed, b), Join(Dropped(SseFields.DataOf(Trimmed, b)), NEWLINE))
  }

  lemma {:induction false} DroppedMore(values: seq<Bytes>, v: Bytes)
    ensures Dropped(values + [v]) == if Dropped(values) != [] then Dropped(values) + [v] else if v == [] then [] else [v]
    ensures Dropped(values) != [] ==> Dropped(values)[0] != []
  {
    if values == [] {
      assert values + [v] == [v] && [v][1..] == [];
    } else if values[0] == [] {
      assert (values + [v])[1..] == values[1..] + [v];
      DroppedMore(values[1..], v);
    }
  }

  lemma JoinStarts(values: seq<Bytes>)
    ensures Join(values, NEWLINE) == [] <==> values == [] || values == [[]]
  {
  }

  lemma DataFed(values: seq<Bytes>, v: Bytes)
    ensures var data := Join(Dropped(values), NEWLINE);
            Join(Dropped(values + [v]), NEWLINE) == data + (if data == [] then [] else [NEWLINE]) + v
  {
    hide Join, Dropped;
    DroppedMore(values, v);
    JoinStarts(Dropped(values));
    JoinOne(v, NEWLINE);
    JoinStarts([]);
    if Dropped(values) != [] {
      JoinConcat(Dropped(values), [v], NEWLINE);
    }
  }

  lemma LineFed(b: SseFields.Block, line: Bytes)
    ensures Fed(EventOf(b), line) == EventOf(b + [SseFields.FieldOf(line)])
  {
    hide Trimmed, Join, Dropped, Lit;
    var more := b + [SseFields.FieldOf(line)];
    assert more[..|more| - 1] == b;
    ColonIsOther(line);
    if SseFields.FieldOf(line).DataLine? {
      DataFed(SseFields.DataOf(Trimmed, b), Trimmed(line[5..]));
    } else {
      assert SseFields.DataOf(Trimmed, b) + [] == SseFields.DataOf(Trimmed, b);
    }
  }

  lemma ColonIsOther(line: Bytes)
    ensures Starts(line, ":") ==> SseFields.FieldOf(line) == SseFields.OtherLine(line)
  {
    if Starts(line, ":") {
      assert line[0] == Lit(":")[0] == ':' as int;
      OtherStart(line, "event:");
      OtherStart(line, "id:");
      OtherStart(line, "data:");
    }
  }

  lemma {:induction false} LinesFed(t: Bytes, n: nat)
    requires n <= |Lines(t)| && forall i :: 0 <= i < n ==> Lines(t)[i] != []
    ensures NextEvent(t, BLANK) == NextEvent(AfterLines(t, n), EventOf(BlockOf(Lines(t)[..n])))
    decreases n
  {
    hide NextLine, Lines, Fed, EventOf, SseFields.FieldOf;
    if n == 0 {
      NothingFed();
    } else {
      LinesFed(t, n - 1);
      LineAt(t, n - 1);
      LineFed(BlockOf(Lines(t)[..n - 1]), Lines(t)[n - 1]);
      assert BlockOf(Lines(t)[..n]) == BlockOf(Lines(t)[..n - 1]) + [SseFields.FieldOf(Lines(t)[n - 1])];
    }
  }

  lemma NothingFed()
    ensures EventOf(BlockOf([])) == BLANK
  {
    JoinStarts([]);
  }

  /** Any text, up to its first blank line or its end: what is read is the last name, the last id, and the
      data lines joined, without the empty ones before all others; everything else is ignored, and a block
      without such data is skipped. */
  lemma NextIsFirstBlock(t: Bytes, n: nat)
    requires n <= |Lines(t)| && (forall i :: 0 <= i < n ==> Lines(t)[i] != []) && (n < |Lines(t)| ==> Lines(t)[n] == [])
    ensures var b := BlockOf(Lines(t)[..n]);
            var data := Dropped(SseFields.DataOf(Trimmed, b));
            var event := Event(SseFields.NameOf(Trimmed, b), SseFields.IdOf(Trimmed, b), Join(data, NEWLINE));
            NextEvent(t, BLANK) == if n == |Lines(t)| then (if data == [] then None else Some(event), [])
                                   else if data == [] then NextEvent(AfterLines(t, n + 1), BLANK)
                                   else (Some(event), AfterLines(t, n + 1))
    ensures n < |Lines(t)| ==> Lines(AfterLines(t, n + 1)) == Lines(t)[n + 1..]
  {
    hide NextLine, Lines, Fed, AfterLines, BlockOf, Join, Dropped, Trimmed;
    LinesFed(t, n);
    LineAt(t, n);
    if n < |Lines(t)| {
      LineAt(t, n + 1);
    } else {
      NoLine();
    }
    var data := Dropped(SseFields.DataOf(Trimmed, BlockOf(Lines(t)[..n])));
    DroppedMore(SseFields.DataOf(Trimmed, BlockOf(Lines(t)[..n])), []);
    JoinStarts(data);
  }

  // ---- printed events ----

  /** A printed field: blanks around the value, and either line ending. */
  datatype Field = Field(pre: Bytes, value: Bytes, post: Bytes, crlf: bool)

  predicate FieldOk(f: Field) {
    && AllSpace(f.pre) && AllSpace(f.post) && Tight(f.value)
    && NEWLINE !in f.pre && NEWLINE !in f.value && NEWLINE !in f.post
  }

  /** An event as a server prints it. */
  datatype Printed = Printed(name: Field, id: Field, data: seq<Field>, crlf: bool)

  predicate PrintedOk(p: Printed) {
    FieldOk(p.name) && FieldOk(p.id) && p.data != [] && forall i :: 0 <= i < |p.data| ==> FieldOk(p.data[i])
  }

  function EndOfLine(crlf: bool): Bytes {
    if crlf then [RETURN, NEWLINE] else [NEWLINE]
  }

  function Line(prefix: string, f: Field): Bytes {
    Lit(prefix) + f.pre + f.value + f.post + EndOfLine(f.crlf)
  }

  function DataLines(data: seq<Field>): Bytes {
    if data == [] then [] else Line("data:", data[0]) + DataLines(data[1..])
  }

  function Print(p: Printed): Bytes {
    Line("event:", p.name) + Line("id:", p.id) + DataLines(p.data) + EndOfLine(p.crlf)
  }

  function Values(data: seq<Field>): seq<Bytes> {
    seq(|data|, i requires 0 <= i < |data| => data[i].value)
  }

  /** What next_sse accumulates from the data lines. */
  function Gathered(sofar: Bytes, values: seq<Bytes>): Bytes
    decreases |values|
  {
    if values == [] then sofar
    else Gathered(sofar + (if sofar == [] then [] else [NEWLINE]) + values[0], values[1..])
  }

  lemma TrimmedWithoutReturn(s: Bytes)
    ensures Trimmed(WithoutReturn(s)) == Trimmed(s)
  {
    hide Trimmed;
    var t := WithoutReturn(s);
    if t != s {
      assert s == t + [RETURN];
      TrimmedTail(t, [RETURN]);
    }
  }

  /** A field's name: letters and a colon. */
  predicate NameOk(prefix: Bytes) {
    prefix != [] && prefix[|prefix| - 1] == ':' as int && NEWLINE !in prefix
  }

  lemma NamesOk()
    ensures NameOk(Lit("event:")) && NameOk(Lit("id:")) && NameOk(Lit("data:"))
  {
  }

  /** The line a printed field is read back as. */
  lemma FieldLine(prefix: string, f: Field, rest: Bytes) returns (core: Bytes)
    requires FieldOk(f) && NameOk(Lit(prefix))
    ensures Trimmed(core) == f.value
    ensures NextLine(Line(prefix, f) + rest) == Some((Lit(prefix) + core, rest))
  {
    hide Lit, Find, Trimmed;
    var inner := f.pre + f.value + f.post + (if f.crlf then [RETURN] else []);
    var body := Lit(prefix) + inner;
    core := WithoutReturn(inner);
    assert Line(prefix, f) + rest == body + [NEWLINE] + rest;
    assert NEWLINE !in body[0..];
    FindFirst(body, NEWLINE, rest, 0);
    assert (body + [NEWLINE] + rest)[..|body|] == body;
    assert (body + [NEWLINE] + rest)[|body| + 1..] == rest;
    WithoutReturnAfter(Lit(prefix), inner);
    TrimmedWithoutReturn(inner);
    if f.crlf {
      TrimmedTail(f.pre + f.value + f.post, [RETURN]);
    } else {
      assert inner == f.pre + f.value + f.post;
    }
    TrimmedPadded(f.pre, f.value, f.post);
  }

  lemma WithoutReturnAfter(name: Bytes, inner: Bytes)
    requires NameOk(name)
    ensures WithoutReturn(name + inner) == name + WithoutReturn(inner)
  {
    if inner != [] && inner[|inner| - 1] == RETURN {
      assert (name + inner)[..|name + inner| - 1] == name + inner[..|inner| - 1];
    }
  }

  lemma FedField(e: Event, core: Bytes)
    ensures Fed(e, Lit("event:") + core) == e.(name := Trimmed(core))
    ensures Fed(e, Lit("id:") + core) == e.(id := Trimmed(core))
    ensures Fed(e, Lit("data:") + core)
            == e.(data := e.data + (if e.data == [] then [] else [NEWLINE]) + Trimmed(core))
  {
    hide Trimmed;
    var event, id, data := Lit("event:") + core, Lit("id:") + core, Lit("data:") + core;
    assert event[6..] == core && id[3..] == core && data[5..] == core;
    assert event[0] == 'e' as int && id[0] == 'i' as int && data[0] == 'd' as int;
    OtherStart(event, ":");
    OtherStart(id, ":");
    OtherStart(id, "event:");
    OtherStart(data, ":");
    OtherStart(data, "event:");
    OtherStart(data, "id:");
  }

  lemma OtherStart(line: Bytes, prefix: string)
    requires line != [] && |prefix| > 0 && line[0] != prefix[0] as int % 256
    ensures !Starts(line, prefix)
  {
  }

  lemma NextIsFed(prefix: string, f: Field, rest: Bytes, e: Event)
    requires FieldOk(f) && NameOk(Lit(prefix))
    ensures exists core :: Trimmed(core) == f.value
                           && NextEvent(Line(prefix, f) + rest, e) == NextEvent(rest, Fed(e, Lit(prefix) + core))
  {
    hide NextLine, Fed, Trimmed, FieldOk, Line;
    var core := FieldLine(prefix, f, rest);
  }

  lemma NameIsRead(f: Field, rest: Bytes, e: Event)
    requires FieldOk(f)
    ensures NextEvent(Line("event:", f) + rest, e) == NextEvent(rest, e.(name := f.value))
  {
    hide NextEvent, Fed, Trimmed, FieldOk, Line, NameOk, Lit;
    NamesOk();
    NextIsFed("event:", f, rest, e);
    var core :| Trimmed(core) == f.value
                && NextEvent(Line("event:", f) + rest, e) == NextEvent(rest, Fed(e, Lit("event:") + core));
    FedField(e, core);
  }

  lemma IdIsRead(f: Field, rest: Bytes, e: Event)
    requires FieldOk(f)
    ensures NextEvent(Line("id:", f) + rest, e) == NextEvent(rest, e.(id := f.value))
  {
    hide NextEvent, Fed, Trimmed, FieldOk, Line, NameOk, Lit;
    NamesOk();
    NextIsFed("id:", f, rest, e);
    var core :| Trimmed(core) == f.value
                && NextEvent(Line("id:", f) + rest, e) == NextEvent(rest, Fed(e, Lit("id:") + core));
    FedField(e, core);
  }

  lemma DataIsRead(f: Field, rest: Bytes, e: Event)
    requires FieldOk(f)
    ensures NextEvent(Line("data:", f) + rest, e)
            == NextEvent(rest, e.(data := e.data + (if e.data == [] then [] else [NEWLINE]) + f.value))
  {
    hide NextEvent, Fed, Trimmed, FieldOk, Line, NameOk, Lit;
    NamesOk();
    NextIsFed("data:", f, rest, e);
    var core :| Trimmed(core) == f.value
                && NextEvent(Line("data:", f) + rest, e) == NextEvent(rest, Fed(e, Lit("data:") + core));
    FedField(e, core);
  }

  lemma {:induction false} DataLinesRead(data: seq<Field>, rest: Bytes, e: Event)
    requires forall i :: 0 <= i < |data| ==> FieldOk(data[i])
    ensures NextEvent(DataLines(data) + rest, e) == NextEvent(rest, e.(data := Gathered(e.data, Values(data))))
    decreases |data|
  {
    hide NextEvent, FieldOk, Line;
    if data == [] {
      assert [] + rest == rest;
    } else {
      var more := DataLines(data[1..]) + rest;
      assert DataLines(data) + rest == Line("data:", data[0]) + more;
      DataIsRead(data[0], more, e);
      DataLinesRead(data[1..], rest, e.(data := e.data + (if e.data == [] then [] else [NEWLINE]) + data[0].value));
      assert Values(data)[1..] == Values(data[1..]);
    }
  }

  /** An event without its closing blank line. */
  function Open(p: Printed): Bytes {
    Line("event:", p.name) + Line("id:", p.id) + DataLines(p.data)
  }

  lemma OpenIsRead(p: Printed, rest: Bytes)
    requires PrintedOk(p)
    ensures NextEvent(Open(p) + rest, BLANK)
            == NextEvent(rest, Event(p.name.value, p.id.value, Gathered([], Values(p.data))))
  {
    hide NextEvent, FieldOk, Line, DataLines, Gathered, Values;
    var lines := DataLines(p.data) + rest;
    assert Open(p) + rest == Line("event:", p.name) + (Line("id:", p.id) + lines);
    NameIsRead(p.name, Line("id:", p.id) + lines, BLANK);
    IdIsRead(p.id, lines, BLANK.(name := p.name.value));
    DataLinesRead(p.data, rest, Event(p.name.value, p.id.value, []));
  }

  lemma BlankLine(crlf: bool, rest: Bytes)
    ensures NextLine(EndOfLine(crlf) + rest) == Some(([], rest))
  {
    var head := if crlf then [RETURN] else [];
    assert EndOfLine(crlf) + rest == head + [NEWLINE] + rest;
    FindFirst(head, NEWLINE, rest, 0);
    assert (head + [NEWLINE] + rest)[..|head|] == head;
    assert (head + [NEWLINE] + rest)[|head| + 1..] == rest;
  }

  lemma {:induction false} GatheredMore(sofar: Bytes, values: seq<Bytes>)
    requires sofar != []
    ensures Gathered(sofar, values) == if values == [] then sofar else sofar + [NEWLINE] + Join(values, NEWLINE)
    decreases |values|
  {
    if values == [] {
    } else {
      GatheredMore(sofar + [NEWLINE] + values[0], values[1..]);
      if |values| > 1 {
        assert Join(values, NEWLINE) == values[0] + [NEWLINE] + Join(values[1..], NEWLINE);
      }
    }
  }

  lemma {:induction false} GatheredWithin(values: seq<Bytes>)
    ensures |Gathered([], values)| <= |Join(values, NEWLINE)|
    ensures values != [] ==> (Gathered([], values) != [] && Gathered([], values) == Join(values, NEWLINE) <==> values[0] != [])
    decreases |values|
  {
    if values == [] {
    } else {
      assert [] + [] + values[0] == values[0];
      if values[0] == [] {
        GatheredWithin(values[1..]);
      } else {
        GatheredMore(values[0], values[1..]);
      }
    }
  }

  /** A printed event is read back exactly when its first data line is not empty: then with its name, its
      id and its data lines joined by newlines, leaving what follows. Otherwise leading empty lines are
      lost, and an event of only empty lines is skipped. */
  lemma PrintedIsRead(p: Printed, rest: Bytes)
    requires PrintedOk(p)
    ensures var data := Gathered([], Values(p.data));
            && NextEvent(Print(p) + rest, BLANK)
               == (if data != [] then (Some(Event(p.name.value, p.id.value, data)), rest) else NextEvent(rest, BLANK))
            && (data != [] && data == Join(Values(p.data), NEWLINE) <==> p.data[0].value != [])
  {
    hide FieldOk, Line, DataLines, Gathered, Join, NextLine, EndOfLine;
    var tail := EndOfLine(p.crlf) + rest;
    assert Print(p) + rest == Open(p) + tail;
    OpenIsRead(p, tail);
    BlankLine(p.crlf, rest);
    GatheredWithin(Values(p.data));
    assert Values(p.data)[0] == p.data[0].value;
  }

  /** A stream that ends inside an event still delivers it. */
  lemma UnterminatedIsDelivered(p: Printed)
    requires PrintedOk(p) && p.data[0].value != []
    ensures NextEvent(Open(p), BLANK) == (Some(Event(p.name.value, p.id.value, Join(Values(p.data), NEWLINE))), [])
  {
    hide FieldOk, Line, DataLines, Gathered, Join, NextLine, EndOfLine;
    assert Open(p) + [] == Open(p);
    OpenIsRead(p, []);
    GatheredWithin(Values(p.data));
    assert Values(p.data)[0] == p.data[0].value;
    NothingLeft(Event(p.name.value, p.id.value, Gathered([], Values(p.data))));
  }

  lemma NothingLeft(e: Event)
    ensures NextEvent([], e) == (if e.data == [] then None else Some(e), [])
  {
    hide Fed;
    assert NextLine([]) == None;
  }

  // ---- whole streams ----

  /** Every event of a stream. */
  function Events(t: Bytes): seq<Event>
    decreases |t|
  {
    var next := NextEvent(t, BLANK);
    if next.0.None? || |next.1| >= |t| then [] else [next.0.value] + Events(next.1)
  }

  function PrintAll(ps: seq<Printed>): Bytes {
    if ps == [] then [] else Print(ps[0]) + PrintAll(ps[1..])
  }

  function Meaning(p: Printed): Event {
    Event(p.name.value, p.id.value, Join(Values(p.data), NEWLINE))
  }

  /** A stream of printed events whose first data lines are not empty gives all of them back in order. */
  lemma {:induction false} StreamIsRead(ps: seq<Printed>)
    requires forall i :: 0 <= i < |ps| ==> PrintedOk(ps[i]) && ps[i].data[0].value != []
    ensures Events(PrintAll(ps)) == seq(|ps|, i requires 0 <= i < |ps| => Meaning(ps[i]))
  {
    hide PrintedOk, Print, Gathered, Join, NextEvent;
    if ps == [] {
      NothingLeft(BLANK);
    } else {
      var later := ps[1..];
      PrintedIsRead(ps[0], PrintAll(later));
      PrintNotEmpty(ps[0]);
      StreamIsRead(later);
      var meanings := seq(|later|, i requires 0 <= i < |later| => Meaning(later[i]));
      assert seq(|ps|, i requires 0 <= i < |ps| => Meaning(ps[i])) == [Meaning(ps[0])] + meanings;
    }
  }

  lemma PrintNotEmpty(p: Printed)
    ensures Print(p) != []
  {
  }

  lemma EventsStep(t: Bytes)
    ensures Events(t) == if NextEvent(t, BLANK).0.None? then []
                         else [NextEvent(t, BLANK).0.value] + Events(NextEvent(t, BLANK).1)
    ensures NextEvent(t, BLANK).0.Some? ==> |NextEvent(t, BLANK).1| < |t|
  {
    hide NextLine, Fed;
    EventTakes(t, BLANK);
  }

  /** An event with data takes at least one line from the text. */
  lemma {:induction false} EventTakes(t: Bytes, e: Event)
    ensures NextEvent(t, e).0.Some? && e.data == [] ==> |NextEvent(t, e).1| < |t|
    decreases |t|
  {
    hide NextLine, Fed;
    var next := NextLine(t);
    if next.Some? && next.value.0 == [] && e.data == [] {
      EventTakes(next.value.1, BLANK);
    }
  }

  /** No event is found only at the end of the text. */
  lemma {:induction false} NoEventNothingLeft(t: Bytes, e: Event)
    ensures NextEvent(t, e).0.None? ==> NextEvent(t, e).1 == []
    decreases |t|
  {
    hide NextLine, Fed;
    var next := NextLine(t);
    if next.Some? {
      if next.value.0 == [] {
        NoEventNothingLeft(next.value.1, BLANK);
      } else {
        NoEventNothingLeft(next.value.1, Fed(e, next.value.0));
      }
    }
  }

  /** Every event until the stream ends: however it was cut, the events of everything delivered. */
  method ReadEvents(reader: Reader) returns (events: Result<seq<Event>, TooLong>)
    requires reader.Valid()
    modifies reader
    ensures events.Ok? ==> events.value == Events(old(reader.Remaining()))
    ensures events.Err? ==> |old(reader.Remaining())| > LIMIT
    ensures Fits(old(reader.Remaining()), SAFE) ==> events.Ok?
    ensures events.Ok? ==> Fits(old(reader.Remaining()), FULL)
  {
    hide NextEvent, Events, Transfer.Concat, Fits, NextLine;
    var sofar: seq<Event> := [];
    assert [] + Events(reader.Remaining()) == Events(reader.Remaining());
    while true
      invariant reader.Valid() && |reader.Remaining()| <= |old(reader.Remaining())|
      invariant Events(old(reader.Remaining())) == sofar + Events(reader.Remaining())
      invariant Fits(old(reader.Remaining()), SAFE) ==> Fits(reader.Remaining(), SAFE)
      invariant Fits(reader.Remaining(), FULL) ==> Fits(old(reader.Remaining()), FULL)
      decreases |reader.Remaining()|
    {
      EventsStep(reader.Remaining());
      NoEventNothingLeft(reader.Remaining(), BLANK);
      var event := NextSse(reader);
      if event.Err? {
        return Err(event.error);
      }
      if event.value.None? {
        NoLine();
        FitsStep([], FULL);
        return Ok(sofar);
      }
      assert sofar + ([event.value.value] + Events(reader.Remaining())) == (sofar + [event.value.value]) + Events(reader.Remaining());
      sofar := sofar + [event.value.value];
    }
  }

  /** So a printed stream comes through any cutting: its events, in order. */
  method ReadPrinted(ghost ps: seq<Printed>, reader: Reader) returns (events: Result<seq<Event>, TooLong>)
    requires forall i :: 0 <= i < |ps| ==> PrintedOk(ps[i]) && ps[i].data[0].value != []
    requires reader.Valid() && reader.Remaining() == PrintAll(ps)
    modifies reader
    ensures events.Ok? ==> |events.value| == |ps| && forall i :: 0 <= i < |ps| ==> events.value[i] == Meaning(ps[i])
    ensures |PrintAll(ps)| <= LIMIT || Fits(PrintAll(ps), SAFE) ==> events.Ok?
  {
    hide PrintedOk, Meaning, Events, PrintAll, Transfer.Concat, Fits;
    StreamIsRead(ps);
    events := ReadEvents(reader);
  }
}
