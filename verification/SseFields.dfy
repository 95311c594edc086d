/** The lines of a server-sent event, and what they say: a reference for both readers. */
module SseFields {
  import opened Basics
  import opened Text

  /** The lines of a message, each with what stands after its colon; a comment is one of the others. */
  datatype Field = NameLine(raw: Bytes) | IdLine(raw: Bytes) | DataLine(raw: Bytes) | OtherLine(line: Bytes)

  type Block = seq<Field>

  predicate ValidField(f: Field) {
    f.OtherLine? ==>
      f.line != [] && !Starts(f.line, "event:") && !Starts(f.line, "id:") && !Starts(f.line, "data:")
  }

  predicate ValidBlock(b: Block) {
    forall i :: 0 <= i < |b| ==> ValidField(b[i])
  }

  function PrintField(f: Field): Bytes {
    match f
    case NameLine(raw) => Lit("event:") + raw
    case IdLine(raw) => Lit("id:") + raw
    case DataLine(raw) => Lit("data:") + raw
    case OtherLine(line) => line
  }

  /** The last name, the last id, and all data lines of a block. */
  function NameOf(trim: Bytes -> Bytes, b: Block): Bytes {
    if b == [] then []
    else
      var last := b[|b| - 1];
      if last.NameLine? then trim(last.raw) else NameOf(trim, b[..|b| - 1])
  }

  function IdOf(trim: Bytes -> Bytes, b: Block): Bytes {
    if b == [] then []
    else
      var last := b[|b| - 1];
      if last.IdLine? then trim(last.raw) else IdOf(trim, b[..|b| - 1])
  }

  function DataOf(trim: Bytes -> Bytes, b: Block): seq<Bytes> {
    if b == [] then []
    else
      var last := b[|b| - 1];
      DataOf(trim, b[..|b| - 1]) + (if last.DataLine? then [trim(last.raw)] else [])
  }

  lemma PrefixesDiffer(raw: Bytes)
    ensures var name, id, data := Lit("event:") + raw, Lit("id:") + raw, Lit("data:") + raw;
            && Starts(name, "event:") && !Starts(name, ":")
            && Starts(id, "id:") && !Starts(id, ":") && !Starts(id, "event:")
            && Starts(data, "data:") && !Starts(data, ":") && !Starts(data, "event:") && !Starts(data, "id:")
            && name[6..] == raw && id[3..] == raw && data[5..] == raw
  {
    var name, id, data := Lit("event:") + raw, Lit("id:") + raw, Lit("data:") + raw;
    assert name[0] == 'e' as int && id[0] == 'i' as int && data[0] == 'd' as int;
    assert Lit(":")[0] == ':' as int && Lit("event:")[0] == 'e' as int && Lit("id:")[0] == 'i' as int;
    assert Lit("data:")[0] == 'd' as int;
  }

  function FieldOf(line: Bytes): Field {
    if Starts(line, "event:") then NameLine(line[6..])
    else if Starts(line, "id:") then IdLine(line[3..])
    else if Starts(line, "data:") then DataLine(line[5..])
    else OtherLine(line)
  }

  lemma FieldIsPrinted(line: Bytes)
    requires line != []
    ensures ValidField(FieldOf(line)) && PrintField(FieldOf(line)) == line
  {
  }
}
