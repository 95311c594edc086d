/** Big-endian numbers and length-prefixed strings. */
module Rim2Wire {
  import opened Basics
  import opened Bits
  import opened Positional
  import opened Slices

  /** n in k bytes, most significant first. */
  function Big(n: nat, k: nat): (b: Bytes)
    ensures |b| == k
  {
    UpConstants(1);
    ToDigits(n, 8, k)
  }

  function Number(b: Bytes): nat {
    FromDigits(b, 8)
  }

  /** 2^(8k). */
  function Limit(k: nat): nat {
    Capacity(8, k)
  }

  lemma Limits()
    ensures Limit(1) == 0x100 && Limit(2) == 0x1_0000 && Limit(4) == 0x1_0000_0000
    ensures Limit(8) == 0x1_0000_0000_0000_0000
  {
    LimitStep(0);
    LimitStep(1);
    LimitStep(2);
    LimitStep(3);
    LimitStep(4);
    LimitStep(5);
    LimitStep(6);
    LimitStep(7);
  }

  lemma LimitStep(k: nat)
    ensures Limit(0) == 1 && Limit(k + 1) == Limit(k) * 256
  {
    UpConstants(Limit(k));
  }

  /** Each further byte is worth 256 times less than those before it. */
  lemma NumberIsBigEndian(b: Bytes, last: Byte)
    ensures Number([]) == 0 && Number(b + [last]) == 256 * Number(b) + last
  {
    Append(b, last, 8);
    UpConstants(FromDigits(b, 8));
  }

  lemma NumberOfBig(n: nat, k: nat)
    requires n < Limit(k)
    ensures Number(Big(n, k)) == n
  {
    ValueOfDigits(n, 8, k);
  }

  lemma BigOfNumber(b: Bytes)
    ensures Big(Number(b), |b|) == b && Number(b) < Limit(|b|)
  {
    UpConstants(1);
    DigitsOfValue(b, 8);
    ValueBelowCapacity(b, 8);
  }

  /** A string behind a k-byte length. */
  function Prefixed(v: Bytes, k: nat): Bytes {
    Big(|v|, k) + v
  }

  // ---- reading at an offset; a result carries the offset after what was read ----

  function TakeBytes(data: Bytes, offset: nat, n: nat): Option<(Bytes, nat)> {
    if offset + n <= |data| then Some((data[offset..offset + n], offset + n)) else None
  }

  function TakeNumber(data: Bytes, offset: nat, k: nat): Option<(nat, nat)> {
    var bytes :- TakeBytes(data, offset, k);
    Some((Number(bytes.0), bytes.1))
  }

  function TakeString(data: Bytes, offset: nat, k: nat): Option<(Bytes, nat)> {
    var size :- TakeNumber(data, offset, k);
    TakeBytes(data, size.1, size.0)
  }

  /** Reading succeeds with v exactly where the bytes of v stand. */
  lemma TakeBytesExact(data: Bytes, offset: nat, v: Bytes)
    ensures TakeBytes(data, offset, |v|) == Some((v, offset + |v|)) <==> At(data, offset, v)
  {
  }

  lemma TakeNumberExact(data: Bytes, offset: nat, k: nat, n: nat)
    requires n < Limit(k)
    ensures TakeNumber(data, offset, k) == Some((n, offset + k)) <==> At(data, offset, Big(n, k))
  {
    hide Big, Number, Limit;
    NumberOfBig(n, k);
    if offset + k <= |data| {
      BigOfNumber(data[offset..offset + k]);
    }
  }

  lemma TakeNumberRange(data: Bytes, offset: nat, k: nat)
    ensures TakeNumber(data, offset, k).Some?
            ==> TakeNumber(data, offset, k).value.0 < Limit(k) && TakeNumber(data, offset, k).value.1 == offset + k
  {
    hide Number, Limit;
    if offset + k <= |data| {
      BigOfNumber(data[offset..offset + k]);
    }
  }

  lemma TakeStringExact(data: Bytes, offset: nat, k: nat, v: Bytes)
    requires |v| < Limit(k)
    ensures TakeString(data, offset, k) == Some((v, offset + k + |v|)) <==> At(data, offset, Prefixed(v, k))
  {
    hide Big, TakeNumber, Limit, TakeBytes, At;
    TakeNumberExact(data, offset, k, |v|);
    TakeNumberRange(data, offset, k);
    TakeBytesExact(data, offset + k, v);
    TakeBytesLength(data, offset, k);
    AtBoth(data, offset, Big(|v|, k), v);
  }

  lemma TakeBytesLength(data: Bytes, offset: nat, k: nat)
    ensures var size := TakeNumber(data, offset, k);
            size.Some? ==>
              var r := TakeBytes(data, size.value.1, size.value.0);
              r.Some? ==> |r.value.0| == size.value.0 && r.value.1 == size.value.1 + size.value.0
  {
    hide Number;
  }

  lemma TakeStringRange(data: Bytes, offset: nat, k: nat)
    ensures var r := TakeString(data, offset, k);
            r.Some? ==> |r.value.0| < Limit(k) && r.value.1 == offset + k + |r.value.0|
  {
    hide Limit, Number;
    TakeNumberRange(data, offset, k);
  }
}

/** The paths a RIM2 manifest may name. */
module Rim2Path {
  import opened Basics
  import opened Text

  const SLASH: Byte := '/' as int

  predicate Control(b: Byte) {
    b < 0x20 || b == 0x7f
  }

  predicate SafePart(part: Bytes) {
    && part != [] && part != ['.' as int] && part != ['.' as int, '.' as int]
    && forall i :: 0 <= i < |part| ==> !Control(part[i])
  }

  predicate SafeParts(parts: seq<Bytes>) {
    forall i :: 0 <= i < |parts| ==> SafePart(parts[i])
  }

  predicate SafePath(value: Bytes) {
    && 0 < |value| <= 255
    && '\\' as int !in value && ':' as int !in value && 0 !in value
    && SafeParts(Split(value, SLASH))
  }

  /** What is safe, over the bytes of the path: see SafePathExactly. */
  method IsSafePath(value: Bytes) returns (safe: bool)
    ensures safe <==> SafePath(value)
    ensures safe <==> |value| <= 255 && (forall b :: b in value ==> 0x20 <= b && b != 0x7f)
                      && forall directory :: Reached(directory, value) == directory + Split(value, SLASH)
  {
    hide Find, Split, SafeParts, Reached;
    SafePathExactly(value);
    var backslash := Find(value, '\\' as int, 0);
    var colon := Find(value, ':' as int, 0);
    var zero := Find(value, 0, 0);
    FindsMember(value, '\\' as int);
    FindsMember(value, ':' as int);
    FindsMember(value, 0);
    if value == [] || |value| > 255 || value[0] == SLASH || value[|value| - 1] == SLASH
       || backslash.Some? || colon.Some? || zero.Some? {
      EdgeSlash(value);
      return false;
    }
    var offset := 0;
    assert value[0..] == value;
    while true
      invariant 0 <= offset <= |value|
      invariant SafeParts(Split(value, SLASH)) == SafeParts(Split(value[offset..], SLASH))
      decreases |value| - offset
    {
      var end := Find(value, SLASH, offset);
      var part := if end.None? then value[offset..] else value[offset..end.value];
      FirstPart(value, offset, part);
      if part == [] || part == ['.' as int] || part == ['.' as int, '.' as int] {
        return false;
      }
      var clean := NoControl(part);
      if !clean {
        return false;
      }
      if end.None? {
        break;
      }
      offset := end.value + 1;
    }
    return true;
  }

  method NoControl(part: Bytes) returns (clean: bool)
    ensures clean <==> forall i :: 0 <= i < |part| ==> !Control(part[i])
  {
    for i := 0 to |part|
      invariant forall k :: 0 <= k < i ==> !Control(part[k])
    {
      if Control(part[i]) {
        return false;
      }
    }
    return true;
  }

  /** The part up to the next slash is the first part of what is left. */
  lemma FirstPart(value: Bytes, offset: nat, part: Bytes)
    requires offset <= |value|
    requires var end := Find(value, SLASH, offset);
             part == if end.None? then value[offset..] else value[offset..end.value]
    ensures var end := Find(value, SLASH, offset);
            SafeParts(Split(value[offset..], SLASH))
            <==> SafePart(part) && (end.Some? ==> SafeParts(Split(value[end.value + 1..], SLASH)))
  {
    hide Find, Split, SafeParts, SafePart;
    var end := Find(value, SLASH, offset);
    assert SLASH !in part;
    if end.None? {
      SplitWhole(part, SLASH);
      SafeCons(part, []);
      assert [part] + [] == [part];
    } else {
      var rest := value[end.value + 1..];
      assert value[offset..] == part + [SLASH] + rest;
      SplitFirst(part, SLASH, rest);
      SafeCons(part, Split(rest, SLASH));
    }
  }

  lemma FindsMember(value: Bytes, b: Byte)
    ensures Find(value, b, 0).Some? <==> b in value
  {
    hide Find;
  }

  lemma SafeCons(part: Bytes, parts: seq<Bytes>)
    ensures SafeParts([part] + parts) <==> SafePart(part) && SafeParts(parts)
    ensures SafeParts([])
  {
    hide SafePart;
    if SafeParts([part] + parts) {
      assert SafePart(([part] + parts)[0]);
      forall i | 0 <= i < |parts| ensures SafePart(parts[i]) {
        assert parts[i] == ([part] + parts)[i + 1];
      }
    }
  }

  /** A slash at either end leaves an empty part there. */
  lemma EdgeSlash(value: Bytes)
    ensures value != [] && (value[0] == SLASH || value[|value| - 1] == SLASH) ==> !SafeParts(Split(value, SLASH))
  {
    if value == [] || (value[0] != SLASH && value[|value| - 1] != SLASH) {
    } else if value[0] == SLASH {
      assert Split(value, SLASH)[0] == [];
    } else {
      LastPart(value);
    }
  }

  lemma {:induction false} LastPart(value: Bytes)
    requires value != [] && value[|value| - 1] == SLASH
    ensures var parts := Split(value, SLASH); |parts| >= 2 && parts[|parts| - 1] == []
  {
    if |value| == 1 {
      assert Split(value[1..], SLASH) == [[]];
    } else {
      LastPart(value[1..]);
    }
  }

  // ---- where a path leads ----

  const BACKSLASH: Byte := '\\' as int
  const COLON: Byte := ':' as int

  predicate Separator(b: Byte) {
    b == '/' as int || b == '\\' as int
  }

  /** One step from a directory: nowhere, up, to a drive, or down. */
  function Entered(directory: seq<Bytes>, part: Bytes): seq<Bytes> {
    if part == [] || part == ['.' as int] then directory
    else if part == ['.' as int, '.' as int] then if directory == [] then [] else directory[..|directory| - 1]
    else if ':' as int in part then [part]
    else directory + [part]
  }

  /** Where Windows goes from a directory along the bytes of a relative path: either slash ends a part, and
      a part that holds a colon starts over at a drive. The part read so far has no slash in it. */
  function Walk(directory: seq<Bytes>, part: Bytes, path: Bytes): seq<Bytes>
    decreases |path|
  {
    if path == [] then Entered(directory, part)
    else if Separator(path[0]) then Walk(Entered(directory, part), [], path[1..])
    else Walk(directory, part + [path[0]], path[1..])
  }

  function Reached(directory: seq<Bytes>, path: Bytes): seq<Bytes> {
    Walk(directory, [], path)
  }

  function WalkAll(directory: seq<Bytes>, parts: seq<Bytes>): seq<Bytes>
    decreases |parts|
  {
    if parts == [] then directory else WalkAll(Entered(directory, parts[0]), parts[1..])
  }

  /** A part begun, and what the rest splits into. */
  function Begun(part: Bytes, parts: seq<Bytes>): seq<Bytes>
    requires parts != []
  {
    [part + parts[0]] + parts[1..]
  }

  lemma BegunNothing(parts: seq<Bytes>)
    requires parts != []
    ensures Begun([], parts) == parts
  {
    assert [] + parts[0] == parts[0];
  }

  lemma BegunMore(part: Bytes, b: Byte, parts: seq<Bytes>)
    requires parts != []
    ensures Begun(part, Begun([b], parts)) == Begun(part + [b], parts)
  {
    assert part + ([b] + parts[0]) == (part + [b]) + parts[0];
  }

  /** Without backslashes, the bytes are walked part by part. */
  lemma {:induction false} WalkIsByParts(directory: seq<Bytes>, part: Bytes, path: Bytes)
    requires BACKSLASH !in path
    ensures Walk(directory, part, path) == WalkAll(directory, Begun(part, Split(path, SLASH)))
    decreases |path|
  {
    hide Entered;
    if path == [] {
      assert part + [] == part;
      assert WalkAll(Entered(directory, part), []) == Entered(directory, part);
    } else {
      assert BACKSLASH !in path[1..];
      var parts := Split(path[1..], SLASH);
      if path[0] == SLASH {
        WalkIsByParts(Entered(directory, part), [], path[1..]);
        BegunNothing(parts);
        assert part + [] == part;
        assert ([part] + parts)[1..] == parts;
      } else {
        WalkIsByParts(directory, part + [path[0]], path[1..]);
        BegunMore(part, path[0], parts);
      }
    }
  }

  lemma {:induction false} SafePartsDescend(directory: seq<Bytes>, parts: seq<Bytes>)
    requires SafeParts(parts) && forall i :: 0 <= i < |parts| ==> COLON !in parts[i]
    ensures WalkAll(directory, parts) == directory + parts
    decreases |parts|
  {
    if parts == [] {
    } else {
      assert SafePart(parts[0]);
      assert SafeParts(parts[1..]);
      SafePartsDescend(directory + [parts[0]], parts[1..]);
      assert directory + [parts[0]] + parts[1..] == directory + parts;
    }
  }

  predicate Within(b: Byte, parts: seq<Bytes>) {
    exists i :: 0 <= i < |parts| && b in parts[i]
  }

  lemma WithinFirst(b: Byte, first: Bytes, rest: seq<Bytes>)
    ensures Within(b, [first] + rest) <==> b in first || Within(b, rest)
  {
    var all := [first] + rest;
    if b in first {
      assert b in all[0];
    }
    if Within(b, rest) {
      var i :| 0 <= i < |rest| && b in rest[i];
      assert b in all[i + 1];
    }
    if Within(b, all) {
      var i :| 0 <= i < |all| && b in all[i];
      assert i > 0 ==> b in rest[i - 1];
    }
  }

  /** The bytes of the parts are those of the whole but the slashes. */
  lemma {:induction false} SplitBytes(path: Bytes, b: Byte)
    requires b != SLASH
    ensures b in path <==> Within(b, Split(path, SLASH))
    decreases |path|
  {
    hide Within;
    NothingWithin(b);
    if path == [] {
    } else {
      var rest := Split(path[1..], SLASH);
      SplitBytes(path[1..], b);
      assert b in path <==> b == path[0] || b in path[1..];
      assert rest == [rest[0]] + rest[1..];
      WithinFirst(b, [], rest);
      WithinFirst(b, rest[0], rest[1..]);
      WithinFirst(b, [path[0]] + rest[0], rest[1..]);
    }
  }

  lemma NothingWithin(b: Byte)
    ensures !Within(b, []) && !Within(b, [[]])
  {
  }

  /** No name that the walk collects holds a backslash. */
  lemma {:induction false} NamesAreClean(directory: seq<Bytes>, part: Bytes, path: Bytes)
    requires BACKSLASH !in part && !Within(BACKSLASH, directory)
    ensures !Within(BACKSLASH, Walk(directory, part, path))
    decreases |path|
  {
    EnteredIsClean(directory, part);
    hide Entered, Within;
    if path == [] {
    } else if Separator(path[0]) {
      NamesAreClean(Entered(directory, part), [], path[1..]);
    } else {
      NamesAreClean(directory, part + [path[0]], path[1..]);
    }
  }

  lemma EnteredIsClean(directory: seq<Bytes>, part: Bytes)
    requires BACKSLASH !in part && !Within(BACKSLASH, directory)
    ensures !Within(BACKSLASH, Entered(directory, part))
  {
    var after := Entered(directory, part);
    forall i | 0 <= i < |after| ensures BACKSLASH !in after[i] {
      assert after[i] == part || (i < |directory| && after[i] == directory[i]);
    }
  }

  /** A part that a walk does not descend into. */
  predicate Detour(part: Bytes) {
    part == [] || part == ['.' as int] || part == ['.' as int, '.' as int] || COLON in part
  }

  lemma {:induction false} WalkIsNoLonger(directory: seq<Bytes>, parts: seq<Bytes>)
    ensures |WalkAll(directory, parts)| <= |directory| + |parts|
    decreases |parts|
  {
    if parts != [] {
      WalkIsNoLonger(Entered(directory, parts[0]), parts[1..]);
    }
  }

  lemma {:induction false} DetourIsShorter(directory: seq<Bytes>, parts: seq<Bytes>)
    requires directory != [] && exists i :: 0 <= i < |parts| && Detour(parts[i])
    ensures |WalkAll(directory, parts)| < |directory| + |parts|
    decreases |parts|
  {
    if Detour(parts[0]) {
      WalkIsNoLonger(Entered(directory, parts[0]), parts[1..]);
    } else {
      var i :| 0 <= i < |parts| && Detour(parts[i]);
      assert Detour(parts[1..][i - 1]);
      DetourIsShorter(Entered(directory, parts[0]), parts[1..]);
    }
  }

  /** The walk ends below every directory, by exactly the parts between the path's slashes. */
  ghost predicate Descends(path: Bytes) {
    forall directory :: Reached(directory, path) == directory + Split(path, SLASH)
  }

  /** Descending from a directory without a name already leaves nothing but plain parts. */
  lemma DescentIsPlain(path: Bytes)
    requires Reached([[]], path) == [[]] + Split(path, SLASH)
    ensures BACKSLASH !in path && COLON !in path
    ensures forall i :: 0 <= i < |Split(path, SLASH)| ==> !Detour(Split(path, SLASH)[i])
  {
    hide Walk, Split, Entered;
    var parts := Split(path, SLASH);
    NamesAreClean([[]], [], path);
    WithinFirst(BACKSLASH, [], parts);
    NothingWithin(BACKSLASH);
    SplitBytes(path, BACKSLASH);
    WalkIsByParts([[]], [], path);
    BegunNothing(parts);
    if i :| 0 <= i < |parts| && Detour(parts[i]) {
      DetourIsShorter([[]], parts);
      assert false;
    }
    SplitBytes(path, COLON);
  }

  lemma ControlsAreWithin(path: Bytes)
    requires forall b :: b in path ==> !Control(b)
    ensures forall i, k :: 0 <= i < |Split(path, SLASH)| && 0 <= k < |Split(path, SLASH)[i]| ==> !Control(Split(path, SLASH)[i][k])
  {
    hide Split;
    var parts := Split(path, SLASH);
    forall i, k | 0 <= i < |parts| && 0 <= k < |parts[i]| ensures !Control(parts[i][k]) {
      SplitBytes(path, parts[i][k]);
      assert Within(parts[i][k], parts);
      assert parts[i][k] in path;
    }
  }

  lemma SafePathDescends(path: Bytes)
    requires SafePath(path)
    ensures Descends(path) && forall b :: b in path ==> 0x20 <= b && b != 0x7f
  {
    hide Split, Walk, Entered;
    var parts := Split(path, SLASH);
    SplitBytes(path, COLON);
    forall directory ensures Reached(directory, path) == directory + parts {
      WalkIsByParts(directory, [], path);
      BegunNothing(parts);
      SafePartsDescend(directory, parts);
    }
    forall b | b in path ensures 0x20 <= b && b != 0x7f {
      if b != SLASH {
        SplitBytes(path, b);
        var i :| 0 <= i < |parts| && b in parts[i];
        assert SafePart(parts[i]);
      }
    }
  }

  lemma DescentIsSafe(path: Bytes)
    requires |path| <= 255 && Descends(path) && forall b :: b in path ==> 0x20 <= b && b != 0x7f
    ensures SafePath(path)
  {
    hide Split, Walk;
    DescentIsPlain(path);
    assert forall b :: b in path ==> !Control(b);
    ControlsAreWithin(path);
    var parts := Split(path, SLASH);
    forall i | 0 <= i < |parts| ensures SafePart(parts[i]) {
      assert !Detour(parts[i]);
    }
    SplitNothing();
    assert path == [] ==> Detour(parts[0]);
    assert SafeParts(parts);
    assert 0 !in path;
  }

  /** Over the bytes of any path: it is safe if and only if it is short, free of control bytes, and leads
      from every directory to the place below it that its slashes spell, never beside, above or away. */
  lemma SafePathExactly(path: Bytes)
    ensures SafePath(path)
            <==> |path| <= 255 && (forall b :: b in path ==> 0x20 <= b && b != 0x7f)
                 && forall directory :: Reached(directory, path) == directory + Split(path, SLASH)
  {
    hide Split, SafeParts, Reached;
    if SafePath(path) {
      SafePathDescends(path);
    } else if |path| <= 255 && (forall b :: b in path ==> 0x20 <= b && b != 0x7f) && Descends(path) {
      DescentIsSafe(path);
    }
  }

  lemma SplitNothing()
    ensures Split([], SLASH) == [[]]
  {
  }
}

/** The RIM2 manifest of rim2.cpp. */
module Rim2 {
  import opened Basics
  import opened Bits
  import opened Positional
  import opened Slices
  import opened Rim2Wire
  import opened Rim2Path
  import Text

  datatype File = File(path: Bytes, size: nat, sha256: Bytes)

  datatype Body = Body(app: Bytes, release: Bytes, versionCode: nat, platform: Byte, architecture: Byte,
                       version: Bytes, files: seq<File>)

  datatype Trailer = Trailer(rootKeyId: Bytes, signerKeyId: Bytes, signerPublic: Bytes,
                             rootSignature: Bytes, manifestSignature: Bytes)

  datatype Manifest = Manifest(body: Body, trailer: Trailer)

  const MAGIC: Bytes := ['O' as int, 'P' as int, 'L' as int, 'U' as int, 'S' as int, 'R' as int, 'I' as int, 'M' as int]

  // ---- the format ----

  function EncodeFile(f: File): Bytes {
    Prefixed(f.path, 2) + (Big(f.size, 8) + f.sha256)
  }

  function EncodeFiles(files: seq<File>): Bytes {
    if files == [] then [] else EncodeFile(files[0]) + EncodeFiles(files[1..])
  }

  function EncodeBody(b: Body): Bytes {
    b.app + (b.release + (Big(b.versionCode, 8) + ([b.platform, b.architecture]
    + (Prefixed(b.version, 2) + (Big(|b.files|, 2) + EncodeFiles(b.files))))))
  }

  function EncodeTrailer(t: Trailer): Bytes {
    Prefixed(t.rootKeyId, 1) + (Prefixed(t.signerKeyId, 1)
    + (t.signerPublic + (t.rootSignature + t.manifestSignature)))
  }

  function Encode(m: Manifest): Bytes {
    MAGIC + (Big(2, 2) + (Big(|EncodeBody(m.body)|, 4) + (EncodeBody(m.body) + EncodeTrailer(m.trailer))))
  }

  // ---- what the parser demands ----

  predicate ValidFile(f: File) {
    && SafePath(f.path)
    && 0 < f.size < Limit(8)
    && |f.sha256| == 32 && exists i :: 0 <= i < 32 && f.sha256[i] != 0
  }

  /** Pairwise distinct after lower-casing, and none of the names already seen. */
  predicate DistinctPaths(files: seq<File>, seen: set<Bytes>) {
    && (forall i :: 0 <= i < |files| ==> Lower(files[i].path) !in seen)
    && (forall i, j :: 0 <= i < j < |files| ==> Lower(files[i].path) != Lower(files[j].path))
  }

  predicate ValidFiles(files: seq<File>) {
    forall i :: 0 <= i < |files| ==> ValidFile(files[i])
  }

  predicate ValidBody(b: Body) {
    && |b.app| == 16 && |b.release| == 16 && b.versionCode < Limit(8)
    && 1 <= |b.version| <= 100 && 1 <= |b.files| <= 255
    && ValidFiles(b.files) && DistinctPaths(b.files, {})
  }

  predicate ValidTrailer(t: Trailer) {
    && 1 <= |t.rootKeyId| <= 64 && 1 <= |t.signerKeyId| <= 64
    && |t.signerPublic| == 32 && |t.rootSignature| == 64 && |t.manifestSignature| == 64
  }

  predicate WellFormed(m: Manifest) {
    ValidBody(m.body) && ValidTrailer(m.trailer) && |Encode(m)| <= 64 * 1024
  }

  /** What is demanded of every field. */
  lemma WellFormedExactly(m: Manifest)
    ensures WellFormed(m) <==>
              && |Encode(m)| <= 65536
              && |m.body.app| == 16 && |m.body.release| == 16 && m.body.versionCode < 0x1_0000_0000_0000_0000
              && 1 <= |m.body.version| <= 100 && 1 <= |m.body.files| <= 255
              && (forall i :: 0 <= i < |m.body.files| ==>
                    var f := m.body.files[i];
                    && |f.path| <= 255 && (forall b :: b in f.path ==> 0x20 <= b && b != 0x7f)
                    && (forall directory :: Reached(directory, f.path) == directory + Text.Split(f.path, SLASH))
                    && 0 < f.size < 0x1_0000_0000_0000_0000
                    && |f.sha256| == 32 && exists b :: b in f.sha256 && b != 0)
              && (forall i, j :: 0 <= i < j < |m.body.files| ==>
                    Lower(m.body.files[i].path) != Lower(m.body.files[j].path))
              && 1 <= |m.trailer.rootKeyId| <= 64 && 1 <= |m.trailer.signerKeyId| <= 64 && |m.trailer.signerPublic| == 32
              && |m.trailer.rootSignature| == 64 && |m.trailer.manifestSignature| == 64
  {
    hide Encode, SafePath, Reached, Text.Split, Lower, Limit;
    Limits();
    forall f: File ensures ValidFile(f) <==> FileDemands(f) {
      FileExactly(f);
    }
  }

  ghost predicate FileDemands(f: File) {
    && |f.path| <= 255 && (forall b :: b in f.path ==> 0x20 <= b && b != 0x7f)
    && (forall directory :: Reached(directory, f.path) == directory + Text.Split(f.path, SLASH))
    && 0 < f.size < 0x1_0000_0000_0000_0000
    && |f.sha256| == 32 && exists b :: b in f.sha256 && b != 0
  }

  lemma FileExactly(f: File)
    ensures ValidFile(f) <==> FileDemands(f)
  {
    hide SafePath, Reached, Text.Split, Limit;
    Limits();
    SafePathExactly(f.path);
    SomeByte(f.sha256);
  }

  lemma SomeByte(s: Bytes)
    ensures (exists b :: b in s && b != 0) <==> exists i :: 0 <= i < |s| && s[i] != 0
  {
    if i :| 0 <= i < |s| && s[i] != 0 {
      assert s[i] in s;
    }
  }

  /** The bytes of an encoding, field by field. */
  lemma EncodedBytes(m: Manifest)
    ensures var b, t := m.body, m.trailer;
            var body := b.app + b.release + Big(b.versionCode, 8) + [b.platform, b.architecture]
                        + Big(|b.version|, 2) + b.version + Big(|b.files|, 2) + EncodeFiles(b.files);
            Encode(m) == Lit("OPLUSRIM") + [0, 2] + Big(|body|, 4) + body
                         + Big(|t.rootKeyId|, 1) + t.rootKeyId + Big(|t.signerKeyId|, 1) + t.signerKeyId
                         + t.signerPublic + t.rootSignature + t.manifestSignature
    ensures m.body.files != [] ==>
              var f := m.body.files[0];
              EncodeFiles(m.body.files) == Big(|f.path|, 2) + f.path + Big(f.size, 8) + f.sha256
                                           + EncodeFiles(m.body.files[1..])
  {
    hide Big, EncodeFiles, Lit, EncodeBody, EncodeTrailer;
    BodyBytes(m.body);
    TrailerBytes(m.trailer);
    VersionBytes();
    if m.body.files != [] {
      FileBytes(m.body.files);
    }
    var b, t := EncodeBody(m.body), m.trailer;
    var keys, ends := Big(|t.rootKeyId|, 1) + t.rootKeyId, Big(|t.signerKeyId|, 1) + t.signerKeyId;
    assert Encode(m) == Lit("OPLUSRIM") + [0, 2] + Big(|b|, 4) + b + EncodeTrailer(t);
  }

  lemma VersionBytes()
    ensures Lit("OPLUSRIM") == MAGIC && Big(2, 2) == [0, 2]
  {
    hide Big, Number, Limit;
    NumberIsBigEndian([], 0);
    NumberIsBigEndian([0], 2);
    assert [] + [0] == [0] && [0] + [2] == [0, 2];
    BigOfNumber([0, 2]);
  }

  lemma BodyBytes(b: Body)
    ensures EncodeBody(b) == b.app + b.release + Big(b.versionCode, 8) + [b.platform, b.architecture]
                             + Big(|b.version|, 2) + b.version + Big(|b.files|, 2) + EncodeFiles(b.files)
  {
    hide Big, EncodeFiles;
    var codes, count := [b.platform, b.architecture], Big(|b.files|, 2) + EncodeFiles(b.files);
    assert Prefixed(b.version, 2) + count == Big(|b.version|, 2) + b.version + Big(|b.files|, 2) + EncodeFiles(b.files);
  }

  lemma TrailerBytes(t: Trailer)
    ensures EncodeTrailer(t) == Big(|t.rootKeyId|, 1) + t.rootKeyId + Big(|t.signerKeyId|, 1) + t.signerKeyId
                                + t.signerPublic + t.rootSignature + t.manifestSignature
  {
    hide Big;
  }

  lemma FileBytes(files: seq<File>)
    requires files != []
    ensures var f := files[0];
            EncodeFiles(files) == Big(|f.path|, 2) + f.path + Big(f.size, 8) + f.sha256 + EncodeFiles(files[1..])
  {
    hide Big;
  }

  // ---- what the parser reads ----

  function TakeFile(data: Bytes, offset: nat): Option<(File, nat)> {
    var path :- TakeString(data, offset, 2);
    var size :- TakeNumber(data, path.1, 8);
    var sha256 :- TakeBytes(data, size.1, 32);
    Some((File(path.0, size.0, sha256.0), sha256.1))
  }

  function TakeFiles(data: Bytes, offset: nat, count: nat, seen: set<Bytes>): Option<(seq<File>, nat)>
    decreases count
  {
    if count == 0 then Some(([], offset))
    else
      var file :- TakeFile(data, offset);
      if !ValidFile(file.0) || Lower(file.0.path) in seen then None
      else
        var rest :- TakeFiles(data, file.1, count - 1, seen + {Lower(file.0.path)});
        Some(([file.0] + rest.0, rest.1))
  }

  function TakeBody(data: Bytes): Option<Body> {
    var app :- TakeBytes(data, 0, 16);
    var release :- TakeBytes(data, app.1, 16);
    var versionCode :- TakeNumber(data, release.1, 8);
    var codes :- TakeBytes(data, versionCode.1, 2);
    var version :- TakeString(data, codes.1, 2);
    var count :- TakeNumber(data, version.1, 2);
    if count.0 == 0 || count.0 > 255 || version.0 == [] || |version.0| > 100 then None
    else
      var files :- TakeFiles(data, count.1, count.0, {});
      if files.1 != |data| then None
      else Some(Body(app.0, release.0, versionCode.0, codes.0[0], codes.0[1], version.0, files.0))
  }

  function TakeTrailer(data: Bytes): Option<Trailer> {
    var rootKeyId :- TakeString(data, 0, 1);
    var signerKeyId :- TakeString(data, rootKeyId.1, 1);
    var signerPublic :- TakeBytes(data, signerKeyId.1, 32);
    var rootSignature :- TakeBytes(data, signerPublic.1, 64);
    var manifestSignature :- TakeBytes(data, rootSignature.1, 64);
    var t := Trailer(rootKeyId.0, signerKeyId.0, signerPublic.0, rootSignature.0, manifestSignature.0);
    if manifestSignature.1 == |data| && ValidTrailer(t) then Some(t) else None
  }

  /** Cutting a manifest into its body and trailer. */
  function Cut(manifest: Bytes): Option<(Bytes, Bytes)> {
    if manifest == [] || |manifest| > 64 * 1024 then None
    else
      var header :- TakeBytes(manifest, 0, 8);
      var version :- TakeNumber(manifest, header.1, 2);
      if header.0 != MAGIC || version.0 != 2 then None
      else
        var size :- TakeNumber(manifest, version.1, 4);
        if size.0 == 0 || size.1 + size.0 > |manifest| then None
        else Some((manifest[size.1..size.1 + size.0], manifest[size.1 + size.0..]))
  }

  function Structure(manifest: Bytes): Option<Manifest> {
    var parts :- Cut(manifest);
    var body :- TakeBody(parts.0);
    var trailer :- TakeTrailer(parts.1);
    Some(Manifest(body, trailer))
  }

  // ---- exactness, layer by layer ----

  predicate FileFits(f: File) {
    |f.path| < Limit(2) && f.size < Limit(8) && |f.sha256| == 32
  }

  lemma TakeFileExact(data: Bytes, offset: nat, f: File)
    requires FileFits(f)
    ensures TakeFile(data, offset) == Some((f, offset + |EncodeFile(f)|)) <==> At(data, offset, EncodeFile(f))
  {
    hide At, Big, TakeString, TakeNumber, TakeBytes, Limit, Prefixed;
    var sizeAt := offset + 2 + |f.path|;
    TakeStringExact(data, offset, 2, f.path);
    TakeStringRange(data, offset, 2);
    TakeNumberExact(data, sizeAt, 8, f.size);
    TakeNumberRange(data, sizeAt, 8);
    TakeBytesExact(data, sizeAt + 8, f.sha256);
    PrefixedLength(f.path, 2);
    AtBoth(data, offset, Prefixed(f.path, 2), Big(f.size, 8) + f.sha256);
    AtBoth(data, sizeAt, Big(f.size, 8), f.sha256);
  }

  lemma PrefixedLength(v: Bytes, k: nat)
    ensures |Prefixed(v, k)| == k + |v|
  {
  }

  lemma TakeFileRange(data: Bytes, offset: nat)
    ensures var r := TakeFile(data, offset);
            r.Some? ==> FileFits(r.value.0) && r.value.1 == offset + |EncodeFile(r.value.0)|
  {
    hide Big, TakeString, TakeNumber, Limit, Prefixed;
    TakeStringRange(data, offset, 2);
    var path := TakeString(data, offset, 2);
    if path.Some? {
      TakeNumberRange(data, path.value.1, 8);
      PrefixedLength(path.value.0, 2);
    }
  }

  lemma ValidFileFits(f: File)
    requires ValidFile(f)
    ensures FileFits(f)
  {
    Limits();
  }

  lemma ValidCons(f: File, files: seq<File>)
    ensures ValidFiles([f] + files) <==> ValidFile(f) && ValidFiles(files)
  {
    hide ValidFile;
    var all := [f] + files;
    assert all[0] == f;
    assert forall i :: 0 <= i < |files| ==> all[i + 1] == files[i];
  }

  lemma DistinctCons(f: File, files: seq<File>, seen: set<Bytes>)
    ensures DistinctPaths([f] + files, seen)
            <==> Lower(f.path) !in seen && DistinctPaths(files, seen + {Lower(f.path)})
    ensures ValidFiles([f] + files) <==> ValidFile(f) && ValidFiles(files)
  {
    hide Lower, ValidFile, ValidFiles;
    ValidCons(f, files);
    var all := [f] + files;
    assert all[0] == f;
    assert forall i :: 0 <= i < |files| ==> all[i + 1] == files[i];
    if Lower(f.path) !in seen && DistinctPaths(files, seen + {Lower(f.path)}) {
      forall i, j | 0 <= i < j < |all| ensures Lower(all[i].path) != Lower(all[j].path) {
        assert all[j] == files[j - 1];
        assert i > 0 ==> all[i] == files[i - 1];
      }
    }
  }

  lemma EncodeFilesCons(f: File, rest: seq<File>)
    ensures EncodeFiles([f] + rest) == EncodeFile(f) + EncodeFiles(rest)
  {
    hide EncodeFile;
    assert ([f] + rest)[1..] == rest;
  }

  lemma ConsInjective(f: File, rest: seq<File>, g: File, others: seq<File>)
    ensures [f] + rest == [g] + others <==> f == g && rest == others
  {
    if [f] + rest == [g] + others {
      assert ([f] + rest)[0] == ([g] + others)[0];
      assert rest == ([f] + rest)[1..] == ([g] + others)[1..] == others;
    }
  }

  /** One entry, then the others; where the next entry starts follows from the entry. */
  lemma TakeFilesCons(data: Bytes, offset: nat, f: File, rest: seq<File>, next: nat, end: nat, seen: set<Bytes>)
    requires ValidFile(f) && Lower(f.path) !in seen
    requires TakeFile(data, offset).Some? && TakeFile(data, offset).value.0 == f ==> TakeFile(data, offset).value.1 == next
    ensures TakeFiles(data, offset, |rest| + 1, seen) == Some(([f] + rest, end))
            <==> TakeFile(data, offset) == Some((f, next))
                 && TakeFiles(data, next, |rest|, seen + {Lower(f.path)}) == Some((rest, end))
  {
    hide TakeFile, ValidFile, Lower;
    var file := TakeFile(data, offset);
    if file.Some? && ValidFile(file.value.0) && Lower(file.value.0.path) !in seen {
      var others := TakeFiles(data, file.value.1, |rest|, seen + {Lower(file.value.0.path)});
      if others.Some? {
        ConsInjective(file.value.0, others.value.0, f, rest);
      }
    }
  }

  lemma {:induction false} TakeFilesExact(data: Bytes, offset: nat, files: seq<File>, seen: set<Bytes>)
    requires ValidFiles(files) && DistinctPaths(files, seen) && offset <= |data|
    ensures TakeFiles(data, offset, |files|, seen) == Some((files, offset + |EncodeFiles(files)|))
            <==> At(data, offset, EncodeFiles(files))
    decreases |files|
  {
    hide At, TakeFiles, EncodeFile, EncodeFiles, ValidFile, DistinctPaths, ValidFiles, Lower;
    if files == [] {
      NoMoreFiles(data, offset, seen);
    } else {
      var rest, next, later := files[1..], offset + |EncodeFile(files[0])|, seen + {Lower(files[0].path)};
      OneMoreFile(data, offset, files, seen);
      if At(data, offset, EncodeFile(files[0])) {
        AtSlice(data, offset, EncodeFile(files[0]));
        TakeFilesExact(data, next, rest, later);
      }
    }
  }

  lemma NoMoreFiles(data: Bytes, offset: nat, seen: set<Bytes>)
    requires offset <= |data|
    ensures TakeFiles(data, offset, 0, seen) == Some(([], offset)) && EncodeFiles([]) == [] && At(data, offset, EncodeFiles([]))
  {
  }

  lemma OneMoreFile(data: Bytes, offset: nat, files: seq<File>, seen: set<Bytes>)
    requires files != [] && ValidFiles(files) && DistinctPaths(files, seen)
    ensures var f, rest, later := files[0], files[1..], seen + {Lower(files[0].path)};
            var next := offset + |EncodeFile(f)|;
            var end := offset + |EncodeFiles(files)|;
            && ValidFiles(rest) && DistinctPaths(rest, later) && end == next + |EncodeFiles(rest)|
            && (At(data, offset, EncodeFiles(files)) <==> At(data, offset, EncodeFile(f)) && At(data, next, EncodeFiles(rest)))
            && (TakeFiles(data, offset, |files|, seen) == Some((files, end))
                <==> At(data, offset, EncodeFile(f)) && TakeFiles(data, next, |rest|, later) == Some((rest, end)))
  {
    hide At, TakeFile, TakeFiles, EncodeFile, EncodeFiles, ValidFile, DistinctPaths, ValidFiles, Lower;
    var f, rest := files[0], files[1..];
    var next := offset + |EncodeFile(f)|;
    assert files == [f] + rest && |files| == |rest| + 1;
    DistinctCons(f, rest, seen);
    EncodeFilesCons(f, rest);
    ValidFileFits(f);
    TakeFileExact(data, offset, f);
    TakeFileRange(data, offset);
    TakeFilesCons(data, offset, f, rest, next, next + |EncodeFiles(rest)|, seen);
    AtBoth(data, offset, EncodeFile(f), EncodeFiles(rest));
  }

  lemma {:induction false} TakeFilesRange(data: Bytes, offset: nat, count: nat, seen: set<Bytes>)
    ensures var r := TakeFiles(data, offset, count, seen);
            r.Some? ==> |r.value.0| == count && ValidFiles(r.value.0) && DistinctPaths(r.value.0, seen)
                        && r.value.1 == offset + |EncodeFiles(r.value.0)|
    decreases count
  {
    hide TakeFile, EncodeFile, ValidFile, DistinctPaths, ValidFiles, Lower;
    if count == 0 {
      NoFiles(seen);
    } else {
      var file := TakeFile(data, offset);
      TakeFileRange(data, offset);
      if file.Some? {
        var f := file.value.0;
        var rest := TakeFiles(data, file.value.1, count - 1, seen + {Lower(f.path)});
        TakeFilesRange(data, file.value.1, count - 1, seen + {Lower(f.path)});
        if rest.Some? {
          DistinctCons(f, rest.value.0, seen);
          assert ([f] + rest.value.0)[1..] == rest.value.0;
        }
      }
    }
  }

  lemma NoFiles(seen: set<Bytes>)
    ensures ValidFiles([]) && DistinctPaths([], seen)
  {
  }

  /** The fields of a body, each at its own offset. */
  predicate BodyStands(data: Bytes, b: Body) {
    && At(data, 0, b.app)
    && At(data, 16, b.release)
    && At(data, 32, Big(b.versionCode, 8))
    && At(data, 40, [b.platform, b.architecture])
    && At(data, 42, Prefixed(b.version, 2))
    && At(data, 44 + |b.version|, Big(|b.files|, 2))
    && At(data, 46 + |b.version|, EncodeFiles(b.files))
    && |data| == 46 + |b.version| + |EncodeFiles(b.files)|
  }

  lemma BodyStandsExact(data: Bytes, b: Body)
    requires |b.app| == 16 && |b.release| == 16
    ensures BodyStands(data, b) <==> data == EncodeBody(b)
  {
    hide At, Big, Prefixed, EncodeFiles;
    var t6 := Big(|b.files|, 2) + EncodeFiles(b.files);
    var t5 := Prefixed(b.version, 2) + t6;
    var t4 := [b.platform, b.architecture] + t5;
    var t3 := Big(b.versionCode, 8) + t4;
    var n := |b.version|;
    PrefixedLength(b.version, 2);
    AtBoth(data, 0, b.app, b.release + t3);
    AtBoth(data, 16, b.release, t3);
    AtBoth(data, 32, Big(b.versionCode, 8), t4);
    AtBoth(data, 40, [b.platform, b.architecture], t5);
    AtBoth(data, 42, Prefixed(b.version, 2), t6);
    AtBoth(data, 44 + n, Big(|b.files|, 2), EncodeFiles(b.files));
    AtAll(data, EncodeBody(b));
  }

  lemma TakeBodyExact(data: Bytes, b: Body)
    requires ValidBody(b)
    ensures TakeBody(data) == Some(b) <==> data == EncodeBody(b)
  {
    hide At, Big, Prefixed, TakeString, TakeNumber, TakeFiles, Limit, EncodeFiles, EncodeBody, ValidFiles, DistinctPaths;
    Limits();
    var n := |b.version|;
    BodyStandsExact(data, b);
    TakeBytesExact(data, 0, b.app);
    TakeBytesExact(data, 16, b.release);
    TakeNumberExact(data, 32, 8, b.versionCode);
    TakeNumberRange(data, 32, 8);
    TakeBytesExact(data, 40, [b.platform, b.architecture]);
    TakeStringExact(data, 42, 2, b.version);
    TakeStringRange(data, 42, 2);
    TakeNumberExact(data, 44 + n, 2, |b.files|);
    TakeNumberRange(data, 44 + n, 2);
    if 46 + n <= |data| {
      TakeFilesExact(data, 46 + n, b.files, {});
    }
    if TakeBody(data) == Some(b) {
      assert data[40..42] == [b.platform, b.architecture];
      var count := TakeNumber(data, 44 + n, 2).value.0;
      TakeFilesRange(data, 46 + n, count, {});
      assert BodyStands(data, b);
    }
    if data == EncodeBody(b) {
      assert TakeBytes(data, 40, 2) == Some(([b.platform, b.architecture], 42));
      assert TakeBytes(data, 0, 16) == Some((b.app, 16));
      assert TakeBytes(data, 16, 16) == Some((b.release, 32));
      assert TakeNumber(data, 32, 8) == Some((b.versionCode, 40));
      assert TakeString(data, 42, 2) == Some((b.version, 44 + n));
      assert TakeNumber(data, 44 + n, 2) == Some((|b.files|, 46 + n));
    }
  }

  lemma TakeBodyRange(data: Bytes)
    ensures TakeBody(data).Some? ==> ValidBody(TakeBody(data).value)
  {
    hide Big, TakeString, TakeNumber, TakeFiles, Limit, ValidFiles, DistinctPaths;
    if TakeBody(data).Some? {
      var b := TakeBody(data).value;
      TakeNumberRange(data, 32, 8);
      TakeStringRange(data, 42, 2);
      TakeNumberRange(data, 44 + |b.version|, 2);
      TakeFilesRange(data, 46 + |b.version|, TakeNumber(data, 44 + |b.version|, 2).value.0, {});
    }
  }

  predicate TrailerStands(data: Bytes, t: Trailer) {
    var a, b := 1 + |t.rootKeyId|, 2 + |t.rootKeyId| + |t.signerKeyId|;
    && At(data, 0, Prefixed(t.rootKeyId, 1))
    && At(data, a, Prefixed(t.signerKeyId, 1))
    && At(data, b, t.signerPublic)
    && At(data, b + 32, t.rootSignature)
    && At(data, b + 96, t.manifestSignature)
    && |data| == b + 160
  }

  lemma FivePartsStand(data: Bytes, p: Bytes, q: Bytes, r: Bytes, s: Bytes, t: Bytes)
    ensures && At(data, 0, p)
            && At(data, |p|, q)
            && At(data, |p| + |q|, r)
            && At(data, |p| + |q| + |r|, s)
            && At(data, |p| + |q| + |r| + |s|, t)
            && |data| == |p| + |q| + |r| + |s| + |t|
            <==> data == p + (q + (r + (s + t)))
  {
    hide At;
    AtBoth(data, 0, p, q + (r + (s + t)));
    AtBoth(data, |p|, q, r + (s + t));
    AtBoth(data, |p| + |q|, r, s + t);
    AtBoth(data, |p| + |q| + |r|, s, t);
    AtAll(data, p + (q + (r + (s + t))));
  }

  lemma TrailerStandsExact(data: Bytes, t: Trailer)
    requires |t.signerPublic| == 32 && |t.rootSignature| == 64 && |t.manifestSignature| == 64
    ensures TrailerStands(data, t) <==> data == EncodeTrailer(t)
  {
    hide At, Prefixed;
    PrefixedLength(t.rootKeyId, 1);
    PrefixedLength(t.signerKeyId, 1);
    FivePartsStand(data, Prefixed(t.rootKeyId, 1), Prefixed(t.signerKeyId, 1),
                   t.signerPublic, t.rootSignature, t.manifestSignature);
  }

  lemma TakeTrailerExact(data: Bytes, t: Trailer)
    ensures TakeTrailer(data) == Some(t) <==> ValidTrailer(t) && data == EncodeTrailer(t)
  {
    hide At, Prefixed, TakeString, Limit, EncodeTrailer;
    Limits();
    if ValidTrailer(t) {
      var a, b := 1 + |t.rootKeyId|, 2 + |t.rootKeyId| + |t.signerKeyId|;
      TrailerStandsExact(data, t);
      TakeStringExact(data, 0, 1, t.rootKeyId);
      TakeStringRange(data, 0, 1);
      TakeStringExact(data, a, 1, t.signerKeyId);
      TakeStringRange(data, a, 1);
      TakeBytesExact(data, b, t.signerPublic);
      TakeBytesExact(data, b + 32, t.rootSignature);
      TakeBytesExact(data, b + 96, t.manifestSignature);
    }
  }

  lemma CutExact(data: Bytes, body: Bytes, trailer: Bytes)
    ensures Cut(data) == Some((body, trailer))
            <==> |data| <= 64 * 1024 && body != []
                 && data == MAGIC + (Big(2, 2) + (Big(|body|, 4) + (body + trailer)))
  {
    hide At, Big, TakeNumber, Limit;
    Limits();
    TakeBytesExact(data, 0, MAGIC);
    TakeNumberExact(data, 8, 2, 2);
    TakeNumberRange(data, 8, 2);
    TakeNumberRange(data, 10, 4);
    FivePartsStand(data, MAGIC, Big(2, 2), Big(|body|, 4), body, trailer);
    AtSlice(data, 14, body);
    AtSlice(data, 14 + |body|, trailer);
    if |body| <= 64 * 1024 {
      TakeNumberExact(data, 10, 4, |body|);
    }
    if |data| <= 64 * 1024 && body != [] && data == MAGIC + (Big(2, 2) + (Big(|body|, 4) + (body + trailer))) {
      assert |body| <= |data|;
      assert TakeBytes(data, 0, 8) == Some((MAGIC, 8));
      assert TakeNumber(data, 8, 2) == Some((2, 10));
      assert TakeNumber(data, 10, 4) == Some((|body|, 14));
      assert data[14 + |body|..] == trailer;
    }
  }

  /** Parsing is exact in both directions: what is accepted is the encoding of what was read, and
      the encoding of every well-formed manifest is read back. */
  lemma StructureExact(data: Bytes, m: Manifest)
    ensures Structure(data) == Some(m) <==> WellFormed(m) && data == Encode(m)
  {
    hide Cut, TakeBody, TakeTrailer, EncodeBody, EncodeTrailer, ValidBody, ValidTrailer, Big;
    var body, trailer := EncodeBody(m.body), EncodeTrailer(m.trailer);
    CutExact(data, body, trailer);
    if ValidBody(m.body) {
      TakeBodyExact(body, m.body);
      BodyNotEmpty(m.body);
    }
    TakeTrailerExact(trailer, m.trailer);
    if Structure(data) == Some(m) {
      var parts := Cut(data).value;
      TakeBodyRange(parts.0);
      TakeBodyExact(parts.0, m.body);
      TakeTrailerExact(parts.1, m.trailer);
    }
  }

  lemma BodyNotEmpty(b: Body)
    requires ValidBody(b)
    ensures EncodeBody(b) != []
  {
  }

  // ---- the parser ----

  /** A reader that only moves forward, and never past the end of its data. */
  class Reader {
    const data: Bytes
    var offset: nat

    ghost predicate Valid()
      reads this
    {
      offset <= |data|
    }

    constructor (data: Bytes)
      ensures Valid() && this.data == data && offset == 0
    {
      this.data := data;
      offset := 0;
    }

    /** bytes(): a read past the end fails and moves nothing. */
    method ReadBytes(size: nat) returns (r: Option<Bytes>)
      requires Valid()
      modifies this
      ensures Valid()
      ensures var taken := TakeBytes(data, old(offset), size);
              if taken.None? then r.None? && offset == old(offset)
              else r == Some(taken.value.0) && offset == taken.value.1
    {
      if offset + size > |data| {
        return None;
      }
      r := Some(data[offset..offset + size]);
      offset := offset + size;
    }

    /** u8(), u16(), u32() and u64(): value = (value << 8) | data[offset++], size times. */
    method ReadNumber(size: nat) returns (r: Option<nat>)
      requires Valid()
      modifies this
      ensures Valid()
      ensures var taken := TakeNumber(data, old(offset), size);
              if taken.None? then r.None? && offset == old(offset)
              else r == Some(taken.value.0) && offset == taken.value.1
    {
      hide Number;
      if offset + size > |data| {
        return None;
      }
      var start := offset;
      var value: nat := 0;
      NumberStart(data[start..start]);
      for index := 0 to size
        invariant start == old(offset) && offset == start + index && start + size <= |data|
        invariant value == Number(data[start..start + index])
      {
        assert data[start..start + index + 1] == data[start..start + index] + [data[offset]];
        NumberStep(data[start..start + index], data[offset]);
        value := value * 256 + data[offset];
        offset := offset + 1;
      }
      return Some(value);
    }

    /** string8() and string16(). */
    method ReadString(prefix: nat) returns (r: Option<Bytes>)
      requires Valid()
      modifies this
      ensures Valid()
      ensures var taken := TakeString(data, old(offset), prefix);
              if taken.None? then r.None?
              else r == Some(taken.value.0) && offset == taken.value.1
    {
      var size :- ReadNumber(prefix);
      r := ReadBytes(size);
    }
  }

  lemma NumberStart(b: Bytes)
    requires b == []
    ensures Number(b) == 0
  {
  }

  lemma NumberStep(b: Bytes, next: Byte)
    ensures Number(b + [next]) == Number(b) * 256 + next
  {
    Append(b, next, 8);
    UpConstants(Number(b));
  }

  method ReadFile(reader: Reader) returns (r: Option<File>)
    requires reader.Valid()
    modifies reader
    ensures reader.Valid()
    ensures var taken := TakeFile(reader.data, old(reader.offset));
            if taken.None? then r.None?
            else r == Some(taken.value.0) && reader.offset == taken.value.1
  {
    hide TakeString, TakeNumber, TakeBytes;
    var path :- reader.ReadString(2);
    var size :- reader.ReadNumber(8);
    var sha256 :- reader.ReadBytes(32);
    return Some(File(path, size, sha256));
  }

  method IsValidFile(f: File) returns (valid: bool)
    requires f.size < Limit(8) && |f.sha256| == 32
    ensures valid <==> ValidFile(f)
  {
    hide SafePath, Limit;
    var safe := IsSafePath(f.path);
    var zero := true;
    for i := 0 to 32
      invariant zero <==> forall k :: 0 <= k < i ==> f.sha256[k] == 0
    {
      zero := zero && f.sha256[i] == 0;
    }
    return safe && f.size != 0 && !zero;
  }

  /** What is left of the file loop, after some files. */
  function Resume(files: seq<File>, rest: Option<(seq<File>, nat)>): Option<(seq<File>, nat)> {
    if rest.None? then None else Some((files + rest.value.0, rest.value.1))
  }

  method ReadFiles(reader: Reader, count: nat) returns (r: Option<seq<File>>)
    requires reader.Valid()
    modifies reader
    ensures reader.Valid()
    ensures var taken := TakeFiles(reader.data, old(reader.offset), count, {});
            if taken.None? then r.None?
            else r == Some(taken.value.0) && reader.offset == taken.value.1
  {
    hide TakeFile, ValidFile, Lower, Limit, FileFits;
    var files: seq<File> := [];
    var paths: set<Bytes> := {};
    ghost var all := TakeFiles(reader.data, reader.offset, count, {});
    assert all.Some? ==> [] + all.value.0 == all.value.0;
    for index := 0 to count
      invariant reader.Valid()
      invariant all == Resume(files, TakeFiles(reader.data, reader.offset, count - index, paths))
    {
      TakeFileFits(reader.data, reader.offset);
      ghost var rest := TakeFiles(reader.data, reader.offset, count - index, paths);
      var file :- ReadFile(reader);
      var lowered := Lower(file.path);
      var valid := IsValidFile(file);
      if !valid || lowered in paths {
        return None;
      }
      ghost var next := TakeFiles(reader.data, reader.offset, count - index - 1, paths + {lowered});
      assert rest == Resume([file], next);
      assert next.Some? ==> files + ([file] + next.value.0) == (files + [file]) + next.value.0;
      paths := paths + {lowered};
      files := files + [file];
    }
    assert files + [] == files;
    return Some(files);
  }

  lemma TakeFileFits(data: Bytes, offset: nat)
    ensures var r := TakeFile(data, offset);
            r.Some? ==> r.value.0.size < Limit(8) && |r.value.0.sha256| == 32
  {
    hide TakeFile, Limit;
    TakeFileRange(data, offset);
  }

  method ReadBody(data: Bytes) returns (r: Option<Body>)
    ensures r == TakeBody(data)
  {
    hide TakeString, TakeNumber, TakeFiles;
    var reader := new Reader(data);
    var app :- reader.ReadBytes(16);
    var release :- reader.ReadBytes(16);
    var versionCode :- reader.ReadNumber(8);
    var codes :- reader.ReadBytes(2);
    var version :- reader.ReadString(2);
    var count :- reader.ReadNumber(2);
    if count == 0 || count > 255 || version == [] || |version| > 100 {
      return None;
    }
    var files :- ReadFiles(reader, count);
    if reader.offset != |data| {
      return None;
    }
    return Some(Body(app, release, versionCode, codes[0], codes[1], version, files));
  }

  method ReadTrailer(data: Bytes) returns (r: Option<Trailer>)
    ensures r == TakeTrailer(data)
  {
    hide TakeString;
    var reader := new Reader(data);
    var rootKeyId :- reader.ReadString(1);
    var signerKeyId :- reader.ReadString(1);
    var signerPublic :- reader.ReadBytes(32);
    var rootSignature :- reader.ReadBytes(64);
    var manifestSignature :- reader.ReadBytes(64);
    if reader.offset != |data| || rootKeyId == [] || |rootKeyId| > 64 || signerKeyId == [] || |signerKeyId| > 64 {
      return None;
    }
    return Some(Trailer(rootKeyId, signerKeyId, signerPublic, rootSignature, manifestSignature));
  }

  method ParseStructure(manifest: Bytes) returns (r: Option<Manifest>)
    ensures forall m :: r == Some(m) <==> WellFormed(m) && manifest == Encode(m)
  {
    forall m ensures Structure(manifest) == Some(m) <==> WellFormed(m) && manifest == Encode(m) {
      StructureExact(manifest, m);
    }
    r := ReadStructure(manifest);
  }

  method ReadStructure(manifest: Bytes) returns (r: Option<Manifest>)
    ensures r == Structure(manifest)
  {
    hide TakeBody, TakeTrailer, TakeNumber, TakeBytes;
    if manifest == [] || |manifest| > 64 * 1024 {
      return None;
    }
    var reader := new Reader(manifest);
    var header :- reader.ReadBytes(8);
    var version :- reader.ReadNumber(2);
    if header != MAGIC || version != 2 {
      return None;
    }
    var bodySize :- reader.ReadNumber(4);
    if bodySize == 0 || bodySize > |manifest| - reader.offset {
      return None;
    }
    var bodyOffset := reader.offset;
    var body :- ReadBody(manifest[bodyOffset..bodyOffset + bodySize]);
    var trailer :- ReadTrailer(manifest[bodyOffset + bodySize..]);
    return Some(Manifest(body, trailer));
  }
}
