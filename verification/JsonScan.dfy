/** The grammar of sections 2, 4 and 7 of RFC 8259, as a printer: every JSON text is the text of
    some Value, with any whitespace the grammar allows. */
module JsonGrammar {
  import opened Basics

  const QUOTE: Byte := '"' as int
  const BACKSLASH: Byte := '\\' as int
  const OPEN_BRACE: Byte := '{' as int
  const CLOSE_BRACE: Byte := '}' as int
  const OPEN_BRACKET: Byte := '[' as int
  const CLOSE_BRACKET: Byte := ']' as int
  const COMMA: Byte := ',' as int
  const COLON: Byte := ':' as int

  predicate IsSpace(b: Byte) {
    b == ' ' as int || b == '\t' as int || b == '\r' as int || b == '\n' as int
  }

  predicate Spaces(s: Bytes) {
    forall i :: 0 <= i < |s| ==> IsSpace(s[i])
  }

  predicate SomeDigits(s: Bytes) {
    s != [] && forall i :: 0 <= i < |s| ==> IsDigit(s[i])
  }

  predicate IsHex(b: Byte) {
    IsDigit(b) || 'a' as int <= b <= 'f' as int || 'A' as int <= b <= 'F' as int
  }

  // ---- section 6 and 3: numbers and the three literal names ----

  datatype Exponent = Exponent(letter: Byte, sign: Bytes, digits: Bytes)

  datatype Literal =
    | True
    | False
    | Null
    | Number(minus: bool, whole: Bytes, fraction: Option<Bytes>, exponent: Option<Exponent>)

  predicate ValidLiteral(a: Literal) {
    a.Number? ==>
      && SomeDigits(a.whole) && (a.whole[0] == '0' as int ==> |a.whole| == 1)
      && (a.fraction.Some? ==> SomeDigits(a.fraction.value))
      && (a.exponent.Some? ==>
            && (a.exponent.value.letter == 'e' as int || a.exponent.value.letter == 'E' as int)
            && (a.exponent.value.sign == [] || a.exponent.value.sign == ['+' as int]
                || a.exponent.value.sign == ['-' as int])
            && SomeDigits(a.exponent.value.digits))
  }

  function LiteralText(a: Literal): Bytes {
    match a
    case True => ['t' as int, 'r' as int, 'u' as int, 'e' as int]
    case False => ['f' as int, 'a' as int, 'l' as int, 's' as int, 'e' as int]
    case Null => ['n' as int, 'u' as int, 'l' as int, 'l' as int]
    case Number(minus, whole, fraction, exponent) =>
      (if minus then ['-' as int] else []) + whole
      + (if fraction.Some? then ['.' as int] + fraction.value else [])
      + (if exponent.Some? then [exponent.value.letter] + exponent.value.sign + exponent.value.digits else [])
  }

  // ---- section 7: strings ----

  predicate ShortEscape(b: Byte) {
    b == QUOTE || b == BACKSLASH || b == '/' as int || b == 'b' as int || b == 'f' as int
    || b == 'n' as int || b == 'r' as int || b == 't' as int
  }

  predicate ValidChars(c: Bytes) {
    if c == [] then true
    else if c[0] == BACKSLASH then
      if |c| >= 6 && c[1] == 'u' as int then
        IsHex(c[2]) && IsHex(c[3]) && IsHex(c[4]) && IsHex(c[5]) && ValidChars(c[6..])
      else |c| >= 2 && ShortEscape(c[1]) && ValidChars(c[2..])
    else c[0] >= 0x20 && c[0] != QUOTE && ValidChars(c[1..])
  }

  function Quoted(chars: Bytes): Bytes {
    [QUOTE] + chars + [QUOTE]
  }

  // ---- values, arrays and objects ----

  datatype Value =
    | Atom(literal: Literal)
    | Text(chars: Bytes)
    | Array(elements: Elements)
    | Object(members: Members)

  datatype Elements =
    | NoElements(space: Bytes)
    | OneElement(before: Bytes, value: Value, after: Bytes)
    | MoreElements(before: Bytes, value: Value, after: Bytes, rest: Elements)

  datatype Members =
    | NoMembers(space: Bytes)
    | OneMember(before: Bytes, key: Bytes, colonBefore: Bytes, colonAfter: Bytes, value: Value, after: Bytes)
    | MoreMembers(before: Bytes, key: Bytes, colonBefore: Bytes, colonAfter: Bytes, value: Value, after: Bytes,
                  rest: Members)

  predicate Valid(v: Value) {
    match v
    case Atom(literal) => ValidLiteral(literal)
    case Text(chars) => ValidChars(chars)
    case Array(elements) => ValidElements(elements)
    case Object(members) => ValidMembers(members)
  }

  predicate ValidElements(es: Elements) {
    match es
    case NoElements(space) => Spaces(space)
    case OneElement(before, value, after) => Spaces(before) && Valid(value) && Spaces(after)
    case MoreElements(before, value, after, rest) =>
      Spaces(before) && Valid(value) && Spaces(after) && !rest.NoElements? && ValidElements(rest)
  }

  predicate ValidMembers(ms: Members) {
    match ms
    case NoMembers(space) => Spaces(space)
    case OneMember(before, key, colonBefore, colonAfter, value, after) =>
      && Spaces(before) && ValidChars(key) && Spaces(colonBefore) && Spaces(colonAfter)
      && Valid(value) && Spaces(after)
    case MoreMembers(before, key, colonBefore, colonAfter, value, after, rest) =>
      && Spaces(before) && ValidChars(key) && Spaces(colonBefore) && Spaces(colonAfter)
      && Valid(value) && Spaces(after) && !rest.NoMembers? && ValidMembers(rest)
  }

  function Print(v: Value): Bytes {
    match v
    case Atom(literal) => LiteralText(literal)
    case Text(chars) => Quoted(chars)
    case Array(elements) => [OPEN_BRACKET] + PrintElements(elements) + [CLOSE_BRACKET]
    case Object(members) => [OPEN_BRACE] + PrintMembers(members) + [CLOSE_BRACE]
  }

  function PrintElements(es: Elements): Bytes {
    match es
    case NoElements(space) => space
    case OneElement(before, value, after) => before + (Print(value) + after)
    case MoreElements(before, value, after, rest) =>
      before + (Print(value) + (after + ([COMMA] + PrintElements(rest))))
  }

  function PrintKey(key: Bytes, colonBefore: Bytes, colonAfter: Bytes): Bytes {
    Quoted(key) + (colonBefore + ([COLON] + colonAfter))
  }

  function PrintMembers(ms: Members): Bytes {
    match ms
    case NoMembers(space) => space
    case OneMember(before, key, colonBefore, colonAfter, value, after) =>
      before + (PrintKey(key, colonBefore, colonAfter) + (Print(value) + after))
    case MoreMembers(before, key, colonBefore, colonAfter, value, after, rest) =>
      before + (PrintKey(key, colonBefore, colonAfter) + (Print(value) + (after + ([COMMA] + PrintMembers(rest)))))
  }

  /** A byte that ends no literal and opens or closes nothing. */
  predicate Plain(b: Byte) {
    && b != QUOTE && b != OPEN_BRACE && b != CLOSE_BRACE
    && b != OPEN_BRACKET && b != CLOSE_BRACKET && b != COMMA
  }

  /** Text the scanner steps over byte by byte. */
  predicate Solid(t: Bytes) {
    forall i :: 0 <= i < |t| ==> Plain(t[i]) && !IsSpace(t[i])
  }

  lemma SolidConcat(a: Bytes, b: Bytes)
    requires Solid(a) && Solid(b)
    ensures Solid(a + b)
  {
  }

  lemma NumberIsSolid(minus: Bytes, whole: Bytes, fraction: Bytes, exponent: Bytes)
    requires Solid(minus) && Solid(whole) && Solid(fraction) && Solid(exponent)
    ensures Solid(minus + whole + fraction + exponent)
  {
    SolidConcat(minus, whole);
    SolidConcat(minus + whole, fraction);
    SolidConcat(minus + whole + fraction, exponent);
  }

  lemma LiteralIsSolid(a: Literal)
    requires ValidLiteral(a)
    ensures LiteralText(a) != [] && Solid(LiteralText(a))
  {
    if a.Number? {
      NumberIsSolid(if a.minus then ['-' as int] else [], a.whole,
                    if a.fraction.Some? then ['.' as int] + a.fraction.value else [],
                    if a.exponent.Some?
                    then [a.exponent.value.letter] + a.exponent.value.sign + a.exponent.value.digits else []);
    }
  }
}

/** The raw member scanner of common.cpp: it finds the exact bytes of a top-level member. */
module JsonScan {
  import opened Basics
  import opened JsonGrammar
  import opened Slices

  // ---- what the three scanners compute ----

  function SkipSpace(s: Bytes, offset: nat): (r: nat)
    requires offset <= |s|
    ensures offset <= r <= |s| && Spaces(s[offset..r])
    ensures r < |s| ==> !IsSpace(s[r])
    decreases |s| - offset
  {
    if offset < |s| && IsSpace(s[offset]) then SkipSpace(s, offset + 1) else offset
  }

  /** The offset after the closing quote, from inside a string. */
  function StringRest(s: Bytes, offset: nat, escaped: bool): (r: Option<nat>)
    requires offset <= |s|
    ensures r.Some? ==> offset < r.value <= |s| && s[r.value - 1] == QUOTE
    decreases |s| - offset
  {
    if offset == |s| then None
    else if escaped then StringRest(s, offset + 1, false)
    else if s[offset] == BACKSLASH then StringRest(s, offset + 1, true)
    else if s[offset] == QUOTE then Some(offset + 1)
    else StringRest(s, offset + 1, false)
  }

  function StringEnd(s: Bytes, offset: nat): (r: Option<nat>)
    ensures r.Some? ==> offset + 1 < r.value <= |s| && s[offset] == QUOTE && s[r.value - 1] == QUOTE
  {
    if offset >= |s| || s[offset] != QUOTE then None else StringRest(s, offset + 1, false)
  }

  function ScalarStop(s: Bytes, offset: nat): (r: nat)
    requires offset <= |s|
    ensures offset <= r <= |s|
    decreases |s| - offset
  {
    if offset < |s| && s[offset] != COMMA && s[offset] != CLOSE_BRACE then ScalarStop(s, offset + 1) else offset
  }

  function TrimBack(s: Bytes, offset: nat): (r: nat)
    requires offset <= |s|
    ensures r <= offset && (r > 0 ==> !IsSpace(s[r - 1]))
  {
    if offset > 0 && IsSpace(s[offset - 1]) then TrimBack(s, offset - 1) else offset
  }

  /** The offset after the bracket that empties the stack of awaited closing brackets. */
  function ContainerEnd(s: Bytes, offset: nat, closing: Bytes): (r: Option<nat>)
    requires offset <= |s|
    ensures r.Some? ==> offset < r.value <= |s| && (s[r.value - 1] == CLOSE_BRACE || s[r.value - 1] == CLOSE_BRACKET)
    decreases |s| - offset
  {
    if offset == |s| then None
    else
      var c := s[offset];
      if c == QUOTE then
        var end := StringEnd(s, offset);
        if end.None? then None else ContainerEnd(s, end.value, closing)
      else if c == OPEN_BRACE || c == OPEN_BRACKET then
        ContainerEnd(s, offset + 1, closing + [if c == OPEN_BRACE then CLOSE_BRACE else CLOSE_BRACKET])
      else if c == CLOSE_BRACE || c == CLOSE_BRACKET then
        if closing == [] || closing[|closing| - 1] != c then None
        else if |closing| == 1 then Some(offset + 1)
        else ContainerEnd(s, offset + 1, closing[..|closing| - 1])
      else ContainerEnd(s, offset + 1, closing)
  }

  function ValueEnd(s: Bytes, offset: nat): (r: Option<nat>)
    ensures r.Some? ==> r.value <= |s|
    ensures r.Some? && offset < r.value ==> !IsSpace(s[r.value - 1])
  {
    if offset >= |s| then None
    else if s[offset] == QUOTE then StringEnd(s, offset)
    else if s[offset] != OPEN_BRACE && s[offset] != OPEN_BRACKET then Some(TrimBack(s, ScalarStop(s, offset)))
    else ContainerEnd(s, offset, [])
  }

  /** A member as the scanner sees it: its decoded key and where its value stands. */
  datatype Found = Found(key: Bytes, begin: nat, end: nat)

  /** One member, from the offset where its key may start. */
  function ReadMember(s: Bytes, offset: nat, decode: Bytes -> Option<Bytes>): (r: Option<Found>)
    requires offset <= |s|
    ensures r.Some? ==> offset < r.value.begin <= r.value.end <= |s|
    ensures r.Some? && r.value.begin < r.value.end
            ==> !IsSpace(s[r.value.begin]) && !IsSpace(s[r.value.end - 1])
  {
    var keyBegin := SkipSpace(s, offset);
    if keyBegin == |s| || s[keyBegin] == CLOSE_BRACE then None
    else
      var keyEnd :- StringEnd(s, keyBegin);
      var key :- decode(s[keyBegin..keyEnd]);
      var colon := SkipSpace(s, keyEnd);
      if colon == |s| || s[colon] != COLON then None
      else
        var begin := SkipSpace(s, colon + 1);
        var end :- ValueEnd(s, begin);
        if end < begin then None else Some(Found(key, begin, end))
  }

  /** The member loop. */
  function MemberFrom(s: Bytes, offset: nat, member: Bytes, decode: Bytes -> Option<Bytes>): Option<Bytes>
    requires offset <= |s|
    decreases |s| - offset
  {
    var found :- ReadMember(s, offset, decode);
    if found.key == member then Some(s[found.begin..found.end])
    else
      var next := SkipSpace(s, found.end);
      if next < |s| && s[next] == COMMA then MemberFrom(s, next + 1, member, decode) else None
  }

  function MemberRaw(s: Bytes, member: Bytes, decode: Bytes -> Option<Bytes>): Option<Bytes> {
    var open := SkipSpace(s, 0);
    if open == |s| || s[open] != OPEN_BRACE then None else MemberFrom(s, open + 1, member, decode)
  }

  // ---- the loops ----

  method SkipJsonWhitespace(s: Bytes, start: nat) returns (offset: nat)
    requires start <= |s|
    ensures offset == SkipSpace(s, start)
  {
    offset := start;
    while offset < |s| && IsSpace(s[offset])
      invariant start <= offset <= |s| && SkipSpace(s, start) == SkipSpace(s, offset)
    {
      offset := offset + 1;
    }
  }

  method ScanJsonString(s: Bytes, start: nat) returns (end: Option<nat>)
    ensures end == StringEnd(s, start)
  {
    if start >= |s| || s[start] != QUOTE {
      return None;
    }
    var offset := start + 1;
    var escaped := false;
    while offset < |s|
      invariant start < offset <= |s| && StringEnd(s, start) == StringRest(s, offset, escaped)
    {
      var character := s[offset];
      offset := offset + 1;
      if escaped {
        escaped := false;
        continue;
      }
      if character == BACKSLASH {
        escaped := true;
        continue;
      }
      if character == QUOTE {
        return Some(offset);
      }
    }
    return None;
  }

  method ScanJsonValue(s: Bytes, start: nat) returns (end: Option<nat>)
    ensures end == ValueEnd(s, start)
  {
    var offset := start;
    if offset >= |s| {
      return None;
    }
    if s[offset] == QUOTE {
      end := ScanJsonString(s, offset);
      return;
    }
    if s[offset] != OPEN_BRACE && s[offset] != OPEN_BRACKET {
      while offset < |s| && s[offset] != COMMA && s[offset] != CLOSE_BRACE
        invariant start <= offset <= |s| && ScalarStop(s, start) == ScalarStop(s, offset)
      {
        offset := offset + 1;
      }
      while offset > 0 && IsSpace(s[offset - 1])
        invariant 0 <= offset <= |s| && TrimBack(s, ScalarStop(s, start)) == TrimBack(s, offset)
      {
        offset := offset - 1;
      }
      return Some(offset);
    }
    var closing: Bytes := [];
    while offset < |s|
      invariant start <= offset <= |s| && ValueEnd(s, start) == ContainerEnd(s, offset, closing)
    {
      var character := s[offset];
      if character == QUOTE {
        var after := ScanJsonString(s, offset);
        if after.None? {
          return None;
        }
        offset := after.value;
        continue;
      }
      if character == OPEN_BRACE || character == OPEN_BRACKET {
        closing := closing + [if character == OPEN_BRACE then CLOSE_BRACE else CLOSE_BRACKET];
        offset := offset + 1;
        continue;
      }
      if character == CLOSE_BRACE || character == CLOSE_BRACKET {
        if closing == [] || closing[|closing| - 1] != character {
          return None;
        }
        closing := closing[..|closing| - 1];
        offset := offset + 1;
        if closing == [] {
          return Some(offset);
        }
        continue;
      }
      offset := offset + 1;
    }
    return None;
  }

  /** One pass of the loop below. decode is the JSON library reading one string token; it may
      refuse it. */
  method ScanMember(document: Bytes, start: nat, decode: Bytes -> Option<Bytes>) returns (found: Option<Found>)
    requires start <= |document|
    ensures found == ReadMember(document, start, decode)
  {
    hide SkipSpace, StringEnd, ValueEnd;
    var offset := SkipJsonWhitespace(document, start);
    if offset >= |document| || document[offset] == CLOSE_BRACE {
      return None;
    }
    var keyBegin := offset;
    var keyEnd := ScanJsonString(document, keyBegin);
    if keyEnd.None? {
      return None;
    }
    var key := decode(document[keyBegin..keyEnd.value]);
    if key.None? {
      return None;
    }
    offset := SkipJsonWhitespace(document, keyEnd.value);
    if offset >= |document| || document[offset] != COLON {
      return None;
    }
    var valueBegin := SkipJsonWhitespace(document, offset + 1);
    var valueEnd := ScanJsonValue(document, valueBegin);
    if valueEnd.None? || valueEnd.value < valueBegin {
      return None;
    }
    return Some(Found(key.value, valueBegin, valueEnd.value));
  }

  method ExtractJsonMemberRaw(document: Bytes, member: Bytes, decode: Bytes -> Option<Bytes>)
    returns (raw: Option<Bytes>)
    ensures raw == MemberRaw(document, member, decode)
  {
    hide SkipSpace, ReadMember;
    var offset := SkipJsonWhitespace(document, 0);
    if offset >= |document| || document[offset] != OPEN_BRACE {
      return None;
    }
    offset := offset + 1;
    while true
      invariant offset <= |document|
      invariant MemberRaw(document, member, decode) == MemberFrom(document, offset, member, decode)
      decreases |document| - offset
    {
      var found := ScanMember(document, offset, decode);
      if found.None? {
        return None;
      }
      if found.value.key == member {
        return Some(document[found.value.begin..found.value.end]);
      }
      var next := SkipJsonWhitespace(document, found.value.end);
      if next >= |document| || document[next] != COMMA {
        return None;
      }
      offset := next + 1;
    }
  }

  // ---- scanning printed text ----

  lemma {:induction false} SkipSpaces(s: Bytes, offset: nat, t: Bytes)
    requires At(s, offset, t) && Spaces(t)
    requires offset + |t| < |s| && !IsSpace(s[offset + |t|])
    ensures SkipSpace(s, offset) == offset + |t|
    decreases |t|
  {
    if t == [] {
    } else {
      AtHead(s, offset, t);
      SkipSpaces(s, offset + 1, t[1..]);
    }
  }

  lemma ScanShortEscape(s: Bytes, offset: nat, t: Bytes)
    requires At(s, offset, t) && |t| == 2 && t[0] == BACKSLASH
    ensures StringRest(s, offset, false) == StringRest(s, offset + 2, false)
  {
    AtHead(s, offset, t);
    assert StringRest(s, offset, false) == StringRest(s, offset + 1, true);
  }

  lemma {:induction false} ScanOrdinary(s: Bytes, offset: nat, t: Bytes)
    requires At(s, offset, t)
    requires forall i :: 0 <= i < |t| ==> t[i] != BACKSLASH && t[i] != QUOTE
    ensures StringRest(s, offset, false) == StringRest(s, offset + |t|, false)
    decreases |t|
  {
    if t == [] {
    } else {
      AtHead(s, offset, t);
      ScanOrdinary(s, offset + 1, t[1..]);
    }
  }

  /** How many bytes the first character of a string takes. */
  function CharLength(chars: Bytes): (n: nat)
    requires ValidChars(chars) && chars != []
    ensures n <= |chars| && ValidChars(chars[n..])
    ensures (n == 1 && chars[0] != BACKSLASH && chars[0] != QUOTE) || (n >= 2 && chars[0] == BACKSLASH)
    ensures forall i :: 2 <= i < n ==> IsHex(chars[i])
  {
    if chars[0] != BACKSLASH then 1 else if |chars| >= 6 && chars[1] == 'u' as int then 6 else 2
  }

  lemma ScanChar(s: Bytes, offset: nat, c: Bytes)
    requires At(s, offset, c)
    requires (|c| == 1 && c[0] != BACKSLASH && c[0] != QUOTE) || (|c| >= 2 && c[0] == BACKSLASH)
    requires forall i :: 2 <= i < |c| ==> IsHex(c[i])
    ensures StringRest(s, offset, false) == StringRest(s, offset + |c|, false)
  {
    hide At, StringRest;
    if |c| == 1 {
      ScanOrdinary(s, offset, c);
    } else {
      assert c == c[..2] + c[2..];
      AtSplit(s, offset, c[..2], c[2..]);
      ScanShortEscape(s, offset, c[..2]);
      ScanOrdinary(s, offset + 2, c[2..]);
    }
  }

  /** The first character of a string, and the others. */
  lemma CharParts(chars: Bytes) returns (first: Bytes, rest: Bytes)
    requires ValidChars(chars) && chars != []
    ensures chars == first + rest && |rest| < |chars| && ValidChars(rest)
    ensures (|first| == 1 && first[0] != BACKSLASH && first[0] != QUOTE) || (|first| >= 2 && first[0] == BACKSLASH)
    ensures forall i :: 2 <= i < |first| ==> IsHex(first[i])
  {
    hide ValidChars, CharLength, IsHex;
    var n := CharLength(chars);
    first, rest := chars[..n], chars[n..];
  }

  lemma {:induction false} ScanChars(s: Bytes, offset: nat, chars: Bytes)
    requires ValidChars(chars) && At(s, offset, chars) && offset + |chars| < |s| && s[offset + |chars|] == QUOTE
    ensures StringRest(s, offset, false) == Some(offset + |chars| + 1)
    decreases |chars|
  {
    hide At, ValidChars, StringRest, IsHex;
    if chars == [] {
      RestAtQuote(s, offset);
    } else {
      var first, rest := CharParts(chars);
      AtSplit(s, offset, first, rest);
      ScanChar(s, offset, first);
      var next := offset + |first|;
      assert next + |rest| == offset + |chars|;
      ScanChars(s, next, rest);
    }
  }

  lemma RestAtQuote(s: Bytes, offset: nat)
    requires offset < |s| && s[offset] == QUOTE
    ensures StringRest(s, offset, false) == Some(offset + 1)
  {
  }

  lemma ScanQuoted(s: Bytes, offset: nat, chars: Bytes)
    requires ValidChars(chars) && At(s, offset, Quoted(chars))
    ensures StringEnd(s, offset) == Some(offset + |Quoted(chars)|)
  {
    OpenClose(s, offset, QUOTE, chars, QUOTE);
    ScanChars(s, offset + 1, chars);
  }

  lemma OpenClose(s: Bytes, offset: nat, open: Byte, inner: Bytes, close: Byte)
    requires At(s, offset, [open] + inner + [close])
    ensures offset + |inner| + 2 <= |s|
    ensures s[offset] == open && At(s, offset + 1, inner) && s[offset + 1 + |inner|] == close
  {
    AtSplit(s, offset, [open] + inner, [close]);
    AtSplit(s, offset, [open], inner);
    AtHead(s, offset, [open]);
    AtHead(s, offset + 1 + |inner|, [close]);
  }

  /** Inside a container, text without quotes or brackets is stepped over. */
  lemma {:induction false} PassPlain(s: Bytes, offset: nat, t: Bytes, closing: Bytes)
    requires At(s, offset, t)
    requires forall i :: 0 <= i < |t| ==> Plain(t[i]) || t[i] == COMMA
    ensures ContainerEnd(s, offset, closing) == ContainerEnd(s, offset + |t|, closing)
    decreases |t|
  {
    if t == [] {
    } else {
      AtHead(s, offset, t);
      PassPlain(s, offset + 1, t[1..], closing);
    }
  }

  lemma PassSpaces(s: Bytes, offset: nat, t: Bytes, closing: Bytes)
    requires At(s, offset, t) && Spaces(t)
    ensures ContainerEnd(s, offset, closing) == ContainerEnd(s, offset + |t|, closing)
  {
    PassPlain(s, offset, t, closing);
  }

  /** Whitespace, then a comma. */
  lemma PassComma(s: Bytes, offset: nat, after: Bytes, rest: Bytes, closing: Bytes)
    requires At(s, offset, after + ([COMMA] + rest)) && Spaces(after)
    ensures At(s, offset + |after| + 1, rest)
    ensures ContainerEnd(s, offset, closing) == ContainerEnd(s, offset + |after| + 1, closing)
  {
    hide At, ContainerEnd;
    AtSplit(s, offset, after, [COMMA] + rest);
    AtSplit(s, offset + |after|, [COMMA], rest);
    PassSpaces(s, offset, after, closing);
    PassPlain(s, offset + |after|, [COMMA], closing);
  }

  lemma PassQuoted(s: Bytes, offset: nat, chars: Bytes, closing: Bytes)
    requires ValidChars(chars) && At(s, offset, Quoted(chars))
    ensures ContainerEnd(s, offset, closing) == ContainerEnd(s, offset + |Quoted(chars)|, closing)
  {
    ScanQuoted(s, offset, chars);
  }

  lemma PassAtom(s: Bytes, offset: nat, literal: Literal, closing: Bytes)
    requires ValidLiteral(literal) && At(s, offset, LiteralText(literal))
    ensures ContainerEnd(s, offset, closing) == ContainerEnd(s, offset + |LiteralText(literal)|, closing)
  {
    LiteralIsSolid(literal);
    PassPlain(s, offset, LiteralText(literal), closing);
  }

  function Closer(open: Byte): Byte {
    if open == OPEN_BRACE then CLOSE_BRACE else CLOSE_BRACKET
  }

  lemma PassOpen(s: Bytes, offset: nat, open: Byte, closing: Bytes)
    requires offset < |s| && s[offset] == open && (open == OPEN_BRACE || open == OPEN_BRACKET)
    ensures ContainerEnd(s, offset, closing) == ContainerEnd(s, offset + 1, closing + [Closer(open)])
  {
  }

  lemma PassClose(s: Bytes, offset: nat, close: Byte, closing: Bytes)
    requires offset < |s| && s[offset] == close && (close == CLOSE_BRACE || close == CLOSE_BRACKET)
    ensures ContainerEnd(s, offset, closing + [close])
            == if closing == [] then Some(offset + 1) else ContainerEnd(s, offset + 1, closing)
  {
    assert (closing + [close])[..|closing|] == closing;
  }

  /** Inside a container, a whole value is stepped over and the stack of brackets comes back. */
  lemma {:induction false} PassValue(s: Bytes, offset: nat, v: Value, closing: Bytes)
    requires Valid(v) && At(s, offset, Print(v)) && closing != []
    ensures ContainerEnd(s, offset, closing) == ContainerEnd(s, offset + |Print(v)|, closing)
    decreases v, 0
  {
    hide At, ContainerEnd, Spaces, ValidElements, ValidMembers, PrintElements, PrintMembers, ValidLiteral, LiteralText,
         ValidChars, Quoted;
    match v
    case Atom(literal) =>
      PassAtom(s, offset, literal, closing);
    case Text(chars) =>
      PassQuoted(s, offset, chars, closing);
    case Array(elements) =>
      OpenClose(s, offset, OPEN_BRACKET, PrintElements(elements), CLOSE_BRACKET);
      PassOpen(s, offset, OPEN_BRACKET, closing);
      PassElements(s, offset + 1, elements, closing + [CLOSE_BRACKET]);
      PassClose(s, offset + 1 + |PrintElements(elements)|, CLOSE_BRACKET, closing);
    case Object(members) =>
      OpenClose(s, offset, OPEN_BRACE, PrintMembers(members), CLOSE_BRACE);
      PassOpen(s, offset, OPEN_BRACE, closing);
      PassMembers(s, offset + 1, members, closing + [CLOSE_BRACE]);
      PassClose(s, offset + 1 + |PrintMembers(members)|, CLOSE_BRACE, closing);
  }

  lemma {:induction false} PassElements(s: Bytes, offset: nat, es: Elements, closing: Bytes)
    requires ValidElements(es) && At(s, offset, PrintElements(es)) && closing != []
    ensures ContainerEnd(s, offset, closing) == ContainerEnd(s, offset + |PrintElements(es)|, closing)
    decreases es
  {
    hide At, ContainerEnd, Spaces, Print, Valid, PrintElements;
    ElementsPrinted(es);
    match es
    case NoElements(space) =>
      PassSpaces(s, offset, space, closing);
    case OneElement(before, value, after) =>
      PassSpacedValue(s, offset, before, value, after, closing);
      PassSpaces(s, offset + |before| + |Print(value)|, after, closing);
    case MoreElements(before, value, after, rest) =>
      var tail := after + ([COMMA] + PrintElements(rest));
      var tailAt := offset + |before| + |Print(value)|;
      PassSpacedValue(s, offset, before, value, tail, closing);
      PassComma(s, tailAt, after, PrintElements(rest), closing);
      PassElements(s, tailAt + |after| + 1, rest, closing);
      assert offset + |PrintElements(es)| == tailAt + |after| + 1 + |PrintElements(rest)|;
  }

  lemma ElementsPrinted(es: Elements)
    ensures es.NoElements? ==> PrintElements(es) == es.space
    ensures es.OneElement? ==> PrintElements(es) == es.before + (Print(es.value) + es.after)
                               && |PrintElements(es)| == |es.before| + |Print(es.value)| + |es.after|
    ensures es.MoreElements? ==>
              PrintElements(es) == es.before + (Print(es.value) + (es.after + ([COMMA] + PrintElements(es.rest))))
              && |PrintElements(es)| == |es.before| + |Print(es.value)| + |es.after| + 1 + |PrintElements(es.rest)|
  {
    hide Print;
  }

  /** Whitespace, then a value. */
  lemma {:induction false} PassSpacedValue(s: Bytes, offset: nat, before: Bytes, v: Value, tail: Bytes, closing: Bytes)
    requires Spaces(before) && Valid(v) && At(s, offset, before + (Print(v) + tail)) && closing != []
    ensures At(s, offset + |before| + |Print(v)|, tail)
    ensures ContainerEnd(s, offset, closing) == ContainerEnd(s, offset + |before| + |Print(v)|, closing)
    decreases v, 1
  {
    hide At, ContainerEnd, Spaces, Print, Valid;
    AtSplit(s, offset, before, Print(v) + tail);
    AtSplit(s, offset + |before|, Print(v), tail);
    PassSpaces(s, offset, before, closing);
    PassValue(s, offset + |before|, v, closing);
  }

  lemma PassKey(s: Bytes, offset: nat, key: Bytes, colonBefore: Bytes, colonAfter: Bytes, closing: Bytes)
    requires ValidChars(key) && Spaces(colonBefore) && Spaces(colonAfter)
    requires At(s, offset, PrintKey(key, colonBefore, colonAfter))
    ensures ContainerEnd(s, offset, closing)
            == ContainerEnd(s, offset + |PrintKey(key, colonBefore, colonAfter)|, closing)
  {
    hide ContainerEnd;
    hide At;
    AtSplit(s, offset, Quoted(key), colonBefore + ([COLON] + colonAfter));
    PassQuoted(s, offset, key, closing);
    PassPlain(s, offset + |Quoted(key)|, colonBefore + ([COLON] + colonAfter), closing);
  }

  lemma {:induction false} PassMembers(s: Bytes, offset: nat, ms: Members, closing: Bytes)
    requires ValidMembers(ms) && At(s, offset, PrintMembers(ms)) && closing != []
    ensures ContainerEnd(s, offset, closing) == ContainerEnd(s, offset + |PrintMembers(ms)|, closing)
    decreases ms, 1
  {
    hide At, ContainerEnd, Spaces, Print, Valid, PrintKey, ValidChars, PrintMembers, ValidMembers;
    if ms.NoMembers? {
      NoMembersValid(ms);
      MembersPrinted(ms);
      PassSpaces(s, offset, ms.space, closing);
    } else {
      MemberValid(ms);
      var restAt := PassMember(s, offset, ms, closing);
      if ms.MoreMembers? {
        PassMembers(s, restAt, ms.rest, closing);
      }
    }
  }

  /** The first member, up to the members after it or the end of all. */
  lemma {:induction false} PassMember(s: Bytes, offset: nat, ms: Members, closing: Bytes) returns (restAt: nat)
    requires ValidMembers(ms) && !ms.NoMembers? && At(s, offset, PrintMembers(ms)) && closing != []
    ensures restAt <= |s| && ContainerEnd(s, offset, closing) == ContainerEnd(s, restAt, closing)
    ensures ms.OneMember? ==> restAt == offset + |PrintMembers(ms)|
    ensures ms.MoreMembers? ==> At(s, restAt, PrintMembers(ms.rest))
                                && restAt + |PrintMembers(ms.rest)| == offset + |PrintMembers(ms)|
    decreases ms, 0
  {
    hide At, ContainerEnd, Spaces, Print, Valid, PrintKey, ValidChars, PrintMembers, ValidMembers, MemberTail;
    MemberValid(ms);
    MembersPrinted(ms);
    var tailAt := offset + |ms.before| + |PrintKey(ms.key, ms.colonBefore, ms.colonAfter)| + |Print(ms.value)|;
    PassKeyAndValue(s, offset, ms.before, ms.key, ms.colonBefore, ms.colonAfter, ms.value, MemberTail(ms), closing);
    restAt := PassTail(s, tailAt, ms, closing);
  }

  /** What follows the value of the first member, up to the members after it. */
  lemma PassTail(s: Bytes, offset: nat, ms: Members, closing: Bytes) returns (restAt: nat)
    requires !ms.NoMembers? && Spaces(ms.after) && At(s, offset, MemberTail(ms)) && closing != []
    ensures restAt <= |s| && ContainerEnd(s, offset, closing) == ContainerEnd(s, restAt, closing)
    ensures ms.OneMember? ==> restAt == offset + |MemberTail(ms)|
    ensures ms.MoreMembers? ==> At(s, restAt, PrintMembers(ms.rest))
                                && restAt + |PrintMembers(ms.rest)| == offset + |MemberTail(ms)|
  {
    hide ContainerEnd, Spaces, PrintMembers, At;
    if ms.OneMember? {
      restAt := offset + |ms.after|;
      PassSpaces(s, offset, ms.after, closing);
      AtSlice(s, offset, ms.after);
    } else {
      restAt := offset + |ms.after| + 1;
      PassComma(s, offset, ms.after, PrintMembers(ms.rest), closing);
      AtSlice(s, restAt, PrintMembers(ms.rest));
    }
  }

  lemma MembersPrinted(ms: Members)
    ensures ms.NoMembers? ==> PrintMembers(ms) == ms.space
    ensures !ms.NoMembers? ==>
              && PrintMembers(ms) == ms.before + (PrintKey(ms.key, ms.colonBefore, ms.colonAfter) + (Print(ms.value) + MemberTail(ms)))
              && |PrintMembers(ms)|
                 == |ms.before| + |PrintKey(ms.key, ms.colonBefore, ms.colonAfter)| + |Print(ms.value)| + |MemberTail(ms)|
  {
    hide Print, PrintKey;
  }

  /** Whitespace, a key, its colon and its value. */
  lemma {:induction false} PassKeyAndValue(s: Bytes, offset: nat, before: Bytes, key: Bytes, colonBefore: Bytes,
                                           colonAfter: Bytes, v: Value, tail: Bytes, closing: Bytes)
    requires Spaces(before) && ValidChars(key) && Spaces(colonBefore) && Spaces(colonAfter) && Valid(v)
    requires At(s, offset, before + (PrintKey(key, colonBefore, colonAfter) + (Print(v) + tail))) && closing != []
    ensures At(s, offset + |before| + |PrintKey(key, colonBefore, colonAfter)| + |Print(v)|, tail)
    ensures ContainerEnd(s, offset, closing)
            == ContainerEnd(s, offset + |before| + |PrintKey(key, colonBefore, colonAfter)| + |Print(v)|, closing)
    decreases v, 1
  {
    hide At, ContainerEnd, Spaces, Print, Valid, PrintKey, ValidChars;
    var valueAt := offset + |before| + |PrintKey(key, colonBefore, colonAfter)|;
    PassSpacedKey(s, offset, before, key, colonBefore, colonAfter, Print(v) + tail, closing);
    AtSplit(s, valueAt, Print(v), tail);
    PassValue(s, valueAt, v, closing);
  }

  /** Whitespace, then a key and its colon. */
  lemma PassSpacedKey(s: Bytes, offset: nat, before: Bytes, key: Bytes, colonBefore: Bytes, colonAfter: Bytes,
                      tail: Bytes, closing: Bytes)
    requires Spaces(before) && ValidChars(key) && Spaces(colonBefore) && Spaces(colonAfter)
    requires At(s, offset, before + (PrintKey(key, colonBefore, colonAfter) + tail))
    ensures At(s, offset + |before| + |PrintKey(key, colonBefore, colonAfter)|, tail)
    ensures ContainerEnd(s, offset, closing)
            == ContainerEnd(s, offset + |before| + |PrintKey(key, colonBefore, colonAfter)|, closing)
  {
    hide At, ContainerEnd, Spaces, PrintKey, ValidChars;
    AtSplit(s, offset, before, PrintKey(key, colonBefore, colonAfter) + tail);
    AtSplit(s, offset + |before|, PrintKey(key, colonBefore, colonAfter), tail);
    PassSpaces(s, offset, before, closing);
    PassKey(s, offset + |before|, key, colonBefore, colonAfter, closing);
  }

  /** What follows the value of the first member. */
  function MemberTail(ms: Members): (tail: Bytes)
    requires !ms.NoMembers?
    ensures PrintMembers(ms)
            == ms.before + (PrintKey(ms.key, ms.colonBefore, ms.colonAfter) + (Print(ms.value) + tail))
    ensures |PrintMembers(ms)|
            == |ms.before| + |PrintKey(ms.key, ms.colonBefore, ms.colonAfter)| + |Print(ms.value)| + |tail|
    ensures tail == if ms.OneMember? then ms.after else ms.after + ([COMMA] + PrintMembers(ms.rest))
    ensures |tail| == if ms.OneMember? then |ms.after| else |ms.after| + 1 + |PrintMembers(ms.rest)|
  {
    if ms.OneMember? then ms.after else ms.after + ([COMMA] + PrintMembers(ms.rest))
  }

  // ---- the value of a member ----

  lemma {:induction false} StopAfter(s: Bytes, offset: nat, t: Bytes)
    requires At(s, offset, t) && offset + |t| < |s|
    requires forall i :: 0 <= i < |t| ==> t[i] != COMMA && t[i] != CLOSE_BRACE
    requires s[offset + |t|] == COMMA || s[offset + |t|] == CLOSE_BRACE
    ensures ScalarStop(s, offset) == offset + |t|
    decreases |t|
  {
    if t == [] {
    } else {
      AtHead(s, offset, t);
      StopAfter(s, offset + 1, t[1..]);
    }
  }

  lemma {:induction false} TrimSpaces(s: Bytes, offset: nat, t: Bytes)
    requires At(s, offset, t) && Spaces(t) && offset > 0 && !IsSpace(s[offset - 1])
    ensures TrimBack(s, offset + |t|) == offset
  {
    hide At, IsSpace;
    AtSlice(s, offset, t);
    if t == [] {
    } else {
      assert t == t[..|t| - 1] + [t[|t| - 1]];
      AtSplit(s, offset, t[..|t| - 1], [t[|t| - 1]]);
      AtHead(s, offset + |t| - 1, [t[|t| - 1]]);
      TrimSpaces(s, offset, t[..|t| - 1]);
    }
  }

  lemma ScanAtom(s: Bytes, offset: nat, t: Bytes, after: Bytes)
    requires t != [] && Solid(t) && Spaces(after) && At(s, offset, t + after)
    requires offset + |t + after| < |s|
    requires s[offset + |t + after|] == COMMA || s[offset + |t + after|] == CLOSE_BRACE
    ensures ValueEnd(s, offset) == Some(offset + |t|)
  {
    hide ScalarStop, TrimBack, StringEnd, ContainerEnd;
    AtSplit(s, offset, t, after);
    AtHead(s, offset, t);
    StopAfter(s, offset, t + after);
    assert s[offset + |t| - 1] == s[offset..offset + |t|][|t| - 1] == t[|t| - 1];
    TrimSpaces(s, offset + |t|, after);
  }

  lemma ScanContainer(s: Bytes, offset: nat, open: Byte, inner: Bytes)
    requires open == OPEN_BRACE || open == OPEN_BRACKET
    requires At(s, offset, [open] + inner + [Closer(open)])
    requires ContainerEnd(s, offset + 1, [Closer(open)]) == ContainerEnd(s, offset + 1 + |inner|, [Closer(open)])
    ensures ValueEnd(s, offset) == Some(offset + |inner| + 2)
  {
    hide ContainerEnd, At, StringEnd;
    OpenClose(s, offset, open, inner, Closer(open));
    PassOpen(s, offset, open, []);
    assert [] + [Closer(open)] == [Closer(open)];
    PassClose(s, offset + 1 + |inner|, Closer(open), []);
  }

  /** A printed value, then whitespace, then a comma or closing brace: its end is found exactly. */
  lemma ScanValue(s: Bytes, offset: nat, v: Value, after: Bytes)
    requires Valid(v) && Spaces(after) && At(s, offset, Print(v) + after)
    requires offset + |Print(v) + after| < |s|
    requires s[offset + |Print(v) + after|] == COMMA || s[offset + |Print(v) + after|] == CLOSE_BRACE
    ensures ValueEnd(s, offset) == Some(offset + |Print(v)|)
  {
    hide At, ContainerEnd, ValueEnd, PrintElements, PrintMembers, Quoted, Spaces, ValidElements, ValidMembers, ValidChars;
    AtSplit(s, offset, Print(v), after);
    match v
    case Atom(literal) =>
      LiteralIsSolid(literal);
      ScanAtom(s, offset, Print(v), after);
    case Text(chars) =>
      ScanTextValue(s, offset, chars);
    case Array(elements) =>
      ScanArray(s, offset, elements);
    case Object(members) =>
      ScanObject(s, offset, members);
  }

  lemma ScanArray(s: Bytes, offset: nat, es: Elements)
    requires ValidElements(es) && At(s, offset, [OPEN_BRACKET] + PrintElements(es) + [CLOSE_BRACKET])
    ensures ValueEnd(s, offset) == Some(offset + |PrintElements(es)| + 2)
  {
    hide At, ContainerEnd, ValueEnd, PrintElements, ValidElements;
    OpenClose(s, offset, OPEN_BRACKET, PrintElements(es), CLOSE_BRACKET);
    PassElements(s, offset + 1, es, [CLOSE_BRACKET]);
    ScanContainer(s, offset, OPEN_BRACKET, PrintElements(es));
  }

  lemma ScanObject(s: Bytes, offset: nat, ms: Members)
    requires ValidMembers(ms) && At(s, offset, [OPEN_BRACE] + PrintMembers(ms) + [CLOSE_BRACE])
    ensures ValueEnd(s, offset) == Some(offset + |PrintMembers(ms)| + 2)
  {
    hide At, ContainerEnd, ValueEnd, PrintMembers, ValidMembers;
    OpenClose(s, offset, OPEN_BRACE, PrintMembers(ms), CLOSE_BRACE);
    PassMembers(s, offset + 1, ms, [CLOSE_BRACE]);
    ScanContainer(s, offset, OPEN_BRACE, PrintMembers(ms));
  }

  lemma ScanTextValue(s: Bytes, offset: nat, chars: Bytes)
    requires ValidChars(chars) && At(s, offset, Quoted(chars))
    ensures ValueEnd(s, offset) == Some(offset + |Quoted(chars)|)
  {
    ScanQuoted(s, offset, chars);
  }

  // ---- the theorems ----

  /** The printed text of the first member with the key; nothing after a key that does not decode. */
  function FirstMember(ms: Members, member: Bytes, decode: Bytes -> Option<Bytes>): Option<Bytes> {
    if ms.NoMembers? then None
    else
      var key := decode(Quoted(ms.key));
      if key.None? then None
      else if key.value == member then Some(Print(ms.value))
      else if ms.OneMember? then None
      else FirstMember(ms.rest, member, decode)
  }

  lemma PrintStartsBlack(v: Value)
    requires Valid(v)
    ensures Print(v) != [] && !IsSpace(Print(v)[0])
  {
    if v.Atom? {
      LiteralIsSolid(v.literal);
    }
  }

  lemma {:induction false} ScanMembers(s: Bytes, offset: nat, ms: Members, member: Bytes, decode: Bytes -> Option<Bytes>)
    requires ValidMembers(ms) && At(s, offset, PrintMembers(ms) + [CLOSE_BRACE])
    ensures MemberFrom(s, offset, member, decode) == FirstMember(ms, member, decode)
    decreases ms
  {
    hide At, Spaces, Print, Valid, PrintKey, ValidChars, ReadMember, SkipSpace, Quoted, PrintMembers, ValidMembers,
         MemberFrom;
    if ms.NoMembers? {
      MembersPrinted(ms);
      NoMembersValid(ms);
      ReadNothing(s, offset, ms.space, decode);
      NothingRead(s, offset, member, decode);
    } else {
      MemberValid(ms);
      ReadPrinted(s, offset, ms, decode);
      AfterValue(s, offset, ms);
      var key := decode(Quoted(ms.key));
      if key.None? {
        NothingRead(s, offset, member, decode);
      } else {
        var begin := offset + |ms.before| + |PrintKey(ms.key, ms.colonBefore, ms.colonAfter)|;
        var end := begin + |Print(ms.value)|;
        MemberRead(s, offset, member, decode, Found(key.value, begin, end), end + |ms.after|);
        if ms.MoreMembers? {
          ScanMembers(s, end + |ms.after| + 1, ms.rest, member, decode);
        }
      }
    }
  }

  lemma NothingRead(s: Bytes, offset: nat, member: Bytes, decode: Bytes -> Option<Bytes>)
    requires offset <= |s| && ReadMember(s, offset, decode).None?
    ensures MemberFrom(s, offset, member, decode) == None
  {
    hide ReadMember;
  }

  /** One round of the member loop. */
  lemma MemberRead(s: Bytes, offset: nat, member: Bytes, decode: Bytes -> Option<Bytes>, found: Found, stop: nat)
    requires offset <= |s| && ReadMember(s, offset, decode) == Some(found) && SkipSpace(s, found.end) == stop < |s|
    ensures MemberFrom(s, offset, member, decode)
            == if found.key == member then Some(s[found.begin..found.end])
               else if s[stop] == COMMA then MemberFrom(s, stop + 1, member, decode)
               else None
  {
    hide ReadMember, SkipSpace;
  }

  lemma NoMembersValid(ms: Members)
    requires ValidMembers(ms) && ms.NoMembers?
    ensures Spaces(ms.space)
  {
  }

  lemma ReadNothing(s: Bytes, offset: nat, space: Bytes, decode: Bytes -> Option<Bytes>)
    requires Spaces(space) && At(s, offset, space + [CLOSE_BRACE])
    ensures offset <= |s| && ReadMember(s, offset, decode) == None
  {
    hide SkipSpace, StringEnd, ValueEnd;
    AtSplit(s, offset, space, [CLOSE_BRACE]);
    AtHead(s, offset + |space|, [CLOSE_BRACE]);
    SkipSpaces(s, offset, space);
  }

  /** The first printed member is read exactly. */
  lemma ReadPrinted(s: Bytes, offset: nat, ms: Members, decode: Bytes -> Option<Bytes>)
    requires ValidMembers(ms) && !ms.NoMembers? && At(s, offset, PrintMembers(ms) + [CLOSE_BRACE])
    ensures var valueAt := offset + |ms.before| + |PrintKey(ms.key, ms.colonBefore, ms.colonAfter)|;
            var key := decode(Quoted(ms.key));
            offset <= |s| && ReadMember(s, offset, decode)
            == if key.None? then None else Some(Found(key.value, valueAt, valueAt + |Print(ms.value)|))
  {
    hide At, Spaces, Print, Valid, PrintKey, ValidChars, ValueEnd, SkipSpace, Quoted, ReadMember, IsSpace, PrintMembers,
         ValidMembers;
    MemberValid(ms);
    MemberStands(s, offset, ms);
    AfterValue(s, offset, ms);
    ReadKeyed(s, offset, ms.before, ms.key, ms.colonBefore, ms.colonAfter, |Print(ms.value)|, decode);
  }

  /** The parts of a valid first member. */
  lemma MemberValid(ms: Members)
    requires ValidMembers(ms) && !ms.NoMembers?
    ensures Spaces(ms.before) && ValidChars(ms.key) && Spaces(ms.colonBefore) && Spaces(ms.colonAfter)
    ensures Valid(ms.value) && Spaces(ms.after) && (ms.MoreMembers? ==> ValidMembers(ms.rest))
  {
    hide Spaces, ValidChars, Valid;
  }

  lemma MemberStands(s: Bytes, offset: nat, ms: Members)
    requires ValidMembers(ms) && !ms.NoMembers? && At(s, offset, PrintMembers(ms) + [CLOSE_BRACE])
    ensures At(s, offset, ms.before)
    ensures At(s, offset + |ms.before|, PrintKey(ms.key, ms.colonBefore, ms.colonAfter))
    ensures var valueAt := offset + |ms.before| + |PrintKey(ms.key, ms.colonBefore, ms.colonAfter)|;
            valueAt < |s| && !IsSpace(s[valueAt])
  {
    hide At, Spaces, Print, Valid, PrintKey, ValidChars, Quoted, MemberTail, PrintMembers, ValidMembers, IsSpace;
    MemberValid(ms);
    MemberParts(s, offset, ms);
    PrintStartsBlack(ms.value);
    HeadStands(s, offset, ms.before, PrintKey(ms.key, ms.colonBefore, ms.colonAfter), Print(ms.value), MemberTail(ms));
  }

  lemma MemberParts(s: Bytes, offset: nat, ms: Members)
    requires !ms.NoMembers? && At(s, offset, PrintMembers(ms) + [CLOSE_BRACE])
    ensures At(s, offset, ms.before + (PrintKey(ms.key, ms.colonBefore, ms.colonAfter) + (Print(ms.value) + MemberTail(ms))))
  {
    hide At, Print, PrintKey, MemberTail, PrintMembers;
    MembersPrinted(ms);
    AtSplit(s, offset, PrintMembers(ms), [CLOSE_BRACE]);
  }

  lemma HeadStands(s: Bytes, offset: nat, before: Bytes, key: Bytes, value: Bytes, tail: Bytes)
    requires At(s, offset, before + (key + (value + tail))) && value != []
    ensures At(s, offset, before) && At(s, offset + |before|, key)
    ensures offset + |before| + |key| < |s| && s[offset + |before| + |key|] == value[0]
  {
    hide At;
    AtSplit(s, offset, before, key + (value + tail));
    AtSplit(s, offset + |before|, key, value + tail);
    AtSplit(s, offset + |before| + |key|, value, tail);
    AtHead(s, offset + |before| + |key|, value);
  }

  lemma ReadKeyed(s: Bytes, offset: nat, before: Bytes, key: Bytes, colonBefore: Bytes, colonAfter: Bytes,
                  length: nat, decode: Bytes -> Option<Bytes>)
    requires Spaces(before) && ValidChars(key) && Spaces(colonBefore) && Spaces(colonAfter)
    requires At(s, offset, before) && At(s, offset + |before|, PrintKey(key, colonBefore, colonAfter))
    requires var valueAt := offset + |before| + |PrintKey(key, colonBefore, colonAfter)|;
             valueAt < |s| && !IsSpace(s[valueAt]) && ValueEnd(s, valueAt) == Some(valueAt + length)
    ensures var valueAt := offset + |before| + |PrintKey(key, colonBefore, colonAfter)|;
            ReadMember(s, offset, decode)
            == var name := decode(Quoted(key));
               if name.None? then None else Some(Found(name.value, valueAt, valueAt + length))
  {
    hide At, Spaces, ValidChars, StringEnd, ValueEnd, SkipSpace, ReadMember, PrintKey, Quoted, IsSpace;
    ScanKey(s, offset, before, key, colonBefore, colonAfter);
    var keyAt := offset + |before|;
    var valueAt := keyAt + |PrintKey(key, colonBefore, colonAfter)|;
    ReadMemberIs(s, offset, decode, keyAt, keyAt + |Quoted(key)|, |colonBefore|, valueAt, valueAt + length);
  }

  /** The steps of ReadMember, when each succeeds. */
  lemma ReadMemberIs(s: Bytes, offset: nat, decode: Bytes -> Option<Bytes>,
                     keyAt: nat, keyEnd: nat, gap: nat, begin: nat, end: nat)
    requires offset <= |s| && SkipSpace(s, offset) == keyAt < |s| && s[keyAt] == QUOTE
    requires StringEnd(s, keyAt) == Some(keyEnd)
    requires SkipSpace(s, keyEnd) == keyEnd + gap < |s| && s[keyEnd + gap] == COLON
    requires SkipSpace(s, keyEnd + gap + 1) == begin <= end && ValueEnd(s, begin) == Some(end)
    ensures var key := decode(s[keyAt..keyEnd]);
            ReadMember(s, offset, decode) == if key.None? then None else Some(Found(key.value, begin, end))
  {
    hide StringEnd, ValueEnd, SkipSpace;
  }

  /** The comma and the other members, or the closing brace. */
  function AfterMember(ms: Members): Bytes
    requires !ms.NoMembers?
  {
    if ms.OneMember? then [CLOSE_BRACE] else [COMMA] + (PrintMembers(ms.rest) + [CLOSE_BRACE])
  }

  lemma TailThenBrace(ms: Members)
    requires !ms.NoMembers?
    ensures MemberTail(ms) + [CLOSE_BRACE] == ms.after + AfterMember(ms)
  {
    hide PrintMembers;
  }

  lemma Regrouped(before: Bytes, key: Bytes, value: Bytes, after: Bytes, tail: Bytes, end: Bytes, more: Bytes)
    requires tail + end == after + more
    ensures (before + (key + (value + tail))) + end == (before + key) + ((value + after) + more)
  {
    assert (before + (key + (value + tail))) + end == (before + key) + (value + (tail + end));
    assert value + (after + more) == (value + after) + more;
  }

  lemma ValueStands(s: Bytes, offset: nat, ms: Members)
    requires !ms.NoMembers? && At(s, offset, PrintMembers(ms) + [CLOSE_BRACE])
    ensures var valueAt := offset + |ms.before| + |PrintKey(ms.key, ms.colonBefore, ms.colonAfter)|;
            At(s, valueAt, (Print(ms.value) + ms.after) + AfterMember(ms))
  {
    hide At, Print, PrintKey, PrintMembers, MemberTail, AfterMember;
    var key, value := PrintKey(ms.key, ms.colonBefore, ms.colonAfter), Print(ms.value);
    MembersPrinted(ms);
    TailThenBrace(ms);
    Regrouped(ms.before, key, value, ms.after, MemberTail(ms), [CLOSE_BRACE], AfterMember(ms));
    AtSplit(s, offset, ms.before + key, (value + ms.after) + AfterMember(ms));
  }

  /** After a value come whitespace and then the comma before the other members, or the closing brace. */
  lemma AfterValue(s: Bytes, offset: nat, ms: Members)
    requires ValidMembers(ms) && !ms.NoMembers? && At(s, offset, PrintMembers(ms) + [CLOSE_BRACE])
    ensures var valueAt := offset + |ms.before| + |PrintKey(ms.key, ms.colonBefore, ms.colonAfter)|;
            var stop := valueAt + |Print(ms.value)| + |ms.after|;
            && stop < |s|
            && ValueEnd(s, valueAt) == Some(valueAt + |Print(ms.value)|)
            && SkipSpace(s, valueAt + |Print(ms.value)|) == stop
            && s[valueAt..valueAt + |Print(ms.value)|] == Print(ms.value)
            && s[stop] == (if ms.OneMember? then CLOSE_BRACE else COMMA)
            && (ms.MoreMembers? ==> At(s, stop + 1, PrintMembers(ms.rest) + [CLOSE_BRACE]))
  {
    hide At, Spaces, Print, Valid, PrintKey, ValidChars, ValueEnd, SkipSpace, PrintMembers, ValidMembers, AfterMember;
    MemberValid(ms);
    ValueStands(s, offset, ms);
    MoreIsMarked(ms);
    var valueAt := offset + |ms.before| + |PrintKey(ms.key, ms.colonBefore, ms.colonAfter)|;
    AfterPieces(s, valueAt, ms.value, ms.after, AfterMember(ms));
  }

  lemma MoreIsMarked(ms: Members)
    requires !ms.NoMembers?
    ensures var more := AfterMember(ms);
            && more != [] && more[0] == (if ms.OneMember? then CLOSE_BRACE else COMMA)
            && (ms.MoreMembers? ==> more[1..] == PrintMembers(ms.rest) + [CLOSE_BRACE])
  {
    hide PrintMembers;
  }

  /** A value, whitespace, and a comma or closing brace. */
  lemma AfterPieces(s: Bytes, offset: nat, v: Value, after: Bytes, more: Bytes)
    requires Valid(v) && Spaces(after) && At(s, offset, (Print(v) + after) + more)
    requires more != [] && (more[0] == COMMA || more[0] == CLOSE_BRACE)
    ensures var stop := offset + |Print(v)| + |after|;
            && stop < |s| && s[stop] == more[0] && At(s, stop + 1, more[1..])
            && ValueEnd(s, offset) == Some(offset + |Print(v)|)
            && SkipSpace(s, offset + |Print(v)|) == stop
            && s[offset..offset + |Print(v)|] == Print(v)
  {
    hide At, Spaces, Print, Valid, ValueEnd, SkipSpace;
    AtSplit(s, offset, Print(v) + after, more);
    AtSplit(s, offset, Print(v), after);
    AtHead(s, offset + |Print(v)| + |after|, more);
    ScanValue(s, offset, v, after);
    SkipSpaces(s, offset + |Print(v)|, after);
    AtSlice(s, offset, Print(v));
  }

  /** From a key, the scanner reaches the first byte of the value. */
  lemma ScanKey(s: Bytes, offset: nat, before: Bytes, key: Bytes, colonBefore: Bytes, colonAfter: Bytes)
    requires Spaces(before) && ValidChars(key) && Spaces(colonBefore) && Spaces(colonAfter)
    requires At(s, offset, before) && At(s, offset + |before|, PrintKey(key, colonBefore, colonAfter))
    requires var valueAt := offset + |before| + |PrintKey(key, colonBefore, colonAfter)|;
             valueAt < |s| && !IsSpace(s[valueAt])
    ensures var keyAt := offset + |before|;
            var keyEnd := keyAt + |Quoted(key)|;
            && SkipSpace(s, offset) == keyAt && keyEnd + |colonBefore| < |s| && s[keyAt] == QUOTE
            && StringEnd(s, keyAt) == Some(keyEnd) && s[keyAt..keyEnd] == Quoted(key)
            && SkipSpace(s, keyEnd) == keyEnd + |colonBefore|
            && s[keyEnd + |colonBefore|] == COLON
            && SkipSpace(s, keyEnd + |colonBefore| + 1) == keyAt + |PrintKey(key, colonBefore, colonAfter)|
  {
    hide At, SkipSpace, StringEnd, ValidChars, Spaces, Quoted, PrintKey, IsSpace;
    var keyAt := offset + |before|;
    var keyEnd := keyAt + |Quoted(key)|;
    KeyStands(s, keyAt, key, colonBefore, colonAfter);
    MarksAreBlack();
    SkipSpaces(s, offset, before);
    ScanQuoted(s, keyAt, key);
    SkipSpaces(s, keyEnd, colonBefore);
    SkipSpaces(s, keyEnd + |colonBefore| + 1, colonAfter);
    AtSlice(s, keyAt, Quoted(key));
  }

  lemma MarksAreBlack()
    ensures !IsSpace(QUOTE) && !IsSpace(COLON)
  {
  }

  /** The parts of a printed key. */
  lemma KeyStands(s: Bytes, offset: nat, key: Bytes, colonBefore: Bytes, colonAfter: Bytes)
    requires At(s, offset, PrintKey(key, colonBefore, colonAfter))
    ensures var keyEnd := offset + |Quoted(key)|;
            && offset + |PrintKey(key, colonBefore, colonAfter)| == keyEnd + |colonBefore| + 1 + |colonAfter|
            && At(s, offset, Quoted(key)) && At(s, keyEnd, colonBefore) && At(s, keyEnd + |colonBefore| + 1, colonAfter)
            && keyEnd + |colonBefore| < |s| && s[offset] == QUOTE && s[keyEnd + |colonBefore|] == COLON
  {
    hide At, Quoted;
    var keyEnd := offset + |Quoted(key)|;
    AtSplit(s, offset, Quoted(key), colonBefore + ([COLON] + colonAfter));
    AtSplit(s, keyEnd, colonBefore, [COLON] + colonAfter);
    AtSplit(s, keyEnd + |colonBefore|, [COLON], colonAfter);
    AtHead(s, keyEnd + |colonBefore|, [COLON]);
    QuotedStands(s, offset, key);
  }

  lemma QuotedStands(s: Bytes, offset: nat, key: Bytes)
    requires At(s, offset, Quoted(key))
    ensures offset < |s| && s[offset] == QUOTE
  {
    hide At;
    AtHead(s, offset, Quoted(key));
  }

  /** On every printed object, with any whitespace and nesting and any bytes after it, the scanner
      returns exactly the printed bytes of the first top-level member with the key. */
  lemma ExtractPrinted(lead: Bytes, ms: Members, tail: Bytes, member: Bytes, decode: Bytes -> Option<Bytes>)
    requires Spaces(lead) && ValidMembers(ms)
    ensures MemberRaw(lead + Print(Object(ms)) + tail, member, decode) == FirstMember(ms, member, decode)
  {
    hide SkipSpace, MemberFrom, PrintMembers, ValidMembers, FirstMember, Spaces, At;
    var s := lead + Print(Object(ms)) + tail;
    var inner := PrintMembers(ms) + [CLOSE_BRACE];
    assert s == lead + ([OPEN_BRACE] + inner + tail);
    assert s[0..|lead|] == lead && s[|lead|] == OPEN_BRACE;
    AtSlice(s, 0, lead);
    SkipSpaces(s, 0, lead);
    assert s[|lead| + 1..|lead| + 1 + |inner|] == inner;
    AtSlice(s, |lead| + 1, inner);
    ScanMembers(s, |lead| + 1, ms, member, decode);
  }

  /** On every byte string whatever, what is returned is a slice of it with no outer whitespace. */
  lemma {:induction false} ExtractIsTrimmedSlice(s: Bytes, offset: nat, member: Bytes, decode: Bytes -> Option<Bytes>)
    requires offset <= |s| && MemberFrom(s, offset, member, decode).Some?
    ensures exists begin, end :: offset < begin <= end <= |s|
              && MemberFrom(s, offset, member, decode).value == s[begin..end]
              && (begin < end ==> !IsSpace(s[begin]) && !IsSpace(s[end - 1]))
    decreases |s| - offset
  {
    hide SkipSpace, ReadMember;
    var found := ReadMember(s, offset, decode).value;
    if found.key == member {
      assert MemberFrom(s, offset, member, decode).value == s[found.begin..found.end];
    } else {
      ExtractIsTrimmedSlice(s, SkipSpace(s, found.end) + 1, member, decode);
    }
  }
}
