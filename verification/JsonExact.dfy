/** Exactly what the member scanner accepts, in any document: strings up to their first free quote, and
    brackets that match, whatever else stands between them. */
module JsonExact {
  import opened Basics
  import opened JsonGrammar
  import opened JsonScan
  import opened Slices

  // ---- strings ----

  /** Inside quotes: every backslash hides the byte after it, and no other quote is there. */
  predicate Unbroken(chars: Bytes) {
    if chars == [] then true
    else if chars[0] == '\\' as int then |chars| >= 2 && Unbroken(chars[2..])
    else chars[0] != '"' as int && Unbroken(chars[1..])
  }

  lemma {:induction false} RestOfUnbroken(s: Bytes, offset: nat, chars: Bytes)
    requires Unbroken(chars) && At(s, offset, chars + [QUOTE])
    ensures StringRest(s, offset, false) == Some(offset + |chars| + 1)
    decreases |chars|
  {
    AtHead(s, offset, chars + [QUOTE]);
    if chars == [] {
    } else {
      assert (chars + [QUOTE])[1..] == chars[1..] + [QUOTE];
      if chars[0] == BACKSLASH {
        AtHead(s, offset + 1, chars[1..] + [QUOTE]);
        assert (chars[1..] + [QUOTE])[1..] == chars[2..] + [QUOTE];
        RestOfUnbroken(s, offset + 2, chars[2..]);
      } else {
        RestOfUnbroken(s, offset + 1, chars[1..]);
      }
    }
  }

  lemma {:induction false} UnbrokenOfRest(s: Bytes, offset: nat) returns (chars: Bytes)
    requires offset <= |s| && StringRest(s, offset, false).Some?
    ensures Unbroken(chars) && At(s, offset, chars + [QUOTE])
    ensures StringRest(s, offset, false) == Some(offset + |chars| + 1)
    decreases |s| - offset
  {
    hide At, StringRest, Unbroken;
    RestStep(s, offset);
    OneByte(s, offset);
    if s[offset] == QUOTE {
      chars := [];
      NothingUnbroken();
    } else if s[offset] == BACKSLASH {
      OneByte(s, offset + 1);
      AtJoin(s, offset, [s[offset]], [s[offset + 1]]);
      var rest := UnbrokenOfRest(s, offset + 2);
      chars := Behind(s, offset, [s[offset]] + [s[offset + 1]], rest);
      MoreUnbroken(chars, rest);
    } else {
      var rest := UnbrokenOfRest(s, offset + 1);
      chars := Behind(s, offset, [s[offset]], rest);
      MoreUnbroken(chars, rest);
    }
  }

  /** One byte inside a string, or an escape, that does not spoil it. */
  lemma RestStep(s: Bytes, offset: nat)
    requires offset <= |s| && StringRest(s, offset, false).Some?
    ensures offset < |s|
    ensures s[offset] == QUOTE ==> StringRest(s, offset, false) == Some(offset + 1)
    ensures s[offset] == BACKSLASH ==>
              offset + 1 < |s| && StringRest(s, offset, false) == StringRest(s, offset + 2, false)
    ensures s[offset] != QUOTE && s[offset] != BACKSLASH ==> StringRest(s, offset, false) == StringRest(s, offset + 1, false)
  {
  }

  lemma NothingUnbroken()
    ensures Unbroken([]) && [] + [QUOTE] == [QUOTE]
  {
  }

  lemma MoreUnbroken(chars: Bytes, rest: Bytes)
    requires Unbroken(rest) && chars != []
    ensures |chars| >= 2 && chars[0] == BACKSLASH && chars[2..] == rest ==> Unbroken(chars)
    ensures chars[0] != BACKSLASH && chars[0] != QUOTE && chars[1..] == rest ==> Unbroken(chars)
  {
  }

  lemma Behind(s: Bytes, offset: nat, head: Bytes, rest: Bytes) returns (chars: Bytes)
    requires At(s, offset, head) && At(s, offset + |head|, rest + [QUOTE])
    ensures chars == head + rest && chars[|head|..] == rest && |chars| == |head| + |rest| && At(s, offset, chars + [QUOTE])
    ensures head != [] ==> chars[0] == head[0]
  {
    hide At;
    chars := head + rest;
    AtJoin(s, offset, head, rest + [QUOTE]);
    assert chars + [QUOTE] == head + (rest + [QUOTE]);
  }

  lemma StringStands(s: Bytes, offset: nat, chars: Bytes)
    requires Unbroken(chars) && At(s, offset, [QUOTE] + chars + [QUOTE])
    ensures offset < |s| && s[offset] == QUOTE && StringEnd(s, offset) == Some(offset + |chars| + 2)
  {
    hide At, StringRest, Unbroken;
    assert [QUOTE] + chars + [QUOTE] == [QUOTE] + (chars + [QUOTE]);
    AtSplit(s, offset, [QUOTE], chars + [QUOTE]);
    AtHead(s, offset, [QUOTE]);
    RestOfUnbroken(s, offset + 1, chars);
  }

  lemma CharsOf(s: Bytes, offset: nat) returns (chars: Bytes)
    requires StringEnd(s, offset).Some?
    ensures Unbroken(chars) && At(s, offset, [QUOTE] + chars + [QUOTE]) && StringEnd(s, offset) == Some(offset + |chars| + 2)
  {
    hide At, StringRest, Unbroken;
    chars := UnbrokenOfRest(s, offset + 1);
    assert [QUOTE] + chars + [QUOTE] == [QUOTE] + (chars + [QUOTE]);
    OneByte(s, offset);
    AtJoin(s, offset, [QUOTE], chars + [QUOTE]);
  }

  /** A string ends at its first free quote, and only there. */
  lemma StringExactly(s: Bytes, offset: nat, end: nat)
    ensures StringEnd(s, offset) == Some(end)
            <==> exists chars :: Unbroken(chars) && At(s, offset, [QUOTE] + chars + [QUOTE]) && end == offset + |chars| + 2
  {
    hide At, StringEnd, Unbroken;
    if StringEnd(s, offset) == Some(end) {
      var chars := CharsOf(s, offset);
    }
    if chars :| Unbroken(chars) && At(s, offset, [QUOTE] + chars + [QUOTE]) && end == offset + |chars| + 2 {
      StringStands(s, offset, chars);
    }
  }

  lemma OneByte(s: Bytes, offset: nat)
    requires offset < |s|
    ensures At(s, offset, [s[offset]])
  {
    assert s[offset..offset + 1] == [s[offset]];
  }

  // ---- brackets ----

  /** What may stand inside brackets: a byte that is no quote and no bracket, a string, or brackets again. */
  datatype Piece = Char(b: Byte) | Quotation(chars: Bytes) | Nest(brace: bool, inner: Pieces)
  datatype Pieces = Nil | Cons(head: Piece, tail: Pieces)

  predicate ValidPiece(p: Piece) {
    match p
    case Char(b) =>
      b != '"' as int && b != '{' as int && b != '}' as int && b != '[' as int && b != ']' as int
    case Quotation(chars) => Unbroken(chars)
    case Nest(_, inner) => ValidPieces(inner)
  }

  predicate ValidPieces(ps: Pieces) {
    ps.Cons? ==> ValidPiece(ps.head) && ValidPieces(ps.tail)
  }

  function Opening(brace: bool): Byte {
    if brace then '{' as int else '[' as int
  }

  function Closing(brace: bool): Byte {
    if brace then '}' as int else ']' as int
  }

  function PieceText(p: Piece): Bytes {
    match p
    case Char(b) => [b]
    case Quotation(chars) => [QUOTE] + chars + [QUOTE]
    case Nest(brace, inner) => [Opening(brace)] + PiecesText(inner) + [Closing(brace)]
  }

  function PiecesText(ps: Pieces): Bytes {
    if ps.Nil? then [] else PieceText(ps.head) + PiecesText(ps.tail)
  }

  /** Pieces are passed over with the stack of awaited brackets as it was. */
  lemma {:induction false} PassPiece(s: Bytes, offset: nat, p: Piece, closing: Bytes)
    requires ValidPiece(p) && At(s, offset, PieceText(p)) && closing != []
    ensures ContainerEnd(s, offset, closing) == ContainerEnd(s, offset + |PieceText(p)|, closing)
    decreases p, 1
  {
    hide At, ContainerEnd, PiecesText, ValidPieces, Unbroken;
    match p
    case Char(b) =>
      AtHead(s, offset, [b]);
      PassByte(s, offset, closing);
    case Quotation(chars) =>
      StringStands(s, offset, chars);
      PassString(s, offset, closing);
    case Nest(brace, inner) =>
      OpenClose(s, offset, Opening(brace), PiecesText(inner), Closing(brace));
      PassOpening(s, offset, brace, closing);
      PassPieces(s, offset + 1, inner, closing + [Closing(brace)]);
      PassClosing(s, offset + 1 + |PiecesText(inner)|, brace, closing);
  }

  lemma {:induction false} PassPieces(s: Bytes, offset: nat, ps: Pieces, closing: Bytes)
    requires ValidPieces(ps) && At(s, offset, PiecesText(ps)) && closing != []
    ensures ContainerEnd(s, offset, closing) == ContainerEnd(s, offset + |PiecesText(ps)|, closing)
    decreases ps, 0
  {
    hide At, ContainerEnd, PieceText, ValidPiece;
    if ps.Cons? {
      AtSplit(s, offset, PieceText(ps.head), PiecesText(ps.tail));
      PassPiece(s, offset, ps.head, closing);
      PassPieces(s, offset + |PieceText(ps.head)|, ps.tail, closing);
    }
  }

  lemma PassByte(s: Bytes, offset: nat, closing: Bytes)
    requires offset < |s| && ValidPiece(Char(s[offset]))
    ensures ContainerEnd(s, offset, closing) == ContainerEnd(s, offset + 1, closing)
  {
  }

  lemma PassString(s: Bytes, offset: nat, closing: Bytes)
    requires offset < |s| && s[offset] == QUOTE
    ensures ContainerEnd(s, offset, closing)
            == if StringEnd(s, offset).None? then None else ContainerEnd(s, StringEnd(s, offset).value, closing)
  {
    hide StringRest;
  }

  lemma PassOpening(s: Bytes, offset: nat, brace: bool, closing: Bytes)
    requires offset < |s| && s[offset] == Opening(brace)
    ensures ContainerEnd(s, offset, closing) == ContainerEnd(s, offset + 1, closing + [Closing(brace)])
  {
  }

  lemma PassClosing(s: Bytes, offset: nat, brace: bool, closing: Bytes)
    requires offset < |s| && s[offset] == Closing(brace) && closing != []
    ensures ContainerEnd(s, offset, closing + [Closing(brace)]) == ContainerEnd(s, offset + 1, closing)
  {
    assert (closing + [Closing(brace)])[..|closing|] == closing;
  }

  /** The last awaited bracket ends the text. */
  lemma LastClosing(s: Bytes, offset: nat, close: Byte)
    requires offset < |s| && s[offset] == close && (close == CLOSE_BRACE || close == CLOSE_BRACKET)
    ensures ContainerEnd(s, offset, [close]) == Some(offset + 1)
  {
  }

  /** The text that closes a stack of brackets: pieces and then a bracket, for each of them. */
  function ClosingText(stack: seq<bool>, pieces: seq<Pieces>): Bytes
    requires |stack| == |pieces|
  {
    if stack == [] then []
    else
      var n := |stack| - 1;
      PiecesText(pieces[n]) + [Closing(stack[n])] + ClosingText(stack[..n], pieces[..n])
  }

  predicate AllValid(pieces: seq<Pieces>) {
    forall i :: 0 <= i < |pieces| ==> ValidPieces(pieces[i])
  }

  function Brackets(stack: seq<bool>): (r: Bytes)
    ensures |r| == |stack|
  {
    seq(|stack|, i requires 0 <= i < |stack| => Closing(stack[i]))
  }

  lemma ClosingCons(stack: seq<bool>, pieces: seq<Pieces>, head: Piece)
    requires |stack| == |pieces| > 0 && AllValid(pieces) && ValidPiece(head)
    ensures var n := |stack| - 1;
            var more := pieces[..n] + [Cons(head, pieces[n])];
            AllValid(more) && ClosingText(stack, more) == PieceText(head) + ClosingText(stack, pieces)
  {
    hide PieceText, ValidPiece;
    var n := |stack| - 1;
    var more := pieces[..n] + [Cons(head, pieces[n])];
    assert more[..n] == pieces[..n] && more[n] == Cons(head, pieces[n]);
    var a, b, c := PieceText(head), PiecesText(pieces[n]), [Closing(stack[n])] + ClosingText(stack[..n], pieces[..n]);
    assert (a + b) + c == a + (b + c);
    assert ClosingText(stack, pieces) == b + c;
    assert ClosingText(stack, more) == (a + b) + c;
  }

  lemma ClosingNest(stack: seq<bool>, brace: bool, pieces: seq<Pieces>)
    requires stack != [] && |pieces| == |stack| + 1 && AllValid(pieces)
    ensures var n := |stack|;
            && AllValid(pieces[..n]) && ValidPieces(pieces[n])
            && [Opening(brace)] + ClosingText(stack + [brace], pieces)
               == PieceText(Nest(brace, pieces[n])) + ClosingText(stack, pieces[..n])
  {
    hide ValidPieces, PiecesText, PieceText, ClosingText;
    var n := |stack|;
    ClosingMore(stack, brace, pieces);
    NestText(brace, pieces[n]);
    var a, b, c, d := [Opening(brace)], PiecesText(pieces[n]), [Closing(brace)], ClosingText(stack, pieces[..n]);
    assert a + ((b + c) + d) == ((a + b) + c) + d;
  }

  lemma ClosingMore(stack: seq<bool>, brace: bool, pieces: seq<Pieces>)
    requires |pieces| == |stack| + 1
    ensures var n := |stack|;
            ClosingText(stack + [brace], pieces) == (PiecesText(pieces[n]) + [Closing(brace)]) + ClosingText(stack, pieces[..n])
  {
    assert (stack + [brace])[..|stack|] == stack;
  }

  lemma NestText(brace: bool, inner: Pieces)
    ensures PieceText(Nest(brace, inner)) == ([Opening(brace)] + PiecesText(inner)) + [Closing(brace)]
  {
  }

  /** What the scanner passes until the stack is empty. */
  lemma {:induction false} PiecesOf(s: Bytes, offset: nat, stack: seq<bool>) returns (pieces: seq<Pieces>)
    requires offset <= |s| && stack != [] && ContainerEnd(s, offset, Brackets(stack)).Some?
    ensures |pieces| == |stack| && AllValid(pieces) && At(s, offset, ClosingText(stack, pieces))
    ensures ContainerEnd(s, offset, Brackets(stack)) == Some(offset + |ClosingText(stack, pieces)|)
    decreases |s| - offset
  {
    hide At, ContainerEnd, StringEnd, ClosingText, AllValid, PieceText, Unbroken, Brackets;
    NotAtEnd(s, offset, Brackets(stack));
    var n := |stack| - 1;
    var b := s[offset];
    OneByte(s, offset);
    if b == QUOTE {
      PassString(s, offset, Brackets(stack));
      var chars := CharsOf(s, offset);
      var rest := PiecesOf(s, offset + |chars| + 2, stack);
      pieces := rest[..n] + [Cons(Quotation(chars), rest[n])];
      QuotationText(chars);
      ClosingCons(stack, rest, Quotation(chars));
      AtJoin(s, offset, [QUOTE] + chars + [QUOTE], ClosingText(stack, rest));
    } else if b == OPEN_BRACE || b == OPEN_BRACKET {
      var brace := b == OPEN_BRACE;
      PassOpening(s, offset, brace, Brackets(stack));
      BracketsMore(stack, brace);
      var rest := PiecesOf(s, offset + 1, stack + [brace]);
      ClosingNest(stack, brace, rest);
      NestIsValid(brace, rest[n + 1]);
      ClosingCons(stack, rest[..n + 1], Nest(brace, rest[n + 1]));
      pieces := rest[..n] + [Cons(Nest(brace, rest[n + 1]), rest[n])];
      assert rest[..n + 1][..n] == rest[..n];
      AtJoin(s, offset, [b], ClosingText(stack + [brace], rest));
    } else if b == CLOSE_BRACE || b == CLOSE_BRACKET {
      TopMatches(s, offset, stack);
      if n == 0 {
        pieces := [Nil];
        LastClosing(s, offset, b);
        ClosingOne(stack);
      } else {
        assert stack == stack[..n] + [stack[n]];
        BracketsMore(stack[..n], stack[n]);
        PassClosing(s, offset, stack[n], Brackets(stack[..n]));
        var rest := PiecesOf(s, offset + 1, stack[..n]);
        pieces := rest + [Nil];
        ClosingStep(stack, rest);
        AtJoin(s, offset, [b], ClosingText(stack[..n], rest));
      }
    } else {
      PassByte(s, offset, Brackets(stack));
      var rest := PiecesOf(s, offset + 1, stack);
      pieces := rest[..n] + [Cons(Char(b), rest[n])];
      CharText(b);
      ClosingCons(stack, rest, Char(b));
      AtJoin(s, offset, [b], ClosingText(stack, rest));
    }
  }

  lemma BracketsMore(stack: seq<bool>, brace: bool)
    ensures Brackets(stack + [brace]) == Brackets(stack) + [Closing(brace)]
  {
  }

  lemma NotAtEnd(s: Bytes, offset: nat, closing: Bytes)
    requires offset <= |s| && ContainerEnd(s, offset, closing).Some?
    ensures offset < |s|
  {
  }

  /** A closing bracket that does not end the scan badly is the one awaited. */
  lemma TopMatches(s: Bytes, offset: nat, stack: seq<bool>)
    requires offset < |s| && stack != [] && ContainerEnd(s, offset, Brackets(stack)).Some?
    requires s[offset] == CLOSE_BRACE || s[offset] == CLOSE_BRACKET
    ensures s[offset] == Closing(stack[|stack| - 1])
  {
  }

  lemma QuotationText(chars: Bytes)
    requires Unbroken(chars)
    ensures ValidPiece(Quotation(chars)) && PieceText(Quotation(chars)) == [QUOTE] + chars + [QUOTE]
  {
  }

  lemma CharText(b: Byte)
    ensures PieceText(Char(b)) == [b]
  {
  }

  lemma NestIsValid(brace: bool, inner: Pieces)
    requires ValidPieces(inner)
    ensures ValidPiece(Nest(brace, inner))
  {
  }

  lemma ClosingOne(stack: seq<bool>)
    requires |stack| == 1
    ensures ClosingText(stack, [Nil]) == [Closing(stack[0])] && AllValid([Nil]) && Brackets(stack) == [Closing(stack[0])]
  {
    assert stack[..0] == [];
    assert ClosingText(stack[..0], [Nil][..0]) == [];
  }

  lemma ClosingStep(stack: seq<bool>, rest: seq<Pieces>)
    requires stack != []
    ensures |rest| == |stack| - 1 && AllValid(rest) ==>
              && AllValid(rest + [Nil])
              && ClosingText(stack, rest + [Nil]) == [Closing(stack[|stack| - 1])] + ClosingText(stack[..|stack| - 1], rest)
  {
    if |rest| == |stack| - 1 {
      var n := |stack| - 1;
      assert (rest + [Nil])[..n] == rest && (rest + [Nil])[n] == Nil;
      assert [] + [Closing(stack[n])] == [Closing(stack[n])];
    }
  }

  /** Brackets end where they match, whatever else stands inside, and only there. */
  lemma ContainerExactly(s: Bytes, offset: nat, end: nat)
    requires offset <= |s|
    ensures offset < |s| && (s[offset] == '{' as int || s[offset] == '[' as int) && ContainerEnd(s, offset, []) == Some(end)
            <==> exists brace, inner :: ValidPieces(inner) && At(s, offset, PieceText(Nest(brace, inner)))
                                        && end == offset + |PieceText(Nest(brace, inner))|
  {
    hide At, ContainerEnd, ValidPieces, PieceText, PiecesText;
    if offset < |s| && (s[offset] == OPEN_BRACE || s[offset] == OPEN_BRACKET) && ContainerEnd(s, offset, []) == Some(end) {
      var brace, inner := NestOf(s, offset);
    }
    if brace, inner :| ValidPieces(inner) && At(s, offset, PieceText(Nest(brace, inner)))
                       && end == offset + |PieceText(Nest(brace, inner))| {
      NestStands(s, offset, brace, inner);
    }
  }

  lemma NestStands(s: Bytes, offset: nat, brace: bool, inner: Pieces)
    requires ValidPieces(inner) && At(s, offset, PieceText(Nest(brace, inner)))
    ensures offset < |s| && s[offset] == Opening(brace)
    ensures ContainerEnd(s, offset, []) == Some(offset + |PieceText(Nest(brace, inner))|)
  {
    hide At, ContainerEnd, ValidPieces, PiecesText;
    OpenClose(s, offset, Opening(brace), PiecesText(inner), Closing(brace));
    PassOpening(s, offset, brace, []);
    assert [] + [Closing(brace)] == [Closing(brace)];
    PassPieces(s, offset + 1, inner, [Closing(brace)]);
    LastClosing(s, offset + 1 + |PiecesText(inner)|, Closing(brace));
  }

  lemma NestOf(s: Bytes, offset: nat) returns (brace: bool, inner: Pieces)
    requires offset < |s| && (s[offset] == OPEN_BRACE || s[offset] == OPEN_BRACKET) && ContainerEnd(s, offset, []).Some?
    ensures ValidPieces(inner) && At(s, offset, PieceText(Nest(brace, inner)))
    ensures ContainerEnd(s, offset, []) == Some(offset + |PieceText(Nest(brace, inner))|)
  {
    hide At, ContainerEnd, ValidPieces, PiecesText;
    brace := s[offset] == OPEN_BRACE;
    PassOpening(s, offset, brace, []);
    assert [] + [Closing(brace)] == Brackets([brace]);
    var pieces := PiecesOf(s, offset + 1, [brace]);
    inner := pieces[0];
    assert [brace][..0] == [] && pieces[..0] == [] && ClosingText([], []) == [];
    assert ClosingText([brace], pieces) == PiecesText(inner) + [Closing(brace)];
    OneByte(s, offset);
    AtJoin(s, offset, [Opening(brace)], PiecesText(inner) + [Closing(brace)]);
    assert [Opening(brace)] + (PiecesText(inner) + [Closing(brace)]) == PieceText(Nest(brace, inner));
  }

  // ---- values and members ----

  predicate Blanks(s: Bytes, from: nat, end: nat)
    requires end <= |s|
  {
    forall i :: from <= i < end ==> s[i] == ' ' as int || s[i] == '\t' as int || s[i] == '\r' as int || s[i] == '\n' as int
  }

  predicate Black(s: Bytes, offset: nat)
    requires offset < |s|
  {
    s[offset] != ' ' as int && s[offset] != '\t' as int && s[offset] != '\r' as int && s[offset] != '\n' as int
  }

  lemma {:induction false} SkipExactly(s: Bytes, offset: nat, end: nat)
    requires offset <= |s|
    ensures SkipSpace(s, offset) == end <==> offset <= end <= |s| && Blanks(s, offset, end) && (end < |s| ==> Black(s, end))
    decreases |s| - offset
  {
    if offset < |s| && IsSpace(s[offset]) {
      SkipExactly(s, offset + 1, end);
    }
  }

  lemma {:induction false} StopExactly(s: Bytes, offset: nat)
    requires offset <= |s|
    ensures var stop := ScalarStop(s, offset);
            && (forall i :: offset <= i < stop ==> s[i] != ',' as int && s[i] != '}' as int)
            && (stop < |s| ==> s[stop] == ',' as int || s[stop] == '}' as int)
    decreases |s| - offset
  {
    if offset < |s| && s[offset] != COMMA && s[offset] != CLOSE_BRACE {
      StopExactly(s, offset + 1);
    }
  }

  lemma {:induction false} TrimExactly(s: Bytes, stop: nat)
    requires stop <= |s|
    ensures var end := TrimBack(s, stop); Blanks(s, end, stop) && (end > 0 ==> Black(s, end - 1))
  {
    if stop > 0 && IsSpace(s[stop - 1]) {
      TrimExactly(s, stop - 1);
    }
  }

  /** A scalar runs to the next comma or brace, but for the blanks before that. */
  predicate ScalarText(s: Bytes, begin: nat, end: nat, stop: nat) {
    && begin <= end <= stop <= |s|
    && (forall i :: begin <= i < stop ==> s[i] != ',' as int && s[i] != '}' as int)
    && (stop < |s| ==> s[stop] == ',' as int || s[stop] == '}' as int)
    && Blanks(s, end, stop) && (end > 0 ==> Black(s, end - 1))
  }

  /** A string, brackets, or anything else up to a comma or brace. */
  ghost predicate ValueText(s: Bytes, begin: nat, end: nat) {
    && begin < |s|
    && if s[begin] == '"' as int then
         exists chars :: Unbroken(chars) && At(s, begin, [QUOTE] + chars + [QUOTE]) && end == begin + |chars| + 2
       else if s[begin] == '{' as int || s[begin] == '[' as int then
         exists brace, inner :: ValidPieces(inner) && At(s, begin, PieceText(Nest(brace, inner)))
                                && end == begin + |PieceText(Nest(brace, inner))|
       else exists stop :: ScalarText(s, begin, end, stop)
  }

  lemma ValueExactly(s: Bytes, begin: nat, end: nat)
    requires begin <= end
    ensures ValueEnd(s, begin) == Some(end) <==> ValueText(s, begin, end)
  {
    hide At, StringEnd, ContainerEnd, ScalarStop, TrimBack, ScalarText, ValidPieces, PieceText, Unbroken;
    if begin < |s| {
      StringExactly(s, begin, end);
      ContainerExactly(s, begin, end);
      ScalarExactly(s, begin, end);
    }
  }

  lemma ScalarExactly(s: Bytes, begin: nat, end: nat)
    requires begin <= end && begin < |s|
    ensures TrimBack(s, ScalarStop(s, begin)) == end <==> exists stop :: ScalarText(s, begin, end, stop)
  {
    hide ScalarStop, TrimBack;
    var stop := ScalarStop(s, begin);
    StopExactly(s, begin);
    TrimExactly(s, stop);
    if TrimBack(s, stop) == end {
      assert ScalarText(s, begin, end, stop);
    }
    if other :| ScalarText(s, begin, end, other) {
      assert other == stop;
      SameEnd(s, TrimBack(s, stop), end, stop);
    }
  }

  lemma SameEnd(s: Bytes, a: nat, b: nat, stop: nat)
    requires a <= stop <= |s| && Blanks(s, a, stop) && (a > 0 ==> Black(s, a - 1))
    requires b <= stop && Blanks(s, b, stop) && (b > 0 ==> Black(s, b - 1))
    ensures a == b
  {
    assert forall i :: a <= i < stop ==> !Black(s, i);
    assert forall i :: b <= i < stop ==> !Black(s, i);
  }

  /** Where a member stands: its key, its colon and its value. */
  datatype Spot = Spot(keyAt: nat, keyEnd: nat, colon: nat, begin: nat, end: nat)

  ghost predicate Stands(s: Bytes, from: nat, p: Spot) {
    && from <= p.keyAt < p.keyEnd <= p.colon < p.begin <= p.end <= |s| && p.begin < |s|
    && Blanks(s, from, p.keyAt) && Blanks(s, p.keyEnd, p.colon) && Blanks(s, p.colon + 1, p.begin) && Black(s, p.begin)
    && (exists chars :: Unbroken(chars) && At(s, p.keyAt, [QUOTE] + chars + [QUOTE]) && p.keyEnd == p.keyAt + |chars| + 2)
    && s[p.colon] == ':' as int && ValueText(s, p.begin, p.end)
  }

  function SpotOf(s: Bytes, from: nat): Option<Spot>
    requires from <= |s|
  {
    var keyAt := SkipSpace(s, from);
    var keyEnd :- StringEnd(s, keyAt);
    var colon := SkipSpace(s, keyEnd);
    if colon == |s| || s[colon] != COLON then None
    else
      var begin := SkipSpace(s, colon + 1);
      var end :- ValueEnd(s, begin);
      if end < begin then None else Some(Spot(keyAt, keyEnd, colon, begin, end))
  }

  lemma SpotExactly(s: Bytes, from: nat, p: Spot)
    requires from <= |s|
    ensures SpotOf(s, from) == Some(p) <==> Stands(s, from, p)
  {
    hide At, StringEnd, SkipSpace, ValueEnd, ValueText, Unbroken, Blanks;
    SkipExactly(s, from, p.keyAt);
    StringExactly(s, p.keyAt, p.keyEnd);
    if p.keyEnd <= |s| {
      SkipExactly(s, p.keyEnd, p.colon);
    }
    if p.colon < |s| {
      SkipExactly(s, p.colon + 1, p.begin);
    }
    if p.begin <= p.end {
      ValueExactly(s, p.begin, p.end);
    }
    ValueStarts(s, p.begin);
  }

  lemma ValueStarts(s: Bytes, begin: nat)
    ensures ValueEnd(s, begin).Some? ==> begin < |s|
  {
  }

  lemma ReadIsSpot(s: Bytes, from: nat, decode: Bytes -> Option<Bytes>)
    requires from <= |s|
    ensures ReadMember(s, from, decode)
            == if SpotOf(s, from).None? then None
               else
                 var p := SpotOf(s, from).value;
                 var key := decode(s[p.keyAt..p.keyEnd]);
                 if key.None? then None else Some(Found(key.value, p.begin, p.end))
  {
    hide StringEnd, SkipSpace, ValueEnd;
  }

  /** Members from an offset on, each after the comma that follows the one before it; all but the last
      have another key. */
  ghost predicate Chain(s: Bytes, from: nat, spots: seq<Spot>, member: Bytes, decode: Bytes -> Option<Bytes>)
    decreases |spots|
  {
    && spots != [] && Stands(s, from, spots[0])
    && var key := decode(s[spots[0].keyAt..spots[0].keyEnd]);
       if |spots| == 1 then key == Some(member)
       else key.Some? && key.value != member
            && exists comma :: spots[0].end <= comma < |s| && Blanks(s, spots[0].end, comma) && s[comma] == ',' as int
                               && Chain(s, comma + 1, spots[1..], member, decode)
  }

  lemma {:induction false} ChainOf(s: Bytes, from: nat, member: Bytes, decode: Bytes -> Option<Bytes>) returns (spots: seq<Spot>)
    requires from <= |s| && MemberFrom(s, from, member, decode).Some?
    ensures Chain(s, from, spots, member, decode)
    ensures var last := spots[|spots| - 1];
            last.begin <= last.end <= |s| && MemberFrom(s, from, member, decode) == Some(s[last.begin..last.end])
    decreases |s| - from
  {
    hide SkipSpace, Stands, Blanks, Black, Chain, MemberFrom;
    var p, comma := FirstSpot(s, from, member, decode);
    SpotEnds(s, from, p);
    if decode(s[p.keyAt..p.keyEnd]) == Some(member) {
      spots := [p];
      LastOfChain(s, from, p, member, decode);
    } else {
      var rest := ChainOf(s, comma + 1, member, decode);
      spots := [p] + rest;
      ChainGrows(s, from, p, comma, rest, member, decode);
    }
  }

  /** The first member, and the comma after it if its key is another one. */
  lemma FirstSpot(s: Bytes, from: nat, member: Bytes, decode: Bytes -> Option<Bytes>) returns (p: Spot, comma: nat)
    requires from <= |s| && MemberFrom(s, from, member, decode).Some?
    ensures Stands(s, from, p) && p.keyAt < p.keyEnd <= |s| && p.begin <= p.end <= |s| && from < p.end
    ensures var key := decode(s[p.keyAt..p.keyEnd]);
            && key.Some?
            && (key.value == member ==> MemberFrom(s, from, member, decode) == Some(s[p.begin..p.end]))
            && (key.value != member ==>
                  && p.end <= comma < |s| && Blanks(s, p.end, comma) && s[comma] == ',' as int
                  && MemberFrom(s, from, member, decode) == MemberFrom(s, comma + 1, member, decode))
  {
    hide ReadMember, SkipSpace, SpotOf, Stands, Blanks, Black;
    ReadIsSpot(s, from, decode);
    p := SpotOf(s, from).value;
    SpotExactly(s, from, p);
    SpotEnds(s, from, p);
    comma := SkipSpace(s, p.end);
    SkipExactly(s, p.end, comma);
  }

  lemma LastOfChain(s: Bytes, from: nat, p: Spot, member: Bytes, decode: Bytes -> Option<Bytes>)
    requires Stands(s, from, p) && p.keyAt < p.keyEnd <= |s| && decode(s[p.keyAt..p.keyEnd]) == Some(member)
    ensures Chain(s, from, [p], member, decode)
  {
    hide Stands;
  }

  lemma ChainGrows(s: Bytes, from: nat, p: Spot, comma: nat, rest: seq<Spot>, member: Bytes, decode: Bytes -> Option<Bytes>)
    requires Stands(s, from, p) && p.keyAt < p.keyEnd <= |s| && Chain(s, comma + 1, rest, member, decode)
    requires var key := decode(s[p.keyAt..p.keyEnd]); key.Some? && key.value != member
    requires p.end <= comma < |s| && Blanks(s, p.end, comma) && s[comma] == ',' as int
    ensures rest != [] && Chain(s, from, [p] + rest, member, decode)
  {
    hide Stands, Blanks;
    ChainIsSome(s, comma + 1, rest, member, decode);
    assert ([p] + rest)[1..] == rest;
  }

  lemma SpotEnds(s: Bytes, from: nat, p: Spot)
    requires Stands(s, from, p)
    ensures p.keyAt < p.keyEnd <= |s| && p.begin <= p.end <= |s|
  {
    hide At, ValueText, Unbroken, Blanks;
  }

  lemma {:induction false} ChainIsFollowed(s: Bytes, from: nat, spots: seq<Spot>, member: Bytes, decode: Bytes -> Option<Bytes>)
    requires from <= |s| && Chain(s, from, spots, member, decode)
    ensures var last := spots[|spots| - 1];
            last.begin <= last.end <= |s| && MemberFrom(s, from, member, decode) == Some(s[last.begin..last.end])
    decreases |spots|
  {
    hide SkipSpace, Stands, Blanks, Black, MemberFrom;
    var p := spots[0];
    SpotEnds(s, from, p);
    SpotIsRead(s, from, p, member, decode);
    if |spots| > 1 {
      var comma :| p.end <= comma < |s| && Blanks(s, p.end, comma) && s[comma] == ',' as int
                   && Chain(s, comma + 1, spots[1..], member, decode);
      CommaFollows(s, from, p, comma, member, decode);
      ChainIsFollowed(s, comma + 1, spots[1..], member, decode);
    }
  }

  lemma SpotIsRead(s: Bytes, from: nat, p: Spot, member: Bytes, decode: Bytes -> Option<Bytes>)
    requires from <= |s| && Stands(s, from, p) && p.keyAt < p.keyEnd <= |s| && p.begin <= p.end <= |s|
    ensures decode(s[p.keyAt..p.keyEnd]) == Some(member) ==> MemberFrom(s, from, member, decode) == Some(s[p.begin..p.end])
  {
    hide ReadMember, SkipSpace, SpotOf, Stands;
    SpotExactly(s, from, p);
    ReadIsSpot(s, from, decode);
  }

  lemma CommaFollows(s: Bytes, from: nat, p: Spot, comma: nat, member: Bytes, decode: Bytes -> Option<Bytes>)
    requires from <= |s| && Stands(s, from, p) && p.keyAt < p.keyEnd <= |s| && p.begin <= p.end <= |s|
    requires var key := decode(s[p.keyAt..p.keyEnd]); key.Some? && key.value != member
    requires p.end <= comma < |s| && Blanks(s, p.end, comma) && s[comma] == ',' as int
    ensures MemberFrom(s, from, member, decode) == MemberFrom(s, comma + 1, member, decode)
  {
    hide ReadMember, SkipSpace, SpotOf, Stands, Blanks, Black;
    SpotExactly(s, from, p);
    ReadIsSpot(s, from, decode);
    CommaIsBlack(s, comma);
    SkipExactly(s, p.end, comma);
  }

  lemma CommaIsBlack(s: Bytes, offset: nat)
    requires offset < |s| && (s[offset] == ',' as int || s[offset] == '{' as int)
    ensures Black(s, offset)
  {
  }

  /** Every document and every member: something is returned if and only if blanks and an opening brace
      come first and then, separated by commas, members up to one with this key, each a string, a colon and
      a value with blanks around them; and then it is exactly that value's bytes. */
  lemma ExtractExactly(s: Bytes, member: Bytes, decode: Bytes -> Option<Bytes>, value: Bytes)
    ensures MemberRaw(s, member, decode) == Some(value)
            <==> exists open: nat, spots :: Leads(s, open, spots, member, decode, value)
  {
    hide MemberFrom, SkipSpace, Chain, Blanks, Black;
    if MemberRaw(s, member, decode) == Some(value) {
      var open := SkipSpace(s, 0);
      SkipExactly(s, 0, open);
      var spots := ChainOf(s, open + 1, member, decode);
      assert spots != [] by { ChainIsSome(s, open + 1, spots, member, decode); }
      assert Leads(s, open, spots, member, decode, value);
    }
    if open: nat, spots :| Leads(s, open, spots, member, decode, value) {
      CommaIsBlack(s, open);
      SkipExactly(s, 0, open);
      ChainIsFollowed(s, open + 1, spots, member, decode);
    }
  }

  ghost predicate Leads(s: Bytes, open: nat, spots: seq<Spot>, member: Bytes, decode: Bytes -> Option<Bytes>, value: Bytes) {
    && open < |s| && Blanks(s, 0, open) && s[open] == '{' as int
    && spots != [] && Chain(s, open + 1, spots, member, decode)
    && var last := spots[|spots| - 1];
       last.begin <= last.end <= |s| && value == s[last.begin..last.end]
  }

  lemma ChainIsSome(s: Bytes, from: nat, spots: seq<Spot>, member: Bytes, decode: Bytes -> Option<Bytes>)
    requires Chain(s, from, spots, member, decode)
    ensures spots != []
  {
    hide Stands;
  }
}
