/** parse_content_range, over the text of section 14.4 of RFC 9110. */
module ContentRange {
  import opened Basics
  import opened Text
  import opened Trim

  const LIMIT: nat := 0x1_0000_0000_0000_0000
  const DASH: Byte := '-' as int
  const SLASH: Byte := '/' as int

  datatype Range = Range(start: nat, end: nat, total: nat)

  function SkipBlanks(s: Bytes): Bytes {
    if s != [] && (s[0] == 0x20 || 9 <= s[0] <= 13) then SkipBlanks(s[1..]) else s
  }

  function LeadingDigits(s: Bytes): (d: Bytes)
    ensures AllDigits(d)
  {
    if s != [] && IsDigit(s[0]) then [s[0]] + LeadingDigits(s[1..]) else []
  }

  /** std::stoull in base 10: blanks, a sign, as many digits as there are; None is an exception. A minus
      sign negates modulo 2^64. */
  function Stoull(s: Bytes): Option<nat> {
    var t := SkipBlanks(s);
    var signed := t != [] && (t[0] == DASH || t[0] == '+' as int);
    var digits := LeadingDigits(if signed then t[1..] else t);
    if digits == [] || DecimalValue(digits) >= LIMIT then None
    else if t[0] == DASH then Some((LIMIT - DecimalValue(digits)) % LIMIT)
    else Some(DecimalValue(digits))
  }

  /** A total of 0 is an unknown one. */
  function Parse(value: Bytes): (r: Option<Range>)
    ensures r.Some? ==> r.value.start <= r.value.end && (r.value.total != 0 ==> r.value.end < r.value.total)
  {
    var text := Trimmed(value);
    if !(Lit("bytes ") <= text) then None
    else
      var dash := Find(text, DASH, 6);
      if dash.None? then None
      else
        var slash := Find(text, SLASH, dash.value + 1);
        if slash.None? then None
        else
          var start, end := Stoull(text[6..dash.value]), Stoull(text[dash.value + 1..slash.value]);
          var last := text[slash.value + 1..];
          var total := if last == Lit("*") then Some(0) else Stoull(last);
          if start.None? || end.None? || total.None? then None
          else if end.value < start.value || (total.value != 0 && end.value >= total.value) then None
          else Some(Range(start.value, end.value, total.value))
  }

  // ---- printing ----

  /** A Content-Range field value; no total stands for an unknown length. */
  function Print(start: nat, end: nat, total: Option<nat>): Bytes {
    Lit("bytes ") + Decimal(start) + [DASH] + Decimal(end) + [SLASH] + PrintTotal(total)
  }

  function PrintTotal(total: Option<nat>): Bytes {
    if total.Some? then Decimal(total.value) else Lit("*")
  }

  lemma {:induction false} DigitsOnly(s: Bytes)
    requires AllDigits(s)
    ensures LeadingDigits(s) == s
  {
    if s != [] {
      DigitsOnly(s[1..]);
      assert s == [s[0]] + s[1..];
    }
  }

  lemma StoullDecimal(n: nat)
    requires n < LIMIT
    ensures Stoull(Decimal(n)) == Some(n)
  {
    hide Decimal, DecimalValue;
    var s := Decimal(n);
    assert IsDigit(s[0]);
    assert SkipBlanks(s) == s;
    DigitsOnly(s);
    DecimalRoundTrip(n);
  }

  lemma PrintIsTight(start: nat, end: nat, total: Option<nat>)
    ensures Tight(Print(start, end, total))
  {
    hide Decimal;
    var s, t := Print(start, end, total), PrintTotal(total);
    assert s[0] == Lit("bytes ")[0];
    assert s[|s| - 1] == t[|t| - 1];
    if total.Some? {
      assert IsDigit(t[|t| - 1]);
    }
  }

  lemma NotInDigits(digits: Bytes, separator: Byte)
    requires AllDigits(digits) && !IsDigit(separator)
    ensures separator !in digits
  {
    hide IsDigit;
  }

  lemma Between(before: Bytes, digits: Bytes, separator: Byte, rest: Bytes)
    ensures var s := before + digits + [separator] + rest;
            var end := |before| + |digits|;
            s[|before|..end] == digits && s[end + 1..] == rest && (before + digits)[|before|..] == digits
  {
  }

  lemma FindSeparator(head: Bytes, separator: Byte, rest: Bytes, from: nat, end: nat)
    requires from <= |head| == end && separator !in head[from..]
    ensures Find(head + [separator] + rest, separator, from) == Some(end)
  {
    FindFirst(head, separator, rest, from);
  }

  /** A separator that follows digits. */
  lemma AfterDigits(before: Bytes, digits: Bytes, separator: Byte, rest: Bytes, end: nat)
    requires AllDigits(digits) && !IsDigit(separator) && end == |before| + |digits|
    ensures var s := before + digits + [separator] + rest;
            Find(s, separator, |before|) == Some(end) && s[|before|..end] == digits && s[end + 1..] == rest
  {
    hide Find, AllDigits, IsDigit;
    NotInDigits(digits, separator);
    Between(before, digits, separator, rest);
    FindSeparator(before + digits, separator, rest, |before|, end);
  }

  /** Where the pieces of a printed range lie. */
  lemma PrintPieces(start: nat, end: nat, total: Option<nat>)
    ensures var s := Print(start, end, total);
            var dash := 6 + |Decimal(start)|;
            var slash := dash + 1 + |Decimal(end)|;
            && Lit("bytes ") <= s && Find(s, DASH, 6) == Some(dash) && Find(s, SLASH, dash + 1) == Some(slash)
            && s[6..dash] == Decimal(start) && s[dash + 1..slash] == Decimal(end) && s[slash + 1..] == PrintTotal(total)
  {
    hide Decimal, Lit, Find, PrintTotal;
    PrintStart(start, end, total);
    PrintEnd(start, end, total);
  }

  lemma PrintStart(start: nat, end: nat, total: Option<nat>)
    ensures var s := Print(start, end, total);
            var dash := 6 + |Decimal(start)|;
            Lit("bytes ") <= s && Find(s, DASH, 6) == Some(dash) && s[6..dash] == Decimal(start)
  {
    hide Decimal, Lit, Find, PrintTotal;
    var rest := Decimal(end) + [SLASH] + PrintTotal(total);
    assert Print(start, end, total) == Lit("bytes ") + Decimal(start) + [DASH] + rest;
    AfterDigits(Lit("bytes "), Decimal(start), DASH, rest, 6 + |Decimal(start)|);
  }

  lemma PrintEnd(start: nat, end: nat, total: Option<nat>)
    ensures var s := Print(start, end, total);
            var dash := 6 + |Decimal(start)|;
            var slash := dash + 1 + |Decimal(end)|;
            Find(s, SLASH, dash + 1) == Some(slash) && s[dash + 1..slash] == Decimal(end) && s[slash + 1..] == PrintTotal(total)
  {
    hide Decimal, Lit, Find, PrintTotal;
    var dash := 6 + |Decimal(start)|;
    AfterDigits(Lit("bytes ") + Decimal(start) + [DASH], Decimal(end), SLASH, PrintTotal(total), dash + 1 + |Decimal(end)|);
  }

  lemma TotalReads(total: Option<nat>)
    requires total.Some? ==> total.value < LIMIT
    ensures var last := PrintTotal(total);
            (if last == Lit("*") then Some(0) else Stoull(last)) == Some(if total.Some? then total.value else 0)
  {
    hide Decimal, Stoull;
    if total.Some? {
      assert IsDigit(Decimal(total.value)[0]);
      StoullDecimal(total.value);
    }
  }

  /** Every range that fits 64 bits is read back from its field value, in any blanks, exactly when it is
      a range: not reversed, and inside its total. */
  lemma ParsePrint(pre: Bytes, post: Bytes, start: nat, end: nat, total: Option<nat>)
    requires AllSpace(pre) && AllSpace(post)
    requires start < LIMIT && end < LIMIT && (total.Some? ==> 0 < total.value < LIMIT)
    ensures Parse(pre + Print(start, end, total) + post)
            == if start <= end && (total.Some? ==> end < total.value)
               then Some(Range(start, end, if total.Some? then total.value else 0)) else None
  {
    hide Print, Decimal, Lit, Find, Stoull, PrintTotal, Trimmed;
    PrintIsTight(start, end, total);
    TrimmedPadded(pre, Print(start, end, total), post);
    PrintPieces(start, end, total);
    StoullDecimal(start);
    StoullDecimal(end);
    TotalReads(total);
  }

  /** The answer to an unsatisfiable request carries no range. */
  lemma NoRangeInUnsatisfied(total: nat)
    ensures Parse(Lit("bytes */") + Decimal(total)) == None
  {
    hide Decimal, Stoull, Trimmed;
    var s := Lit("bytes */") + Decimal(total);
    assert Tight(s) by {
      assert s[|s| - 1] == Decimal(total)[|Decimal(total)| - 1];
      assert IsDigit(Decimal(total)[|Decimal(total)| - 1]);
    }
    assert [] + s + [] == s;
    TrimmedPadded([], s, []);
    forall i | 6 <= i < |s| ensures s[i] != DASH {
      if i >= 8 {
        assert s[i] == Decimal(total)[i - 8];
        assert IsDigit(s[i]);
      }
    }
  }

  // ---- every text ----

  /** How many blanks come first. */
  lemma {:induction false} BlanksSkipped(s: Bytes) returns (blanks: Bytes)
    ensures s == blanks + SkipBlanks(s) && forall i :: 0 <= i < |blanks| ==> blanks[i] == 0x20 || 9 <= blanks[i] <= 13
  {
    if s != [] && (s[0] == 0x20 || 9 <= s[0] <= 13) {
      var more := BlanksSkipped(s[1..]);
      blanks := [s[0]] + more;
      assert s == [s[0]] + s[1..];
    } else {
      blanks := [];
      assert [] + s == s;
    }
  }

  lemma {:induction false} SkipsExactly(blanks: Bytes, t: Bytes)
    requires forall i :: 0 <= i < |blanks| ==> blanks[i] == 0x20 || 9 <= blanks[i] <= 13
    requires t != [] && t[0] != 0x20 && !(9 <= t[0] <= 13)
    ensures SkipBlanks(blanks + t) == t
  {
    if blanks == [] {
      assert blanks + t == t;
    } else {
      assert (blanks + t)[1..] == blanks[1..] + t;
      SkipsExactly(blanks[1..], t);
    }
  }

  lemma {:induction false} DigitsTaken(s: Bytes)
    ensures var d := LeadingDigits(s);
            |d| <= |s| && s == d + s[|d|..] && (|d| < |s| ==> !IsDigit(s[|d|]))
  {
    if s != [] && IsDigit(s[0]) {
      DigitsTaken(s[1..]);
      assert s == [s[0]] + s[1..];
    }
  }

  lemma {:induction false} TakesExactly(digits: Bytes, rest: Bytes)
    requires AllDigits(digits) && (rest != [] ==> !IsDigit(rest[0]))
    ensures LeadingDigits(digits + rest) == digits
  {
    if digits == [] {
      assert digits + rest == rest;
    } else {
      assert (digits + rest)[1..] == digits[1..] + rest;
      TakesExactly(digits[1..], rest);
      assert digits == [digits[0]] + digits[1..];
    }
  }

  /** Blanks, a sign or none, digits that fit 64 bits, and anything that is no digit after them. */
  predicate NumberText(s: Bytes, blanks: Bytes, sign: Bytes, digits: Bytes, rest: Bytes) {
    && s == blanks + (sign + (digits + rest)) && (forall i :: 0 <= i < |blanks| ==> blanks[i] == 0x20 || 9 <= blanks[i] <= 13)
    && (sign == [] || sign == ['+' as int] || sign == ['-' as int])
    && digits != [] && AllDigits(digits)
    && (rest != [] ==> !('0' as int <= rest[0] <= '9' as int))
  }

  /** A number is read exactly from such a text; a minus sign negates it modulo 2^64. */
  lemma StoullExactly(s: Bytes, n: nat)
    ensures Stoull(s) == Some(n) <==>
              exists blanks, sign, digits, rest ::
                && NumberText(s, blanks, sign, digits, rest) && DecimalValue(digits) < 0x1_0000_0000_0000_0000
                && n == if sign == ['-' as int] then (0x1_0000_0000_0000_0000 - DecimalValue(digits)) % 0x1_0000_0000_0000_0000
                        else DecimalValue(digits)
  {
    hide DecimalValue, Stoull;
    if Stoull(s) == Some(n) {
      var blanks, sign, digits, rest := NumberParts(s);
    }
    if blanks, sign, digits, rest :| (NumberText(s, blanks, sign, digits, rest) && DecimalValue(digits) < LIMIT
                                      && n == if sign == ['-' as int] then (LIMIT - DecimalValue(digits)) % LIMIT
                                              else DecimalValue(digits)) {
      NumberIsRead(s, blanks, sign, digits, rest);
    }
  }

  lemma NumberParts(s: Bytes) returns (blanks: Bytes, sign: Bytes, digits: Bytes, rest: Bytes)
    requires Stoull(s).Some?
    ensures NumberText(s, blanks, sign, digits, rest) && DecimalValue(digits) < LIMIT
    ensures Stoull(s) == Some(if sign == ['-' as int] then (LIMIT - DecimalValue(digits)) % LIMIT else DecimalValue(digits))
  {
    hide DecimalValue, SkipBlanks, LeadingDigits, AllDigits;
    blanks := BlanksSkipped(s);
    var t := SkipBlanks(s);
    var signed := t != [] && (t[0] == DASH || t[0] == '+' as int);
    sign := if signed then [t[0]] else [];
    var u := if signed then t[1..] else t;
    DigitsTaken(u);
    digits := LeadingDigits(u);
    rest := u[|digits|..];
    SignCut(t, sign, u);
  }

  lemma SignCut(t: Bytes, sign: Bytes, u: Bytes)
    requires if sign == [] then u == t else t != [] && sign == [t[0]] && u == t[1..]
    ensures t == sign + u
  {
  }

  lemma NumberIsRead(s: Bytes, blanks: Bytes, sign: Bytes, digits: Bytes, rest: Bytes)
    requires NumberText(s, blanks, sign, digits, rest) && DecimalValue(digits) < LIMIT
    ensures Stoull(s) == Some(if sign == ['-' as int] then (LIMIT - DecimalValue(digits)) % LIMIT else DecimalValue(digits))
  {
    hide DecimalValue, SkipBlanks, LeadingDigits;
    var t := sign + (digits + rest);
    assert t[0] == if sign == [] then digits[0] else sign[0];
    SkipsExactly(blanks, t);
    TakesExactly(digits, rest);
    assert (if sign == [] then t else t[1..]) == digits + rest;
  }

  /** The pieces of a field value and the numbers they are. */
  predicate RangeText(text: Bytes, a: Bytes, b: Bytes, c: Bytes, r: Range) {
    && text == Lit("bytes ") + a + ['-' as int] + b + ['/' as int] + c
    && '-' as int !in a && '/' as int !in b && Stoull(a) == Some(r.start) && Stoull(b) == Some(r.end)
    && (if c == ['*' as int] then r.total == 0 else Stoull(c) == Some(r.total))
  }

  /** What a field value must be, once its blanks are trimmed, to name a range. */
  lemma ParseExactly(value: Bytes, r: Range)
    ensures Parse(value) == Some(r) <==>
              && r.start <= r.end && (r.total != 0 ==> r.end < r.total)
              && exists a, b, c :: RangeText(Trimmed(value), a, b, c, r)
  {
    hide Stoull, Find, Trimmed, Lit, Parse, RangeText;
    if Parse(value) == Some(r) {
      var a, b, c := RangePieces(value);
    }
    if a, b, c :| RangeText(Trimmed(value), a, b, c, r) {
      RangeIsRead(value, a, b, c, r);
    }
  }

  lemma RangePieces(value: Bytes) returns (a: Bytes, b: Bytes, c: Bytes)
    requires Parse(value).Some?
    ensures RangeText(Trimmed(value), a, b, c, Parse(value).value)
  {
    hide Stoull, Find, Trimmed, Lit;
    Star();
    var text := Trimmed(value);
    var dash := Find(text, DASH, 6).value;
    var slash := Find(text, SLASH, dash + 1).value;
    a, b, c := text[6..dash], text[dash + 1..slash], text[slash + 1..];
    CutTwice(text, 6, dash, slash);
    assert text[..6] == Lit("bytes ");
  }

  lemma CutTwice(text: Bytes, from: nat, dash: nat, slash: nat)
    requires from <= dash < slash < |text|
    ensures text == text[..from] + text[from..dash] + [text[dash]] + text[dash + 1..slash] + [text[slash]] + text[slash + 1..]
  {
  }

  lemma RangeIsRead(value: Bytes, a: Bytes, b: Bytes, c: Bytes, r: Range)
    requires RangeText(Trimmed(value), a, b, c, r)
    ensures Parse(value) == if r.start <= r.end && (r.total != 0 ==> r.end < r.total) then Some(r) else None
  {
    hide Stoull, Find, Trimmed, Lit;
    Star();
    Pieces(a, b, c);
  }

  lemma Star()
    ensures Lit("*") == ['*' as int]
  {
  }

  lemma Pieces(a: Bytes, b: Bytes, c: Bytes)
    requires DASH !in a && SLASH !in b
    ensures var s := Lit("bytes ") + a + [DASH] + b + [SLASH] + c;
            var dash := 6 + |a|;
            var slash := dash + 1 + |b|;
            && Lit("bytes ") <= s && Find(s, DASH, 6) == Some(dash) && Find(s, SLASH, dash + 1) == Some(slash)
            && s[6..dash] == a && s[dash + 1..slash] == b && s[slash + 1..] == c
  {
    hide Find, Lit;
    var start := Lit("bytes ");
    var s := start + a + [DASH] + b + [SLASH] + c;
    var rest := b + [SLASH] + c;
    assert s == (start + a) + [DASH] + rest;
    assert (start + a)[6..] == a;
    FindSeparator(start + a, DASH, rest, 6, 6 + |a|);
    assert s == (start + a + [DASH] + b) + [SLASH] + c;
    assert (start + a + [DASH] + b)[7 + |a|..] == b;
    FindSeparator(start + a + [DASH] + b, SLASH, c, 7 + |a|, 7 + |a| + |b|);
  }
}
