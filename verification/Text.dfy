/** One sequence standing inside another at a known offset. */
module Slices {

  predicate At<T(==)>(s: seq<T>, offset: nat, t: seq<T>) {
    offset + |t| <= |s| && s[offset..offset + |t|] == t
  }

  lemma AtSplit<T>(s: seq<T>, offset: nat, a: seq<T>, b: seq<T>)
    requires At(s, offset, a + b)
    ensures At(s, offset, a) && At(s, offset + |a|, b)
  {
    assert s[offset..offset + |a|] == s[offset..offset + |a + b|][..|a|];
    assert s[offset + |a|..offset + |a + b|] == s[offset..offset + |a + b|][|a|..];
  }

  lemma AtJoin<T>(s: seq<T>, offset: nat, a: seq<T>, b: seq<T>)
    requires At(s, offset, a) && At(s, offset + |a|, b)
    ensures At(s, offset, a + b)
  {
    assert s[offset..offset + |a + b|] == s[offset..offset + |a|] + s[offset + |a|..offset + |a + b|];
  }

  lemma AtHead<T>(s: seq<T>, offset: nat, t: seq<T>)
    requires At(s, offset, t) && t != []
    ensures offset < |s| && s[offset] == t[0] && At(s, offset + 1, t[1..])
  {
    assert t == [t[0]] + t[1..];
    AtSplit(s, offset, [t[0]], t[1..]);
    assert s[offset..offset + 1][0] == t[0];
  }

  lemma AtBoth<T>(s: seq<T>, offset: nat, a: seq<T>, b: seq<T>)
    ensures At(s, offset, a + b) <==> At(s, offset, a) && At(s, offset + |a|, b)
  {
    hide At;
    if At(s, offset, a + b) {
      AtSplit(s, offset, a, b);
    }
    if At(s, offset, a) && At(s, offset + |a|, b) {
      AtJoin(s, offset, a, b);
    }
  }

  lemma AtAll<T>(s: seq<T>, t: seq<T>)
    ensures s == t <==> At(s, 0, t) && |s| == |t|
  {
    assert s[0..|s|] == s;
  }

  lemma AtSlice<T>(s: seq<T>, offset: nat, t: seq<T>)
    ensures At(s, offset, t) <==> offset + |t| <= |s| && s[offset..offset + |t|] == t
  {
  }
}

/** Splitting and joining on a separator, and decimal numbers as text. */
module Text {
  import opened Basics
  import Int64

  const NEWLINE: Byte := '\n' as int

  predicate Free<T(==)>(parts: seq<seq<T>>, sep: T) {
    forall i :: 0 <= i < |parts| ==> sep !in parts[i]
  }

  function Join<T>(parts: seq<seq<T>>, sep: T): seq<T> {
    if |parts| == 0 then []
    else if |parts| == 1 then parts[0]
    else parts[0] + [sep] + Join(parts[1..], sep)
  }

  function Split<T(==)>(s: seq<T>, sep: T): (parts: seq<seq<T>>)
    ensures |parts| >= 1
    ensures Free(parts, sep)
  {
    if s == [] then [[]]
    else
      var rest := Split(s[1..], sep);
      if s[0] == sep then [[]] + rest
      else [[s[0]] + rest[0]] + rest[1..]
  }

  /** A separator-free string is its own only part. */
  lemma {:induction false} SplitWhole<T>(a: seq<T>, sep: T)
    requires sep !in a
    ensures Split(a, sep) == [a]
  {
    if a == [] {
    } else {
      SplitWhole(a[1..], sep);
      assert [a[0]] + a[1..] == a;
    }
  }

  /** The first separator ends the first part. */
  lemma {:induction false} SplitFirst<T>(a: seq<T>, sep: T, rest: seq<T>)
    requires sep !in a
    ensures Split(a + [sep] + rest, sep) == [a] + Split(rest, sep)
  {
    if a == [] {
      assert (a + [sep] + rest)[1..] == rest;
    } else {
      SplitFirst(a[1..], sep, rest);
      assert (a + [sep] + rest)[1..] == a[1..] + [sep] + rest;
      assert [a[0]] + a[1..] == a;
    }
  }

  /** What was joined from separator-free parts splits back into them. */
  lemma {:induction false} SplitJoin<T>(parts: seq<seq<T>>, sep: T)
    requires parts != [] && Free(parts, sep)
    ensures Split(Join(parts, sep), sep) == parts
  {
    if |parts| == 1 {
      SplitWhole(parts[0], sep);
    } else {
      SplitJoin(parts[1..], sep);
      SplitFirst(parts[0], sep, Join(parts[1..], sep));
      assert [parts[0]] + parts[1..] == parts;
    }
  }

  lemma {:induction false} JoinSplit<T>(s: seq<T>, sep: T)
    ensures Join(Split(s, sep), sep) == s
  {
    if s == [] {
    } else {
      JoinSplit(s[1..], sep);
      assert s == [s[0]] + s[1..];
      JoinFirst(s[0], Split(s[1..], sep), sep);
    }
  }

  lemma JoinFirst<T>(first: T, parts: seq<seq<T>>, sep: T)
    requires parts != []
    ensures Join([[]] + parts, sep) == [sep] + Join(parts, sep)
    ensures Join([[first] + parts[0]] + parts[1..], sep) == [first] + Join(parts, sep)
  {
    hide Join;
    var head, rest := parts[0], parts[1..];
    assert parts == [head] + rest;
    JoinCons(head, rest, sep);
    JoinCons([first] + head, rest, sep);
    JoinCons([], parts, sep);
    if rest != [] {
      assert ([first] + head) + ([sep] + Join(rest, sep)) == [first] + (head + ([sep] + Join(rest, sep)));
    }
    assert [] + ([sep] + Join(parts, sep)) == [sep] + Join(parts, sep);
  }

  lemma JoinCons<T>(head: seq<T>, rest: seq<seq<T>>, sep: T)
    ensures Join([head] + rest, sep) == if rest == [] then head else head + ([sep] + Join(rest, sep))
  {
    assert ([head] + rest)[1..] == rest;
  }

  /** Newline-joined text is unambiguous exactly when no field holds a newline. */
  lemma JoinUnambiguous<T>(parts: seq<seq<T>>, sep: T)
    requires parts != []
    ensures Split(Join(parts, sep), sep) == parts <==> Free(parts, sep)
  {
    if Free(parts, sep) {
      SplitJoin(parts, sep);
    }
  }

  lemma JoinInjective<T>(a: seq<seq<T>>, b: seq<seq<T>>, sep: T)
    requires a != [] && b != [] && Free(a, sep) && Free(b, sep)
    requires Join(a, sep) == Join(b, sep)
    ensures a == b
  {
    SplitJoin(a, sep);
    SplitJoin(b, sep);
  }

  /** A closing separator is an empty last part. */
  lemma {:induction false} JoinEnd<T>(parts: seq<seq<T>>, sep: T)
    requires parts != []
    ensures Join(parts + [[]], sep) == Join(parts, sep) + [sep]
  {
    if |parts| == 1 {
      assert (parts + [[]])[1..] == [[]];
    } else {
      JoinEnd(parts[1..], sep);
      assert (parts + [[]])[1..] == parts[1..] + [[]];
    }
  }

  lemma JoinOne<T>(part: seq<T>, sep: T)
    ensures Join([part], sep) == part
  {
  }

  lemma {:induction false} JoinConcat<T>(a: seq<seq<T>>, b: seq<seq<T>>, sep: T)
    requires a != [] && b != []
    ensures Join(a + b, sep) == Join(a, sep) + [sep] + Join(b, sep)
  {
    if |a| == 1 {
      assert (a + b)[1..] == b;
    } else {
      JoinConcat(a[1..], b, sep);
      assert (a + b)[1..] == a[1..] + b;
    }
  }

  /** The lines stand at the start of a text, one after the other, the last one up to a newline or the end. */
  predicate Begins(t: Bytes, lines: seq<Bytes>)
    decreases |lines|
  {
    if lines == [] then true
    else
      && lines[0] <= t && (|t| == |lines[0]| || t[|lines[0]|] == NEWLINE)
      && (|lines| > 1 ==> |lines[0]| < |t| && Begins(t[|lines[0]| + 1..], lines[1..]))
  }

  /** Where the first line of a text ends, and what the lines after it are. */
  lemma FirstLine(t: Bytes, line: Bytes)
    requires NEWLINE !in line
    ensures Split(t, NEWLINE)[0] == line <==> line <= t && (|t| == |line| || t[|line|] == NEWLINE)
    ensures Split(t, NEWLINE)[0] == line ==> (|Split(t, NEWLINE)| > 1 <==> |line| < |t|)
    ensures Split(t, NEWLINE)[0] == line && |line| < |t| ==> Split(t, NEWLINE)[1..] == Split(t[|line| + 1..], NEWLINE)
  {
    if line <= t && |t| == |line| {
      SplitWhole(line, NEWLINE);
      assert t == line;
    } else if line <= t && t[|line|] == NEWLINE {
      assert t == line + [NEWLINE] + t[|line| + 1..];
      SplitFirst(line, NEWLINE, t[|line| + 1..]);
    } else {
      HeadIsPrefix(t);
    }
  }

  lemma {:induction false} HeadIsPrefix(t: Bytes)
    ensures var head := Split(t, NEWLINE)[0]; head <= t && (|t| == |head| || t[|head|] == NEWLINE)
  {
    if t != [] && t[0] != NEWLINE {
      HeadIsPrefix(t[1..]);
      var head := Split(t[1..], NEWLINE)[0];
      assert t == [t[0]] + t[1..];
      assert Split(t, NEWLINE)[0] == [t[0]] + head;
    }
  }

  /** A text begins with given lines exactly when they are the first that it splits into. */
  lemma {:induction false} BeginsExactly(t: Bytes, lines: seq<Bytes>)
    requires lines != [] && Free(lines, NEWLINE)
    ensures Begins(t, lines) <==> |lines| <= |Split(t, NEWLINE)| && Split(t, NEWLINE)[..|lines|] == lines
    decreases |lines|
  {
    hide Split;
    var parts := Split(t, NEWLINE);
    FirstLine(t, lines[0]);
    if |lines| == 1 {
      assert parts[..1] == [parts[0]] && lines == [lines[0]];
    } else if parts[0] == lines[0] && |lines[0]| < |t| {
      BeginsExactly(t[|lines[0]| + 1..], lines[1..]);
      assert parts == [parts[0]] + parts[1..] && lines == [lines[0]] + lines[1..];
      if |lines| <= |parts| {
        assert parts[..|lines|] == [parts[0]] + parts[1..][..|lines| - 1];
      }
    } else if |lines| <= |parts| {
      assert parts[..|lines|][0] == parts[0];
    }
  }

  predicate Starts(line: Bytes, prefix: string) {
    Lit(prefix) <= line
  }

  /** The first occurrence at or after an index. */
  function Find<T(==)>(s: seq<T>, b: T, from: nat): (r: Option<nat>)
    requires from <= |s|
    ensures r.Some? ==> from <= r.value < |s| && s[r.value] == b && forall i :: from <= i < r.value ==> s[i] != b
    ensures r.None? ==> forall i :: from <= i < |s| ==> s[i] != b
    decreases |s| - from
  {
    if from == |s| then None else if s[from] == b then Some(from) else Find(s, b, from + 1)
  }

  lemma FindFirst<T>(a: seq<T>, b: T, rest: seq<T>, from: nat)
    requires from <= |a| && b !in a[from..]
    ensures Find(a + [b] + rest, b, from) == Some(|a|)
  {
    hide Find;
    var s := a + [b] + rest;
    assert s[|a|] == b;
    forall i | from <= i < |a| ensures s[i] != b {
      assert s[i] == a[from..][i - from];
    }
  }

  // ---- decimal text ----

  predicate AllDigits(s: Bytes) {
    forall i :: 0 <= i < |s| ==> IsDigit(s[i])
  }

  function Decimal(n: nat): (s: Bytes)
    ensures s != [] && AllDigits(s)
  {
    if n < 10 then ['0' as int + n] else Decimal(n / 10) + ['0' as int + n % 10]
  }

  function DecimalValue(s: Bytes): nat
    requires AllDigits(s)
  {
    if s == [] then 0 else 10 * DecimalValue(s[..|s| - 1]) + (s[|s| - 1] - '0' as int)
  }

  lemma {:induction false} DecimalRoundTrip(n: nat)
    ensures DecimalValue(Decimal(n)) == n
  {
    if n < 10 {
      assert Decimal(n)[..0] == [];
    } else {
      DecimalRoundTrip(n / 10);
      assert Decimal(n)[..|Decimal(n)| - 1] == Decimal(n / 10);
    }
  }

  /** strconv.FormatInt(n, 10). */
  function FormatInt(n: int): (s: Bytes)
    ensures s != []
    ensures forall i :: 0 <= i < |s| ==> IsDigit(s[i]) || s[i] == '-' as int
  {
    if n < 0 then ['-' as int] + Decimal(-n) else Decimal(n)
  }

  /** strconv.ParseInt(s, 10, 64): an optional sign, then one or more digits, in range. */
  function ParseInt(s: Bytes): (r: Option<int>) {
    if s == [] then None
    else
      var signed := s[0] == '-' as int || s[0] == '+' as int;
      var digits := if signed then s[1..] else s;
      if digits == [] || !AllDigits(digits) then None
      else
        var magnitude: int := DecimalValue(digits);
        var n: int := if s[0] == '-' as int then -magnitude else magnitude;
        if Int64.MIN <= n <= Int64.MAX then Some(n) else None
  }

  lemma ParseFormatInt(n: int)
    requires Int64.MIN <= n <= Int64.MAX
    ensures ParseInt(FormatInt(n)) == Some(n)
  {
    DecimalRoundTrip(if n < 0 then -n else n);
    assert n < 0 ==> FormatInt(n)[1..] == Decimal(-n);
  }

  lemma FormatIntInjective(a: int, b: int)
    requires FormatInt(a) == FormatInt(b)
    ensures a == b
  {
    DecimalRoundTrip(if a < 0 then -a else a);
    DecimalRoundTrip(if b < 0 then -b else b);
    if a < 0 {
      assert FormatInt(a)[1..] == Decimal(-a);
    } else {
      assert IsDigit(FormatInt(a)[0]);
    }
    if b < 0 {
      assert FormatInt(b)[1..] == Decimal(-b);
    } else {
      assert IsDigit(FormatInt(b)[0]);
    }
  }
}
