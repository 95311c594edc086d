/** Percent-encoding of a key or value. */
module Escape {
  import opened Basics
  import Hex

  const PERCENT: Byte := '%' as int

  predicate Unreserved(c: Byte) {
    || 'a' as int <= c <= 'z' as int || 'A' as int <= c <= 'Z' as int || IsDigit(c)
    || c == '-' as int || c == '.' as int || c == '_' as int || c == '~' as int
  }

  /** One digit of %X. */
  function UpperDigit(n: nat): Byte
    requires n < 16
  {
    if n < 10 then '0' as int + n else 'A' as int + (n - 10)
  }

  function Encoded(c: Byte): (r: Bytes)
    ensures r != []
  {
    if Unreserved(c) then [c] else [PERCENT, UpperDigit(c / 16), UpperDigit(c % 16)]
  }

  function Escaped(value: Bytes): Bytes {
    if value == [] then [] else Encoded(value[0]) + Escaped(value[1..])
  }

  /** Which bytes stay, and how the others are written. */
  lemma EscapedExactly(c: Byte, rest: Bytes)
    ensures Escaped([]) == []
    ensures Escaped([c] + rest)
            == (if 'a' as int <= c <= 'z' as int || 'A' as int <= c <= 'Z' as int || '0' as int <= c <= '9' as int
                   || c == '-' as int || c == '.' as int || c == '_' as int || c == '~' as int
                then [c]
                else ['%' as int, Lit("0123456789ABCDEF")[c / 16], Lit("0123456789ABCDEF")[c % 16]])
               + Escaped(rest)
  {
    hide Escaped, Lit;
    UpperDigitIs(c / 16);
    UpperDigitIs(c % 16);
    EscapedStep([c] + rest, 0);
    assert ([c] + rest)[0..] == [c] + rest && ([c] + rest)[1..] == rest;
    EscapedEnd([]);
  }

  lemma UpperDigitIs(n: nat)
    requires n < 16
    ensures UpperDigit(n) == Lit("0123456789ABCDEF")[n]
  {
  }

  /** escapeCanonical, and escape_canonical. */
  method EscapeCanonical(value: Bytes) returns (b: Bytes)
    ensures b == Escaped(value)
  {
    hide Escaped, UpperDigit;
    b := [];
    assert value[0..] == value;
    EscapedEnd(value);
    for i := 0 to |value|
      invariant b + Escaped(value[i..]) == Escaped(value)
    {
      var c := value[i];
      EscapedStep(value, i);
      ghost var rest := Escaped(value[i + 1..]);
      assert b + (Encoded(c) + rest) == (b + Encoded(c)) + rest;
      if Unreserved(c) {
        b := b + [c];
        continue;
      }
      b := b + [PERCENT, UpperDigit(c / 16), UpperDigit(c % 16)];
    }
  }

  lemma EscapedStep(value: Bytes, i: nat)
    requires i < |value|
    ensures Escaped(value[i..]) == Encoded(value[i]) + Escaped(value[i + 1..])
  {
    assert value[i..][1..] == value[i + 1..];
  }

  lemma EscapedEnd(value: Bytes)
    ensures Escaped(value[|value|..]) == [] && forall b: Bytes :: b + Escaped(value[|value|..]) == b
  {
  }

  /** Percent-decoding, section 2.1 of RFC 3986. */
  function Unescaped(t: Bytes): Bytes {
    if t == [] then []
    else if t[0] == PERCENT && |t| >= 3 && Hex.DigitValue(t[1]) >= 0 && Hex.DigitValue(t[2]) >= 0 then
      [Hex.DigitValue(t[1]) * 16 + Hex.DigitValue(t[2])] + Unescaped(t[3..])
    else [t[0]] + Unescaped(t[1..])
  }

  lemma UpperDigitReads(n: nat)
    requires n < 16
    ensures Hex.DigitValue(UpperDigit(n)) == n && Unreserved(UpperDigit(n))
  {
  }

  lemma UnescapedFirst(c: Byte, rest: Bytes)
    ensures Unescaped(Encoded(c) + rest) == [c] + Unescaped(rest)
  {
    hide Hex.DigitValue, UpperDigit;
    var t := Encoded(c) + rest;
    if Unreserved(c) {
      assert t[1..] == rest;
    } else {
      UpperDigitReads(c / 16);
      UpperDigitReads(c % 16);
      assert t[3..] == rest;
    }
  }

  /** Decoding undoes encoding. */
  lemma {:induction false} EscapeRoundTrip(value: Bytes)
    ensures Unescaped(Escaped(value)) == value
  {
    hide Unescaped, Encoded;
    if value == [] {
      UnescapedNone();
    } else {
      EscapeRoundTrip(value[1..]);
      UnescapedFirst(value[0], Escaped(value[1..]));
      assert [value[0]] + value[1..] == value;
    }
  }

  lemma UnescapedNone()
    ensures Unescaped([]) == []
  {
  }

  /** Only unreserved bytes and the percent sign come out. */
  lemma {:induction false} EscapedAlphabet(value: Bytes)
    ensures forall i :: 0 <= i < |Escaped(value)| ==> Unreserved(Escaped(value)[i]) || Escaped(value)[i] == PERCENT
  {
    hide UpperDigit;
    if value != [] {
      EscapedAlphabet(value[1..]);
      UpperDigitReads(value[0] / 16);
      UpperDigitReads(value[0] % 16);
    }
  }
}

/** The byte order on strings, and the order on pairs. */
module ByteOrder {
  import opened Basics

  datatype Pair = Pair(key: Bytes, value: Bytes)

  predicate AtMost(a: Bytes, b: Bytes) {
    a == [] || (b != [] && (a[0] < b[0] || (a[0] == b[0] && AtMost(a[1..], b[1..]))))
  }

  /** The first byte that differs decides, and a prefix comes first. */
  lemma AtMostExactly(a: Bytes, b: Bytes)
    ensures AtMost(a, b) <==>
              exists n :: 0 <= n <= |a| && n <= |b| && a[..n] == b[..n] && (n == |a| || (n < |b| && a[n] < b[n]))
  {
    if AtMost(a, b) {
      var n := Differ(a, b);
    }
    if n :| 0 <= n <= |a| && n <= |b| && a[..n] == b[..n] && (n == |a| || (n < |b| && a[n] < b[n])) {
      DifferDecides(a, b, n);
    }
  }

  lemma {:induction false} Differ(a: Bytes, b: Bytes) returns (n: nat)
    requires AtMost(a, b)
    ensures n <= |a| && n <= |b| && a[..n] == b[..n] && (n == |a| || (n < |b| && a[n] < b[n]))
  {
    n := 0;
    if a != [] && a[0] == b[0] {
      var m := Differ(a[1..], b[1..]);
      n := m + 1;
      assert a[..n] == [a[0]] + a[1..][..m] && b[..n] == [b[0]] + b[1..][..m];
    }
  }

  lemma {:induction false} DifferDecides(a: Bytes, b: Bytes, n: nat)
    requires n <= |a| && n <= |b| && a[..n] == b[..n] && (n == |a| || (n < |b| && a[n] < b[n]))
    ensures AtMost(a, b)
    decreases n
  {
    if n > 0 {
      assert a[0] == a[..n][0] == b[..n][0] == b[0];
      assert a[1..][..n - 1] == a[..n][1..] == b[..n][1..] == b[1..][..n - 1];
      DifferDecides(a[1..], b[1..], n - 1);
    }
  }

  predicate PairAtMost(p: Pair, q: Pair) {
    if p.key == q.key then AtMost(p.value, q.value) else AtMost(p.key, q.key)
  }

  lemma {:induction false} Total(a: Bytes, b: Bytes)
    ensures AtMost(a, b) || AtMost(b, a)
    ensures AtMost(a, b) && AtMost(b, a) <==> a == b
  {
    if a == [] || b == [] || a[0] != b[0] {
    } else {
      Total(a[1..], b[1..]);
      assert a == [a[0]] + a[1..] && b == [b[0]] + b[1..];
    }
  }

  lemma {:induction false} Transitive(a: Bytes, b: Bytes, c: Bytes)
    requires AtMost(a, b) && AtMost(b, c)
    ensures AtMost(a, c)
  {
    if a != [] && a[0] == b[0] == c[0] {
      Transitive(a[1..], b[1..], c[1..]);
    }
  }

  lemma PairTotal(p: Pair, q: Pair)
    ensures PairAtMost(p, q) || PairAtMost(q, p)
    ensures PairAtMost(p, q) && PairAtMost(q, p) <==> p == q
  {
    hide AtMost;
    Total(p.key, q.key);
    Total(p.value, q.value);
  }

  lemma PairTransitive(p: Pair, q: Pair, r: Pair)
    requires PairAtMost(p, q) && PairAtMost(q, r)
    ensures PairAtMost(p, r)
  {
    hide AtMost;
    if p.key == q.key {
      if q.key == r.key {
        Transitive(p.value, q.value, r.value);
      }
    } else {
      if q.key != r.key {
        Transitive(p.key, q.key, r.key);
        if p.key == r.key {
          Total(p.key, q.key);
        }
      }
    }
  }

  predicate Sorted(s: seq<Pair>) {
    forall i, j :: 0 <= i < j < |s| ==> PairAtMost(s[i], s[j])
  }

  function Inserted(p: Pair, s: seq<Pair>): (r: seq<Pair>)
    ensures multiset(r) == multiset(s) + multiset{p}
  {
    if s == [] then [p]
    else if PairAtMost(p, s[0]) then [p] + s
    else
      assert s == [s[0]] + s[1..];
      [s[0]] + Inserted(p, s[1..])
  }

  function SortedPairs(s: seq<Pair>): (r: seq<Pair>)
    ensures multiset(r) == multiset(s)
  {
    if s == [] then []
    else
      assert s == s[..|s| - 1] + [s[|s| - 1]];
      Inserted(s[|s| - 1], SortedPairs(s[..|s| - 1]))
  }

  lemma {:induction false} InsertedIsSorted(p: Pair, s: seq<Pair>)
    requires Sorted(s)
    ensures Sorted(Inserted(p, s))
  {
    hide PairAtMost;
    if s == [] {
    } else {
      PairTotal(p, s[0]);
      if PairAtMost(p, s[0]) {
        forall j | 0 <= j < |s| ensures PairAtMost(p, s[j]) {
          if j > 0 {
            PairTransitive(p, s[0], s[j]);
          }
        }
      } else {
        var rest := Inserted(p, s[1..]);
        InsertedIsSorted(p, s[1..]);
        forall j | 0 <= j < |rest| ensures PairAtMost(s[0], rest[j]) {
          assert rest[j] in multiset(rest);
          assert rest[j] in multiset(s[1..]) + multiset{p};
          if rest[j] != p {
            var k :| 0 <= k < |s[1..]| && s[1..][k] == rest[j];
            assert s[k + 1] == rest[j];
          }
        }
      }
    }
  }

  lemma {:induction false} SortedPairsSorted(s: seq<Pair>)
    ensures Sorted(SortedPairs(s))
  {
    if s != [] {
      SortedPairsSorted(s[..|s| - 1]);
      InsertedIsSorted(s[|s| - 1], SortedPairs(s[..|s| - 1]));
    }
  }

  lemma SameHead(a: seq<Pair>, b: seq<Pair>)
    requires Sorted(a) && Sorted(b) && multiset(a) == multiset(b) && a != []
    ensures b != [] && a[0] == b[0]
  {
    hide PairAtMost;
    assert a[0] in multiset(a);
    assert a[0] in b;
    assert b[0] in multiset(b);
    assert b[0] in a;
    var i :| 0 <= i < |b| && b[i] == a[0];
    var j :| 0 <= j < |a| && a[j] == b[0];
    PairTotal(a[0], b[0]);
  }

  lemma TailBag(a: seq<Pair>)
    requires a != []
    ensures multiset(a[1..]) == multiset(a) - multiset{a[0]}
    ensures Sorted(a) ==> Sorted(a[1..])
  {
    hide PairAtMost;
    assert a == [a[0]] + a[1..];
  }

  /** There is only one sorted arrangement, so it does not matter which sort finds it. */
  lemma {:induction false} SortedIsUnique(a: seq<Pair>, b: seq<Pair>)
    requires Sorted(a) && Sorted(b) && multiset(a) == multiset(b)
    ensures a == b
  {
    hide Sorted;
    if a == [] {
      assert |multiset(b)| == |b|;
    } else {
      SameHead(a, b);
      TailBag(a);
      TailBag(b);
      SortedIsUnique(a[1..], b[1..]);
      assert a == [a[0]] + a[1..] && b == [b[0]] + b[1..];
    }
  }
}

/** The canonical query text: Go's flat sort and Rust's grouped map. */
module CanonicalQuery {
  import opened Basics
  import opened Text
  import opened Escape
  import opened ByteOrder

  const EQUALS: Byte := '=' as int
  const AMPERSAND: Byte := '&' as int

  function PairText(p: Pair): Bytes {
    Escaped(p.key) + [EQUALS] + Escaped(p.value)
  }

  function Texts(pairs: seq<Pair>): (r: seq<Bytes>)
    ensures |r| == |pairs|
    ensures forall i :: 0 <= i < |pairs| ==> r[i] == PairText(pairs[i])
  {
    seq(|pairs|, i requires 0 <= i < |pairs| => PairText(pairs[i]))
  }

  /** The canonical text of a list of pairs. */
  function Canonical(pairs: seq<Pair>): Bytes {
    Join(Texts(SortedPairs(pairs)), AMPERSAND)
  }

  // ---- meaning ----

  lemma PairTextInjective(p: Pair, q: Pair)
    requires PairText(p) == PairText(q)
    ensures p == q
  {
    hide Escaped, Unescaped, Split;
    PairTextSplits(p);
    PairTextSplits(q);
    EscapeRoundTrip(p.key);
    EscapeRoundTrip(q.key);
    EscapeRoundTrip(p.value);
    EscapeRoundTrip(q.value);
  }

  lemma PairTextSplits(p: Pair)
    ensures Split(PairText(p), EQUALS) == [Escaped(p.key), Escaped(p.value)]
    ensures AMPERSAND !in PairText(p)
  {
    hide Escaped, Split;
    EscapedAlphabet(p.key);
    EscapedAlphabet(p.value);
    assert EQUALS !in Escaped(p.key) && EQUALS !in Escaped(p.value);
    SplitFirst(Escaped(p.key), EQUALS, Escaped(p.value));
    SplitWhole(Escaped(p.value), EQUALS);
  }

  lemma TextsInjective(a: seq<Pair>, b: seq<Pair>)
    requires Join(Texts(a), AMPERSAND) == Join(Texts(b), AMPERSAND)
    ensures a == b
  {
    hide PairText;
    TextsFree(a);
    TextsFree(b);
    TextsNotEmpty(a);
    TextsNotEmpty(b);
    if a != [] && b != [] {
      JoinInjective(Texts(a), Texts(b), AMPERSAND);
      forall i | 0 <= i < |a| ensures a[i] == b[i] {
        assert Texts(a)[i] == Texts(b)[i];
        PairTextInjective(a[i], b[i]);
      }
      assert |a| == |Texts(a)| == |Texts(b)| == |b|;
    }
  }

  lemma TextsFree(a: seq<Pair>)
    ensures Free(Texts(a), AMPERSAND)
  {
    hide PairText;
    forall i | 0 <= i < |a| ensures AMPERSAND !in Texts(a)[i] {
      PairTextSplits(a[i]);
    }
  }

  lemma TextsNotEmpty(a: seq<Pair>)
    ensures Join(Texts(a), AMPERSAND) == [] <==> a == []
  {
    hide Escaped;
    if |a| == 1 {
      assert Texts(a)[0] == PairText(a[0]);
    }
  }

  /** Two queries have the same canonical text exactly when they hold the same pairs the same number of
      times. */
  lemma SameTextSamePairs(a: seq<Pair>, b: seq<Pair>)
    ensures Canonical(a) == Canonical(b) <==> multiset(a) == multiset(b)
  {
    hide Texts, Join, PairAtMost;
    if multiset(a) == multiset(b) {
      SortedPairsSorted(a);
      SortedPairsSorted(b);
      SortedIsUnique(SortedPairs(a), SortedPairs(b));
    }
    if Canonical(a) == Canonical(b) {
      TextsInjective(SortedPairs(a), SortedPairs(b));
    }
  }

  /** Key by key and, for one key, value by value in byte order; each pair as its escaped key and value. */
  lemma CanonicalExactly(pairs: seq<Pair>, arranged: seq<Pair>, texts: seq<Bytes>)
    requires multiset(arranged) == multiset(pairs)
    requires forall i, j :: 0 <= i < j < |arranged| ==>
               if arranged[i].key == arranged[j].key then AtMost(arranged[i].value, arranged[j].value)
               else AtMost(arranged[i].key, arranged[j].key)
    requires |texts| == |arranged|
    requires forall i :: 0 <= i < |texts| ==>
               texts[i] == Escaped(arranged[i].key) + ['=' as int] + Escaped(arranged[i].value)
    ensures var ampersand: Byte := '&' as int; Canonical(pairs) == Join(texts, ampersand)
  {
    hide Escaped, AtMost, SortedPairs, Canonical;
    Arranged(pairs, arranged);
    assert Texts(arranged) == texts;
  }

  // ---- the two programs ----

  /** The list holds exactly the pairs of a map from keys to value lists. */
  ghost predicate Lists(pairs: seq<Pair>, raw: map<Bytes, seq<Bytes>>) {
    forall p: Pair :: multiset(pairs)[p] == if p.key in raw then multiset(raw[p.key])[p.value] else 0
  }

  lemma ListsAgree(a: seq<Pair>, b: seq<Pair>, raw: map<Bytes, seq<Bytes>>)
    requires Lists(a, raw) && Lists(b, raw)
    ensures multiset(a) == multiset(b)
  {
    assert forall p: Pair :: multiset(a)[p] == multiset(b)[p];
  }

  /** Tagged with its key. */
  function Tagged(key: Bytes, values: seq<Bytes>): (r: seq<Pair>)
    ensures |r| == |values| && forall i :: 0 <= i < |values| ==> r[i] == Pair(key, values[i])
  {
    seq(|values|, i requires 0 <= i < |values| => Pair(key, values[i]))
  }

  lemma {:induction false} TaggedCounts(key: Bytes, values: seq<Bytes>, p: Pair)
    ensures multiset(Tagged(key, values))[p] == if p.key == key then multiset(values)[p.value] else 0
  {
    if values == [] {
    } else {
      var front, last := values[..|values| - 1], values[|values| - 1];
      TaggedCounts(key, front, p);
      assert values == front + [last];
      assert Tagged(key, values) == Tagged(key, front) + [Pair(key, last)];
    }
  }

  /** Only the keys that are done. */
  function Part(raw: map<Bytes, seq<Bytes>>, done: set<Bytes>): map<Bytes, seq<Bytes>> {
    map k | k in raw && k in done :: raw[k]
  }

  lemma ListsOneMore(pairs: seq<Pair>, raw: map<Bytes, seq<Bytes>>, done: set<Bytes>, key: Bytes)
    requires key in raw && key !in done && Lists(pairs, Part(raw, done))
    ensures Lists(pairs + Tagged(key, raw[key]), Part(raw, done + {key}))
  {
    var more := Tagged(key, raw[key]);
    forall p: Pair
      ensures multiset(pairs + more)[p] == if p.key in raw && p.key in done + {key} then multiset(raw[p.key])[p.value] else 0
    {
      TaggedCounts(key, raw[key], p);
    }
  }

  /** The first loop: the map's keys come in any order. */
  method Gather(raw: map<Bytes, seq<Bytes>>) returns (pairs: seq<Pair>)
    ensures Lists(pairs, raw)
  {
    hide Lists, Tagged, Part;
    pairs := [];
    var keys := raw.Keys;
    ghost var done: set<Bytes> := {};
    NoneListed(raw, done);
    while keys != {}
      invariant keys + done == raw.Keys && keys !! done
      invariant Lists(pairs, Part(raw, done))
      decreases |keys|
    {
      var key :| key in keys;
      ListsOneMore(pairs, raw, done, key);
      pairs := pairs + Tagged(key, raw[key]);
      keys := keys - {key};
      done := done + {key};
    }
    AllDone(raw, done);
  }

  lemma AllDone(raw: map<Bytes, seq<Bytes>>, done: set<Bytes>)
    requires done == raw.Keys
    ensures Part(raw, done) == raw
  {
  }

  /** Go's canonicalQuery. */
  method GoCanonicalQuery(raw: map<Bytes, seq<Bytes>>) returns (text: Bytes)
    ensures forall pairs :: Lists(pairs, raw) ==> text == Canonical(pairs)
  {
    hide Lists, Canonical, Sorted, Texts, Join;
    var pairs := Gather(raw);
    var sorted := SortPairs(pairs);
    text := JoinPairs(sorted);
    Arranged(pairs, sorted);
    forall other | Lists(other, raw) ensures text == Canonical(other) {
      ListsAgree(pairs, other, raw);
      SameTextSamePairs(pairs, other);
    }
  }

  lemma NoneListed(raw: map<Bytes, seq<Bytes>>, none: set<Bytes>)
    requires none == {}
    ensures Lists([], Part(raw, none))
  {
  }

  /** Any sorted arrangement gives the canonical text. */
  lemma Arranged(pairs: seq<Pair>, sorted: seq<Pair>)
    requires Sorted(sorted) && multiset(sorted) == multiset(pairs)
    ensures Join(Texts(sorted), AMPERSAND) == Canonical(pairs)
  {
    hide Sorted;
    SortedPairsSorted(pairs);
    SortedIsUnique(sorted, SortedPairs(pairs));
  }

  /** A sort of the pairs, one insertion after the other. */
  method SortPairs(pairs: seq<Pair>) returns (sorted: seq<Pair>)
    ensures Sorted(sorted) && multiset(sorted) == multiset(pairs)
  {
    hide Sorted, Inserted, PairAtMost;
    sorted := [];
    NothingIsSorted();
    for i := 0 to |pairs|
      invariant Sorted(sorted) && multiset(sorted) == multiset(pairs[..i])
    {
      InsertedIsSorted(pairs[i], sorted);
      assert pairs[..i + 1] == pairs[..i] + [pairs[i]];
      sorted := Inserted(pairs[i], sorted);
    }
    assert pairs[..|pairs|] == pairs;
  }

  lemma NothingIsSorted()
    ensures Sorted([])
  {
  }

  /** The texts of the pairs, joined. */
  method JoinPairs(pairs: seq<Pair>) returns (text: Bytes)
    ensures text == Join(Texts(pairs), AMPERSAND)
  {
    hide Escaped, Join;
    var parts: seq<Bytes> := [];
    for i := 0 to |pairs|
      invariant parts == Texts(pairs[..i])
    {
      var key := EscapeCanonical(pairs[i].key);
      var value := EscapeCanonical(pairs[i].value);
      ghost var before := parts;
      parts := parts + [key + [EQUALS] + value];
      TextsAppend(pairs, i);
    }
    assert pairs[..|pairs|] == pairs;
    text := Join(parts, AMPERSAND);
  }

  lemma TextsAppend(pairs: seq<Pair>, i: nat)
    requires i < |pairs|
    ensures Texts(pairs[..i + 1]) == Texts(pairs[..i]) + [PairText(pairs[i])]
  {
    hide PairText;
    assert forall k :: 0 <= k < i ==> pairs[..i + 1][k] == pairs[..i][k];
  }

  // ---- the grouped map ----

  /** An entry of the ordered map. */
  datatype Group = Group(key: Bytes, values: seq<Bytes>)

  predicate Ordered(groups: seq<Group>) {
    forall i, j :: 0 <= i < j < |groups| ==> groups[i].key != groups[j].key && AtMost(groups[i].key, groups[j].key)
  }

  /** entry(key).or_default().push(value), in a map ordered by key. */
  function Pushed(groups: seq<Group>, p: Pair): (r: seq<Group>)
    ensures forall g :: g in r ==> g.key == p.key || exists h :: h in groups && h.key == g.key
  {
    if groups == [] then [Group(p.key, [p.value])]
    else if groups[0].key == p.key then [groups[0].(values := groups[0].values + [p.value])] + groups[1..]
    else if AtMost(p.key, groups[0].key) then [Group(p.key, [p.value])] + groups
    else [groups[0]] + Pushed(groups[1..], p)
  }

  function Flat(groups: seq<Group>): seq<Pair> {
    if groups == [] then [] else Tagged(groups[0].key, groups[0].values) + Flat(groups[1..])
  }

  lemma {:induction false} PushedIsOrdered(groups: seq<Group>, p: Pair)
    requires Ordered(groups)
    ensures Ordered(Pushed(groups, p))
    decreases |groups|
  {
    hide AtMost;
    if groups == [] {
    } else if groups[0].key == p.key {
    } else {
      Total(p.key, groups[0].key);
      if AtMost(p.key, groups[0].key) {
        forall j | 0 <= j < |groups| ensures groups[j].key != p.key && AtMost(p.key, groups[j].key) {
          if j > 0 {
            Total(groups[0].key, groups[j].key);
            Transitive(p.key, groups[0].key, groups[j].key);
          }
        }
      } else {
        var rest := Pushed(groups[1..], p);
        PushedIsOrdered(groups[1..], p);
        forall j | 0 <= j < |rest| ensures groups[0].key != rest[j].key && AtMost(groups[0].key, rest[j].key) {
          HeadBefore(groups, p, j);
        }
      }
    }
  }

  lemma HeadBefore(groups: seq<Group>, p: Pair, j: nat)
    requires groups != [] && Ordered(groups) && groups[0].key != p.key && AtMost(groups[0].key, p.key)
    requires j < |Pushed(groups[1..], p)|
    ensures var rest := Pushed(groups[1..], p);
            groups[0].key != rest[j].key && AtMost(groups[0].key, rest[j].key)
  {
    hide AtMost, Pushed;
    var rest := Pushed(groups[1..], p);
    assert rest[j] in rest;
    if rest[j].key != p.key {
      var h :| h in groups[1..] && h.key == rest[j].key;
      var k :| 0 <= k < |groups[1..]| && groups[1..][k] == h;
      assert groups[k + 1] == h;
    }
  }

  lemma {:induction false} PushedAddsOne(groups: seq<Group>, p: Pair)
    ensures multiset(Flat(Pushed(groups, p))) == multiset(Flat(groups)) + multiset{p}
  {
    hide AtMost;
    if groups == [] {
      assert Tagged(p.key, [p.value]) == [p];
      assert Pushed(groups, p)[1..] == [];
      assert Flat(Pushed(groups, p)) == [p] + [];
    } else if groups[0].key == p.key {
      var g := groups[0];
      assert Tagged(g.key, g.values + [p.value]) == Tagged(g.key, g.values) + [p];
      assert Pushed(groups, p)[1..] == groups[1..];
    } else if AtMost(p.key, groups[0].key) {
      assert Tagged(p.key, [p.value]) == [p];
      assert Pushed(groups, p)[1..] == groups;
    } else {
      PushedAddsOne(groups[1..], p);
      assert Pushed(groups, p)[1..] == Pushed(groups[1..], p);
    }
  }

  /** values.sort(), by way of the pairs that share the key. */
  method SortStrings(key: Bytes, values: seq<Bytes>) returns (sorted: seq<Bytes>)
    ensures Sorted(Tagged(key, sorted)) && multiset(Tagged(key, sorted)) == multiset(Tagged(key, values))
  {
    hide Sorted, PairAtMost, Inserted;
    var pairs := SortPairs(Tagged(key, values));
    sorted := seq(|pairs|, i requires 0 <= i < |pairs| => pairs[i].value);
    forall i | 0 <= i < |pairs| ensures pairs[i].key == key {
      assert pairs[i] in multiset(pairs);
      assert pairs[i] in multiset(Tagged(key, values));
    }
    assert Tagged(key, sorted) == pairs;
  }

  lemma SortedJoin(a: seq<Pair>, b: seq<Pair>)
    requires Sorted(a) && Sorted(b) && forall i, j :: 0 <= i < |a| && 0 <= j < |b| ==> PairAtMost(a[i], b[j])
    ensures Sorted(a + b)
  {
    hide PairAtMost;
  }

  /** Rust's canonical_query. */
  method RustCanonicalQuery(query: seq<Pair>) returns (text: Bytes)
    ensures text == Canonical(query)
  {
    hide Canonical, SortedPairs, Sorted, Escaped, PairAtMost, Pushed, Flat, Ordered, AtMost;
    var groups: seq<Group> := [];
    NoGroups();
    for i := 0 to |query|
      invariant Ordered(groups) && multiset(Flat(groups)) == multiset(query[..i])
    {
      PushedIsOrdered(groups, query[i]);
      PushedAddsOne(groups, query[i]);
      assert query[..i + 1] == query[..i] + [query[i]];
      groups := Pushed(groups, query[i]);
    }
    assert query[..|query|] == query;
    var output: seq<Pair> := [];
    NothingIsSorted();
    assert groups[..0] == [];
    for i := 0 to |groups|
      invariant Sorted(output) && multiset(output) == multiset(Flat(groups[..i]))
    {
      var values := SortStrings(groups[i].key, groups[i].values);
      NextGroup(groups, i, output, Tagged(groups[i].key, values));
      output := output + Tagged(groups[i].key, values);
    }
    assert groups[..|groups|] == groups;
    Arranged(query, output);
    text := JoinPairs(output);
  }

  lemma NoGroups()
    ensures Ordered([]) && Flat([]) == []
  {
  }

  lemma {:induction false} FlatAppend(groups: seq<Group>, g: Group)
    ensures Flat(groups + [g]) == Flat(groups) + Tagged(g.key, g.values)
  {
    if groups == [] {
      assert Flat([g]) == Tagged(g.key, g.values) + Flat([]);
    } else {
      assert (groups + [g])[1..] == groups[1..] + [g];
      FlatAppend(groups[1..], g);
    }
  }

  lemma {:induction false} FlatKeys(groups: seq<Group>, p: Pair)
    requires p in Flat(groups)
    ensures exists i :: 0 <= i < |groups| && groups[i].key == p.key
  {
    if p in Tagged(groups[0].key, groups[0].values) {
      assert groups[0].key == p.key;
    } else {
      FlatKeys(groups[1..], p);
      var i :| 0 <= i < |groups[1..]| && groups[1..][i].key == p.key;
      assert groups[i + 1].key == p.key;
    }
  }

  lemma NextGroup(groups: seq<Group>, i: nat, output: seq<Pair>, more: seq<Pair>)
    requires i < |groups| && Ordered(groups) && Sorted(output) && Sorted(more)
    requires multiset(output) == multiset(Flat(groups[..i]))
    requires multiset(more) == multiset(Tagged(groups[i].key, groups[i].values))
    ensures Sorted(output + more) && multiset(output + more) == multiset(Flat(groups[..i + 1]))
  {
    hide Sorted, AtMost, Flat;
    assert groups[..i + 1] == groups[..i] + [groups[i]];
    FlatAppend(groups[..i], groups[i]);
    forall a, b | 0 <= a < |output| && 0 <= b < |more| ensures PairAtMost(output[a], more[b]) {
      assert output[a] in multiset(output);
      assert more[b] in multiset(more);
      FlatKeys(groups[..i], output[a]);
      var k :| 0 <= k < |groups[..i]| && groups[..i][k].key == output[a].key;
      assert groups[k].key == output[a].key;
      assert more[b] in Tagged(groups[i].key, groups[i].values);
    }
    SortedJoin(output, more);
  }
}
