/** Shifts and masks on natural numbers. */
module Bits {

  /** n << bits. */
  function Up(n: nat, bits: nat): nat {
    if bits == 0 then n else 2 * Up(n, bits - 1)
  }

  /** n >> bits. */
  function Down(n: nat, bits: nat): nat {
    if bits == 0 then n else Down(n / 2, bits - 1)
  }

  /** n & ((1 << bits) - 1). */
  function Low(n: nat, bits: nat): nat {
    if bits == 0 then 0 else 2 * Low(n / 2, bits - 1) + n % 2
  }

  lemma {:induction false} UpAdd(n: nat, m: nat, bits: nat)
    ensures Up(n + m, bits) == Up(n, bits) + Up(m, bits)
    ensures n <= m ==> Up(n, bits) <= Up(m, bits)
  {
    if bits > 0 {
      UpAdd(n, m, bits - 1);
    }
  }

  lemma {:induction false} UpUp(n: nat, a: nat, b: nat)
    ensures Up(Up(n, a), b) == Up(n, a + b)
  {
    if b > 0 {
      UpUp(n, a, b - 1);
    }
  }

  /** Quotient and remainder. */
  lemma {:induction false} UpDown(n: nat, bits: nat)
    ensures Up(Down(n, bits), bits) + Low(n, bits) == n && Low(n, bits) < Up(1, bits)
  {
    if bits > 0 {
      UpDown(n / 2, bits - 1);
    }
  }

  /** Quotient and remainder are unique. */
  lemma {:induction false} DownLowIs(n: nat, q: nat, r: nat, bits: nat)
    requires n == Up(q, bits) + r && r < Up(1, bits)
    ensures Down(n, bits) == q && Low(n, bits) == r
  {
    if bits > 0 {
      DownLowIs(n / 2, q, r / 2, bits - 1);
    }
  }

  lemma {:induction false} LowSplit(n: nat, a: nat, c: nat)
    ensures Low(n, a + c) == Up(Low(Down(n, a), c), a) + Low(n, a)
  {
    if a > 0 {
      LowSplit(n / 2, a - 1, c);
    }
  }

  lemma BitStep(n: nat, bits: nat)
    ensures Up(n, bits) == if bits == 0 then n else 2 * Up(n, bits - 1)
    ensures Low(n, bits) == if bits == 0 then 0 else 2 * Low(n / 2, bits - 1) + n % 2
  {
  }

  lemma {:induction false} LowLow(n: nat, b: nat, c: nat)
    requires b <= c
    ensures Low(Low(n, c), b) == Low(n, b)
  {
    hide Low;
    BitStep(n, b);
    BitStep(n, c);
    BitStep(Low(n, c), b);
    if b > 0 {
      LowLow(n / 2, b - 1, c - 1);
    }
  }

  lemma {:induction false} LowUp(n: nat, width: nat, c: nat)
    ensures Low(Up(n, width), width + c) == Up(Low(n, c), width)
  {
    hide Low, Up;
    BitStep(n, width);
    BitStep(Low(n, c), width);
    BitStep(Up(n, width), width + c);
    if width > 0 {
      LowUp(n, width - 1, c);
    }
  }

  /** The masks and the word size of the code, as remainders. */
  lemma LowIsRemainder(n: nat)
    ensures Low(n, 6) == n % 64 && Low(n, 8) == n % 256 && Low(n, 32) == n % 0x1_0000_0000
    ensures Up(n, 6) == n * 64 && Up(n, 8) == n * 256 && Up(n, 32) == n * 0x1_0000_0000
  {
    UpConstants(n);
    UpConstants(n / 64);
    UpConstants(n / 256);
    UpConstants(n / 0x1_0000_0000);
    UpConstants(1);
    DownLowIs(n, n / 64, n % 64, 6);
    DownLowIs(n, n / 256, n % 256, 8);
    DownLowIs(n, n / 0x1_0000_0000, n % 0x1_0000_0000, 32);
  }

  lemma UpConstants(n: nat)
    ensures Up(n, 2) == n * 4 && Up(n, 4) == n * 16
    ensures Up(n, 6) == n * 64 && Up(n, 8) == n * 256 && Up(n, 32) == n * 0x1_0000_0000
  {
    assert Up(n, 1) == 2 * n;
    assert Up(n, 2) == 4 * n;
    UpUp(n, 2, 2);
    assert Up(Up(n, 2), 2) == 4 * Up(n, 2);
    UpUp(n, 4, 2);
    assert Up(Up(n, 4), 2) == 4 * Up(n, 4);
    UpUp(n, 6, 2);
    assert Up(Up(n, 6), 2) == 4 * Up(n, 6);
    UpEight(n, 8);
    UpEight(Up(n, 8), 8);
    UpUp(n, 8, 8);
    UpEight(Up(n, 16), 8);
    UpUp(n, 16, 8);
    UpUp(n, 24, 8);
    UpEight(Up(n, 24), 8);
  }

  lemma UpEight(n: nat, bits: nat)
    requires bits == 8
    ensures Up(n, bits) == n * 256
  {
    assert Up(n, 1) == 2 * n;
    assert Up(n, 2) == 4 * n;
    assert Up(n, 4) == 4 * Up(n, 2);
    assert Up(n, 6) == 4 * Up(n, 4);
    assert Up(n, 8) == 4 * Up(n, 6);
  }
}

/** Numbers written in fixed-width digits, most significant first. */
module Positional {
  import opened Bits

  predicate Digits(ds: seq<nat>, width: nat) {
    forall i :: 0 <= i < |ds| ==> ds[i] < Up(1, width)
  }

  function FromDigits(ds: seq<nat>, width: nat): nat {
    if ds == [] then 0 else Up(FromDigits(ds[..|ds| - 1], width), width) + ds[|ds| - 1]
  }

  function ToDigits(value: nat, width: nat, length: nat): (ds: seq<nat>)
    ensures |ds| == length && Digits(ds, width)
    decreases length
  {
    UpDown(value, width);
    if length == 0 then []
    else ToDigits(Down(value, width), width, length - 1) + [Low(value, width)]
  }

  lemma Append(ds: seq<nat>, d: nat, width: nat)
    ensures FromDigits(ds + [d], width) == Up(FromDigits(ds, width), width) + d
  {
    assert (ds + [d])[..|ds|] == ds;
  }

  /** Fixed-length digits are determined by their value. */
  lemma {:induction false} DigitsOfValue(ds: seq<nat>, width: nat)
    requires Digits(ds, width)
    ensures ToDigits(FromDigits(ds, width), width, |ds|) == ds
  {
    if ds == [] {
    } else {
      var front, last := ds[..|ds| - 1], ds[|ds| - 1];
      DigitsOfValue(front, width);
      DownLowIs(FromDigits(ds, width), FromDigits(front, width), last, width);
      assert front + [last] == ds;
    }
  }

  /** A value below 2^(width * length) is recovered from its digits. */
  lemma {:induction false} ValueOfDigits(value: nat, width: nat, length: nat)
    requires value < Capacity(width, length)
    ensures FromDigits(ToDigits(value, width, length), width) == value
    decreases length
  {
    UpDown(value, width);
    if length == 0 {
    } else {
      UpAdd(Capacity(width, length - 1), Down(value, width), width);
      ValueOfDigits(Down(value, width), width, length - 1);
      Append(ToDigits(Down(value, width), width, length - 1), Low(value, width), width);
    }
  }

  function Capacity(width: nat, length: nat): nat {
    if length == 0 then 1 else Up(Capacity(width, length - 1), width)
  }

  lemma {:induction false} ValueBelowCapacity(ds: seq<nat>, width: nat)
    requires Digits(ds, width)
    ensures FromDigits(ds, width) < Capacity(width, |ds|)
  {
    if ds == [] {
    } else {
      var front := ds[..|ds| - 1];
      ValueBelowCapacity(front, width);
      UpAdd(FromDigits(front, width), 1, width);
      UpAdd(FromDigits(front, width) + 1, Capacity(width, |front|), width);
    }
  }
}

/** The base64url codec of common.cpp: a 32-bit accumulator that is shifted and never masked. */
module Base64 {
  import opened Basics
  import opened Bits
  import opened Positional

  /** A std::uint32_t keeps the low 32 bits. */
  function Word(n: nat): nat {
    n % 0x1_0000_0000
  }

  /** (word << width) | incoming; the shifted word has zeros where incoming has bits. */
  function Push(word: nat, width: nat, incoming: nat): nat {
    Word(Up(word, width)) + incoming
  }

  lemma LowOfWord(n: nat, bits: nat)
    requires bits <= 32
    ensures Low(Word(n), bits) == Low(n, bits)
  {
    LowIsRemainder(n);
    LowLow(n, bits, 32);
  }

  /** A wrapped shift keeps the low part of the word, moved up. */
  lemma WordOfUp(word: nat, width: nat)
    requires width <= 32
    ensures Word(Up(word, width)) == Up(Low(word, 32 - width), width)
  {
    LowIsRemainder(Up(word, width));
    LowUp(word, width, 32 - width);
  }

  /** The URL-safe alphabet of section 5 of RFC 4648. */
  function Letter(sextet: nat): Byte
    requires sextet < 64
  {
    if sextet < 26 then 'A' as int + sextet
    else if sextet < 52 then 'a' as int + (sextet - 26)
    else if sextet < 62 then '0' as int + (sextet - 52)
    else if sextet == 62 then '-' as int
    else '_' as int
  }

  /** The decoding table: -1 for a byte that is refused. It also takes '+' and '/'. */
  function Table(b: Byte): (r: int)
    ensures -1 <= r < 64
  {
    if 'A' as int <= b <= 'Z' as int then b - 'A' as int
    else if 'a' as int <= b <= 'z' as int then b - 'a' as int + 26
    else if '0' as int <= b <= '9' as int then b - '0' as int + 52
    else if b == '-' as int || b == '+' as int then 62
    else if b == '_' as int || b == '/' as int then 63
    else -1
  }

  predicate UrlSafe(b: Byte) {
    Table(b) >= 0 && b != '+' as int && b != '/' as int
  }

  function Letters(sextets: seq<nat>): (t: Bytes)
    requires Digits(sextets, 6)
    ensures |t| == |sextets|
  {
    UpConstants(1);
    seq(|sextets|, i requires 0 <= i < |sextets| => Letter(sextets[i]))
  }

  predicate Accepted(t: Bytes) {
    forall i :: 0 <= i < |t| ==> Table(t[i]) >= 0
  }

  function Sextets(t: Bytes): (s: seq<nat>)
    requires Accepted(t)
    ensures |s| == |t| && Digits(s, 6)
  {
    UpConstants(1);
    seq(|t|, i requires 0 <= i < |t| => Table(t[i]))
  }

  function AsBytes(ds: seq<nat>): (s: Bytes)
    requires Digits(ds, 8)
    ensures s == ds
  {
    UpConstants(1);
    ds
  }

  lemma BytesAreDigits(s: Bytes)
    ensures Digits(s, 8)
  {
    UpConstants(1);
  }

  // ---- what the codec means: one number, in digits of eight bits and in digits of six ----

  function EncodedLength(n: nat): (m: nat)
    ensures 3 * m - 2 <= 4 * n <= 3 * m
  {
    (4 * n + 2) / 3
  }

  /** Zero bits appended to fill the last sextet. */
  function Padding(n: nat): (p: nat)
    ensures p == 0 || p == 2 || p == 4
  {
    6 * EncodedLength(n) - 8 * n
  }

  function Encoded(s: Bytes): Bytes {
    Letters(ToDigits(Up(FromDigits(s, 8), Padding(|s|)), 6, EncodedLength(|s|)))
  }

  /** The text before the first '='. */
  function Unpadded(t: Bytes): (r: Bytes)
    ensures '=' as int !in r
    ensures r == t <==> '=' as int !in t
  {
    if t == [] || t[0] == '=' as int then [] else [t[0]] + Unpadded(t[1..])
  }

  function DecodedLength(n: nat): nat {
    6 * n / 8
  }

  /** Bits of the last sextets that do not fill a byte. */
  function Leftover(n: nat): (r: nat)
    ensures r == 0 || r == 2 || r == 4 || r == 6
  {
    6 * n - 8 * DecodedLength(n)
  }

  function Decoded(t: Bytes): Option<Bytes> {
    var body := Unpadded(t);
    if !Accepted(body) then None
    else Some(AsBytes(ToDigits(Down(FromDigits(Sextets(body), 6), Leftover(|body|)), 8, DecodedLength(|body|))))
  }

  // ---- the two loops ----

  /** The number read so far: what was written out, then the bits still in the accumulator. */
  function Read(out: nat, word: nat, bits: nat): nat {
    Up(out, bits) + Low(word, bits)
  }

  /** The bits a shift loses at the top of the word are none of those still needed. */
  lemma ReadPush(out: nat, word: nat, bits: nat, width: nat, incoming: nat)
    requires bits + width <= 32 && incoming < Up(1, width)
    ensures Read(out, Push(word, width, incoming), bits + width)
            == Up(Read(out, word, bits), width) + incoming
  {
    hide Up, Down, Low, Word;
    var pushed := Push(word, width, incoming);
    var kept := Low(word, 32 - width);
    WordOfUp(word, width);
    DownLowIs(pushed, kept, incoming, width);
    LowSplit(pushed, width, bits);
    LowLow(word, bits, 32 - width);
    UpAdd(Up(out, bits), Low(word, bits), width);
    UpUp(out, bits, width);
  }

  /** Moving the top bits from the accumulator to the output keeps the number read so far. */
  lemma ReadTake(out: nat, word: nat, bits: nat, width: nat)
    requires width <= bits
    ensures Read(Up(out, width) + Low(Down(word, bits - width), width), word, bits - width)
            == Read(out, word, bits)
  {
    hide Up, Down, Low;
    UpAdd(Up(out, width), Low(Down(word, bits - width), width), bits - width);
    UpUp(out, width, bits - width);
    LowSplit(word, bits - width, width);
  }

  lemma PushDigit(out: nat, digits: seq<nat>, d: nat, word: nat, bits: nat, width: nat)
    requires bits + width <= 32 && d < Up(1, width)
    requires Read(out, word, bits) == FromDigits(digits, width)
    ensures Read(out, Push(word, width, d), bits + width) == FromDigits(digits + [d], width)
  {
    ReadPush(out, word, bits, width, d);
    Append(digits, d, width);
  }

  lemma TakeDigit(digits: seq<nat>, word: nat, bits: nat, width: nat)
    requires width <= bits && Digits(digits, width)
    ensures var d := Low(Down(word, bits - width), width);
            && Digits(digits + [d], width)
            && Read(FromDigits(digits + [d], width), word, bits - width)
               == Read(FromDigits(digits, width), word, bits)
  {
    ReadTake(FromDigits(digits, width), word, bits, width);
    UpDown(Down(word, bits - width), width);
    Append(digits, Low(Down(word, bits - width), width), width);
  }

  lemma ReadNothing(out: seq<nat>, digits: seq<nat>, outWidth: nat, width: nat)
    requires out == digits == []
    ensures Read(FromDigits(out, outWidth), 0, 0) == FromDigits(digits, width)
  {
  }

  lemma LettersAppend(sextets: seq<nat>, d: nat)
    requires Digits(sextets + [d], 6)
    ensures Digits(sextets, 6) && Digits([d], 6) && Letters(sextets + [d]) == Letters(sextets) + Letters([d])
  {
    assert forall i :: 0 <= i < |sextets| ==> sextets[i] == (sextets + [d])[i];
    assert d == (sextets + [d])[|sextets|];
  }

  /** How many letters were written once all bits are read, but for a last partial one. */
  lemma AllWritten(n: nat, m: nat, bits: nat)
    requires 6 * m + bits == 8 * n && bits < 6
    ensures if bits == 0 then EncodedLength(n) == m && Padding(n) == 0
            else EncodedLength(n) == m + 1 && Padding(n) == 6 - bits
  {
    hide EncodedLength, Padding;
    EncodedLengthIs(n / 3, n % 3);
  }

  /** Six more bits leave the accumulator as one letter. */
  method TakeLetters(output: Bytes, ghost sextets: seq<nat>, accumulator: nat, bits: nat)
    returns (output': Bytes, ghost sextets': seq<nat>, bits': nat)
    requires Digits(sextets, 6) && output == Letters(sextets)
    ensures bits' < 6 && 6 * |sextets'| + bits' == 6 * |sextets| + bits
    ensures Digits(sextets', 6) && output' == Letters(sextets')
    ensures Read(FromDigits(sextets', 6), accumulator, bits') == Read(FromDigits(sextets, 6), accumulator, bits)
  {
    hide Up, Down, Low, Read, FromDigits, Letters, Digits;
    output', sextets', bits' := output, sextets, bits;
    while bits' >= 6
      invariant 6 * |sextets'| + bits' == 6 * |sextets| + bits
      invariant Digits(sextets', 6) && output' == Letters(sextets')
      invariant Read(FromDigits(sextets', 6), accumulator, bits') == Read(FromDigits(sextets, 6), accumulator, bits)
    {
      TakeDigit(sextets', accumulator, bits', 6);
      bits' := bits' - 6;
      ghost var before := sextets';
      LettersAppend(before, Low(Down(accumulator, bits'), 6));
      output' := output' + Letters([Low(Down(accumulator, bits'), 6)]);
      sextets' := before + [Low(Down(accumulator, bits'), 6)];
    }
  }

  method Encode(value: Bytes) returns (output: Bytes)
    ensures output == Encoded(value)
  {
    hide Up, Down, Low, Word, Push, Read, FromDigits, Letters, Digits, Encoded, EncodedLength, Padding;
    output := [];
    ghost var sextets: seq<nat> := [];
    NoLetters();
    ReadNothing(sextets, value[..0], 6, 8);
    var accumulator: nat, bits: nat := 0, 0;
    for k := 0 to |value|
      invariant bits < 6 && 6 * |sextets| + bits == 8 * k
      invariant Digits(sextets, 6) && output == Letters(sextets)
      invariant Read(FromDigits(sextets, 6), accumulator, bits) == FromDigits(value[..k], 8)
    {
      ByteIsDigit(value[k]);
      PushDigit(FromDigits(sextets, 6), value[..k], value[k], accumulator, bits, 8);
      assert value[..k] + [value[k]] == value[..k + 1];
      accumulator := Push(accumulator, 8, value[k]);
      bits := bits + 8;
      output, sextets, bits := TakeLetters(output, sextets, accumulator, bits);
    }
    assert value[..|value|] == value;
    AllWritten(|value|, |sextets|, bits);
    if bits > 0 {
      LastDigit(sextets, accumulator, bits, 6);
      LettersAppend(sextets, Low(Word(Up(accumulator, 6 - bits)), 6));
      output := output + Letters([Low(Word(Up(accumulator, 6 - bits)), 6)]);
      sextets := sextets + [Low(Word(Up(accumulator, 6 - bits)), 6)];
    }
    ReadAll(FromDigits(sextets, 6), FromDigits(value, 8), accumulator);
    EncodedIs(value, sextets);
  }

  lemma NoLetters()
    ensures Digits([], 6) && Letters([]) == []
  {
  }

  lemma ByteIsDigit(b: Byte)
    ensures b < Up(1, 8)
  {
    BytesAreDigits([b]);
    assert [b][0] < Up(1, 8);
  }

  lemma ReadAll(out: nat, number: nat, word: nat)
    ensures Read(out, word, 0) == out && Up(number, 0) == number
  {
  }

  /** Letters whose number is that of the padded input are the encoding. */
  lemma EncodedIs(value: Bytes, sextets: seq<nat>)
    requires Digits(sextets, 6) && |sextets| == EncodedLength(|value|)
    requires FromDigits(sextets, 6) == Up(FromDigits(value, 8), Padding(|value|))
    ensures Letters(sextets) == Encoded(value)
  {
    DigitsOfValue(sextets, 6);
  }

  /** The final partial sextet is the remaining bits followed by zeros. */
  lemma LastDigit(digits: seq<nat>, word: nat, bits: nat, width: nat)
    requires bits <= width <= 32 && Digits(digits, width)
    ensures var d := Low(Word(Up(word, width - bits)), width);
            && Digits(digits + [d], width)
            && FromDigits(digits + [d], width) == Up(Read(FromDigits(digits, width), word, bits), width - bits)
  {
    hide Up, Down, Low, Word, FromDigits;
    var out := FromDigits(digits, width);
    LowOfWord(Up(word, width - bits), width);
    LowUp(word, width - bits, bits);
    UpAdd(Up(out, bits), Low(word, bits), width - bits);
    UpUp(out, bits, width - bits);
    UpDown(Word(Up(word, width - bits)), width);
    Append(digits, Low(Word(Up(word, width - bits)), width), width);
  }

  lemma BytesAppend(ds: Bytes, d: nat)
    requires Digits(ds + [d], 8)
    ensures Digits([d], 8) && d < 256 && AsBytes([d]) == [d]
  {
    assert d == (ds + [d])[|ds|];
    UpConstants(1);
  }

  method Decode(value: Bytes) returns (result: Option<Bytes>)
    ensures result == Decoded(value)
  {
    hide Up, Down, Low, Word, Push, Read, FromDigits, Digits, AsBytes, Decoded, Accepted, Sextets;
    var output: Bytes := [];
    var accumulator: nat, bits: nat := 0, 0;
    NoSextets();
    ReadNothing(output, Sextets(value[..0]), 8, 6);
    var k := 0;
    while k < |value|
      invariant 0 <= k <= |value|
      invariant bits < 8 && 8 * |output| + bits == 6 * k
      invariant '=' as int !in value[..k] && Accepted(value[..k])
      invariant Read(FromDigits(output, 8), accumulator, bits) == FromDigits(Sextets(value[..k]), 6)
    {
      if value[k] == '=' as int {
        break;
      }
      var decoded := Table(value[k]);
      if decoded < 0 {
        Refused(value, k);
        return None;
      }
      NextSextet(value, k);
      NotYetPadding(value, k);
      PushDigit(FromDigits(output, 8), Sextets(value[..k]), decoded, accumulator, bits, 6);
      accumulator := Push(accumulator, 6, decoded);
      bits := bits + 6;
      if bits >= 8 {
        BytesAreDigits(output);
        TakeDigit(output, accumulator, bits, 8);
        bits := bits - 8;
        BytesAppend(output, Low(Down(accumulator, bits), 8));
        output := output + AsBytes([Low(Down(accumulator, bits), 8)]);
      }
      k := k + 1;
    }
    UnpaddedIs(value, k);
    DecodedIs(value[..k], output, accumulator, bits);
    DecodedOf(value, k, output);
    return Some(output);
  }

  lemma NoSextets()
    ensures Accepted([]) && Sextets([]) == []
  {
  }

  lemma NotYetPadding(value: Bytes, k: nat)
    requires k < |value| && '=' as int !in value[..k] && value[k] != '=' as int
    ensures '=' as int !in value[..k + 1]
  {
    assert value[..k + 1] == value[..k] + [value[k]];
  }

  lemma Refused(value: Bytes, k: nat)
    requires k < |value| && '=' as int !in value[..k] && value[k] != '=' as int && Table(value[k]) < 0
    ensures Decoded(value) == None
  {
    UnpaddedReaches(value, k);
  }

  lemma DecodedOf(value: Bytes, k: nat, output: Bytes)
    requires k <= |value| && Unpadded(value) == value[..k] && Accepted(value[..k])
    requires ToDigits(Down(FromDigits(Sextets(value[..k]), 6), Leftover(k)), 8, DecodedLength(k)) == output
    ensures Decoded(value) == Some(output)
  {
    hide Down, FromDigits, ToDigits, Sextets, Leftover, DecodedLength, Unpadded, Accepted;
  }

  lemma NextSextet(value: Bytes, k: nat)
    requires k < |value| && Accepted(value[..k]) && Table(value[k]) >= 0
    ensures Accepted(value[..k + 1]) && Sextets(value[..k + 1]) == Sextets(value[..k]) + [Table(value[k])]
    ensures Table(value[k]) < Up(1, 6)
  {
    UpConstants(1);
    assert value[..k + 1] == value[..k] + [value[k]];
  }

  lemma DecodedIs(body: Bytes, output: Bytes, word: nat, bits: nat)
    requires Accepted(body) && bits < 8 && 8 * |output| + bits == 6 * |body|
    requires Read(FromDigits(output, 8), word, bits) == FromDigits(Sextets(body), 6)
    ensures ToDigits(Down(FromDigits(Sextets(body), 6), Leftover(|body|)), 8, DecodedLength(|body|)) == output
  {
    UpDown(word, bits);
    DownLowIs(Read(FromDigits(output, 8), word, bits), FromDigits(output, 8), Low(word, bits), bits);
    BytesAreDigits(output);
    DigitsOfValue(output, 8);
  }

  lemma {:induction false} UnpaddedReaches(t: Bytes, k: nat)
    requires k < |t| && '=' as int !in t[..k] && t[k] != '=' as int
    ensures k < |Unpadded(t)| && Unpadded(t)[k] == t[k]
  {
    if k > 0 {
      assert t[0] in t[..k];
      assert t[1..][..k - 1] == t[..k][1..];
      UnpaddedReaches(t[1..], k - 1);
    } else {
      assert t[0] != '=' as int;
    }
  }

  lemma {:induction false} UnpaddedIs(t: Bytes, k: nat)
    requires k <= |t| && '=' as int !in t[..k] && (k == |t| || t[k] == '=' as int)
    ensures Unpadded(t) == t[..k]
  {
    if k > 0 {
      assert t[0] in t[..k];
      assert t[1..][..k - 1] == t[..k][1..];
      UnpaddedIs(t[1..], k - 1);
      assert [t[0]] + t[1..][..k - 1] == t[..k];
    }
  }

  // ---- the theorems ----

  lemma SextetsOfLetters(sextets: seq<nat>)
    requires Digits(sextets, 6)
    ensures Accepted(Letters(sextets)) && Sextets(Letters(sextets)) == sextets
    ensures forall i :: 0 <= i < |sextets| ==> UrlSafe(Letters(sextets)[i])
    ensures '=' as int !in Letters(sextets)
  {
    UpConstants(1);
  }

  lemma LettersOfSextets(t: Bytes)
    requires Accepted(t)
    ensures Letters(Sextets(t)) == t <==> forall i :: 0 <= i < |t| ==> UrlSafe(t[i])
  {
    forall i | 0 <= i < |t|
      ensures Letter(Table(t[i])) == t[i] <==> UrlSafe(t[i])
    {
    }
    if Letters(Sextets(t)) == t {
      forall i | 0 <= i < |t| ensures UrlSafe(t[i]) {
        assert Letters(Sextets(t))[i] == t[i];
      }
    }
  }

  /** Only URL-safe letters, no padding, length ceil(4n/3). */
  lemma EncodedShape(s: Bytes)
    ensures 3 * |Encoded(s)| - 2 <= 4 * |s| <= 3 * |Encoded(s)|
    ensures forall i :: 0 <= i < |Encoded(s)| ==> UrlSafe(Encoded(s)[i])
    ensures '=' as int !in Encoded(s)
  {
    SextetsOfLetters(ToDigits(Up(FromDigits(s, 8), Padding(|s|)), 6, EncodedLength(|s|)));
  }

  lemma {:induction false} CapacityIs(width: nat, length: nat, bits: nat)
    requires (width == 6 && bits == 6 * length) || (width == 8 && bits == 8 * length)
    ensures Capacity(width, length) == Up(1, bits)
  {
    if length > 0 {
      CapacityIs(width, length - 1, bits - width);
      UpUp(1, bits - width, width);
    }
  }

  /** What n bytes can hold, shifted by the padding, is what their sextets can hold. */
  lemma PaddedCapacity(n: nat)
    ensures Up(Capacity(8, n), Padding(n)) == Capacity(6, EncodedLength(n))
  {
    CapacityIs(8, n, 8 * n);
    CapacityIs(6, EncodedLength(n), 6 * EncodedLength(n));
    UpUp(1, 8 * n, Padding(n));
  }

  lemma UpBelow(a: nat, b: nat, bits: nat)
    ensures a < b <==> Up(a, bits) < Up(b, bits)
  {
    UpAdd(a, b, bits);
    UpAdd(b, a, bits);
    UpAdd(1, 0, bits);
    if a < b {
      UpAdd(a, 1, bits);
      UpAdd(a + 1, b, bits);
      UpPositive(bits);
    }
  }

  lemma {:induction false} UpPositive(bits: nat)
    ensures Up(1, bits) > 0 && Up(0, bits) == 0
  {
    if bits > 0 {
      UpPositive(bits - 1);
    }
  }

  /** Four letters for three bytes, and one more than the bytes for what remains. */
  lemma EncodedLengthIs(q: nat, r: nat)
    requires r < 3
    ensures EncodedLength(3 * q + r) == 4 * q + (if r == 0 then 0 else r + 1)
    ensures Padding(3 * q + r) == if r == 0 then 0 else 6 - 2 * r
  {
    var m := EncodedLength(3 * q + r);
    assert 3 * m - 2 <= 12 * q + 4 * r <= 3 * m;
  }

  lemma DecodedLengthIs(q: nat, r: nat)
    requires r < 4
    ensures DecodedLength(4 * q + r) == 3 * q + (if r < 2 then 0 else r - 1)
    ensures Leftover(4 * q + r) == if r == 0 then 0 else 8 - 2 * r
  {
    assert 6 * (4 * q + r) == 8 * (3 * q) + 6 * r;
  }

  lemma LengthsMatch(n: nat)
    ensures DecodedLength(EncodedLength(n)) == n && Leftover(EncodedLength(n)) == Padding(n)
  {
    hide EncodedLength, DecodedLength, Padding, Leftover;
    var q, r := n / 3, n % 3;
    EncodedLengthIs(q, r);
    DecodedLengthIs(q, if r == 0 then 0 else r + 1);
  }

  lemma LengthsMatchBack(n: nat)
    ensures EncodedLength(DecodedLength(n)) == if n % 4 == 1 then n - 1 else n
    ensures n % 4 != 1 ==> Padding(DecodedLength(n)) == Leftover(n)
  {
    hide EncodedLength, DecodedLength, Padding, Leftover;
    var q, r := n / 4, n % 4;
    DecodedLengthIs(q, r);
    EncodedLengthIs(q, if r < 2 then 0 else r - 1);
  }

  /** Decoding inverts encoding, for every byte sequence. */
  lemma DecodeEncode(s: Bytes)
    ensures Decoded(Encoded(s)) == Some(s)
  {
    hide Up, Down, Low, FromDigits, ToDigits, Unpadded, Padding, Leftover, EncodedLength, DecodedLength;
    var number, p := FromDigits(s, 8), Padding(|s|);
    var sextets := ToDigits(Up(number, p), 6, EncodedLength(|s|));
    PaddedValue(s);
    SextetsOfLetters(sextets);
    assert Encoded(s) == Letters(sextets);
    assert Unpadded(Letters(sextets)) == Letters(sextets);
    LengthsMatch(|s|);
    UpPositive(p);
    DownLowIs(Up(number, p), number, 0, p);
    BytesAreDigits(s);
    DigitsOfValue(s, 8);
  }

  /** The sextets of the encoding hold the padded number of the input. */
  lemma PaddedValue(s: Bytes)
    ensures FromDigits(ToDigits(Up(FromDigits(s, 8), Padding(|s|)), 6, EncodedLength(|s|)), 6)
            == Up(FromDigits(s, 8), Padding(|s|))
  {
    BytesAreDigits(s);
    ValueBelowCapacity(s, 8);
    PaddedCapacity(|s|);
    UpBelow(FromDigits(s, 8), Capacity(8, |s|), Padding(|s|));
    ValueOfDigits(Up(FromDigits(s, 8), Padding(|s|)), 6, EncodedLength(|s|));
  }

  /** The texts the encoder writes: no padding, no '+' or '/', no stray sextet, zero leftover bits. */
  predicate Canonical(t: Bytes)
    requires Accepted(t)
  {
    && (forall i :: 0 <= i < |t| ==> UrlSafe(t[i]))
    && |t| % 4 != 1
    && (t != [] ==> Low(Table(t[|t| - 1]), Leftover(|t|)) == 0)
  }

  /** Encoding gives an accepted text back exactly when the text is canonical. */
  lemma EncodeDecode(t: Bytes)
    requires Decoded(t).Some?
    ensures Encoded(Decoded(t).value) == t <==> '=' as int !in t && Canonical(Unpadded(t))
  {
    hide Up, Down, Low;
    if '=' as int in t {
      EncodedShape(Decoded(t).value);
    } else if |t| % 4 == 1 {
      LengthsMatchBack(|t|);
    } else {
      EncodeDecodeWhole(t);
    }
  }

  lemma EncodeDecodeWhole(t: Bytes)
    requires Accepted(t) && '=' as int !in t && |t| % 4 != 1
    ensures Encoded(Decoded(t).value) == t <==> Canonical(t)
  {
    hide Up, Down, Low, FromDigits, ToDigits, EncodedLength, DecodedLength, Padding, Leftover, Unpadded, Letters, Sextets, Encoded;
    var sextets, r, s := Sextets(t), Leftover(|t|), Decoded(t).value;
    var number := FromDigits(sextets, 6);
    LengthsMatchBack(|t|);
    DecodedValue(t);
    LettersOfSextets(t);
    LowOfLast(sextets, r);
    UpDown(number, r);
    var padded := ToDigits(Up(FromDigits(s, 8), r), 6, |t|);
    EncodedAs(s, r, |t|);
    SextetsAt(t);
    if Low(number, r) == 0 {
      DigitsOfValue(sextets, 6);
      assert padded == sextets;
    } else {
      PaddedValue(s);
      assert padded != sextets;
      SextetsOfLetters(padded);
      assert Sextets(Letters(padded)) == padded;
    }
  }

  lemma EncodedAs(s: Bytes, padding: nat, length: nat)
    requires padding == Padding(|s|) && length == EncodedLength(|s|)
    ensures Encoded(s) == Letters(ToDigits(Up(FromDigits(s, 8), padding), 6, length))
  {
  }

  lemma SextetsAt(t: Bytes)
    requires Accepted(t)
    ensures forall i :: 0 <= i < |t| ==> Sextets(t)[i] == Table(t[i])
  {
  }

  /** The decoded bytes are the number of the text without its leftover bits. */
  lemma DecodedValue(t: Bytes)
    requires Accepted(t) && '=' as int !in t && |t| % 4 != 1
    ensures FromDigits(Decoded(t).value, 8) == Down(FromDigits(Sextets(t), 6), Leftover(|t|))
  {
    var number, r, n := FromDigits(Sextets(t), 6), Leftover(|t|), DecodedLength(|t|);
    assert EncodedLength(n) == |t| && Padding(n) == r;
    ValueBelowCapacity(Sextets(t), 6);
    PaddedCapacity(n);
    UpDown(number, r);
    UpBelow(Down(number, r), Capacity(8, n), r);
    ValueOfDigits(Down(number, r), 8, n);
  }

  /** The leftover bits are low bits of the last sextet. */
  lemma LowOfLast(sextets: seq<nat>, bits: nat)
    requires Digits(sextets, 6) && bits <= 6
    ensures Low(FromDigits(sextets, 6), bits) == if sextets == [] then 0 else Low(sextets[|sextets| - 1], bits)
  {
    if sextets == [] {
      UpPositive(bits);
      DownLowIs(0, 0, 0, bits);
    } else {
      var last := sextets[|sextets| - 1];
      DownLowIs(FromDigits(sextets, 6), FromDigits(sextets[..|sextets| - 1], 6), last, 6);
      LowLow(FromDigits(sextets, 6), bits, 6);
    }
  }
}
