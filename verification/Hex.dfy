/** hex_lower, hex_decode and the GUID text of common.cpp and rim2.cpp. */
module Hex {
  import opened Basics

  function Digit(n: nat): Byte
    requires n < 16
  {
    if n < 10 then '0' as int + n else 'a' as int + (n - 10)
  }

  /** One character as std::from_chars reads it in base 16. */
  function DigitValue(c: Byte): (r: int)
    ensures -1 <= r < 16
  {
    if IsDigit(c) then c - '0' as int
    else if 'a' as int <= c <= 'f' as int then c - 'a' as int + 10
    else if 'A' as int <= c <= 'F' as int then c - 'A' as int + 10
    else -1
  }

  function Text(value: Bytes): (t: Bytes)
    ensures |t| == 2 * |value|
    ensures forall i :: 0 <= i < |value| ==> t[2 * i] == Digit(value[i] / 16) && t[2 * i + 1] == Digit(value[i] % 16)
  {
    if value == [] then []
    else
      var front := value[..|value| - 1];
      Text(front) + [Digit(value[|value| - 1] / 16), Digit(value[|value| - 1] % 16)]
  }

  method HexLower(value: Bytes) returns (output: Bytes)
    ensures output == Text(value)
  {
    output := [];
    for index := 0 to |value|
      invariant output == Text(value[..index])
    {
      output := output + [Digit(value[index] / 16), Digit(value[index] % 16)];
      assert value[..index + 1][..index] == value[..index];
    }
    assert value[..|value|] == value;
  }

  function Decoded(t: Bytes): Option<Bytes> {
    if |t| % 2 != 0 then None
    else if t == [] then Some([])
    else
      var high, low := DigitValue(t[|t| - 2]), DigitValue(t[|t| - 1]);
      var front :- Decoded(t[..|t| - 2]);
      if high < 0 || low < 0 then None else Some(front + [16 * high + low])
  }

  method HexDecode(value: Bytes) returns (output: Option<Bytes>)
    ensures output == Decoded(value)
  {
    if |value| % 2 != 0 {
      return None;
    }
    var bytes: Bytes := [];
    for index := 0 to |value| / 2
      invariant Decoded(value[..2 * index]) == Some(bytes)
    {
      var high, low := DigitValue(value[2 * index]), DigitValue(value[2 * index + 1]);
      var next := value[..2 * index + 2];
      assert next[..|next| - 2] == value[..2 * index];
      if high < 0 || low < 0 {
        RefusedPrefix(value, 2 * index + 2);
        return None;
      }
      bytes := bytes + [16 * high + low];
    }
    assert value[..|value|] == value;
    return Some(bytes);
  }

  lemma {:induction false} RefusedPrefix(t: Bytes, n: nat)
    requires n <= |t| && n % 2 == 0 && |t| % 2 == 0 && Decoded(t[..n]) == None
    ensures Decoded(t) == None
  {
    if n < |t| {
      assert t[..|t| - 2][..n] == t[..n];
      RefusedPrefix(t[..|t| - 2], n);
    } else {
      assert t[..n] == t;
    }
  }

  lemma DigitExact(c: Byte, n: nat)
    requires n < 16
    ensures DigitValue(c) == n <==> LowerByte(c) == Digit(n)
  {
  }

  /** An accepted text is, up to letter case, the text of the bytes it decodes to; everything else
      is refused. */
  lemma {:induction false} DecodedExact(t: Bytes, b: Bytes)
    ensures Decoded(t) == Some(b) <==> Lower(t) == Text(b)
  {
    hide DigitValue, LowerByte, Digit;
    if |t| % 2 != 0 || |t| != 2 * |b| {
      DecodedLength(t);
    } else if t != [] {
      var n := |t|;
      var front, last := b[..|b| - 1], b[|b| - 1];
      var high, low := DigitValue(t[n - 2]), DigitValue(t[n - 1]);
      DecodedExact(t[..n - 2], front);
      DigitExact(t[n - 2], last / 16);
      DigitExact(t[n - 1], last % 16);
      LowerPair(t);
      LastPair(Lower(t[..n - 2]), LowerByte(t[n - 2]), LowerByte(t[n - 1]),
               Text(front), Digit(last / 16), Digit(last % 16));
      DecodedPair(t, b);
    }
  }

  lemma LowerPair(t: Bytes)
    requires |t| >= 2
    ensures Lower(t) == Lower(t[..|t| - 2]) + [LowerByte(t[|t| - 2]), LowerByte(t[|t| - 1])]
  {
  }

  lemma DecodedPair(t: Bytes, b: Bytes)
    requires b != [] && |t| == 2 * |b|
    ensures Decoded(t) == Some(b)
            <==> Decoded(t[..|t| - 2]) == Some(b[..|b| - 1])
                 && DigitValue(t[|t| - 2]) == b[|b| - 1] / 16 && DigitValue(t[|t| - 1]) == b[|b| - 1] % 16
  {
    hide DigitValue;
    var front := Decoded(t[..|t| - 2]);
    assert b == b[..|b| - 1] + [b[|b| - 1]];
    DecodedLength(t[..|t| - 2]);
    if Decoded(t) == Some(b) {
      assert b[..|b| - 1] == front.value;
    }
  }

  lemma LastPair(s: Bytes, c: Byte, d: Byte, t: Bytes, e: Byte, f: Byte)
    ensures s + [c, d] == t + [e, f] <==> s == t && c == e && d == f
  {
    if s + [c, d] == t + [e, f] {
      assert (s + [c, d])[..|s|] == s;
      assert (t + [e, f])[..|t|] == t;
      assert (s + [c, d])[|s|] == c && (s + [c, d])[|s| + 1] == d;
      assert (t + [e, f])[|t|] == e && (t + [e, f])[|t| + 1] == f;
    }
  }

  lemma {:induction false} DecodedLength(t: Bytes)
    ensures Decoded(t).Some? ==> |t| == 2 * |Decoded(t).value|
  {
    if |t| >= 2 {
      DecodedLength(t[..|t| - 2]);
    }
  }

  lemma TextInjective(a: Bytes, b: Bytes)
    requires Text(a) == Text(b)
    ensures a == b
  {
    forall i | 0 <= i < |a| ensures a[i] == b[i] {
      assert Text(a)[2 * i] == Text(b)[2 * i] && Text(a)[2 * i + 1] == Text(b)[2 * i + 1];
    }
  }

  // ---- GUID text ----

  const DASH: Byte := '-' as int

  function GuidText(bytes: Bytes): Bytes {
    if |bytes| != 16 then []
    else
      var hex := Text(bytes);
      hex[..8] + [DASH] + hex[8..12] + [DASH] + hex[12..16] + [DASH] + hex[16..20] + [DASH] + hex[20..]
  }

  /** Two 16-byte identifiers with the same text are the same bytes. */
  lemma GuidTextInjective(a: Bytes, b: Bytes)
    requires |a| == |b| == 16 && GuidText(a) == GuidText(b)
    ensures a == b
  {
    var s, t := Text(a), Text(b);
    var g, h := GuidText(a), GuidText(b);
    assert g[..8] == s[..8] && h[..8] == t[..8];
    assert g[9..13] == s[8..12] && h[9..13] == t[8..12];
    assert g[14..18] == s[12..16] && h[14..18] == t[12..16];
    assert g[19..23] == s[16..20] && h[19..23] == t[16..20];
    assert g[24..] == s[20..] && h[24..] == t[20..];
    assert s == s[..8] + s[8..12] + s[12..16] + s[16..20] + s[20..];
    assert t == t[..8] + t[8..12] + t[12..16] + t[16..20] + t[20..];
    TextInjective(a, b);
  }
}
