/** Numbers as byte strings, in either order. */
module ByteNumbers {
  import opened Basics

  function FromLittle(s: Bytes): nat {
    if s == [] then 0 else s[0] + 256 * FromLittle(s[1..])
  }

  /** big.Int.SetBytes. */
  function FromBig(s: Bytes): nat {
    if s == [] then 0 else 256 * FromBig(s[..|s| - 1]) + s[|s| - 1]
  }

  function Power(n: nat): nat {
    if n == 0 then 1 else 256 * Power(n - 1)
  }

  /** big.Int.FillBytes into n bytes. */
  function ToBig(u: nat, n: nat): (s: Bytes)
    ensures |s| == n
  {
    if n == 0 then [] else ToBig(u / 256, n - 1) + [u % 256]
  }

  function Reversed(s: Bytes): (r: Bytes)
    ensures |r| == |s| && forall i :: 0 <= i < |s| ==> r[i] == s[|s| - 1 - i]
  {
    seq(|s|, i requires 0 <= i < |s| => s[|s| - 1 - i])
  }

  lemma {:induction false} BigOfReversed(s: Bytes)
    ensures FromBig(Reversed(s)) == FromLittle(s)
  {
    if s == [] {
    } else {
      BigOfReversed(s[1..]);
      var r := Reversed(s);
      assert r[..|r| - 1] == Reversed(s[1..]);
    }
  }

  lemma {:induction false} BigRoundTrip(u: nat, n: nat)
    requires u < Power(n)
    ensures FromBig(ToBig(u, n)) == u
  {
    if n == 0 {
    } else {
      BigRoundTrip(u / 256, n - 1);
      var s := ToBig(u, n);
      assert s[..n - 1] == ToBig(u / 256, n - 1);
    }
  }

  lemma {:induction false} PowerSum(m: nat, n: nat)
    ensures Power(m + n) == Power(m) * Power(n)
  {
    if m == 0 {
    } else {
      PowerSum(m - 1, n);
      var x, y := Power(m - 1), Power(n);
      assert Power(m + n) == 256 * (x * y);
      assert 256 * (x * y) == (256 * x) * y;
    }
  }

  lemma PowerOf32()
    ensures Power(32) == 0x1_0000000000000000_0000000000000000_0000000000000000_0000000000000000
    ensures 256 * Power(31) == Power(32)
  {
    assert Power(2) == 0x1_0000 by {
      assert Power(1) == 256;
    }
    PowerSum(2, 2);
    PowerSum(4, 4);
    PowerSum(8, 8);
    PowerSum(16, 16);
    assert Power(4) == 0x1_0000_0000;
    assert Power(8) == 0x1_0000000000000000;
    assert Power(16) == 0x1_0000000000000000_0000000000000000;
  }
}

/** Congruence modulo the prime of Curve25519. */
module FieldArithmetic {

  const P: int := 0x7fffffffffffffff_ffffffffffffffff_ffffffffffffffff_ffffffffffffffed

  ghost predicate Multiple(x: int) {
    exists k: int :: x == k * P
  }

  ghost predicate Same(a: int, b: int) {
    Multiple(a - b)
  }

  lemma MultipleBy(k: int)
    ensures Multiple(k * P)
  {
  }

  lemma SameMod(a: int)
    ensures Same(a, a % P) && 0 <= a % P < P
  {
    assert a - a % P == (a / P) * P;
  }

  lemma SameSwap(a: int, b: int)
    requires Same(a, b)
    ensures Same(b, a)
  {
    var k :| a - b == k * P;
    assert b - a == (-k) * P;
  }

  lemma SameAdd(a: int, b: int, c: int, d: int)
    requires Same(a, b) && Same(c, d)
    ensures Same(a + c, b + d) && Same(a - c, b - d)
  {
    var k :| a - b == k * P;
    var l :| c - d == l * P;
    assert (a + c) - (b + d) == (k + l) * P;
    assert (a - c) - (b - d) == (k - l) * P;
  }

  lemma SameTrans(a: int, b: int, c: int)
    requires Same(a, b) && Same(b, c)
    ensures Same(a, c)
  {
    var k :| a - b == k * P;
    var l :| b - c == l * P;
    assert a - c == (k + l) * P;
  }

  lemma SameMul(a: int, b: int, c: int)
    requires Same(a, b)
    ensures Same(a * c, b * c) && Same(c * a, c * b)
  {
    var k :| a - b == k * P;
    assert a * c - b * c == (a - b) * c;
    assert (k * P) * c == (k * c) * P;
    assert c * a == a * c && c * b == b * c;
  }

  /** Two residues below P that are congruent are equal. */
  lemma SameIsEqual(a: int, b: int)
    requires Same(a, b) && 0 <= a < P && 0 <= b < P
    ensures a == b
  {
    var k :| a - b == k * P;
    assert -1 < k < 1;
  }

  /** P is odd: twice a small difference is a multiple only of zero. */
  lemma HalfIsEqual(a: int, b: int)
    requires Same(2 * a, 2 * b) && 0 <= a < P && 0 <= b < P
    ensures a == b
  {
    var k :| 2 * a - 2 * b == k * P;
    assert -2 < k < 2;
    assert P % 2 == 1;
  }
}

/** The map from Ed25519 public keys to X25519 ones, section 4.1 of RFC 7748. */
module EdwardsMap {
  import opened Basics
  import opened ByteNumbers
  import opened FieldArithmetic

  /** big.Int.ModInverse modulo P. */
  type Inverse = int -> int

  ghost predicate Inverts(inverse: Inverse) {
    forall d :: 0 < d < P ==> 0 <= inverse(d) < P && (d * inverse(d)) % P == 1
  }

  function Masked(encoded: Bytes): Bytes
    requires |encoded| == 32
  {
    encoded[..31] + [encoded[31] % 128]
  }

  /** The y coordinate: little-endian, without the sign bit. */
  function Coordinate(encoded: Bytes): nat
    requires |encoded| == 32
  {
    FromLittle(Masked(encoded))
  }

  predicate Accepted(encoded: Bytes) {
    |encoded| == 32 && Coordinate(encoded) < P && Coordinate(encoded) != 1
  }

  function Mapped(y: int, inverse: Inverse): int {
    ((1 + y) * inverse((1 - y) % P)) % P
  }

  /** ed25519PublicKeyToX25519: mask, reverse in place, compute, reverse. */
  method Ed25519PublicKeyToX25519(encoded: Bytes, inverse: Inverse) returns (result: Option<Bytes>)
    requires Inverts(inverse)
    ensures result.Some? <==> Accepted(encoded)
    ensures result.Some? ==> |result.value| == 32 && FromLittle(result.value) == Mapped(Coordinate(encoded), inverse)
  {
    hide FromBig, FromLittle, ToBig, Inverts;
    if |encoded| != 32 {
      return None;
    }
    var littleY := new Byte[32];
    forall i | 0 <= i < 32 {
      littleY[i] := encoded[i];
    }
    littleY[31] := littleY[31] % 128;
    assert littleY[..] == Masked(encoded);
    Reverse(littleY);
    BigOfReversed(Masked(encoded));
    var y := FromBig(littleY[..]);
    assert y == Coordinate(encoded);
    if y >= P {
      return None;
    }
    var denominator := (1 - y) % P;
    OneIsRefused(y);
    if denominator == 0 {
      return None;
    }
    var u := ((1 + y) * inverse(denominator)) % P;
    MappedBelow(y, inverse);
    var be := ToBig(u, 32);
    var output := Reversed(be);
    PowerOf32();
    BigRoundTrip(u, 32);
    BigOfReversed(output);
    assert Reversed(output) == be;
    return Some(output);
  }

  /** The exchange loop. */
  method Reverse(a: array<Byte>)
    modifies a
    ensures a[..] == Reversed(old(a[..]))
  {
    var i, j := 0, a.Length - 1;
    while i < j
      invariant 0 <= i <= a.Length && j == a.Length - 1 - i && i <= j + 2
      invariant forall k :: 0 <= k < i ==> a[k] == old(a[a.Length - 1 - k]) && a[a.Length - 1 - k] == old(a[k])
      invariant forall k :: i <= k <= j ==> a[k] == old(a[k])
      decreases j - i
    {
      a[i], a[j] := a[j], a[i];
      i, j := i + 1, j - 1;
    }
  }

  lemma OneIsRefused(y: nat)
    requires y < P
    ensures (1 - y) % P == 0 <==> y == 1
  {
  }

  lemma MappedBelow(y: int, inverse: Inverse)
    ensures 0 <= Mapped(y, inverse) < P
  {
    SameMod((1 + y) * inverse((1 - y) % P));
  }

  // ---- what it computes ----

  predicate Usable(y: int) {
    0 <= y < P && y != 1
  }

  /** u solves the defining equation. */
  ghost predicate Solves(u: int, y: int) {
    Same(u * (1 - y), 1 + y)
  }

  lemma InverseOf(d: int, inverse: Inverse)
    requires Inverts(inverse) && 0 < d < P
    ensures Same(d * inverse(d), 1)
  {
    SameMod(d * inverse(d));
  }

  /** The result is below P and satisfies u (1 - y) = 1 + y. */
  lemma {:induction false} MappedSolves(y: int, inverse: Inverse)
    requires Inverts(inverse) && Usable(y)
    ensures Solves(Mapped(y, inverse), y) && 0 <= Mapped(y, inverse) < P
  {
    hide Same, Inverts;
    var d := (1 - y) % P;
    var i := inverse(d);
    var u := Mapped(y, inverse);
    OneIsRefused(y);
    SameMod(1 - y);
    SameMod((1 + y) * i);
    InverseOf(d, inverse);
    SameMul(1 - y, d, u);
    SameSwap((1 + y) * i, u);
    SameMul(u, (1 + y) * i, d);
    SameMul(d * i, 1, 1 + y);
    assert ((1 + y) * i) * d == (1 + y) * (d * i);
    SameTrans(u * (1 - y), u * d, (1 + y) * (d * i));
    SameTrans(u * (1 - y), (1 + y) * (d * i), 1 + y);
  }

  /** One u solves the equation for at most one y. */
  lemma OneYPerU(u: int, y: int, z: int)
    requires Usable(y) && Usable(z) && Solves(u, y) && Solves(u, z)
    ensures y == z
  {
    hide Same;
    SameAdd(u * (1 - y), 1 + y, u * (1 - z), 1 + z);
    var left := u * (1 - y) - u * (1 - z);
    assert left == u * (z - y);
    SameAdd(u * (z - y), y - z, z - y, z - y) by {
      assert (1 + y) - (1 + z) == y - z;
      SameSelf(z - y);
    }
    assert Same(u * (z - y) + (z - y), 0);
    assert u * (z - y) + (z - y) == (u + 1) * (z - y);
    SameMul((u + 1) * (z - y), 0, 1 - y);
    TwoFromSum(u, y);
    SameMul((u + 1) * (1 - y), 2, z - y);
    assert ((u + 1) * (z - y)) * (1 - y) == ((u + 1) * (1 - y)) * (z - y);
    SameSwap(((u + 1) * (1 - y)) * (z - y), 2 * (z - y));
    SameTrans(2 * (z - y), ((u + 1) * (1 - y)) * (z - y), 0);
    SameSelf(2 * y);
    SameAdd(2 * (z - y), 0, 2 * y, 2 * y);
    assert 2 * (z - y) + 2 * y == 2 * z;
    HalfIsEqual(z, y);
  }

  lemma SameSelf(a: int)
    ensures Same(a, a)
  {
    assert a - a == 0 * P;
  }

  lemma TwoFromSum(u: int, y: int)
    requires Solves(u, y)
    ensures Same((u + 1) * (1 - y), 2)
  {
    hide Same;
    SameSelf(1 - y);
    SameAdd(u * (1 - y), 1 + y, 1 - y, 1 - y);
    assert u * (1 - y) + (1 - y) == (u + 1) * (1 - y);
  }

  /** Distinct y give distinct u, so accepted keys with the same image differ at most in the sign bit. */
  lemma MapIsInjective(y: int, z: int, inverse: Inverse)
    requires Inverts(inverse) && Usable(y) && Usable(z)
    ensures Mapped(y, inverse) == Mapped(z, inverse) <==> y == z
  {
    hide Solves, Inverts, Mapped;
    MappedSolves(y, inverse);
    MappedSolves(z, inverse);
    if Mapped(y, inverse) == Mapped(z, inverse) {
      OneYPerU(Mapped(y, inverse), y, z);
    }
  }

  lemma {:induction false} LittleInjective(a: Bytes, b: Bytes)
    requires |a| == |b| && FromLittle(a) == FromLittle(b)
    ensures a == b
  {
    if a == [] {
    } else {
      assert a[0] == FromLittle(a) % 256 && b[0] == FromLittle(b) % 256;
      LittleInjective(a[1..], b[1..]);
      assert a == [a[0]] + a[1..] && b == [b[0]] + b[1..];
    }
  }

  /** On encodings: two accepted ones map to the same key exactly when they agree in every bit but the top
      one. */
  lemma SameImageSameKey(a: Bytes, b: Bytes, inverse: Inverse)
    requires Inverts(inverse) && Accepted(a) && Accepted(b)
    ensures Mapped(Coordinate(a), inverse) == Mapped(Coordinate(b), inverse)
            <==> a[..31] == b[..31] && a[31] % 128 == b[31] % 128
  {
    hide Mapped, Inverts, FromLittle;
    MapIsInjective(Coordinate(a), Coordinate(b), inverse);
    if Coordinate(a) == Coordinate(b) {
      LittleInjective(Masked(a), Masked(b));
      assert Masked(a)[..31] == a[..31] && Masked(b)[..31] == b[..31];
      assert Masked(a)[31] == Masked(b)[31];
    }
  }

  /** Every u but P - 1 is the image of some y, so the map is a bijection onto those. */
  lemma MapIsOnto(u: int, inverse: Inverse) returns (y: int)
    requires Inverts(inverse) && 0 <= u < P - 1
    ensures Usable(y) && Mapped(y, inverse) == u
  {
    hide Same, Inverts, Mapped;
    var i := inverse(u + 1);
    y := ((u - 1) * i) % P;
    InverseOf(u + 1, inverse);
    SameMod((u - 1) * i);
    SameSwap((u - 1) * i, y);
    SameMul(y, (u - 1) * i, u + 1);
    SameMul((u + 1) * i, 1, u - 1);
    assert ((u - 1) * i) * (u + 1) == (u - 1) * ((u + 1) * i);
    SameTrans(y * (u + 1), (u - 1) * ((u + 1) * i), u - 1);
    if y == 1 {
      SameSelf(u);
      SameAdd(u + 1, u - 1, u, u);
      SameIsEqual(1, P - 1) by {
        assert (u + 1) - u == 1 && (u - 1) - u == -1;
        MultipleBy(-1);
        PIsZero();
        SameAdd(1, -1, 0, -P);
      }
      assert false;
    }
    SameSwap(y * (u + 1), u - 1);
    SameSelf(u + y);
    SameAdd(u + y, u + y, y * (u + 1), u - 1);
    assert (u + y) - y * (u + 1) == u * (1 - y) && (u + y) - (u - 1) == 1 + y;
    MappedSolves(y, inverse);
    OneUPerY(u, Mapped(y, inverse), y, inverse);
  }

  lemma PIsZero()
    ensures Same(0, -P)
  {
    assert 0 - -P == 1 * P;
  }

  lemma OneUPerY(u: int, v: int, y: int, inverse: Inverse)
    requires Inverts(inverse) && Usable(y) && Solves(u, y) && Solves(v, y) && 0 <= u < P && 0 <= v < P
    ensures u == v
  {
    hide Same, Inverts;
    var d := (1 - y) % P;
    var i := inverse(d);
    OneIsRefused(y);
    SameMod(1 - y);
    InverseOf(d, inverse);
    SameSwap(v * (1 - y), 1 + y);
    SameTrans(u * (1 - y), 1 + y, v * (1 - y));
    SameMul(u * (1 - y), v * (1 - y), i);
    Cancels(u, y, d, i);
    Cancels(v, y, d, i);
    SameSwap((u * (1 - y)) * i, u);
    SameTrans(u, (u * (1 - y)) * i, (v * (1 - y)) * i);
    SameTrans(u, (v * (1 - y)) * i, v);
    SameIsEqual(u, v);
  }

  lemma Cancels(u: int, y: int, d: int, i: int)
    requires Same(1 - y, d) && Same(d * i, 1)
    ensures Same((u * (1 - y)) * i, u)
  {
    hide Same;
    SameMul(1 - y, d, u);
    SameMul(u * (1 - y), u * d, i);
    SameMul(d * i, 1, u);
    assert (u * d) * i == u * (d * i);
    SameTrans((u * (1 - y)) * i, u * (d * i), u);
  }
}
