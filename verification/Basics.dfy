/** Byte strings and the failure-compatible types shared by every other module. */
module Basics {

  type Byte = x: int | 0 <= x < 256

  /** Go strings, C++ string views and byte vectors are all sequences of bytes. */
  type Bytes = seq<Byte>

  datatype Option<+T> = None | Some(value: T) {
    predicate IsFailure() {
      None?
    }

    function PropagateFailure<U>(): Option<U>
      requires None?
    {
      None
    }

    function Extract(): T
      requires Some?
    {
      value
    }
  }

  datatype Result<+T, +E> = Ok(value: T) | Err(error: E) {
    predicate IsFailure() {
      Err?
    }

    function PropagateFailure<U>(): Result<U, E>
      requires Err?
    {
      Err(error)
    }

    function Extract(): T
      requires Ok?
    {
      value
    }
  }

  /** The bytes of an ASCII literal. */
  function Lit(s: string): (b: Bytes)
    ensures |b| == |s|
    ensures forall i :: 0 <= i < |s| ==> b[i] == s[i] as int % 256
  {
    seq(|s|, i requires 0 <= i < |s| => s[i] as int % 256)
  }

  predicate IsDigit(b: Byte) {
    '0' as int <= b <= '9' as int
  }

  /** C-locale tolower on one byte. */
  function LowerByte(b: Byte): Byte {
    if 'A' as int <= b <= 'Z' as int then b + 32 else b
  }

  /** lower_ascii, and ASCII case folding. */
  function Lower(s: Bytes): (r: Bytes)
    ensures |r| == |s|
  {
    seq(|s|, i requires 0 <= i < |s| => LowerByte(s[i]))
  }

  function Min(a: int, b: int): int {
    if a < b then a else b
  }

  function Max(a: int, b: int): int {
    if a < b then b else a
  }
}

/** Integers of 64 bits. */
module Int64 {

  const MAX: int := 0x7fff_ffff_ffff_ffff
  const MIN: int := -MAX - 1

  type Int64 = x: int | MIN <= x <= MAX

  /** What 64-bit addition, multiplication and shifting make of a result. */
  function Wrap(x: int): (d: Int64)
    ensures MIN <= x <= MAX ==> d == x
  {
    (x + MAX + 1) % 0x1_0000_0000_0000_0000 - MAX - 1
  }

  /** x, held within the limits. */
  function Saturate(x: int): Int64 {
    if x > MAX then MAX else if x < MIN then MIN else x
  }
}
