/**
 * Fixed-width integer arithmetic of the .NET runtime that the scanner relies on:
 * unchecked (wrapping) 32- and 64-bit signed arithmetic and the `int << int` shift,
 * plus the small wrapper datatypes used throughout the model.
 */
module Machine {

  const TWO_32: int := 0x1_0000_0000
  const TWO_64: int := 0x1_0000_0000_0000_0000
  const INT32_MIN: int := -0x8000_0000
  const INT32_MAX: int := 0x7fff_ffff
  const INT64_MIN: int := -0x8000_0000_0000_0000
  const INT64_MAX: int := 0x7fff_ffff_ffff_ffff

  /** C# `int`. */
  newtype int32 = x: int | -0x8000_0000 <= x < 0x8000_0000

  /** C# `long`. */
  newtype int64 = x: int | -0x8000_0000_0000_0000 <= x < 0x8000_0000_0000_0000

  datatype Option<+T> = None | Some(value: T)

  /** Either a value, or the IndexOutOfRangeException that reading past the end of a char[] raises. */
  datatype Outcome<+T> = Done(value: T) | IndexOutOfRange

  /** Two's-complement truncation of an unbounded integer to 32 bits (unchecked C# `int` arithmetic). */
  function Wrap32(x: int): (r: int32)
    ensures INT32_MIN <= x <= INT32_MAX ==> r as int == x
  {
    ((x - INT32_MIN) % TWO_32 + INT32_MIN) as int32
  }

  /** Two's-complement truncation of an unbounded integer to 64 bits (unchecked C# `long` arithmetic). */
  function Wrap64(x: int): (r: int64)
    ensures INT64_MIN <= x <= INT64_MAX ==> r as int == x
  {
    ((x - INT64_MIN) % TWO_64 + INT64_MIN) as int64
  }

  /** Wrapping changes a value by a multiple of 2^32. */
  lemma Wrap32Residue(x: int)
    ensures (Wrap32(x) as int - x) % TWO_32 == 0
  {
  }

  /** Wrapping changes a value by a multiple of 2^64. */
  lemma Wrap64Residue(x: int)
    ensures (Wrap64(x) as int - x) % TWO_64 == 0
  {
  }

  /** Wrap64 depends only on the residue of its argument modulo 2^64. */
  lemma Wrap64Congruent(x: int, y: int)
    requires (x - y) % TWO_64 == 0
    ensures Wrap64(x) == Wrap64(y)
  {
    var k := (x - y) / TWO_64;
    assert x == y + k * TWO_64;
    assert x % TWO_64 == y % TWO_64;
  }

  /** Wrap32 depends only on the residue of its argument modulo 2^32. */
  lemma Wrap32Congruent(x: int, y: int)
    requires (x - y) % TWO_32 == 0
    ensures Wrap32(x) == Wrap32(y)
  {
    var k := (x - y) / TWO_32;
    assert x == y + k * TWO_32;
    assert x % TWO_32 == y % TWO_32;
  }

  /**
   * One step of the accumulation `result = result * base + digit` in unchecked 64-bit
   * arithmetic gives the same value as doing the whole computation exactly and wrapping once.
   */
  lemma Wrap64MulAdd(x: int, b: int, d: int)
    ensures Wrap64(Wrap64(x) as int * b + d) == Wrap64(x * b + d)
  {
    Wrap64Residue(x);
    var w := Wrap64(x) as int;
    var k := (w - x) / TWO_64;
    assert w == x + k * TWO_64;
    assert w * b + d == (x * b + d) + (k * b) * TWO_64;
    Wrap64Congruent(w * b + d, x * b + d);
  }

  /** Same as Wrap64MulAdd, for unchecked 32-bit arithmetic. */
  lemma Wrap32MulAdd(x: int, b: int, d: int)
    ensures Wrap32(Wrap32(x) as int * b + d) == Wrap32(x * b + d)
  {
    Wrap32Residue(x);
    var w := Wrap32(x) as int;
    var k := (w - x) / TWO_32;
    assert w == x + k * TWO_32;
    assert w * b + d == (x * b + d) + (k * b) * TWO_32;
    Wrap32Congruent(w * b + d, x * b + d);
  }

  function Pow2(n: nat): (r: nat)
    ensures r >= 1
  {
    if n == 0 then 1 else 2 * Pow2(n - 1)
  }

  /**
   * C# `x << n` on `int`: the shift count is taken modulo 32 (its low five bits) and the
   * product is truncated to 32 bits.
   */
  function Shl32(x: int32, n: int): (r: int32)
    ensures x == 0 ==> r == 0
  {
    Wrap32(x as int * Pow2(n % 32))
  }
}
