/**
 * The fixed-width integer behaviour of C# that the depth handler relies on:
 * `short`, `int` and `byte` ranges, unchecked 32-bit subtraction, integer
 * division that truncates toward zero, and the unchecked `(byte)` cast that
 * keeps the low eight bits.
 */
module CSharpInts {

  const TwoTo32: int := 0x1_0000_0000

  /** C# `short` (System.Int16). */
  newtype int16 = x: int | -0x8000 <= x < 0x8000

  /** C# `int` (System.Int32). */
  newtype int32 = x: int | -0x8000_0000 <= x < 0x8000_0000

  /** C# `byte` (System.Byte). */
  newtype byte = x: int | 0 <= x < 0x100

  /** `byte.MaxValue` */
  const ByteMax: int := 255

  function Abs(x: int): nat
  {
    if x < 0 then -x else x
  }

  /**
   * `a - b` on two C# `int`s in the default unchecked context: the
   * mathematical difference reduced into the int32 range.
   */
  function Sub32(a: int32, b: int32): (r: int32)
    ensures (r as int - (a as int - b as int)) % TwoTo32 == 0
    ensures -0x8000_0000 <= a as int - b as int < 0x8000_0000 ==> r as int == a as int - b as int
    ensures r == 0 <==> a == b
  {
    var d := a as int - b as int;
    if d < -0x8000_0000 then (d + TwoTo32) as int32
    else if d >= 0x8000_0000 then (d - TwoTo32) as int32
    else d as int32
  }

  /**
   * C# integer division `a / b`: the quotient is rounded toward zero, so
   * its product with `b` never exceeds `a` in magnitude, misses it by less
   * than `|b|`, and never has the opposite sign of `a`. A zero divisor
   * throws in C#; callers must rule it out.
   */
  function TruncDiv(a: int, b: int): (q: int)
    requires b != 0
    ensures Abs(q * b) <= Abs(a) < Abs(q * b) + Abs(b)
    ensures q * b == 0 || (q * b < 0 <==> a < 0)
  {
    var m := Abs(a) / Abs(b);
    var q := if (a < 0) == (b < 0) then m else -m;
    TruncQuotient(a, b, m, q);
    q
  }

  /** The rounding-toward-zero facts for the quotient `TruncDiv` picks. */
  lemma TruncQuotient(a: int, b: int, m: int, q: int)
    requires b != 0 && m == Abs(a) / Abs(b)
    requires q == if (a < 0) == (b < 0) then m else -m
    ensures Abs(q * b) <= Abs(a) < Abs(q * b) + Abs(b)
    ensures q * b == 0 || (q * b < 0 <==> a < 0)
  {
  }

  /**
   * The unchecked C# cast `(byte)x`: the low eight bits of `x` in two's
   * complement, i.e. the residue of `x` modulo 256. Values already in the
   * byte range are kept; nothing is clamped.
   */
  function ByteCast(x: int): (r: byte)
    ensures (r as int - x) % 256 == 0
    ensures 0 <= x < 256 ==> r as int == x
  {
    (x % 256) as byte
  }
}
