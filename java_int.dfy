/** Java's fixed-width integer arithmetic, written out over unbounded integers. */
module JavaInt {

  const TWO32: int := 0x1_0000_0000

  /** The values of a Java `int`. */
  type int32 = x: int | -0x8000_0000 <= x < 0x8000_0000

  /** The values of a Java `byte`. */
  type int8 = x: int | -0x80 <= x < 0x80

  const TWO16: int := 0x1_0000

  /** The values of a Java `short`. */
  type int16 = x: int | -0x8000 <= x < 0x8000

  /** The values of a Java `long`. */
  type int64 = x: int | -0x8000_0000_0000_0000 <= x < 0x8000_0000_0000_0000

  /** The `int` a Java `int` expression produces for the mathematical value `x` (two's-complement wrap-around). */
  function Wrap32(x: int): (r: int32)
    ensures (r - x) % TWO32 == 0
    ensures -0x8000_0000 <= x < 0x8000_0000 ==> r == x
  {
    var m := x % TWO32;
    if m < 0x8000_0000 then m else m - TWO32
  }

  /** The `short` a narrowing cast `(short) x` produces (two's-complement wrap-around). */
  function Wrap16(x: int): (r: int16)
    ensures (r - x) % TWO16 == 0
    ensures -0x8000 <= x < 0x8000 ==> r == x
  {
    var m := x % TWO16;
    if m < 0x8000 then m else m - TWO16
  }

  const TWO64: int := 0x1_0000_0000_0000_0000

  /** The `long` a Java `long` expression produces for the mathematical value `x` (two's-complement wrap-around). */
  function Wrap64(x: int): (r: int64)
    ensures (r - x) % TWO64 == 0
    ensures -0x8000_0000_0000_0000 <= x < 0x8000_0000_0000_0000 ==> r == x
  {
    var m := x % TWO64;
    if m < 0x8000_0000_0000_0000 then m else m - TWO64
  }

  /** Two values with the same residue modulo 2^32 wrap to the same `int`. */
  lemma {:induction false} Wrap32Congruent(x: int, y: int)
    requires (x - y) % TWO32 == 0
    ensures Wrap32(x) == Wrap32(y)
  {
    var k := (x - y) / TWO32;
    assert x == y + k * TWO32;
    ModShift(y, k);
  }

  /** Wrapping an intermediate result of a sum does not change the wrapped total. */
  lemma {:induction false} Wrap32AddWrapped(x: int, y: int)
    ensures Wrap32(Wrap32(x) + y) == Wrap32(x + y)
    ensures Wrap32(y + Wrap32(x)) == Wrap32(y + x)
  {
    assert (Wrap32(x) + y) - (x + y) == Wrap32(x) - x;
    Wrap32Congruent(Wrap32(x) + y, x + y);
    assert y + Wrap32(x) == Wrap32(x) + y && y + x == x + y;
  }

  lemma {:induction false} ModShift(y: int, k: int)
    ensures (y + k * TWO32) % TWO32 == y % TWO32
  {
    var q := y / TWO32;
    var r := y % TWO32;
    assert y == q * TWO32 + r;
    assert y + k * TWO32 == (q + k) * TWO32 + r;
  }

  /** Java's `a / b` for a positive divisor: the quotient truncated toward zero. */
  function JDiv(a: int, b: int): int
    requires b > 0
  {
    if a >= 0 then a / b else -((-a) / b)
  }

  /** Java's `a % b` for a positive divisor: the remainder takes the sign of `a`. */
  function JRem(a: int, b: int): int
    requires b > 0
  {
    if a >= 0 then a % b else -((-a) % b)
  }

  /** Java's division identity: quotient and remainder recombine to `a`, the remainder is smaller than `b` in
      magnitude and never has the opposite sign of `a`. */
  lemma {:induction false} JDivRem(a: int, b: int)
    requires b > 0
    ensures JDiv(a, b) * b + JRem(a, b) == a
    ensures -b < JRem(a, b) < b
    ensures a >= 0 ==> JRem(a, b) >= 0 && JDiv(a, b) == a / b && JRem(a, b) == a % b
    ensures a < 0 ==> JRem(a, b) <= 0
  {
  }
}
