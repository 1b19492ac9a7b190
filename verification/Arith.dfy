/** Machine integers and the small facts about products, quotients and remainders
    that the other modules share. */
module Arith {

  const ULONG_RANGE: int := 0x1_0000_0000_0000_0000
  const LONG_MAX: int := 0x7FFF_FFFF_FFFF_FFFF
  const UINT_RANGE: int := 0x1_0000_0000
  const UINT_MAX: int := 0xFFFF_FFFF
  const INT_MAX: int := 0x7FFF_FFFF

  // errno values; functions return them negated
  const ENOENT: int := 2
  const ENOMEM: int := 12
  const EBUSY: int := 16
  const EINVAL: int := 22

  type Byte = x: int | 0 <= x < 256

  /** A 32-bit unsigned word. */
  type Word = x: int | 0 <= x < UINT_RANGE

  /** Conversion to a 64-bit unsigned integer. */
  function ToULong(x: int): (u: int)
    ensures 0 <= u < ULONG_RANGE
    ensures 0 <= x < ULONG_RANGE ==> u == x
  {
    x % 0x1_0000_0000_0000_0000
  }

  /** Conversion to a 64-bit signed integer. */
  function ToLong(x: int): (i: int)
    ensures -LONG_MAX - 1 <= i <= LONG_MAX
    ensures -LONG_MAX - 1 <= x <= LONG_MAX ==> i == x
  {
    var u := x % 0x1_0000_0000_0000_0000;
    if u > LONG_MAX then u - ULONG_RANGE else u
  }

  function ToUInt(x: int): (u: Word)
    ensures 0 <= x < UINT_RANGE ==> u == x
    ensures -UINT_RANGE <= x < 0 ==> u == x + UINT_RANGE
    ensures UINT_RANGE <= x < 2 * UINT_RANGE ==> u == x - UINT_RANGE
  {
    x % 0x1_0000_0000
  }

  function ToInt(x: int): (i: int)
    ensures -INT_MAX - 1 <= i <= INT_MAX
    ensures -INT_MAX - 1 <= x <= INT_MAX ==> i == x
    ensures INT_MAX < x <= UINT_MAX ==> i == x - UINT_RANGE
  {
    var u := x % 0x1_0000_0000;
    if u > INT_MAX then u - UINT_RANGE else u
  }

  /** C's `/`: the quotient is truncated toward zero. */
  function TruncDiv(a: int, b: int): int
    requires b != 0
  {
    if a >= 0 then a / b else -((-a) / b)
  }

  /** q is a divided by b, the remainder dropped. */
  predicate IsQuotient(a: int, b: int, q: int)
    requires 0 < b
  {
    if a >= 0 then q * b <= a < q * b + b else -q * b <= -a < -q * b + b
  }

  lemma {:induction false} TruncDivIs(a: int, b: int)
    requires 0 < b
    ensures IsQuotient(a, b, TruncDiv(a, b))
  {
    DivBounds(a, b);
    DivBounds(-a, b);
    assert (a / b + 1) * b == (a / b) * b + b;
    assert (-a / b + 1) * b == (-a / b) * b + b;
  }

  function Min(a: int, b: int): int { if a < b then a else b }

  function Max(a: int, b: int): int { if a < b then b else a }

  lemma MulMono(a: int, b: int, c: int)
    requires a <= b && 0 <= c
    ensures a * c <= b * c
  {
  }

  /** The defining inequalities of a quotient by a positive divisor. */
  lemma DivBounds(a: int, b: int)
    requires 0 < b
    ensures (a / b) * b <= a < (a / b + 1) * b
  {
  }

  /** A quotient is determined by its two inequalities. */
  lemma DivUnique(a: int, b: int, q: int)
    requires 0 < b && q * b <= a < (q + 1) * b
    ensures a / b == q
  {
    DivBounds(a, b);
    if a / b < q {
      MulMono(a / b + 1, q, b);
    } else if q < a / b {
      MulMono(q + 1, a / b, b);
    }
  }

  /** Adding a multiple of the modulus does not change the remainder. */
  lemma ModAddMultiple(x: int, m: int, b: int)
    requires 0 < b
    ensures (x + m * b) % b == x % b
  {
    DivBounds(x, b);
    assert (x + m * b) - (x / b + m) * b == x - (x / b) * b by {
      assert (x / b + m) * b == (x / b) * b + m * b;
    }
    assert (x / b + m + 1) * b == (x / b + m) * b + b;
    assert (x / b + 1) * b == (x / b) * b + b;
    DivUnique(x + m * b, b, x / b + m);
  }

  /** Two nearby numbers with the same remainder are equal. */
  lemma ModInjective(x: int, y: int, b: int)
    requires 0 < b && x <= y < x + b && x % b == y % b
    ensures x == y
  {
    DivBounds(x, b);
    DivBounds(y, b);
    assert y - x == (y / b - x / b) * b;
    if y / b - x / b >= 1 {
      MulMono(1, y / b - x / b, b);
    } else if y / b - x / b <= -1 {
      MulMono(y / b - x / b, -1, b);
    }
  }

  /** A remainder is determined by its range and one equation. */
  lemma ModUnique(x: int, c: int, q: int, b: int)
    requires 0 <= c < b && x == c + q * b
    ensures x % b == c
  {
    ModAddMultiple(c, q, b);
  }

  lemma ModOfNat(x: nat, b: int)
    requires 0 < b
    ensures 0 <= x % b < b
    ensures x < b ==> x % b == x
    ensures x >= b ==> x % b < x
  {
  }

  /** The conversions look at the low 32, or 64, bits alone. */
  lemma ConversionsWrap(x: int, k: int)
    ensures ToUInt(x + k * 0x1_0000_0000) == ToUInt(x) && ToInt(x + k * 0x1_0000_0000) == ToInt(x)
    ensures ToULong(x + k * 0x1_0000_0000_0000_0000) == ToULong(x)
    ensures ToLong(x + k * 0x1_0000_0000_0000_0000) == ToLong(x)
  {
    ModAddMultiple(x, k, 0x1_0000_0000);
    ModAddMultiple(x, k, 0x1_0000_0000_0000_0000);
  }
}
