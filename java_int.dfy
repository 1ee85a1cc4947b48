/** Java's 32-bit `int` and 8-bit `byte` arithmetic, written out on Dafny's unbounded
    integers: the narrowing casts, the shifts and the bitwise operators the codec uses. */
module JavaInt {

  const TwoTo32: int := 0x1_0000_0000
  const IntMin: int := -0x8000_0000
  const IntMax: int := 0x7fff_ffff

  /** A value of Java's signed 8-bit `byte` type. */
  type Byte = x: int | -128 <= x <= 127

  /** A value of Java's signed 32-bit `int` type. */
  predicate IsInt32(x: int) {
    IntMin <= x <= IntMax
  }

  /** Two's-complement wrap-around to the `int` range: what Java's `+`, `-` and `*`
      do when the exact result does not fit. */
  function Wrap32(x: int): (r: int)
    ensures IsInt32(r)
    ensures IsInt32(x) ==> r == x
  {
    (x - IntMin) % TwoTo32 + IntMin
  }

  /** Java's `(int)` cast applied to a `double` whose value is the integer `v`:
      values beyond the `int` range saturate at its bounds. */
  function IntCast(v: int): (r: int)
    ensures IsInt32(r)
    ensures IsInt32(v) ==> r == v
    ensures v < IntMin ==> r == IntMin
    ensures IntMax < v ==> r == IntMax
  {
    if v < IntMin then IntMin else if IntMax < v then IntMax else v
  }

  /** Java's narrowing cast `(byte)`: keeps the low eight bits, read as a signed value. */
  function ToByte(x: int): (b: Byte)
    ensures -128 <= x <= 127 ==> b == x
  {
    (x + 128) % 256 - 128
  }

  /** Java's `x << 4` on an `int`: the low 32 bits of `16 * x`, read as a signed value. */
  function ShiftLeft4(x: int): (r: int)
    requires IsInt32(x)
    ensures IsInt32(r)
    ensures 0 <= x < 0x800_0000 ==> r == 16 * x
  {
    Wrap32(16 * x)
  }

  /** Java's arithmetic shift `x >> 4`: rounds toward negative infinity. */
  function ShiftRight4(x: int): (r: int)
    ensures 16 * r <= x < 16 * r + 16
  {
    x / 16
  }

  /** Java's `x & 0x000F`: the low four bits of the two's-complement representation. */
  function AndLow4(x: int): (r: int)
    ensures 0 <= r < 16
  {
    x % 16
  }

  /** The low four bits and the arithmetic shift split a value: `x == (x >> 4) * 16 + (x & 0xF)`. */
  lemma ShiftRightAndLow4(x: int)
    ensures x == 16 * ShiftRight4(x) + AndLow4(x)
  {
  }

  function Pow2(k: nat): (p: nat)
    ensures 1 <= p
  {
    if k == 0 then 1 else 2 * Pow2(k - 1)
  }

  /** Bitwise OR of two naturals, taken bit by bit from the least significant bit. */
  function BitOr(a: nat, b: nat): (r: nat)
    ensures a <= r && b <= r
    ensures r <= a + b
    decreases a + b
  {
    if a == 0 then b
    else if b == 0 then a
    else 2 * BitOr(a / 2, b / 2) + (if a % 2 == 1 || b % 2 == 1 then 1 else 0)
  }

  /** Java's `a | b` on two `int`s: OR of their 32-bit two's-complement patterns. */
  function Or32(a: int, b: int): (r: int)
    requires IsInt32(a) && IsInt32(b)
    ensures IsInt32(r)
  {
    Wrap32(BitOr(a % TwoTo32, b % TwoTo32))
  }

  /** When `b` fits below bit `k`, OR-ing it onto `a` shifted left by `k` is addition. */
  lemma {:induction false} BitOrBelowShift(a: nat, b: nat, k: nat)
    requires b < Pow2(k)
    ensures BitOr(a * Pow2(k), b) == a * Pow2(k) + b
    decreases k
  {
    if a != 0 && b != 0 {
      var m := a * Pow2(k - 1);
      assert a * Pow2(k) == 2 * m;
      assert (2 * m) / 2 == m && (2 * m) % 2 == 0;
      BitOrBelowShift(a, b / 2, k - 1);
    }
  }

  /** OR of a multiple of 16 and a value below 16, both non-negative `int`s, is their sum. */
  lemma OrDisjointNibbles(high: int, low: int)
    requires 0 <= high && 16 * high <= IntMax && 0 <= low < 16
    ensures Or32(16 * high, low) == 16 * high + low
  {
    assert Pow2(4) == 16;
    BitOrBelowShift(high, low, 4);
    assert (16 * high) % TwoTo32 == 16 * high && low % TwoTo32 == low;
    assert IsInt32(16 * high + low);
  }
}
