/**
 * Machine-level value types shared by the terminal model: the 8-bit and
 * 32-bit unsigned integers of the C source, the two's-complement reading
 * of an `unsigned int` as an `int`, and the control bytes the terminal
 * recognises.
 */
module Bytes {

  /** An `unsigned char`: a palette index, a pixel, a byte of input or output. */
  type byte = x: int | 0 <= x < 0x100

  /** An `unsigned int` of the target (32 bits). */
  type u32 = x: int | 0 <= x < 0x1_0000_0000

  const U32_MODULUS: int := 0x1_0000_0000

  datatype Option<T> = None | Some(value: T)

  function Min(a: int, b: int): int { if a < b then a else b }

  function Max(a: int, b: int): int { if a > b then a else b }

  /** The `int` obtained by converting an `unsigned int` (two's complement). */
  function AsInt32(u: u32): (i: int)
    ensures -0x8000_0000 <= i < 0x8000_0000
    ensures i % U32_MODULUS == u
    ensures u < 0x8000_0000 ==> i == u
  {
    if u < 0x8000_0000 then u else u - U32_MODULUS
  }

  const ESC: byte := 0x1B
  const BEL: byte := 0x07
  const BS: byte := 0x08
  const TAB: byte := 0x09
  const LF: byte := 0x0A
  const CR: byte := 0x0D
  const SO: byte := 0x0E
  const SI: byte := 0x0F

  predicate IsDigit(ch: byte) { '0' as int <= ch <= '9' as int }

  function DigitValue(ch: byte): (d: nat)
    requires IsDigit(ch)
    ensures d < 10
  {
    ch - '0' as int
  }

  // ---------------------------------------------------------------------
  // Bitwise operations on bytes

  /** Bitwise or of two naturals, one binary digit at a time from the lowest. */
  function BitOr(a: nat, b: nat): (r: nat)
    ensures a <= r && b <= r && r <= a + b
    decreases a + b
  {
    if a == 0 && b == 0 then 0
    else 2 * BitOr(a / 2, b / 2) + (if a % 2 == 1 || b % 2 == 1 then 1 else 0)
  }

  /** Bitwise and of two naturals, one binary digit at a time from the lowest. */
  function BitAnd(a: nat, b: nat): (r: nat)
    ensures r <= a && r <= b
    decreases a + b
  {
    if a == 0 || b == 0 then 0
    else 2 * BitAnd(a / 2, b / 2) + (if a % 2 == 1 && b % 2 == 1 then 1 else 0)
  }

  /** Or-ing two numbers below a power of two stays below it. */
  lemma {:induction false} OrBelow(a: nat, b: nat, n: nat)
    requires a < n && b < n
    requires n == 1 || n == 2 || n == 4 || n == 8 || n == 16 || n == 32 || n == 64 || n == 128 || n == 256
    ensures BitOr(a, b) < n
    decreases n
  {
    if a == 0 && b == 0 {
    } else {
      OrBelow(a / 2, b / 2, n / 2);
    }
  }

  /** `a | b` on two `unsigned char`s: it never lowers either operand, and or-ing in nothing changes nothing. */
  function Or8(a: byte, b: byte): (r: byte)
    ensures a <= r && b <= r
    ensures b == 0 ==> r == a
  {
    OrZero(a);
    OrBelow(a, b, 256);
    BitOr(a, b)
  }

  /** `a & b` on two `unsigned char`s: never more than either operand. */
  function And8(a: byte, b: byte): (r: byte)
    ensures r <= a && r <= b
  {
    BitAnd(a, b)
  }

  /** Or-ing nothing in leaves a number as it is. */
  lemma {:induction false} OrZero(n: nat)
    ensures BitOr(n, 0) == n
  {
    if n != 0 {
      OrZero(n / 2);
    }
  }

  /**
   * The bit operations the colour attributes use, in arithmetic terms:
   * setting the bright bit (value 8), keeping the three colour bits, and
   * reading the bright bit.
   */
  lemma BitsOfByte(x: byte)
    ensures Or8(x, 8) == (if x % 16 >= 8 then x else x + 8)
    ensures And8(x, 7) == x % 8
    ensures And8(x, 8) == x % 16 / 8 * 8
  {
    Halves(x);
    BrightBit(x);
    LowBits(x);
    BrightBitValue(x);
  }

  /** A byte is its three low bits plus eight times the rest; bit 3 decides `x % 16 >= 8`. */
  lemma Halves(x: byte)
    ensures x == 8 * (x / 2 / 2 / 2) + 4 * (x / 2 / 2 % 2) + 2 * (x / 2 % 2) + x % 2
    ensures x % 16 >= 8 <==> x / 2 / 2 / 2 % 2 == 1
    ensures x % 16 / 8 * 8 == x / 2 / 2 / 2 % 2 * 8
    ensures x % 8 == 4 * (x / 2 / 2 % 2) + 2 * (x / 2 % 2) + x % 2
  {
    var q := x / 2 / 2 / 2;
    var low := 4 * (x / 2 / 2 % 2) + 2 * (x / 2 % 2) + x % 2;
    assert x == 8 * q + low;
    Mod16(x, q / 2, 8 * (q % 2) + low);
  }

  lemma Mod16(x: nat, q: nat, r: nat)
    requires x == 16 * q + r && r < 16
    ensures x % 16 == r
  {
  }

  lemma BrightBit(x: byte)
    requires x == 8 * (x / 2 / 2 / 2) + 4 * (x / 2 / 2 % 2) + 2 * (x / 2 % 2) + x % 2
    requires x % 16 >= 8 <==> x / 2 / 2 / 2 % 2 == 1
    ensures Or8(x, 8) == (if x % 16 >= 8 then x else x + 8)
  {
    var x1, x2, x3 := x / 2, x / 2 / 2, x / 2 / 2 / 2;
    OrZero(x3 / 2);
    assert BitOr(x3, 1) == 2 * (x3 / 2) + 1;
    assert BitOr(x2, 2) == 2 * BitOr(x3, 1) + x2 % 2;
    assert BitOr(x1, 4) == 2 * BitOr(x2, 2) + x1 % 2;
    assert BitOr(x, 8) == 2 * BitOr(x1, 4) + x % 2;
  }

  lemma LowBits(x: byte)
    requires x % 8 == 4 * (x / 2 / 2 % 2) + 2 * (x / 2 % 2) + x % 2
    ensures And8(x, 7) == x % 8
  {
    var x1, x2 := x / 2, x / 2 / 2;
    assert BitAnd(x2, 1) == x2 % 2;
    assert BitAnd(x1, 3) == 2 * BitAnd(x2, 1) + x1 % 2;
    assert BitAnd(x, 7) == 2 * BitAnd(x1, 3) + x % 2;
  }

  lemma BrightBitValue(x: byte)
    requires x % 16 / 8 * 8 == x / 2 / 2 / 2 % 2 * 8
    ensures And8(x, 8) == x % 16 / 8 * 8
  {
    var x1, x2, x3 := x / 2, x / 2 / 2, x / 2 / 2 / 2;
    assert BitAnd(x3, 1) == x3 % 2;
    assert BitAnd(x2, 2) == 2 * BitAnd(x3, 1);
    assert BitAnd(x1, 4) == 2 * BitAnd(x2, 2);
    assert BitAnd(x, 8) == 2 * BitAnd(x1, 4);
  }

  /** Or-ing three colour bits into a byte that has at most the bright bit set adds them. */
  lemma OrLowBits(x: byte, d: byte)
    requires x == 0 || x == 8
    requires d < 8
    ensures Or8(x, d) == x + d
  {
    var d1, d2 := d / 2, d / 2 / 2;
    assert BitOr(x / 2 / 2 / 2, 0) == x / 2 / 2 / 2;
    assert BitOr(x / 2 / 2, d2) == 2 * BitOr(x / 2 / 2 / 2, 0) + d2 % 2;
    assert BitOr(x / 2, d1) == 2 * BitOr(x / 2 / 2, d2) + d1 % 2;
    assert BitOr(x, d) == 2 * BitOr(x / 2, d1) + d % 2;
  }
}
