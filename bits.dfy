/** Integer bit widths and the 16-bit arithmetic of a fixed-plastic half-word.

    The encoder and the decoder work on numpy `uint16` values: every operand is
    truncated to 16 bits, and a shift by 16 or more positions clears the value.
    Conversions between integers and 16-bit values go through four 4-bit
    digits, so that only numbers below 16 are ever converted directly. */
module Bits {

  /** 2 to the power k. */
  function Pow2(k: nat): (r: nat)
    ensures r >= 1
  {
    if k == 0 then 1 else 2 * Pow2(k - 1)
  }

  lemma {:induction false} Pow2Monotone(i: nat, j: nat)
    requires i <= j
    ensures Pow2(i) <= Pow2(j)
  {
    if i < j {
      Pow2Monotone(i, j - 1);
    }
  }

  /** The number of bits needed to tell x values apart: the smallest k with
      2^k >= x (the source computes it as `ceil(log(x, 2))`). */
  function CeilLog2(x: nat): (k: nat)
    requires x >= 1
    ensures Pow2(k) >= x
    ensures k > 0 ==> Pow2(k - 1) < x
    ensures k < x
  {
    if x <= 1 then 0 else 1 + CeilLog2((x + 1) / 2)
  }

  /** No smaller width than CeilLog2(x) can represent x values. */
  lemma CeilLog2IsLeast(x: nat, j: nat)
    requires x >= 1
    requires Pow2(j) >= x
    ensures CeilLog2(x) <= j
  {
    var k := CeilLog2(x);
    if j < k {
      Pow2Monotone(j, k - 1);
    }
  }

  /** A number below 16 as a 16-bit value. */
  function Digit(k: int): bv16
    requires 0 <= k < 16
  {
    k as bv16
  }

  /** The number a 16-bit value below 16 holds. */
  function DigitValue(b: bv16): nat
    requires b < 16
  {
    b as nat
  }

  lemma DigitRoundTrip(k: int)
    requires 0 <= k < 16
    ensures Digit(k) < 16 && DigitValue(Digit(k)) == k
  {
  }

  lemma DigitValueZero(b: bv16)
    requires b < 16
    ensures DigitValue(b) == 0 <==> b == 0
  {
  }

  /** The 16-bit value with the four given 4-bit digits, high to low. */
  function Join(d3: bv16, d2: bv16, d1: bv16, d0: bv16): bv16
  {
    (d3 << 12) | (d2 << 8) | (d1 << 4) | d0
  }

  /** A numpy `astype("uint16")` of an integer: its value modulo 2^16,
      digit by digit. */
  function U16(x: int): bv16
  {
    var y := x % 0x10000;
    Join(Digit(y / 0x1000), Digit(y / 0x100 % 16), Digit(y / 0x10 % 16), Digit(y % 16))
  }

  /** The number a uint16 holds, digit by digit. */
  function Value(b: bv16): (n: nat)
    ensures n < 0x10000
  {
    0x1000 * DigitValue(b >> 12) + 0x100 * DigitValue((b >> 8) & 0xF)
    + 0x10 * DigitValue((b >> 4) & 0xF) + DigitValue(b & 0xF)
  }

  lemma JoinDigits(d3: bv16, d2: bv16, d1: bv16, d0: bv16)
    requires d3 < 16 && d2 < 16 && d1 < 16 && d0 < 16
    ensures Join(d3, d2, d1, d0) >> 12 == d3
    ensures (Join(d3, d2, d1, d0) >> 8) & 0xF == d2
    ensures (Join(d3, d2, d1, d0) >> 4) & 0xF == d1
    ensures Join(d3, d2, d1, d0) & 0xF == d0
  {
  }

  lemma ValueOfJoin(d3: bv16, d2: bv16, d1: bv16, d0: bv16)
    requires d3 < 16 && d2 < 16 && d1 < 16 && d0 < 16
    ensures Value(Join(d3, d2, d1, d0))
            == 0x1000 * DigitValue(d3) + 0x100 * DigitValue(d2) + 0x10 * DigitValue(d1) + DigitValue(d0)
  {
    JoinDigits(d3, d2, d1, d0);
  }

  lemma DivMod16(y: int)
    requires 0 <= y
    ensures y == 16 * (y / 16) + y % 16
  {
  }

  /** The base-16 digits of a number below 2^16. */
  lemma Digits(y: int)
    requires 0 <= y < 0x10000
    ensures y == 0x1000 * (y / 0x1000) + 0x100 * (y / 0x100 % 16) + 0x10 * (y / 0x10 % 16) + y % 16
    ensures 0 <= y / 0x1000 < 16
  {
    DivMod16(y);
    DivMod16(y / 16);
    DivMod16(y / 16 / 16);
    assert y / 16 / 16 == y / 0x100;
    assert y / 0x100 / 16 == y / 0x1000;
    assert y / 16 % 16 == y / 0x10 % 16;
  }

  /** Every number a uint16 can hold survives the conversion to uint16. */
  lemma ValueOfU16(x: int)
    requires 0 <= x < 0x10000
    ensures Value(U16(x)) == x
  {
    var d3, d2, d1, d0 := x / 0x1000, x / 0x100 % 16, x / 0x10 % 16, x % 16;
    Digits(x);
    DigitRoundTrip(d3);
    DigitRoundTrip(d2);
    DigitRoundTrip(d1);
    DigitRoundTrip(d0);
    assert x % 0x10000 == x;
    ValueOfJoin(Digit(d3), Digit(d2), Digit(d1), Digit(d0));
  }

  /** Numbers below 16 convert to the digit itself. */
  lemma U16OfDigit(k: int)
    requires 0 <= k < 16
    ensures U16(k) == Digit(k)
  {
    assert k % 0x10000 == k;
    assert k / 0x1000 == 0 && k / 0x100 % 16 == 0 && k / 0x10 % 16 == 0 && k % 16 == k;
    DigitRoundTrip(0);
    DigitRoundTrip(k);
    assert Digit(0) == 0;
  }

  lemma U16Of16()
    ensures U16(16) == 16
  {
    assert 16 / 0x1000 == 0 && 16 / 0x100 % 16 == 0 && 16 / 0x10 % 16 == 1 && 16 % 16 == 0;
    assert Digit(0) == 0 && Digit(1) == 1;
  }

  /** A shift amount as a bit-vector; amounts of 16 and more all clear a
      16-bit value, so they are represented by 16. */
  function ShiftAmount(k: nat): bv16
  {
    if k < 16 then Digit(k) else 16
  }

  /** Left shift of a uint16 value by a shift amount; bits shifted past
      bit 15 are lost. */
  function ShlBy(v: bv16, s: bv16): bv16
  {
    if s < 16 then v << s else 0
  }

  /** Logical right shift of a uint16 value by a shift amount. */
  function ShrBy(v: bv16, s: bv16): bv16
  {
    if s < 16 then v >> s else 0
  }

  /** Left shift of a uint16 value by k positions. */
  function Shl(v: bv16, k: nat): bv16
  {
    ShlBy(v, ShiftAmount(k))
  }

  /** Logical right shift of a uint16 value by k positions. */
  function Shr(v: bv16, k: nat): bv16
  {
    ShrBy(v, ShiftAmount(k))
  }

  lemma DigitSucc(k: nat)
    requires k < 15
    ensures Digit(k + 1) == Digit(k) + 1
  {
  }

  lemma DigitMonotone(a: nat, b: nat)
    requires a <= b < 16
    ensures Digit(a) <= Digit(b)
  {
  }

  lemma AddOne(x: bv16, w: bv16, y: bv16)
    requires y == x + w
    ensures y + 1 == x + (w + 1)
  {
  }

  /** Digits add up as long as the sum stays below 16. */
  lemma {:induction false} DigitAdd(a: nat, b: nat)
    requires a + b < 16
    ensures Digit(a + b) == Digit(a) + Digit(b)
  {
    if b == 0 {
      assert Digit(0) == 0;
    } else {
      DigitAdd(a, b - 1);
      DigitSucc(a + b - 1);
      DigitSucc(b - 1);
      AddOne(Digit(a), Digit(b - 1), Digit(a + b - 1));
    }
  }

  /** Below 16, a shift amount is the natural itself. */
  lemma ShiftAmountSmall(k: nat)
    requires k < 16
    ensures ShiftAmount(k) < 16 && DigitValue(ShiftAmount(k)) == k
  {
    DigitRoundTrip(k);
  }

  /** ShiftAmount adds up as long as the sum does not pass 16. */
  lemma ShiftAmountAdd(a: nat, b: nat)
    requires a + b <= 16
    ensures ShiftAmount(a + b) == ShiftAmount(a) + ShiftAmount(b)
  {
    if a + b < 16 {
      DigitAdd(a, b);
    } else if a == 0 || b == 0 {
      assert Digit(0) == 0;
    } else {
      DigitAdd(a, b - 1);
      DigitSucc(b - 1);
      AddOne(Digit(a), Digit(b - 1), Digit(15));
      assert Digit(15) == 15;
    }
  }

  /** ShiftAmount keeps the order of its arguments. */
  lemma ShiftAmountMonotone(a: nat, b: nat)
    requires a <= b
    ensures ShiftAmount(a) <= ShiftAmount(b)
  {
    if b < 16 {
      DigitMonotone(a, b);
    } else if a < 16 {
      DigitRoundTrip(a);
    }
  }
}
