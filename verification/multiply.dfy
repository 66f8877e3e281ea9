/** The fixed-point signed multiply `mul`: two `int16_t` factors, one exact
    `int32_t` product. Builds for the ESP32 use a widening C multiply; AVR
    builds use the `MultiS16X16to32` inline assembly, which forms the product
    from four 8 x 8 bit partial products. */
module Multiply {
  import opened Fixed

  /** Multiplying a bounded value by a count n scales its bounds: lo * n <= x * n <= hi * n. */
  lemma {:induction false} ScaledBounds(x: int, n: nat, lo: int, hi: int)
    requires lo <= x <= hi
    ensures lo * n <= x * n <= hi * n
  {
    if n > 0 {
      ScaledBounds(x, n - 1, lo, hi);
      assert x * n == x * (n - 1) + x;
      assert lo * n == lo * (n - 1) + lo;
      assert hi * n == hi * (n - 1) + hi;
    }
  }

  /** The product of two 16-bit values lies well inside the 32-bit range:
      between -32768 * 32767 and (-32768) * (-32768) = 2^30. */
  lemma ProductBounds(a: Int16, b: Int16)
    ensures -0x3FFF_8000 <= a * b <= 0x4000_0000
  {
    var x, y := a as int, b as int;
    if y >= 0 {
      ScaledBounds(x, y, -0x8000, 0x7FFF);
    } else {
      ScaledBounds(x, -y, -0x8000, 0x7FFF);
      assert x * y == -(x * (-y));
    }
  }

  /** `mul` on the ESP32: `(int32_t)a * b`, a 32-bit multiply. The truncation
      to 32 bits never takes effect: the result is the exact product. */
  function Mul(a: Int16, b: Int16): (r: Int32)
    ensures r == a * b
    ensures -0x3FFF_8000 <= r <= 0x4000_0000
  {
    ProductBounds(a, b);
    ToInt32(a * b)
  }

  /** The unsigned low byte of a 16-bit register pair. */
  function LowByte(x: Int16): (r: int)
    ensures 0 <= r < 0x100
  {
    x % 0x100
  }

  /** The signed high byte of a 16-bit register pair; with the low byte it
      makes up the value: x == High * 256 + Low. */
  function HighByte(x: Int16): (r: int)
    ensures -0x80 <= r < 0x80
    ensures x == r * 0x100 + LowByte(x)
  {
    x / 0x100
  }

  /** A signed byte times an unsigned byte fits in 16 signed bits, as `mulsu`
      leaves it in r1:r0. */
  lemma CrossBounds(h: int, l: int)
    requires -0x80 <= h < 0x80 && 0 <= l < 0x100
    ensures -0x8000 <= h * l < 0x8000
  {
    ScaledBounds(h, l, -0x80, 0x7F);
    assert h * l == l * h;
  }

  /** Adds a signed 16-bit partial product `p` (the result of `mulsu`) at
      byte offset 1 of the 32-bit accumulator. `sbc %D0, r26` subtracts the
      carry, which `mulsu` sets to the sign bit of the product, from the top
      byte; then `add %B0, r0`, `adc %C0, r1`, `adc %D0, r26` add the
      product's 16 bits with carry. Together: acc + 256 * p modulo 2^32. */
  function AddPartial(acc: int, p: int): (r: UInt32)
    requires -0x8000 <= p < 0x8000
    ensures (r - (acc + 0x100 * p)) % 0x1_0000_0000 == 0
  {
    var borrow := if ToUInt16(p) >= 0x8000 then 0x100_0000 else 0;
    ToUInt32(acc - borrow + 0x100 * ToUInt16(p))
  }

  /** The byte-split product: with a == aH * 256 + aL and b == bH * 256 + bL,
      a * b == aH * bH * 2^16 + (aH * bL + aL * bH) * 2^8 + aL * bL. */
  lemma ByteSplitProduct(a: int, b: int, aH: int, aL: int, bH: int, bL: int)
    requires a == aH * 0x100 + aL && b == bH * 0x100 + bL
    ensures a * b == 0x1_0000 * (aH * bH) + 0x100 * (bH * aL) + 0x100 * (aH * bL) + aL * bL
  {
  }

  /** The four result registers of the `MultiS16X16to32` assembly: `mul` of
      the two low bytes (unsigned) fills the low word, `muls` of the two high
      bytes (signed) the high word, and the two `mulsu` cross products are
      added at byte offset 1. The result is congruent to the product modulo 2^32. */
  function Registers(a: Int16, b: Int16): (r: UInt32)
    ensures (r - a * b) % 0x1_0000_0000 == 0
  {
    var aL, aH, bL, bH := LowByte(a), HighByte(a), LowByte(b), HighByte(b);
    CrossBounds(bH, aL);
    CrossBounds(aH, bL);
    var acc := aL * bL + 0x1_0000 * ToUInt16(aH * bH);
    var acc1 := AddPartial(acc, bH * aL);
    var acc2 := AddPartial(acc1, aH * bL);
    RegistersCongruent(a, b, aH, aL, bH, bL, acc, acc1, acc2);
    acc2
  }

  /** The congruences of the accumulation steps add up to the product. */
  lemma RegistersCongruent(a: int, b: int, aH: int, aL: int, bH: int, bL: int,
                           acc: int, acc1: int, acc2: int)
    requires a == aH * 0x100 + aL && b == bH * 0x100 + bL
    requires acc == aL * bL + 0x1_0000 * ToUInt16(aH * bH)
    requires (acc1 - (acc + 0x100 * (bH * aL))) % 0x1_0000_0000 == 0
    requires (acc2 - (acc1 + 0x100 * (aH * bL))) % 0x1_0000_0000 == 0
    ensures (acc2 - a * b) % 0x1_0000_0000 == 0
  {
    var j0 := (ToUInt16(aH * bH) - aH * bH) / 0x1_0000;
    var j1 := (acc1 - (acc + 0x100 * (bH * aL))) / 0x1_0000_0000;
    var j2 := (acc2 - (acc1 + 0x100 * (aH * bL))) / 0x1_0000_0000;
    ByteSplitProduct(a, b, aH, aL, bH, bL);
    assert acc2 - a * b == 0x1_0000_0000 * (j0 + j1 + j2);
  }

  /** `mul` on AVR: the four registers of `MultiS16X16to32`, read as
      `int32_t`, are the exact product, as the commented-out
      `(int32_t)a*b` next to it says. */
  function MulAvr(a: Int16, b: Int16): (r: Int32)
    ensures r == a * b
  {
    var w := Registers(a, b);
    var r := ToInt32(w);
    ProductBounds(a, b);
    Int32Agree(r, a * b, w);
    r
  }

  /** Both builds of `mul` return the same value. */
  lemma MulBuildsAgree(a: Int16, b: Int16)
    ensures MulAvr(a, b) == Mul(a, b)
  {
  }
}
