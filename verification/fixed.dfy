/** Fixed-width integer types of the target and the C conversions the math
    library relies on. Dafny integers are unbounded, so every truncation the
    C code performs implicitly is written out here. */
module Fixed {

  type Int16 = x: int | -0x8000 <= x < 0x8000
  type UInt16 = x: int | 0 <= x < 0x1_0000
  type Int32 = x: int | -0x8000_0000 <= x < 0x8000_0000
  type UInt32 = x: int | 0 <= x < 0x1_0000_0000

  /** Magnitude of an integer, as the `abs` macro computes it after integer promotion. */
  function Abs(x: int): (r: nat)
    ensures r == x || r == -x
  {
    if x < 0 then -x else x
  }

  /** Conversion of an `int` value to `int16_t`: the low 16 bits, read as two's complement. */
  function ToInt16(x: int): (r: Int16)
    ensures (x - r) % 0x1_0000 == 0
    ensures -0x8000 <= x < 0x8000 ==> r == x
  {
    var w := x % 0x1_0000;
    if w < 0x8000 then w else w - 0x1_0000
  }

  /** The low 16 bits of a value, read as unsigned (a register pair). */
  function ToUInt16(x: int): (r: UInt16)
    ensures (x - r) % 0x1_0000 == 0
    ensures 0 <= x < 0x1_0000 ==> r == x
  {
    x % 0x1_0000
  }

  /** The low 32 bits of a value, read as unsigned (four 8-bit registers). */
  function ToUInt32(x: int): (r: UInt32)
    ensures (x - r) % 0x1_0000_0000 == 0
    ensures 0 <= x < 0x1_0000_0000 ==> r == x
  {
    x % 0x1_0000_0000
  }

  /** Conversion to `int32_t`: the low 32 bits, read as two's complement. */
  function ToInt32(x: int): (r: Int32)
    ensures (x - r) % 0x1_0000_0000 == 0
    ensures -0x8000_0000 <= x < 0x8000_0000 ==> r == x
  {
    var w := x % 0x1_0000_0000;
    if w < 0x8000_0000 then w else w - 0x1_0000_0000
  }

  /** Two values in the `int32_t` range that agree modulo 2^32 with a
      common third value are equal. */
  lemma Int32Agree(x: int, y: int, z: int)
    requires -0x8000_0000 <= x < 0x8000_0000
    requires -0x8000_0000 <= y < 0x8000_0000
    requires (z - x) % 0x1_0000_0000 == 0
    requires (z - y) % 0x1_0000_0000 == 0
    ensures x == y
  {
    var j, k := (z - x) / 0x1_0000_0000, (z - y) / 0x1_0000_0000;
    assert x - y == 0x1_0000_0000 * (k - j);
  }
}
