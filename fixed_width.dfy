/**
 * Fixed-width integers of C++ and the conversions between them.
 *
 * Dafny's `int` is unbounded, so every C++ conversion that can wrap is written
 * out: a conversion to an unsigned type reduces modulo 2^N, a conversion to a
 * signed type reinterprets the low N bits in two's complement.
 */
module FixedWidth {

  type uint8 = x: int | 0 <= x < 0x100
  type uint32 = x: int | 0 <= x < 0x1_0000_0000
  type uint64 = x: int | 0 <= x < 0x1_0000_0000_0000_0000
  type int32 = x: int | -0x8000_0000 <= x < 0x8000_0000
  type int64 = x: int | -0x8000_0000_0000_0000 <= x < 0x8000_0000_0000_0000

  /** Conversion of any integer value to `unsigned int` (`uint32_t`). */
  function ToU32(x: int): (r: uint32)
    ensures (r - x) % 0x1_0000_0000 == 0
    ensures 0 <= x < 0x1_0000_0000 ==> r == x
  {
    x % 0x1_0000_0000
  }

  /** Conversion of any integer value to `uint64_t`. */
  function ToU64(x: int): (r: uint64)
    ensures (r - x) % 0x1_0000_0000_0000_0000 == 0
    ensures 0 <= x < 0x1_0000_0000_0000_0000 ==> r == x
  {
    x % 0x1_0000_0000_0000_0000
  }

  /** Conversion to `int` (`int32_t`): the low 32 bits read in two's complement. */
  function ToI32(x: int): (r: int32)
    ensures (r - x) % 0x1_0000_0000 == 0
    ensures -0x8000_0000 <= x < 0x8000_0000 ==> r == x
  {
    var m := x % 0x1_0000_0000;
    if m < 0x8000_0000 then m else m - 0x1_0000_0000
  }

  /** Conversion to `int64_t`: the low 64 bits read in two's complement. */
  function ToI64(x: int): (r: int64)
    ensures (r - x) % 0x1_0000_0000_0000_0000 == 0
    ensures -0x8000_0000_0000_0000 <= x < 0x8000_0000_0000_0000 ==> r == x
  {
    var m := x % 0x1_0000_0000_0000_0000;
    if m < 0x8000_0000_0000_0000 then m else m - 0x1_0000_0000_0000_0000
  }

  /** `std::abs` on a value that fits its type. */
  function Abs(x: int): (r: nat)
    ensures r == x || r == -x
  {
    if x < 0 then -x else x
  }

  function Min(a: int, b: int): (r: int)
    ensures r <= a && r <= b && (r == a || r == b)
  {
    if a <= b then a else b
  }
}
