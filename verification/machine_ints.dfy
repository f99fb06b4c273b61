/** The fixed-width integers of the C# runtime, written out over Dafny's unbounded `int`. */
module MachineInts {

  const TWO_32: int := 0x1_0000_0000
  const INT32_MIN: int := -0x8000_0000
  const INT32_MAX: int := 0x7fff_ffff

  /** A C# `int`. */
  newtype Int32 = x: int | -0x8000_0000 <= x < 0x8000_0000

  /** A C# `byte`, the unit a `BinaryWriter` emits. */
  newtype Byte = x: int | 0 <= x < 0x100

  /** Unchecked C# arithmetic: the unique `Int32` congruent to `x` modulo 2^32. */
  function Wrap32(x: int): (r: Int32)
    ensures (r as int - x) % TWO_32 == 0
    ensures INT32_MIN <= x <= INT32_MAX ==> r as int == x
  {
    var u := x % TWO_32;
    if u <= INT32_MAX then u as Int32 else (u - TWO_32) as Int32
  }
}
