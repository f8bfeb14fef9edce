/**
 Fixed-width unsigned integers of the C source, and the two conversions the
 service relies on: assignment of an `int` to a `uint8_t`/`uint16_t` field
 (reduction modulo 2^N) and the little-endian layout of a `uint16_t` in a
 packed struct.
 */
module Integers {

  type uint8 = x: int | 0 <= x < 0x100
  type uint16 = x: int | 0 <= x < 0x1_0000
  type uint32 = x: int | 0 <= x < 0x1_0000_0000

  /** C conversion of an `int` to `uint8_t`: the value in range congruent to `x` modulo 2^8. */
  function ToUint8(x: int): (r: uint8)
    ensures (x - r) % 0x100 == 0
    ensures 0 <= x < 0x100 ==> r == x
  {
    x % 0x100
  }

  /** C conversion of an `int` to `uint16_t`: the value in range congruent to `x` modulo 2^16. */
  function ToUint16(x: int): (r: uint16)
    ensures (x - r) % 0x1_0000 == 0
    ensures 0 <= x < 0x1_0000 ==> r == x
  {
    x % 0x1_0000
  }

  /** The two bytes a `uint16_t` occupies in memory on the little-endian target, low byte first. */
  function Le16(x: uint16): (b: seq<uint8>)
    ensures |b| == 2
    ensures b[0] as int + 0x100 * b[1] as int == x
  {
    [x % 0x100, x / 0x100]
  }

  /** Reads a little-endian `uint16_t` back; the inverse of `Le16`. */
  function FromLe16(b: seq<uint8>): (x: uint16)
    requires |b| == 2
    ensures Le16(x) == b
  {
    b[0] as int + 0x100 * b[1] as int
  }
}
