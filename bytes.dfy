/** Fixed-width unsigned integers of the C driver, and the Option type for a pointer that may be NULL. */
module Bytes {

  type uint8 = x: int | 0 <= x < 0x100
  type uint16 = x: int | 0 <= x < 0x1_0000
  type uint32 = x: int | 0 <= x < 0x1_0000_0000

  datatype Option<+T> = None | Some(value: T)

  /** `x++` on a `uint8_t`: wraps from 255 to 0. */
  function Inc8(x: uint8): (r: uint8)
    ensures r == if x == 255 then 0 else x + 1
  {
    (x + 1) % 0x100
  }

  /** `(c >> 8) & 0x00FF`: the high byte of a 16-bit value. */
  function HighByte(c: uint16): uint8 { c / 0x100 }

  /** `c & 0x00FF`: the low byte of a 16-bit value. */
  function LowByte(c: uint16): uint8 { c % 0x100 }

  /** The two bytes of a 16-bit value determine it: comparing both bytes is comparing the values. */
  lemma BytesDetermineWord(a: uint16, b: uint16)
    ensures HighByte(a) == HighByte(b) && LowByte(a) == LowByte(b) <==> a == b
  {
    if HighByte(a) == HighByte(b) && LowByte(a) == LowByte(b) {
      assert a == 0x100 * HighByte(a) + LowByte(a);
      assert b == 0x100 * HighByte(b) + LowByte(b);
    }
  }
}
