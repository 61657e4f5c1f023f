/** Fixed-width machine integers of the firmware and the conversions C performs
    between them, written out explicitly because Dafny's integers are unbounded. */
module Basics {

  datatype Option<T> = None | Some(value: T)

  type u8 = x: int | 0 <= x < 0x100
  type u16 = x: int | 0 <= x < 0x1_0000
  type i16 = x: int | -0x8000 <= x < 0x8000

  /** Conversion of an `int` to `uint8_t`: reduction modulo 2^8. */
  function ToU8(x: int): (r: u8)
    ensures 0 <= x < 0x100 ==> r == x
    ensures -0x100 <= x < 0 ==> r == x + 0x100
  {
    x % 0x100
  }

  /** Conversion of an `int` to `uint16_t`: reduction modulo 2^16. */
  function ToU16(x: int): (r: u16)
    ensures 0 <= x < 0x1_0000 ==> r == x
    ensures 0 <= x ==> r <= x
  {
    x % 0x1_0000
  }

  /** Conversion of an `int` to `int16_t`, two's complement wrap-around as the
      target compiler performs it. */
  function ToI16(x: int): (r: i16)
    ensures -0x8000 <= x < 0x8000 ==> r == x
  {
    (x + 0x8000) % 0x1_0000 - 0x8000
  }
}
