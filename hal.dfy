/** Types shared by the SPI and USART transmitter models: register field
    widths, the peripherals' identities, the typestate tags and the result
    type of the non-blocking `nb` API. */
module Hal {

  /** An unsigned 4-bit register field. */
  type u4 = x: int | 0 <= x < 0x10

  /** An unsigned byte. */
  type u8 = x: int | 0 <= x < 0x100

  /** An unsigned 16-bit register field. */
  type u16 = x: int | 0 <= x < 0x1_0000

  /** `b as u16`: zero extension, the one 16-bit value below 0x100 whose
      low byte is `b`. */
  function ZeroExtend(b: u8): (w: u16)
    ensures w < 0x100
    ensures LowByte(w) == b
  {
    b
  }

  /** `x as u8`: truncation to the low eight bits, so `x` and the result
      differ by a multiple of 0x100. */
  function LowByte(x: u16): (b: u8)
    ensures (x - b) % 0x100 == 0
    ensures x < 0x100 ==> b == x
  {
    x % 0x100
  }

  /** Zero extension of every byte of a string, in order (`s.as_bytes()`
      written word by word as `u16`). */
  function ZeroExtendAll(s: seq<u8>): (w: seq<u16>)
    ensures |w| == |s|
    ensures forall i :: 0 <= i < |s| ==> w[i] == ZeroExtend(s[i])
  {
    if s == [] then [] else [ZeroExtend(s[0])] + ZeroExtendAll(s[1..])
  }

  /** The clock-gated peripherals whose handles this model tracks. */
  datatype Peripheral = Spi0 | Spi1

  /** The `init_state` typestate tags a peripheral handle carries. */
  datatype State = Disabled | Enabled

  /** `nb::Result<T, E>`: a value, `Err(WouldBlock)` or `Err(Other(e))`.
      The modelled drivers' error types are `()` and `Void`, so `Other`
      carries no payload. */
  datatype Nb<T> = Ok(value: T) | WouldBlock | Other
}
