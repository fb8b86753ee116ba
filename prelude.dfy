/** Fixed-width integer types of the simulation core, the two's-complement
    wrap-around its arithmetic has in a release build, and an Option type. */
module Prelude {

  type u8 = x: int | 0 <= x < 0x100
  type u16 = x: int | 0 <= x < 0x1_0000
  type u32 = x: int | 0 <= x < 0x1_0000_0000
  type i8 = x: int | -0x80 <= x < 0x80
  type i16 = x: int | -0x8000 <= x < 0x8000
  type i32 = x: int | -0x8000_0000 <= x < 0x8000_0000

  datatype Option<T> = None | Some(value: T)

  /** `x` reduced into i32 the way a wrapping 32-bit add or multiply does. */
  function WrapI32(x: int): (r: i32)
    ensures -0x8000_0000 <= x < 0x8000_0000 ==> r == x
  {
    (x + 0x8000_0000) % 0x1_0000_0000 - 0x8000_0000
  }

  /** `x` reduced into i8 (two's complement). */
  function WrapI8(x: int): (r: i8)
    ensures -0x80 <= x < 0x80 ==> r == x
  {
    (x + 0x80) % 0x100 - 0x80
  }

  /** `x` reduced into u16 (modulo 2^16). */
  function WrapU16(x: int): (r: u16)
    ensures 0 <= x < 0x1_0000 ==> r == x
  {
    x % 0x1_0000
  }

  /** `x` reduced into u8 (modulo 2^8). */
  function WrapU8(x: int): (r: u8)
    ensures 0 <= x < 0x100 ==> r == x
  {
    x % 0x100
  }

  /** Wrapping is compatible with addition: wrapping an intermediate sum
      does not change the wrapped final result. */
  lemma WrapI32Add(a: int, b: int)
    ensures WrapI32(WrapI32(a) + b) == WrapI32(a + b)
  {
    var k := (a + 0x8000_0000) / 0x1_0000_0000;
    assert WrapI32(a) == a - k * 0x1_0000_0000;
    assert WrapI32(a) + b + 0x8000_0000 == (a + b + 0x8000_0000) - k * 0x1_0000_0000;
    ModSubMultiple(a + b + 0x8000_0000, k);
  }

  lemma ModSubMultiple(x: int, k: int)
    ensures (x - k * 0x1_0000_0000) % 0x1_0000_0000 == x % 0x1_0000_0000
  {
  }
}
