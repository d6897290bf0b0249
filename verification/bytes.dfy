/** The fixed-width Java integer types the model needs, written out over `int`. */
module Bytes {

  /** Java `int`. */
  type Int32 = x: int | -0x8000_0000 <= x < 0x8000_0000

  /** An unsigned byte as returned by `InputStream.read()` (never the -1 end marker). */
  type Octet = x: int | 0 <= x < 256

  /** Java `byte`: a signed two's-complement byte. */
  type JByte = x: int | -128 <= x < 128

  /** The narrowing cast `(byte) v`: keep the low eight bits and read them as signed. */
  function ToJByte(v: int): (b: JByte)
    ensures (b - v) % 256 == 0
    ensures 0 <= v < 128 ==> b == v
    ensures 128 <= v < 256 ==> b == v - 256
  {
    var low := v % 256;
    if low < 128 then low else low - 256
  }
}
