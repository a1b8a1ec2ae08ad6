/** The fragments of Java's primitive types and exceptions the model needs. */
module JavaTypes {

  const INT_MIN: int := -0x8000_0000
  const INT_MAX: int := 0x7fff_ffff
  const TWO_32: int := 0x1_0000_0000

  /** A Java `int`. */
  type Int32 = x: int | -0x8000_0000 <= x <= 0x7fff_ffff

  /** A Java `byte`, held as its unsigned bit pattern, i.e. the value of `b & 0xff`. */
  type Byte = b: int | 0 <= b < 256

  /** The exceptions the modelled code can raise. */
  datatype JavaException =
    | NullPointer
    | NoSuchElement
    | ArrayIndexOutOfBounds
    | IllegalArgument
    | BufferUnderflow
    | CharacteristicNotFound
    | IncorrectState
    | BluetoothOff

  /** Java's 32-bit two's-complement wrap-around of an exact integer result. */
  function Wrap32(x: int): (r: Int32)
    ensures (r - x) % TWO_32 == 0
    ensures INT_MIN <= x <= INT_MAX ==> r == x
    ensures INT_MAX < x <= INT_MAX + TWO_32 ==> r == x - TWO_32
  {
    var m := x % TWO_32;
    if m > INT_MAX then m - TWO_32 else m
  }

  /** The narrowing cast `(byte) n`: the low eight bits of `n`. */
  function LowByte(n: int): (r: Byte)
    ensures (r - n) % 256 == 0
    ensures 0 <= n < 256 ==> r == n
  {
    n % 256
  }
}
