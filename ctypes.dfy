/** Fixed-width C types of the 32-bit x86 kernel, written as Dafny subset types.
    Every wrap-around and truncation the C code performs is written out explicitly
    with the helpers below. */
module CTypes {

  const BYTE_LIMIT: int := 0x100
  const U32_LIMIT: int := 0x1_0000_0000
  const I32_LIMIT: int := 0x8000_0000

  /** unsigned char / uint8_t */
  type Byte = b: int | 0 <= b < 0x100

  /** uint32_t (also size_t on this target) */
  type U32 = x: int | 0 <= x < 0x1_0000_0000

  /** int32_t (also int and long on this target) */
  type I32 = x: int | -0x8000_0000 <= x < 0x8000_0000

  const NUL: Byte := 0

  /** A value or C's NULL. */
  datatype Option<T> = None | Some(value: T)

  /** uint32 addition, wrapping at 2^32. */
  function Add32(a: U32, b: U32): U32
  {
    if a + b < U32_LIMIT then a + b else a + b - U32_LIMIT
  }

  /** uint32 subtraction, wrapping at 2^32. */
  function Sub32(a: U32, b: U32): U32
  {
    if a >= b then a - b else a - b + U32_LIMIT
  }

  /** Conversion of a uint32 to int (two's complement, as gcc does it on x86). */
  function ToInt32(x: U32): I32
  {
    if x < I32_LIMIT then x else x - U32_LIMIT
  }

  /** The bit pattern of an int seen as a uint32. */
  function FromInt32(x: I32): U32
  {
    if x >= 0 then x else x + U32_LIMIT
  }

  /** (unsigned char)c: keep the low eight bits. */
  function ToByte(c: int): Byte
  {
    c % BYTE_LIMIT
  }

  /** A plain `char` is signed on x86: the value a byte takes when promoted to int. */
  function SignedChar(b: Byte): int
  {
    if b < 0x80 then b else b - BYTE_LIMIT
  }

  /** The bytes of an ASCII literal. */
  function Ascii(s: string): (r: seq<Byte>)
    requires forall i :: 0 <= i < |s| ==> s[i] as int < 0x80
    ensures |r| == |s|
    ensures forall i :: 0 <= i < |s| ==> r[i] == s[i] as int
  {
    if s == [] then [] else [s[0] as int] + Ascii(s[1..])
  }

  /** n zero bytes. */
  function Zeros(n: nat): (r: seq<Byte>)
    ensures |r| == n
    ensures forall i :: 0 <= i < n ==> r[i] == NUL
  {
    if n == 0 then [] else Zeros(n - 1) + [NUL]
  }

}
