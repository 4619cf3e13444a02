/** Fixed-width Go integer types used as map keys by the column bookkeeping,
    and the Go conversion `int32(v)`. */
module GoTypes {

  /** Column ids are Go `int16`. */
  type Int16 = x: int | -0x8000 <= x < 0x8000

  /** Interned string-value ids are Go `int32`. */
  type Int32 = x: int | -0x8000_0000 <= x < 0x8000_0000

  /** Go's conversion `int32(v)`: keeps the low 32 bits of `v` and reads them
      as a two's-complement number. */
  function ToInt32(v: int): (r: Int32)
    ensures (r - v) % 0x1_0000_0000 == 0
    ensures -0x8000_0000 <= v < 0x8000_0000 ==> r == v
  {
    (v + 0x8000_0000) % 0x1_0000_0000 - 0x8000_0000
  }
}
