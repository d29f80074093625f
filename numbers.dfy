/** JavaScript's fixed-width integer conversions, written out on unbounded integers. */
module Numbers {
  /** A value an `Int16Array` cell can hold. */
  type Int16 = x: int | -0x8000 <= x < 0x8000

  /** ToInt16: `num` wrapped into -0x8000..0x7FFF, as an `Int16Array` store does. */
  function Int16Wrap(num: int): (r: Int16)
    ensures (r - num) % 0x1_0000 == 0
    ensures -0x8000 <= num < 0x8000 ==> r == num
  {
    (num + 0x8000) % 0x1_0000 - 0x8000
  }

  /** ToInt32: `num` wrapped into -0x8000_0000..0x7FFF_FFFF. */
  function Int32Wrap(num: int): (r: int)
    ensures -0x8000_0000 <= r < 0x8000_0000
    ensures (r - num) % 0x1_0000_0000 == 0
    ensures -0x8000_0000 <= num < 0x8000_0000 ==> r == num
  {
    (num + 0x8000_0000) % 0x1_0000_0000 - 0x8000_0000
  }
}
