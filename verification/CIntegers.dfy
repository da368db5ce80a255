/** The C integer conversions that the boot loader relies on. */
module CIntegers {
  /** Conversion to a 32-bit signed int, in two's complement. */
  function ToInt32(x: int): (r: int)
    ensures -0x8000_0000 <= r < 0x8000_0000 && (x - r) % 0x1_0000_0000 == 0
  {
    var y := x % 0x1_0000_0000;
    if y < 0x8000_0000 then y else y - 0x1_0000_0000
  }

  /** Nothing happens to a number that fits. */
  lemma FitsInt32(x: int)
    ensures ToInt32(x) == x <==> -0x8000_0000 <= x < 0x8000_0000
  {
  }
}
