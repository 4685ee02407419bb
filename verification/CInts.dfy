/** The integer types of LP64 C, where their width matters. */
module CInts {
  const INT_MAX := 0x7fff_ffff

  // Two's-complement conversions
  function ToSizeT(x: int): int { x % 0x1_0000_0000_0000_0000 }

  function ToInt(x: int): int {
    var y := x % 0x1_0000_0000;
    if y < 0x8000_0000 then y else y - 0x1_0000_0000
  }
}
