/**
 The bounds of machine integers, and addition that wraps around.
 */
module Widths {
  const TWO31: int := 0x8000_0000
  const TWO32: int := 0x1_0000_0000
  const TWO33: nat := 0x2_0000_0000
  const TWO63: int := 0x8000_0000_0000_0000
  const TWO64: nat := 0x1_0000_0000_0000_0000
  const TWO96: nat := 0x1_0000_0000_0000_0000_0000_0000

  function Add32(a: nat, b: nat): (r: nat)
    ensures a < TWO32 && b < TWO32 ==> r < TWO32 && (b == 0 ==> r == a)
  {
    if a + b < TWO32 then a + b else a + b - TWO32
  }
}
