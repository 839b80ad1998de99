/** Signed 32-bit words that wrap, and powers of two. */
module Words {
  const TWO_31 := 0x8000_0000
  const TWO_32 := 0x1_0000_0000

  predicate Int32(x: int) { -TWO_31 <= x < TWO_31 }

  function Wrap32(x: int): (r: int)
    ensures Int32(r) && (Int32(x) ==> r == x)
  {
    (x + TWO_31) % TWO_32 - TWO_31
  }

  function PowerOfTwo(k: nat): (p: nat)
    ensures p >= 1
  {
    if k == 0 then 1 else 2 * PowerOfTwo(k - 1)
  }
}
