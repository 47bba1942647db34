/** 32-bit words, and the differences of cycle counts that wrap around. */
module Words {

  const TWO32: int := 0x1_0000_0000
  const TWO31: int := 0x8000_0000

  type u32 = x: int | 0 <= x < 0x1_0000_0000

  function U32(x: int): u32 {
    x % TWO32
  }

  /** The word read as a signed number. */
  function S32(x: u32): int {
    if x < TWO31 then x else x - TWO32
  }

  /** From b to a, going up. */
  function Sub(a: u32, b: u32): (d: u32)
    ensures U32(b + d) == a
  {
    if a >= b then a - b else a - b + TWO32
  }

  /** A number that fits is read back from its word. */
  lemma Fits(x: int)
    ensures -TWO31 <= x < TWO31 ==> S32(U32(x)) == x
    ensures 0 <= x < TWO32 ==> U32(x) == x
  {
  }

  /** Adding in words is adding. */
  lemma Adds(x: int, y: int)
    ensures U32(U32(x) + y) == U32(x + y)
  {
  }

  lemma EndMoves(a: u32, b: u32, n: nat)
    requires Sub(a, b) + n < TWO32
    ensures Sub(U32(a + n), b) == Sub(a, b) + n
  {
  }

  /** A signed distance is found again, whatever the start. */
  lemma EndAt(start: u32, delta: int)
    requires -TWO31 <= delta < TWO31
    ensures S32(Sub(U32(start + delta), start)) == delta
  {
  }

  lemma StartMoves(a: u32, b: u32, n: nat)
    requires n <= Sub(a, b)
    ensures Sub(a, U32(b + n)) == Sub(a, b) - n
  {
  }

  lemma SinceNothing(now: u32)
    ensures Sub(now, now) == 0
  {
  }
}
