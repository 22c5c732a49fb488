/**
 * The bit macros of `macros.h`: the halves of a 32-bit word and the word
 * rebuilt from two halves. Every argument is first cast to `uint32_t`
 * (`Common.U32`); a shift left by 16 is a product with 2^16 taken modulo
 * 2^32, a shift right a quotient, a mask with 0xFFFF a remainder, and the OR
 * of the two disjoint halves their sum. (`MIN` is `Common.Min`.)
 */
module Macros {
  import opened Common

  const HALF: nat := 0x1_0000

  /** `HI16(x)`: the upper 16 bits of the word. */
  function Hi16(x: int): (h: nat)
    ensures h < HALF
    ensures U32(x) == h * HALF + Lo16(x)
  {
    U32(x) / HALF
  }

  /** `LO16(x)`: the lower 16 bits of the word. */
  function Lo16(x: int): (l: nat)
    ensures l < HALF
  {
    U32(x) % HALF
  }

  /** A 32-bit shift left by 16 keeps only the lower half of the value, moved up. */
  lemma ShiftUp(v: nat)
    requires v < TWO_32
    ensures (v * HALF) % TWO_32 == (v % HALF) * HALF
  {
    var q, r := v / HALF, v % HALF;
    assert v * HALF == q * TWO_32 + r * HALF;
    DivUnique(v * HALF, TWO_32, q, r * HALF);
  }

  /**
   * `COMBINE16(high, low)`: the lower half of `high` in the upper half of
   * the word over the lower half of `low`.
   */
  function Combine16(high: int, low: int): (w: nat)
    ensures w < TWO_32
    ensures Hi16(w) == U32(high) % HALF && Lo16(w) == U32(low) % HALF
  {
    ShiftUp(U32(high));
    var h, l := U32(high) % HALF, U32(low) % HALF;
    DivUnique(h * HALF + l, HALF, h, l);
    (U32(high) * HALF) % TWO_32 + U32(low) % HALF
  }

  /** Splitting a word and combining its halves gives the word back. */
  lemma CombineSplit(x: int)
    ensures Combine16(Hi16(x), Lo16(x)) == U32(x)
  {
    var h, l := Hi16(x), Lo16(x);
    ShiftUp(h);
    DivUnique(h, HALF, 0, h);
    DivUnique(l, HALF, 0, l);
  }

  /** Combining two 16-bit halves and splitting the word gives the halves back. */
  lemma SplitCombine(high: nat, low: nat)
    requires high < HALF && low < HALF
    ensures Hi16(Combine16(high, low)) == high && Lo16(Combine16(high, low)) == low
  {
    DivUnique(high, HALF, 0, high);
    DivUnique(low, HALF, 0, low);
  }
}
