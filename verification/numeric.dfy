/** Machine integer widths of the source program, and the index arithmetic of
    consecutive equal-sized windows shared by the encoder and the decoder. */
module Numeric {

  /** An unsigned 8-bit value (`u8`). */
  type Byte = x: int | 0 <= x < 256

  /** A signed 16-bit value (`i16`). */
  type I16 = x: int | -32768 <= x < 32768

  const I16Min: I16 := -32768

  /** Negation of an `i16` as a release build computes it: `-(-32768)` wraps
      back to -32768, every other value is negated exactly. */
  function NegI16(x: I16): (r: I16)
    ensures (x + r) % 0x1_0000 == 0
    ensures x != I16Min ==> r as int == -(x as int)
  {
    if x == I16Min then I16Min else -x
  }

  /** 2 to the power `k`. */
  function Pow2(k: nat): (p: nat)
    ensures p >= 1
  {
    if k == 0 then 1 else 2 * Pow2(k - 1)
  }

  lemma MulMonotone(a: nat, b: nat, c: nat)
    requires a <= b
    ensures a * c <= b * c
  {
    assert b * c == a * c + (b - a) * c;
  }

  /** Sample `j` lies in window `i` of width `width` exactly when it sits at
      offset `j - i * width` of that window. */
  lemma WindowOf(j: int, i: nat, width: nat)
    requires 0 < width
    requires i * width <= j < i * width + width
    ensures j / width == i
    ensures j % width == j - i * width
  {
    var q, r := j / width, j % width;
    assert j == q * width + r && 0 <= r < width;
    if q > i {
      MulMonotone(i + 1, q, width);
      assert false;
    } else if q < i {
      MulMonotone(q + 1, i, width);
      assert false;
    }
  }

  /** Every sample below `count * width` lies in one of the first `count` windows. */
  lemma WindowStartInRange(i: nat, count: nat, width: nat)
    requires i < count
    ensures i * width + width <= count * width
  {
    MulMonotone(i + 1, count, width);
  }

  /** A window layout that covers some sample has at least one window and a
      positive width. */
  lemma CoveredLayout(count: nat, width: nat)
    requires count * width > 0
    ensures 0 < count && 0 < width
  {
  }
}
