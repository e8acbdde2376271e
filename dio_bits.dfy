/**
 * Bit-level helpers over sampled DIO words.
 *
 * The DIO interface of the HDAWG8 delivers 32-bit samples, so a word is a
 * `bv32`.  The driver computes with unbounded integers; every mask it builds
 * is only ever ANDed with 32-bit samples, so truncating masks and shifts to
 * 32 bits (ShiftLeft, ShiftRight, Bit) gives exactly the same results.
 */
module DioBits {

  type Word = bv32

  /** `1 << i`, seen through a 32-bit sample: bit i alone, or no bit at all. */
  function Bit(i: nat): (m: Word)
    ensures i < 32 ==> m != 0 && m & (m - 1) == 0
    ensures i < 32 ==> m >> i == 1
    ensures i >= 32 ==> m == 0
  {
    if i < 32 then 1 << i else 0
  }

  /** `x << s` truncated to the 32 bits of a sample. */
  function ShiftLeft(x: Word, s: nat): Word
  {
    if s < 32 then x << s else 0
  }

  /** `x >> s`, which is 0 once every bit has been shifted out. */
  function ShiftRight(x: Word, s: nat): Word
  {
    if s < 32 then x >> s else 0
  }

  /** The rising and falling edges of the bits of a mask between two samples. */
  datatype EdgeSet = EdgeSet(rising: Word, falling: Word)

  /**
   * `_get_edges`: the bits of `mask` that went from 0 to 1 (rising) and from
   * 1 to 0 (falling) between the samples `last` and `value`.
   */
  function GetEdges(value: Word, last: Word, mask: Word): (r: EdgeSet)
    // a rising bit was low and is now high; a falling bit was high and is now low
    ensures r.rising == !last & value & mask
    ensures r.falling == last & !value & mask
  {
    var changed := value ^ last;
    EdgeSet(changed & value & mask, changed & !value & mask)
  }

  /** Rising and falling edges together are exactly the changed bits of the mask. */
  lemma EdgesCoverChange(value: Word, last: Word, mask: Word)
    ensures GetEdges(value, last, mask).rising | GetEdges(value, last, mask).falling
            == (value ^ last) & mask
  {
    CoverChange(value, last, mask);
  }

  /** No bit rises and falls at once. */
  lemma EdgesDisjoint(value: Word, last: Word, mask: Word)
    ensures GetEdges(value, last, mask).rising & GetEdges(value, last, mask).falling == 0
  {
    RoseFellDisjoint(value, last, mask);
  }

  /** Both edge sets lie inside the mask. */
  lemma EdgesInsideMask(value: Word, last: Word, mask: Word)
    ensures InMask(GetEdges(value, last, mask).rising, mask)
    ensures InMask(GetEdges(value, last, mask).falling, mask)
  {
    AndInMask(!last & value, mask);
    AndInMask(last & !value, mask);
  }

  /** A rising bit is set in the new sample, a falling bit is clear in it. */
  lemma EdgesAgreeWithValue(value: Word, last: Word, mask: Word)
    ensures InMask(GetEdges(value, last, mask).rising, value)
    ensures GetEdges(value, last, mask).falling & value == 0
  {
    RoseInValue(value, last, mask);
    FellNotInValue(value, last, mask);
  }

  /** Every bit set in `x` belongs to `mask`. */
  predicate InMask(x: Word, mask: Word)
  {
    x & !mask == 0
  }

  /** A value inside a mask is at most the mask. */
  lemma InMaskBounded(x: Word, mask: Word)
    requires InMask(x, mask)
    ensures x <= mask
  {
  }

  /** Every word of a list that uses only mask bits is at most the mask. */
  lemma AllInMaskBounded(xs: seq<Word>, mask: Word)
    requires forall k :: 0 <= k < |xs| ==> InMask(xs[k], mask)
    ensures forall k :: 0 <= k < |xs| ==> xs[k] <= mask
  {
    forall k | 0 <= k < |xs|
      ensures xs[k] <= mask
    {
      InMaskBounded(xs[k], mask);
    }
  }

  /** Some bit of `mask` is set in the sample `d`. */
  predicate AnySet(d: Word, mask: Word)
  {
    d & mask != 0
  }

  /** Two one-bit masks of a 32-bit word overlap exactly when they are the same bit. */
  lemma BitsOverlapIffSame(i: nat, j: nat)
    requires i < 32 && j < 32
    ensures AnySet(Bit(i), Bit(j)) <==> i == j
  {
  }

  /** Some bit of `mask` differs between the samples `last` and `d`. */
  predicate AnyChanged(d: Word, last: Word, mask: Word)
  {
    (d ^ last) & mask != 0
  }

  /** Some bit of `mask` is clear in `last` and set in `d`. */
  predicate AnyRose(d: Word, last: Word, mask: Word)
  {
    !last & d & mask != 0
  }

  /** Some bit of `mask` is set in `last` and clear in `d`. */
  predicate AnyFell(d: Word, last: Word, mask: Word)
  {
    last & !d & mask != 0
  }

  /** There is a rising edge exactly when some bit of the mask went from 0 to 1. */
  lemma RisingIffRose(value: Word, last: Word, mask: Word)
    ensures GetEdges(value, last, mask).rising != 0 <==> AnyRose(value, last, mask)
  {
  }

  /** There is a falling edge exactly when some bit of the mask went from 1 to 0. */
  lemma FallingIffFell(value: Word, last: Word, mask: Word)
    ensures GetEdges(value, last, mask).falling != 0 <==> AnyFell(value, last, mask)
  {
  }

  /** Some bit of the mask has an edge exactly when the mask's bits changed. */
  lemma EdgeIffChange(value: Word, last: Word, mask: Word)
    ensures (GetEdges(value, last, mask).rising != 0 || GetEdges(value, last, mask).falling != 0)
            <==> AnyChanged(value, last, mask)
  {
    CoverChange(value, last, mask);
    OrNonZero(!last & value & mask, last & !value & mask);
  }

  // Facts of 32-bit arithmetic used above, each on its own.

  lemma CoverChange(v: Word, l: Word, m: Word)
    ensures (!l & v & m) | (l & !v & m) == (v ^ l) & m
  {
  }

  lemma RoseFellDisjoint(v: Word, l: Word, m: Word)
    ensures (!l & v & m) & (l & !v & m) == 0
  {
  }

  lemma AndInMask(x: Word, m: Word)
    ensures (x & m) & !m == 0
  {
  }

  lemma RoseInValue(v: Word, l: Word, m: Word)
    ensures (!l & v & m) & !v == 0
  {
  }

  lemma FellNotInValue(v: Word, l: Word, m: Word)
    ensures (l & !v & m) & v == 0
  {
  }

  lemma OrNonZero(x: Word, y: Word)
    ensures x | y != 0 <==> x != 0 || y != 0
  {
  }
}
