/** Round-up-to-alignment arithmetic. The crate's own `align_offset` is not
    part of this model; it is defined here by the contract its caller relies
    on: the least padding that brings an offset onto a multiple of the
    alignment. */
module Align {

  /** An alignment in bytes; every layout-ready type has a positive one. */
  type Alignment = a: nat | a > 0 witness 1

  /** `offset` is a multiple of `alignment`. */
  predicate IsAligned(offset: nat, alignment: Alignment)
  {
    offset % alignment == 0
  }

  lemma MulAtLeast(d: int, a: nat)
    requires d >= 1
    ensures d * a >= a
    decreases d
  {
    if d > 1 {
      MulAtLeast(d - 1, a);
      assert d * a == (d - 1) * a + a;
    }
  }

  /** Euclidean remainder of `q * a + x` for `x` below `a`. */
  lemma ModOfMultiplePlus(q: nat, a: Alignment, x: nat)
    requires x < a
    ensures (q * a + x) % a == x
  {
    var n := q * a + x;
    var q', r := n / a, n % a;
    assert n == q' * a + r;
    assert (q - q') * a == r - x;
    if q' < q {
      MulAtLeast(q - q', a);
    } else if q' > q {
      MulAtLeast(q' - q, a);
    }
  }

  /** Bytes of padding needed before a value with `alignment` that would
      otherwise start at `offset`: it reaches an aligned offset, and by
      `AlignOffsetIsLeast` no smaller amount does. */
  function AlignOffset(offset: nat, alignment: Alignment): (padding: nat)
    ensures padding < alignment
    ensures IsAligned(offset + padding, alignment)
  {
    var r := offset % alignment;
    if r == 0 then 0
    else
      var q := offset / alignment;
      assert offset == q * alignment + r;
      assert offset + (alignment - r) == (q + 1) * alignment + 0;
      ModOfMultiplePlus(q + 1, alignment, 0);
      alignment - r
  }

  /** No offset between `offset` and the padded one is aligned. */
  lemma AlignOffsetIsLeast(offset: nat, alignment: Alignment, k: nat)
    requires offset <= k < offset + AlignOffset(offset, alignment)
    ensures !IsAligned(k, alignment)
  {
    var q, r := offset / alignment, offset % alignment;
    assert offset == q * alignment + r;
    assert k == q * alignment + (r + (k - offset));
    ModOfMultiplePlus(q, alignment, r + (k - offset));
  }

  /** The first multiple of `alignment` at or after `offset`. */
  function RoundUp(offset: nat, alignment: Alignment): (r: nat)
    ensures offset <= r < offset + alignment
    ensures IsAligned(r, alignment)
  {
    offset + AlignOffset(offset, alignment)
  }

  /** An offset that is already aligned needs no padding. */
  lemma AlignedNeedsNoPadding(offset: nat, alignment: Alignment)
    requires IsAligned(offset, alignment)
    ensures AlignOffset(offset, alignment) == 0
  {
    if AlignOffset(offset, alignment) > 0 {
      AlignOffsetIsLeast(offset, alignment, offset);
    }
  }
}
