/**
  Machine-width unsigned integers as used by `AtomicUsize`.

  The cell's three counters are `AtomicUsize` values; `fetch_add(1)` and
  `fetch_sub(1)` wrap around silently at the ends of the range.  The model
  fixes a 64-bit target.
 */
module Usize {

  /** `usize::MAX` on a 64-bit target. */
  const USIZE_MAX: nat := 0xFFFF_FFFF_FFFF_FFFF

  type usize = x: nat | x <= USIZE_MAX

  /** The new value stored by `fetch_add(1)`. */
  function WrappingInc(x: usize): (r: usize)
    ensures x < USIZE_MAX ==> r == x + 1
    ensures x == USIZE_MAX ==> r == 0
  {
    if x == USIZE_MAX then 0 else x + 1
  }

  /** The new value stored by `fetch_sub(1)`. */
  function WrappingDec(x: usize): (r: usize)
    ensures 0 < x ==> r == x - 1
    ensures x == 0 ==> r == USIZE_MAX
  {
    if x == 0 then USIZE_MAX else x - 1
  }

  /** The two wrapping steps undo each other, at the ends of the range too. */
  lemma IncDecInverse(x: usize)
    ensures WrappingDec(WrappingInc(x)) == x
    ensures WrappingInc(WrappingDec(x)) == x
  {
  }
}
