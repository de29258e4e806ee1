/** The bits of a byte. */
module Bits {

  function Half(b: bv8): bv8 {
    b >> 1
  }

  /** Only the n lowest bits are set. */
  predicate FitsIn(b: bv8, n: nat)
    decreases n
  {
    if n == 0 then b == 0 else FitsIn(Half(b), n - 1)
  }
}
