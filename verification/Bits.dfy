/** Bytes as sets of bits. */
module Bits {
  predicate HasBit(x: bv8, p: bv8) { x & p != 0 }
}
