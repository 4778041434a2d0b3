/**
 * Bit-level view of the byte-wide registers: single-bit masks, a bit test,
 * and the two read-modify-write updates the driver performs
 * (`reg |= mask` and `reg &= ~mask`).
 */
module Bits {

  /** The byte with only bit `k` set, i.e. `1 << k`. */
  function Mask(k: nat): bv8
    requires k < 8
  {
    match k
    case 0 => 0x01
    case 1 => 0x02
    case 2 => 0x04
    case 3 => 0x08
    case 4 => 0x10
    case 5 => 0x20
    case 6 => 0x40
    case _ => 0x80
  }

  /** Bit `k` of `b` is set. */
  predicate Bit(b: bv8, k: nat)
    requires k < 8
  {
    b & Mask(k) != 0
  }

  /** `reg | mask`: every bit of `mask` becomes set, every other bit keeps its value. */
  function SetBits(reg: bv8, mask: bv8): (r: bv8)
    ensures forall k: nat :: k < 8 ==> (Bit(r, k) <==> Bit(reg, k) || Bit(mask, k))
  {
    reg | mask
  }

  /** `reg & ~mask`: every bit of `mask` becomes clear, every other bit keeps its value. */
  function ClearBits(reg: bv8, mask: bv8): (r: bv8)
    ensures forall k: nat :: k < 8 ==> (Bit(r, k) <==> Bit(reg, k) && !Bit(mask, k))
  {
    reg & !mask
  }
}
