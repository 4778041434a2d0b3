/**
 * The Loongson3 SPI controller's register window: physical base addresses,
 * window size, byte offsets of the registers and their bit flags.
 */
module Registers {
  import opened Bits

  /** Physical base of the controller on the 64C family (3B1500 … 3B3000). */
  const Loongson64CSpiBase: nat := 0x1fe00220
  /** Physical base of the controller on the 64G family (3A4000, 3B4000). */
  const Loongson64GSpiBase: nat := 0x1fe001f0
  /** Bytes mapped from the base address. */
  const RegSize: nat := 0x10

  /** Control register and its master and SPI-enable bits. */
  const Spcr: nat := 0x0
  const SpcrMstr: bv8 := 0x10
  const SpcrSpe: bv8 := 0x40
  /** The two bits the driver sets to enable the controller as master. */
  const SpcrEnable: bv8 := SpcrMstr | SpcrSpe

  /** Status register; the driver only consults the read-FIFO-empty flag. */
  const Spsr: nat := 0x1
  const SpsrRfEmpty: bv8 := 0x01

  /** FIFO data register: a write pushes a byte, a read pops one. */
  const Fifo: nat := 0x2

  /** Read-engine control register and its memory-read-engine enable bit. */
  const Sfcp: nat := 0x4
  const SfcpMemEn: bv8 := 0x01

  /** Software chip-select register; the flash sits on CS0. */
  const SoftCs: nat := 0x5
  /** CS0 enabled, CS0 level low: the flash is selected. */
  const SoftCsAssert: bv8 := 0x01
  /** CS0 enabled, CS0 level high: the flash is released (the source's SOFTCS_DESSERT). */
  const SoftCsDeassert: bv8 := 0x11

  /** The enable update of the control register sets bits 4 and 6 and no other. */
  lemma EnableSetsMasterAndSpe(reg: bv8)
    ensures forall k: nat :: k < 8 ==>
      (Bit(SetBits(reg, SpcrEnable), k) <==> k == 4 || k == 6 || Bit(reg, k))
  {
    forall k: nat | k < 8
      ensures Bit(SpcrEnable, k) <==> k == 4 || k == 6
    {
    }
  }

  /** Clearing the read-engine enable clears bit 0 and no other. */
  lemma DisableClearsOnlyMemEn(reg: bv8)
    ensures forall k: nat :: k < 8 ==>
      (Bit(ClearBits(reg, SfcpMemEn), k) <==> k != 0 && Bit(reg, k))
  {
    forall k: nat | k < 8
      ensures Bit(SfcpMemEn, k) <==> k == 0
    {
    }
  }

  /** Setting the read-engine enable sets bit 0 and no other. */
  lemma EnableSetsOnlyMemEn(reg: bv8)
    ensures forall k: nat :: k < 8 ==>
      (Bit(SetBits(reg, SfcpMemEn), k) <==> k == 0 || Bit(reg, k))
  {
    forall k: nat | k < 8
      ensures Bit(SfcpMemEn, k) <==> k == 0
    {
    }
  }

  /**
   * The two chip-select patterns differ only in bit 4 (the CS0 level):
   * both keep CS0 under software control (bit 0).
   */
  lemma ChipSelectPatterns()
    ensures Bit(SoftCsAssert, 0) && Bit(SoftCsDeassert, 0)
    ensures !Bit(SoftCsAssert, 4) && Bit(SoftCsDeassert, 4)
    ensures forall k: nat :: k < 8 && k != 4 ==> (Bit(SoftCsAssert, k) <==> Bit(SoftCsDeassert, k))
  {
    forall k: nat | k < 8 && k != 4
      ensures Bit(SoftCsAssert, k) <==> Bit(SoftCsDeassert, k)
    {
    }
  }
}
