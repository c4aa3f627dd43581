/** The register convention and the memory reserved for spills. */
module Regs {
  const RETVAL_REG: nat := 1
  const LINK_REG: nat := 31
  const FIRST_ALLOCATABLE_GPR: nat := RETVAL_REG + 1
  const LAST_ALLOCATABLE_GPR: nat := LINK_REG - 1
  const SPILL_SLOT_BYTES: nat := 8

  predicate Allocatable(p: nat) {
    FIRST_ALLOCATABLE_GPR <= p <= LAST_ALLOCATABLE_GPR
  }

  /** The top sixteenth of memory holds spilled registers. */
  function SpillBase(memorySize: nat): nat {
    memorySize * 15 / 16
  }

  function LinkRegSaveAddr(memorySize: nat): int {
    SpillBase(memorySize) - 8
  }

  /** That is 15/16 of it rounded down; spills begin at 0xF000 in the default 64 KiB. */
  lemma {:induction false} TopSixteenth(memorySize: nat)
    ensures 16 * SpillBase(memorySize) <= 15 * memorySize < 16 * (SpillBase(memorySize) + 1)
    ensures SpillBase(0x10000) == 0xF000 && LinkRegSaveAddr(0x10000) == 0xEFF8
  {
  }
}
