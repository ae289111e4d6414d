/** Machine words and the Goldilocks prime. */
module MachineWords {
  /** The Goldilocks prime 2^64 - 2^32 + 1. */
  const P: nat := 0xFFFF_FFFF_0000_0001

  const TWO32: nat := 0x1_0000_0000
  const TWO64: nat := 0x1_0000_0000_0000_0000
  const TWO128: nat := 0x1_0000_0000_0000_0000_0000_0000_0000_0000
  const TWO192: nat := 0x1_0000_0000_0000_0000_0000_0000_0000_0000_0000_0000_0000_0000

  type byte = x: nat | x < 256
  type u32 = x: nat | x < TWO32
  type u64 = x: nat | x < TWO64

  /** A canonical field element. */
  type felt = x: nat | x < P
}
