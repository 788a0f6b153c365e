/** The fixed-width unsigned integers of the program. */
module Ints {
  const TWO_16: nat := 0x1_0000
  const TWO_32: nat := 0x1_0000_0000
  const TWO_64: nat := 0x1_0000_0000_0000_0000

  type byte = x: nat | x < 256
  type uint16 = x: nat | x < TWO_16
  type uint32 = x: nat | x < TWO_32
  type uint64 = x: nat | x < TWO_64
}
