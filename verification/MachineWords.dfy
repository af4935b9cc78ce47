/** The unsigned integer types of C; wrap-around is written out with the ranges where it can happen. */
module MachineWords {
  const UINT32_RANGE := 0x1_0000_0000
  const UINT64_RANGE := 0x1_0000_0000_0000_0000

  type Uint8 = x: nat | x < 0x100
  type Uint16 = x: nat | x < 0x1_0000
  type Uint32 = x: nat | x < UINT32_RANGE
  type Uint64 = x: nat | x < UINT64_RANGE
}
