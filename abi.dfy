/**
 * The memtap ABI shared by the kernel driver and the daemon (kernel/mmr_memtap.h):
 * fixed-width integer types, the console and region identifiers, and the
 * records exchanged through GET_INFO and GET_REGIONS.
 */
module Abi {

  type u8 = x: int | 0 <= x < 0x100
  type u32 = x: int | 0 <= x < 0x1_0000_0000
  type u64 = x: int | 0 <= x < 0x1_0000_0000_0000_0000

  const ABI_VERSION: u32 := 1
  const MAX_REGIONS: nat := 16

  // enum mmr_core_id
  const CORE_UNKNOWN: u32 := 0
  const CORE_NES: u32 := 1
  const CORE_SNES: u32 := 2
  const CORE_GENESIS: u32 := 3

  // enum mmr_region_id
  const REGION_NONE: u32 := 0
  const REGION_NES_CPU_RAM: u32 := 10
  const REGION_SNES_WRAM: u32 := 20
  const REGION_GEN_68K_RAM: u32 := 30

  // enum mmr_region_flags
  const RF_SNAPSHOT: u32 := 1

  /** struct mmr_info, the answer to GET_INFO. */
  datatype Info = Info(abiVersion: u32, coreId: u32, mapVersion: u32, regionCount: u32, frameCounter: u64)

  /** struct mmr_region_desc, one entry of the GET_REGIONS table. */
  datatype RegionDesc = RegionDesc(regionId: u32, flags: u32, sizeBytes: u32, reserved: u32)

  /** An all-zero table entry, what memset leaves in an unused slot. */
  const EMPTY_REGION: RegionDesc := RegionDesc(0, 0, 0, 0)

  // Linux error numbers used by the loopback driver (returned negated).
  const ENOENT: int := 2
  const EIO: int := 5
  const ENOMEM: int := 12
  const EFAULT: int := 14
  const EINVAL: int := 22
  const ENOTTY: int := 25
}
