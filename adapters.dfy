/**
 * Per-core region lookup and address windowing (daemon/adapters.c).
 * Both C functions return false or write one result through an out-pointer;
 * here they return an Option.
 */
module Adapters {
  import opened Abi
  import opened Wrappers
  import opened Bits

  /** adapter_desc_t: the region bulk-read each frame for a core. */
  datatype AdapterDesc = AdapterDesc(coreId: u32, primaryRegion: u32, primarySize: u32)

  /** A supported console: NES, SNES or Genesis. */
  predicate IsSupportedCore(coreId: u32)
  {
    coreId == CORE_NES || coreId == CORE_SNES || coreId == CORE_GENESIS
  }

  /** adapter_get: the fixed per-core table. */
  function AdapterGet(coreId: u32): (r: Option<AdapterDesc>)
    ensures r.Some? <==> IsSupportedCore(coreId)
    ensures r.Some? ==> r.value.coreId == coreId && r.value.primarySize > 0
  {
    if coreId == CORE_NES then Some(AdapterDesc(coreId, REGION_NES_CPU_RAM, 0x0800))
    else if coreId == CORE_SNES then Some(AdapterDesc(coreId, REGION_SNES_WRAM, 0x20000))
    else if coreId == CORE_GENESIS then Some(AdapterDesc(coreId, REGION_GEN_68K_RAM, 0x10000))
    else None
  }

  /** The `addr & 0x07FF` of the NES rule. */
  function Mask7FF(addr: u32): u32
  {
    BitAnd(addr, 0x07FF)
  }

  /** adapter_translate: runtime address to an offset in the primary region. */
  function Translate(coreId: u32, addr: u32): (r: Option<u32>)
  {
    if coreId == CORE_NES then
      if addr <= 0x1FFF then Some(Mask7FF(addr)) else None
    else if coreId == CORE_GENESIS then
      if addr < 0x10000 then Some(addr) else None
    else if coreId == CORE_SNES then
      if addr < 0x20000 then Some(addr) else None
    else None
  }

  /** Masking with 0x07FF keeps the low eleven bits, that is, the remainder modulo 0x800. */
  lemma MaskIsMod(addr: u32)
    ensures Mask7FF(addr) == addr % 0x800
  {
    BitAndLowMask(addr, 11);
    assert Pow2(11) == 0x800;
  }

  /** NES: the window is [0, 0x1FFF] and the offset is the address modulo the 2 KB RAM. */
  lemma TranslateNes(addr: u32)
    ensures Translate(CORE_NES, addr).Some? <==> addr <= 0x1FFF
    ensures addr <= 0x1FFF ==> Translate(CORE_NES, addr) == Some(addr % 0x800)
    ensures Translate(CORE_NES, 0x1FFF) == Some(0x07FF) && Translate(CORE_NES, 0x2000) == None
  {
    MaskIsMod(addr);
    MaskIsMod(0x1FFF);
  }

  /** NES mirroring: addresses 0x800 apart inside the window reach the same RAM byte. */
  lemma NesMirroring(addr: u32)
    requires addr + 0x800 <= 0x1FFF
    ensures Translate(CORE_NES, addr).Some?
    ensures Translate(CORE_NES, addr) == Translate(CORE_NES, addr + 0x800)
  {
    MaskIsMod(addr);
    MaskIsMod(addr + 0x800);
    ModUnique(addr + 0x800, 0x800, addr / 0x800 + 1, addr % 0x800);
  }

  /** Genesis: identity on [0, 0xFFFF], failure from 0x10000 on. */
  lemma TranslateGenesis(addr: u32)
    ensures Translate(CORE_GENESIS, addr) == if addr < 0x10000 then Some(addr) else None
    ensures Translate(CORE_GENESIS, 0xFFFF) == Some(0xFFFF) && Translate(CORE_GENESIS, 0x10000) == None
  {
  }

  /** SNES: identity on [0, 0x1FFFF], failure from 0x20000 on. */
  lemma TranslateSnes(addr: u32)
    ensures Translate(CORE_SNES, addr) == if addr < 0x20000 then Some(addr) else None
  {
  }

  /** An unsupported core id translates nothing. */
  lemma TranslateUnknown(coreId: u32, addr: u32)
    requires !IsSupportedCore(coreId)
    ensures Translate(coreId, addr) == None
  {
  }

  /** Whenever translation succeeds, the offset lies inside the primary region adapter_get reports. */
  lemma TranslateWithinPrimary(coreId: u32, addr: u32)
    requires Translate(coreId, addr).Some?
    ensures AdapterGet(coreId).Some?
    ensures Translate(coreId, addr).value < AdapterGet(coreId).value.primarySize
  {
    if coreId == CORE_NES {
      MaskIsMod(addr);
    }
  }
}
