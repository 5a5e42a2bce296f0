/**
 * The daemon's handle on the memory tap (daemon/memtap.c).
 *
 * A handle talks either to the kernel device or to a mock backend that
 * serves one region per core from files in a directory. Device-mode calls
 * are ioctls and reads whose outcome is a parameter here (the device's
 * answer, or whether the ioctl succeeded); the handle's own fields change
 * only as the C code changes them.
 */
module Memtap {
  import opened Abi
  import opened Wrappers
  import Adapters

  /** memtap_backend_t: DEVICE is 0, what a zeroed handle holds. */
  datatype MemtapBackend = BackendDevice | BackendMock

  /** mock_file_for_region: the backing file of a region in the mock directory. */
  function MockFileForRegion(regionId: u32): Option<string>
  {
    if regionId == REGION_NES_CPU_RAM then Some("nes_cpu_ram.bin")
    else if regionId == REGION_SNES_WRAM then Some("snes_wram.bin")
    else if regionId == REGION_GEN_68K_RAM then Some("gen_68k_ram.bin")
    else None
  }

  /** default_region_size: the byte size of each known region, 0 for any other id. */
  function DefaultRegionSize(regionId: u32): u32
  {
    if regionId == REGION_NES_CPU_RAM then 0x0800
    else if regionId == REGION_SNES_WRAM then 0x20000
    else if regionId == REGION_GEN_68K_RAM then 0x10000
    else 0
  }

  /** The three region ids the mock backend knows. */
  predicate IsKnownRegion(regionId: u32)
  {
    regionId == REGION_NES_CPU_RAM || regionId == REGION_SNES_WRAM || regionId == REGION_GEN_68K_RAM
  }

  /** Both tables are defined exactly on the known regions. */
  lemma MockTablesAgree(regionId: u32)
    ensures MockFileForRegion(regionId).Some? <==> IsKnownRegion(regionId)
    ensures DefaultRegionSize(regionId) != 0 <==> IsKnownRegion(regionId)
  {
  }

  /** The one region memtap_open_mock synthesises for a core, None for an unsupported core. */
  function MockRegion(coreId: u32): (r: Option<RegionDesc>)
    ensures r.Some? <==> Adapters.IsSupportedCore(coreId)
    ensures r.Some? ==>
      && IsKnownRegion(r.value.regionId) && r.value.flags == RF_SNAPSHOT
      && r.value.sizeBytes == DefaultRegionSize(r.value.regionId) && r.value.reserved == 0
  {
    var id :=
      if coreId == CORE_NES then REGION_NES_CPU_RAM
      else if coreId == CORE_SNES then REGION_SNES_WRAM
      else if coreId == CORE_GENESIS then REGION_GEN_68K_RAM
      else REGION_NONE;
    if id == REGION_NONE then None
    else Some(RegionDesc(id, RF_SNAPSHOT, DefaultRegionSize(id), 0))
  }

  /**
   * The mock region of a core is the primary region adapter_get names for
   * it, with the same size: the daemon's per-core table and the mock agree.
   */
  lemma MockRegionMatchesAdapter(coreId: u32)
    requires Adapters.IsSupportedCore(coreId)
    ensures MockRegion(coreId).value.regionId == Adapters.AdapterGet(coreId).value.primaryRegion
    ensures MockRegion(coreId).value.sizeBytes == Adapters.AdapterGet(coreId).value.primarySize
  {
  }

  /** snprintf into the 512-byte mock_dir buffer: at most 511 characters are kept. */
  function MockDirCopy(dir: string): (r: string)
    ensures |r| <= 511 && |r| <= |dir| && r == dir[..|r|]
    ensures |dir| <= 511 ==> r == dir
  {
    if |dir| <= 511 then dir else dir[..511]
  }

  /** The region-table container of GET_REGIONS: the 16 entries and the valid count. */
  datatype RegionTable = RegionTable(entries: seq<RegionDesc>, count: u32)

  /** memtap_t. */
  class Memtap {
    var backend: MemtapBackend
    var fd: int
    var selectedRegion: u32
    var seekOffset: u32
    var mockDir: string
    var mockCoreId: u32
    var mockFrameCounter: u64
    var mockRegionCount: u32
    var mockRegions: array<RegionDesc>

    ghost predicate Valid()
      reads this
    {
      mockRegions.Length == MAX_REGIONS && mockRegionCount <= MAX_REGIONS
    }

    /** The valid part of the mock region table. */
    function MockTable(): seq<RegionDesc>
      reads this, mockRegions
      requires Valid()
    {
      mockRegions[..mockRegionCount]
    }

    /** The handle as zeroed storage, before either open call. */
    constructor ()
      ensures Valid() && fresh(mockRegions)
      ensures backend == BackendDevice && fd == 0 && selectedRegion == REGION_NONE && seekOffset == 0
      ensures mockDir == [] && mockCoreId == 0 && mockFrameCounter == 0 && mockRegionCount == 0
      ensures forall i :: 0 <= i < MAX_REGIONS ==> mockRegions[i] == EMPTY_REGION
    {
      backend := BackendDevice;
      fd := 0;
      selectedRegion := REGION_NONE;
      seekOffset := 0;
      mockDir := [];
      mockCoreId := 0;
      mockFrameCounter := 0;
      mockRegionCount := 0;
      mockRegions := new RegionDesc[MAX_REGIONS](_ => EMPTY_REGION);
    }

    /** The memset at the top of both open calls. */
    method Clear()
      requires Valid()
      modifies this, mockRegions
      ensures Valid() && mockRegions == old(mockRegions)
      ensures backend == BackendDevice && fd == 0 && selectedRegion == REGION_NONE && seekOffset == 0
      ensures mockDir == [] && mockCoreId == 0 && mockFrameCounter == 0 && mockRegionCount == 0
      ensures forall i :: 0 <= i < MAX_REGIONS ==> mockRegions[i] == EMPTY_REGION
    {
      backend := BackendDevice;
      fd := 0;
      selectedRegion := REGION_NONE;
      seekOffset := 0;
      mockDir := [];
      mockCoreId := 0;
      mockFrameCounter := 0;
      mockRegionCount := 0;
      forall i | 0 <= i < mockRegions.Length {
        mockRegions[i] := EMPTY_REGION;
      }
    }

    /**
     * memtap_open_device; `openFd` is what open(2) returned. Success iff it
     * is a descriptor; the handle is cleared, device-mode, with no region
     * selected and offset 0.
     */
    method OpenDevice(devnode: string, openFd: int) returns (ok: bool)
      requires Valid()
      modifies this, mockRegions
      ensures Valid() && mockRegions == old(mockRegions)
      ensures ok <==> openFd >= 0
      ensures backend == BackendDevice && fd == openFd && selectedRegion == REGION_NONE && seekOffset == 0
      ensures mockDir == [] && mockCoreId == 0 && mockFrameCounter == 0 && mockRegionCount == 0
      ensures forall i :: 0 <= i < MAX_REGIONS ==> mockRegions[i] == EMPTY_REGION
    {
      Clear();
      backend := BackendDevice;
      fd := openFd;
      if fd < 0 {
        return false;
      }
      selectedRegion := REGION_NONE;
      seekOffset := 0;
      return true;
    }

    /**
     * memtap_open_mock: a supported core gets exactly one region, its mock
     * region, which is selected, at offset 0 and frame 0. Any other core
     * fails with an empty table and no region selected.
     */
    method OpenMock(mockDir: string, coreId: u32) returns (ok: bool)
      requires Valid()
      modifies this, mockRegions
      ensures Valid() && mockRegions == old(mockRegions)
      ensures ok <==> Adapters.IsSupportedCore(coreId)
      ensures backend == BackendMock && fd == -1 && mockCoreId == coreId
      ensures this.mockDir == MockDirCopy(mockDir)
      ensures MockTable() == if ok then [MockRegion(coreId).value] else []
      ensures forall i :: mockRegionCount <= i < MAX_REGIONS ==> mockRegions[i] == EMPTY_REGION
      ensures selectedRegion == (if ok then MockRegion(coreId).value.regionId else REGION_NONE)
      ensures seekOffset == 0 && mockFrameCounter == 0
    {
      Clear();
      backend := BackendMock;
      fd := -1;
      mockCoreId := coreId;
      this.mockDir := MockDirCopy(mockDir);

      mockRegionCount := 0;
      if coreId == CORE_NES {
        mockRegions[0] := RegionDesc(REGION_NES_CPU_RAM, RF_SNAPSHOT, DefaultRegionSize(REGION_NES_CPU_RAM), 0);
        mockRegionCount := 1;
      } else if coreId == CORE_SNES {
        mockRegions[0] := RegionDesc(REGION_SNES_WRAM, RF_SNAPSHOT, DefaultRegionSize(REGION_SNES_WRAM), 0);
        mockRegionCount := 1;
      } else if coreId == CORE_GENESIS {
        mockRegions[0] := RegionDesc(REGION_GEN_68K_RAM, RF_SNAPSHOT, DefaultRegionSize(REGION_GEN_68K_RAM), 0);
        mockRegionCount := 1;
      } else {
        assert MockTable() == [];
        return false;
      }

      selectedRegion := mockRegions[0].regionId;
      seekOffset := 0;
      mockFrameCounter := 0;
      assert MockTable() == [mockRegions[0]];
      return true;
    }

    /** memtap_close: the descriptor is forgotten; nothing else changes. */
    method Close()
      modifies this
      ensures fd == -1
      ensures backend == old(backend) && selectedRegion == old(selectedRegion) && seekOffset == old(seekOffset)
      ensures mockDir == old(mockDir) && mockCoreId == old(mockCoreId)
      ensures mockFrameCounter == old(mockFrameCounter) && mockRegionCount == old(mockRegionCount)
      ensures mockRegions == old(mockRegions)
    {
      fd := -1;
    }

    /**
     * memtap_get_info. In device mode `deviceInfo` is the GET_INFO answer,
     * None when the ioctl fails. In mock mode the record is synthesised
     * from the handle. The handle does not change.
     */
    method GetInfo(deviceInfo: Option<Info>) returns (r: Option<Info>)
      ensures backend == BackendDevice ==> r == deviceInfo
      ensures backend == BackendMock ==>
        r == Some(Info(ABI_VERSION, mockCoreId, 1, mockRegionCount, mockFrameCounter))
    {
      if backend == BackendDevice {
        return deviceInfo;
      }
      return Some(Info(ABI_VERSION, mockCoreId, 1, mockRegionCount, mockFrameCounter));
    }

    /**
     * memtap_get_regions. In device mode `deviceTable` is the GET_REGIONS
     * answer and `deviceInfo` the GET_INFO answer that follows it; the
     * count is clamped to 16. In mock mode all 16 slots of the mock table
     * and its count are returned.
     */
    method GetRegions(deviceTable: Option<seq<RegionDesc>>, deviceInfo: Option<Info>) returns (r: Option<RegionTable>)
      requires Valid()
      requires deviceTable.Some? ==> |deviceTable.value| == MAX_REGIONS
      ensures r.Some? ==> |r.value.entries| == MAX_REGIONS && r.value.count <= MAX_REGIONS
      ensures backend == BackendDevice ==>
        && (r.Some? <==> deviceTable.Some? && deviceInfo.Some?)
        && (r.Some? ==>
              && r.value.entries == deviceTable.value
              && r.value.count == if deviceInfo.value.regionCount > 16 then 16 else deviceInfo.value.regionCount)
      ensures backend == BackendMock ==> r == Some(RegionTable(mockRegions[..], mockRegionCount))
    {
      if backend == BackendDevice {
        if deviceTable.None? {
          return None;
        }
        var info := GetInfo(deviceInfo);
        if info.None? {
          return None;
        }
        var n := info.value.regionCount;
        if n > 16 {
          n := 16;
        }
        return Some(RegionTable(deviceTable.value, n));
      }
      return Some(RegionTable(mockRegions[..], mockRegionCount));
    }

    /** Whether the mock table's valid part lists `regionId`. */
    predicate InMockTable(regionId: u32)
      reads this, mockRegions
      requires Valid()
    {
      exists i :: 0 <= i < mockRegionCount && mockRegions[i].regionId == regionId
    }

    /**
     * memtap_select_region. Device mode: success iff the ioctl succeeds.
     * Mock mode: success iff the id is in the mock table. Success selects
     * the region at offset 0; failure changes nothing.
     */
    method SelectRegion(regionId: u32, ioctlOk: bool) returns (ok: bool)
      requires Valid()
      modifies this
      ensures Valid()
      ensures ok <==> if old(backend) == BackendDevice then ioctlOk else old(InMockTable(regionId))
      ensures selectedRegion == (if ok then regionId else old(selectedRegion))
      ensures seekOffset == (if ok then 0 else old(seekOffset))
      ensures backend == old(backend) && fd == old(fd) && mockDir == old(mockDir) && mockCoreId == old(mockCoreId)
      ensures mockFrameCounter == old(mockFrameCounter) && mockRegionCount == old(mockRegionCount)
      ensures mockRegions == old(mockRegions)
    {
      if backend == BackendDevice {
        if !ioctlOk {
          return false;
        }
        selectedRegion := regionId;
        seekOffset := 0;
        return true;
      }

      var i: u32 := 0;
      while i < mockRegionCount
        invariant i <= mockRegionCount
        invariant forall k :: 0 <= k < i ==> mockRegions[k].regionId != regionId
      {
        if mockRegions[i].regionId == regionId {
          selectedRegion := regionId;
          seekOffset := 0;
          return true;
        }
        i := i + 1;
      }
      return false;
    }

    /**
     * memtap_seek. Device mode: the offset is stored iff the ioctl succeeds.
     * Mock mode: always succeeds and stores the offset, unchecked.
     */
    method Seek(offset: u32, ioctlOk: bool) returns (ok: bool)
      modifies this
      ensures ok <==> old(backend) == BackendMock || ioctlOk
      ensures seekOffset == (if ok then offset else old(seekOffset))
      ensures backend == old(backend) && fd == old(fd) && selectedRegion == old(selectedRegion)
      ensures mockDir == old(mockDir) && mockCoreId == old(mockCoreId)
      ensures mockFrameCounter == old(mockFrameCounter) && mockRegionCount == old(mockRegionCount)
      ensures mockRegions == old(mockRegions)
    {
      if backend == BackendDevice {
        if !ioctlOk {
          return false;
        }
        seekOffset := offset;
        return true;
      }
      seekOffset := offset;
      return true;
    }

    /**
     * memtap_read of up to `len` bytes. Device mode: `deviceRead` is what
     * read(2) delivers, None for an error (-1). Mock mode: the selected
     * region must have a backing file name, `mockFile` is that file's
     * contents (None when it cannot be opened), and the read starts at the
     * seek offset; past the end of the file it delivers nothing. The result
     * is the byte count, or -1, and the bytes.
     */
    method Read(len: nat, deviceRead: Option<seq<u8>>, mockFile: Option<seq<u8>>) returns (r: int, data: seq<u8>)
      requires deviceRead.Some? ==> |deviceRead.value| <= len
      ensures r == -1 || (r == |data| && r <= len)
      ensures backend == BackendDevice ==>
        if deviceRead.None? then r == -1
        else r == |deviceRead.value| && data == deviceRead.value
      ensures backend == BackendMock ==>
        if MockFileForRegion(selectedRegion).None? || mockFile.None? then r == -1
        else r == |data| && data == PositionedRead(mockFile.value, seekOffset, len)
    {
      if backend == BackendDevice {
        if deviceRead.None? {
          return -1, [];
        }
        return |deviceRead.value|, deviceRead.value;
      }
      var fname := MockFileForRegion(selectedRegion);
      if fname.None? {
        return -1, [];
      }
      if mockFile.None? {
        return -1, [];
      }
      data := PositionedRead(mockFile.value, seekOffset, len);
      r := |data|;
    }

    /**
     * memtap_wait_frame. Device mode: the ioctl's outcome, nothing changes
     * in the handle (the counter lives in the driver). Mock mode: the
     * counter goes up by one, wrapping as a uint64_t, and the call succeeds.
     */
    method WaitFrame(lastFrame: u64, timeoutMs: u32, ioctlOk: bool) returns (ok: bool)
      modifies this
      ensures ok <==> old(backend) == BackendMock || ioctlOk
      ensures mockFrameCounter ==
        if old(backend) == BackendMock then (old(mockFrameCounter) + 1) % 0x1_0000_0000_0000_0000
        else old(mockFrameCounter)
      ensures backend == old(backend) && fd == old(fd) && selectedRegion == old(selectedRegion)
      ensures seekOffset == old(seekOffset) && mockDir == old(mockDir) && mockCoreId == old(mockCoreId)
      ensures mockRegionCount == old(mockRegionCount) && mockRegions == old(mockRegions)
    {
      if backend == BackendDevice {
        return ioctlOk;
      }
      mockFrameCounter := (mockFrameCounter + 1) % 0x1_0000_0000_0000_0000;
      return true;
    }
  }

  /**
   * The bytes a read(2) of up to len bytes returns from a file positioned at
   * `offset` with lseek: the part of [offset, offset + len) inside the file.
   */
  function PositionedRead(file: seq<u8>, offset: nat, len: nat): (r: seq<u8>)
    ensures |r| <= len
    ensures offset >= |file| ==> r == []
    ensures offset < |file| ==> |r| == if offset + len <= |file| then len else |file| - offset
    ensures forall k :: 0 <= k < |r| ==> offset + k < |file| && r[k] == file[offset + k]
  {
    if offset >= |file| then []
    else if offset + len <= |file| then file[offset..offset + len]
    else file[offset..]
  }

  /**
   * A mock session on NES: the open builds the NES CPU RAM table, so
   * selecting the SNES region fails and selecting NES CPU RAM succeeds, and
   * a frame wait advances the counter reported by get_info.
   */
  method MockSession() returns (openOk: bool, wrong: bool, right: bool, info: Option<Info>)
    ensures openOk && !wrong && right
    ensures info == Some(Info(ABI_VERSION, CORE_NES, 1, 1, 1))
  {
    var m := new Memtap();
    openOk := m.OpenMock("mock", CORE_NES);
    assert m.mockRegions[0] == m.MockTable()[0] == RegionDesc(REGION_NES_CPU_RAM, RF_SNAPSHOT, 0x0800, 0);
    wrong := m.SelectRegion(REGION_SNES_WRAM, false);
    right := m.SelectRegion(REGION_NES_CPU_RAM, false);
    var waited := m.WaitFrame(0, 0, false);
    info := m.GetInfo(None);
  }
}
