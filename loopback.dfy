/**
 * The loopback memtap driver (kernel/module/mmr_memtap_loopback.c).
 *
 * The device holds a table of up to 16 regions built at module init from
 * the configured snapshot paths. Each open file has its own state: the
 * selected region and an offset into it, changed by llseek, read and the
 * SELECT_REGION and SEEK ioctls. The key invariant is that the offset
 * never exceeds the size of the selected region.
 *
 * A region's backing file is a fixed byte sequence (or an error); the
 * outcome of kzalloc, kmalloc, copy_to_user, copy_from_user and
 * misc_register is a parameter of the operation that calls it.
 */
module Loopback {
  import opened Abi
  import opened Wrappers
  import Memtap

  // ---------------------------------------------------------------------------
  // Region table
  // ---------------------------------------------------------------------------

  /** The table mmr_init builds: NES, SNES, Genesis, in that order, each only when its path is set. */
  function InitTable(nes: bool, snes: bool, gen: bool): seq<RegionDesc>
  {
    (if nes then [RegionDesc(REGION_NES_CPU_RAM, RF_SNAPSHOT, 2048, 0)] else [])
    + (if snes then [RegionDesc(REGION_SNES_WRAM, RF_SNAPSHOT, 131072, 0)] else [])
    + (if gen then [RegionDesc(REGION_GEN_68K_RAM, RF_SNAPSHOT, 65536, 0)] else [])
  }

  /**
   * The init table has at most three entries, one per configured path,
   * with distinct ids, the snapshot flag, and the daemon's default size
   * for each region.
   */
  lemma InitTableShape(nes: bool, snes: bool, gen: bool)
    ensures var t := InitTable(nes, snes, gen);
      && |t| == (if nes then 1 else 0) + (if snes then 1 else 0) + (if gen then 1 else 0)
      && |t| <= 3 <= MAX_REGIONS
      && (t == [] <==> !nes && !snes && !gen)
      && (forall i :: 0 <= i < |t| ==>
            t[i].flags == RF_SNAPSHOT && t[i].sizeBytes == Memtap.DefaultRegionSize(t[i].regionId) != 0)
      && (forall i, j :: 0 <= i < j < |t| ==> t[i].regionId != t[j].regionId)
      && (REGION_NES_CPU_RAM in RegionIds(t) <==> nes)
      && (REGION_SNES_WRAM in RegionIds(t) <==> snes)
      && (REGION_GEN_68K_RAM in RegionIds(t) <==> gen)
  {
    var t := InitTable(nes, snes, gen);
    var ids := RegionIds(t);
    var a := if nes then [REGION_NES_CPU_RAM] else [];
    var b := if snes then [REGION_SNES_WRAM] else [];
    var c := if gen then [REGION_GEN_68K_RAM] else [];
    assert ids == a + b + c;
  }

  /** The region ids of a table, in order. */
  function RegionIds(t: seq<RegionDesc>): (r: seq<u32>)
    ensures |r| == |t| && forall i :: 0 <= i < |t| ==> r[i] == t[i].regionId
  {
    seq(|t|, i requires 0 <= i < |t| => t[i].regionId)
  }

  /** size_for_region over a table: the size of the first entry with that id, 0 when none has it. */
  function FirstSize(t: seq<RegionDesc>, regionId: u32): (r: u32)
    ensures (forall i :: 0 <= i < |t| ==> t[i].regionId != regionId) ==> r == 0
    ensures forall i ::
      (&& 0 <= i < |t| && t[i].regionId == regionId
       && (forall j :: 0 <= j < i ==> t[j].regionId != regionId)) ==> r == t[i].sizeBytes
    ensures r != 0 ==> regionId in RegionIds(t)
  {
    if t == [] then 0
    else if t[0].regionId == regionId then t[0].sizeBytes
    else
      var r := FirstSize(t[1..], regionId);
      assert forall i :: 1 <= i < |t| ==> t[1..][i - 1] == t[i];
      r
  }

  /** In the init table, a region is valid exactly when its path is configured, with its fixed size. */
  lemma InitRegionValid(nes: bool, snes: bool, gen: bool, regionId: u32)
    ensures var size := FirstSize(InitTable(nes, snes, gen), regionId);
      && (size != 0 <==>
            || (regionId == REGION_NES_CPU_RAM && nes)
            || (regionId == REGION_SNES_WRAM && snes)
            || (regionId == REGION_GEN_68K_RAM && gen))
      && (size != 0 ==> size == Memtap.DefaultRegionSize(regionId))
  {
    InitTableShape(nes, snes, gen);
  }

  /** struct mmr_loopback_dev, the global gdev, with the module parameters. */
  class LoopbackDev {
    var nesPath: Option<string>
    var snesPath: Option<string>
    var genPath: Option<string>
    var coreId: u32
    var mapVersion: u32
    var regions: array<RegionDesc>
    var regionCount: u32
    var frameCounter: u64

    ghost predicate Valid()
      reads this
    {
      regions.Length == MAX_REGIONS && regionCount <= MAX_REGIONS
    }

    /** The valid part of the region table. */
    function Table(): seq<RegionDesc>
      reads this, regions
      requires Valid()
    {
      regions[..regionCount]
    }

    /** The zero-initialised static gdev with the module parameters given at load time. */
    constructor (nesPath: Option<string>, snesPath: Option<string>, genPath: Option<string>)
      ensures Valid() && fresh(regions)
      ensures this.nesPath == nesPath && this.snesPath == snesPath && this.genPath == genPath
      ensures coreId == 0 && mapVersion == 0 && regionCount == 0 && frameCounter == 0
      ensures forall i :: 0 <= i < MAX_REGIONS ==> regions[i] == EMPTY_REGION
    {
      this.nesPath := nesPath;
      this.snesPath := snesPath;
      this.genPath := genPath;
      coreId := 0;
      mapVersion := 0;
      regionCount := 0;
      frameCounter := 0;
      regions := new RegionDesc[MAX_REGIONS](_ => EMPTY_REGION);
    }

    /**
     * mmr_init; `registerResult` is what misc_register returns. The table
     * becomes InitTable of the configured paths; with no region the init
     * fails with -EINVAL before registering.
     */
    method Init(registerResult: int) returns (r: int)
      requires Valid()
      modifies this, regions
      ensures Valid() && regions == old(regions)
      ensures nesPath == old(nesPath) && snesPath == old(snesPath) && genPath == old(genPath)
      ensures Table() == InitTable(nesPath.Some?, snesPath.Some?, genPath.Some?)
      ensures coreId == CORE_NES && mapVersion == 0 && frameCounter == 0
      ensures forall i :: regionCount <= i < MAX_REGIONS ==> regions[i] == old(regions[i])
      ensures r == if regionCount == 0 then -EINVAL else registerResult
    {
      coreId := CORE_NES;
      mapVersion := 0;
      regionCount := 0;
      if nesPath.Some? {
        regions[regionCount] := RegionDesc(REGION_NES_CPU_RAM, RF_SNAPSHOT, 2048, 0);
        regionCount := regionCount + 1;
      }
      if snesPath.Some? {
        regions[regionCount] := RegionDesc(REGION_SNES_WRAM, RF_SNAPSHOT, 131072, 0);
        regionCount := regionCount + 1;
      }
      if genPath.Some? {
        regions[regionCount] := RegionDesc(REGION_GEN_68K_RAM, RF_SNAPSHOT, 65536, 0);
        regionCount := regionCount + 1;
      }
      frameCounter := 0;
      assert Table() == InitTable(nesPath.Some?, snesPath.Some?, genPath.Some?);

      if regionCount == 0 {
        return -EINVAL;
      }
      return registerResult;
    }

    /** path_for_region: the configured backing path of a region. */
    function PathForRegion(regionId: u32): Option<string>
      reads this
    {
      if regionId == REGION_NES_CPU_RAM then nesPath
      else if regionId == REGION_SNES_WRAM then snesPath
      else if regionId == REGION_GEN_68K_RAM then genPath
      else None
    }

    /** size_for_region: the loop over the first region_count entries. */
    method SizeForRegion(regionId: u32) returns (size: u32)
      requires Valid()
      ensures size == FirstSize(Table(), regionId)
    {
      var t := Table();
      var i: u32 := 0;
      while i < regionCount
        invariant i <= regionCount
        invariant forall j :: 0 <= j < i ==> t[j].regionId != regionId
      {
        assert t[i] == regions[i];
        if regions[i].regionId == regionId {
          return regions[i].sizeBytes;
        }
        i := i + 1;
      }
      return 0;
    }

    /** region_is_valid: a region is valid iff some entry lists it with a nonzero size. */
    method RegionIsValid(regionId: u32) returns (valid: bool)
      requires Valid()
      ensures valid <==> FirstSize(Table(), regionId) != 0
    {
      var size := SizeForRegion(regionId);
      return size != 0;
    }

    /** GET_INFO: the device's description; None when copy_to_user fails (-EFAULT). */
    method GetInfo(copyOk: bool) returns (ret: int, info: Option<Info>)
      ensures copyOk ==> ret == 0 && info == Some(Info(ABI_VERSION, coreId, mapVersion, regionCount, frameCounter))
      ensures !copyOk ==> ret == -EFAULT && info.None?
    {
      if !copyOk {
        return -EFAULT, None;
      }
      return 0, Some(Info(ABI_VERSION, coreId, mapVersion, regionCount, frameCounter));
    }

    /** GET_REGIONS: all 16 slots of the table; None when copy_to_user fails (-EFAULT). */
    method GetRegions(copyOk: bool) returns (ret: int, out: Option<seq<RegionDesc>>)
      requires Valid()
      ensures copyOk ==> ret == 0 && out == Some(regions[..]) && out.value[..regionCount] == Table()
      ensures !copyOk ==> ret == -EFAULT && out.None?
    {
      if !copyOk {
        return -EFAULT, None;
      }
      return 0, Some(regions[..]);
    }
  }

  // ---------------------------------------------------------------------------
  // Per-file state
  // ---------------------------------------------------------------------------

  const SEEK_SET: int := 0
  const SEEK_CUR: int := 1
  const SEEK_END: int := 2

  /**
   * The position llseek moves to from `offset` in a region of `size`
   * bytes, None when the call fails with -EINVAL: an invalid region
   * (size 0), an unknown whence, or a result outside [0, size].
   */
  function SeekTarget(offset: u32, size: u32, off: int, whence: int): (r: Option<u32>)
    ensures r.Some? ==> size != 0 && r.value <= size
    ensures r.Some? <==>
      && size != 0
      && (|| (whence == SEEK_SET && 0 <= off <= size)
          || (whence == SEEK_CUR && 0 <= offset + off <= size)
          || (whence == SEEK_END && 0 <= size + off <= size))
    ensures r.Some? ==> r.value == if whence == SEEK_SET then off else if whence == SEEK_CUR then offset + off else size + off
  {
    if size == 0 then None
    else
      var newpos :=
        if whence == SEEK_SET then Some(off)
        else if whence == SEEK_CUR then Some(offset + off)
        else if whence == SEEK_END then Some(size + off)
        else None;
      if newpos.None? then None
      else if newpos.value < 0 then None
      else if newpos.value > size then None
      else Some(newpos.value)
  }

  /** The number of bytes read returns: len clamped to what is left of the region. */
  function ReadLength(offset: u32, size: u32, len: nat): (r: nat)
    requires offset <= size
    ensures r <= len && offset + r <= size
    ensures r == len || offset + r == size
  {
    if len > size - offset then size - offset else len
  }

  /** What reading a region's backing file yields: an errno from filp_open or kernel_read, or its bytes. */
  datatype Backing = Failure(errno: nat) | Contents(bytes: seq<u8>)

  /**
   * file_read_exact: read len bytes at `offset` from the backing file of
   * `path`. -ENOENT without a path, the negated errno on failure, -EIO on a
   * short read; otherwise len and exactly the bytes [offset, offset + len).
   */
  function FileReadExact(path: Option<string>, backing: Backing, offset: nat, len: nat): (r: (int, seq<u8>))
    requires backing.Failure? ==> backing.errno > 0
    ensures r.0 >= 0 <==> path.Some? && backing.Contents? && (len == 0 || offset + len <= |backing.bytes|)
    ensures r.0 >= 0 ==> r.0 == len && |r.1| == len
    ensures r.0 >= 0 && len > 0 ==> r.1 == backing.bytes[offset..offset + len]
    ensures path.None? ==> r.0 == -ENOENT
    ensures path.Some? && backing.Failure? ==> r.0 == -(backing.errno as int)
    ensures path.Some? && backing.Contents? && len > 0 && offset + len > |backing.bytes| ==> r.0 == -EIO
  {
    if path.None? then (-ENOENT, [])
    else match backing
      case Failure(e) =>
        var code: int := e;
        (-code, [])
      case Contents(bytes) =>
        // kernel_read delivers what the file holds from `offset` on, up to len bytes
        var got := Memtap.PositionedRead(bytes, offset, len);
        if |got| != len then (-EIO, [])
        else
          assert len > 0 ==> got == bytes[offset..offset + len];
          (len, got)
  }

  /** The invariant of an open file: its offset lies inside its selected region (size 0 for an invalid one). */
  predicate OffsetInRegion(t: seq<RegionDesc>, selectedRegion: u32, offset: u32)
  {
    offset <= FirstSize(t, selectedRegion)
  }

  /** struct mmr_file_state. */
  class FileState {
    var selectedRegion: u32
    var offset: u32

    constructor (selectedRegion: u32)
      ensures this.selectedRegion == selectedRegion && offset == 0
    {
      this.selectedRegion := selectedRegion;
      offset := 0;
    }

    /**
     * mmr_llseek: on success the offset becomes the new position, which is
     * also the result; on -EINVAL the offset is unchanged.
     */
    method Llseek(dev: LoopbackDev, off: int, whence: int) returns (r: int)
      requires dev.Valid()
      modifies this
      ensures var target := SeekTarget(old(offset), FirstSize(dev.Table(), selectedRegion), off, whence);
        && (target.Some? ==> r == target.value && offset == target.value)
        && (target.None? ==> r == -EINVAL && offset == old(offset))
      ensures selectedRegion == old(selectedRegion)
      ensures OffsetInRegion(dev.Table(), selectedRegion, offset) || offset == old(offset)
      ensures old(OffsetInRegion(dev.Table(), selectedRegion, offset)) ==> OffsetInRegion(dev.Table(), selectedRegion, offset)
    {
      var size := dev.SizeForRegion(selectedRegion);
      if size == 0 {
        return -EINVAL;
      }
      var newpos: int;
      if whence == SEEK_SET {
        newpos := off;
      } else if whence == SEEK_CUR {
        newpos := offset + off;
      } else if whence == SEEK_END {
        newpos := size + off;
      } else {
        return -EINVAL;
      }
      if newpos < 0 {
        return -EINVAL;
      }
      if newpos > size {
        return -EINVAL;
      }
      offset := newpos;
      return newpos;
    }

    /**
     * mmr_read of up to `len` bytes. `backing` is the selected region's
     * backing file, `allocOk` the kmalloc outcome and `copyOk` the
     * copy_to_user outcome. On success the result is the clamped length,
     * the offset advances by exactly that much and the frame counter goes
     * up by one (a uint64_t); at the end of the region the result is 0 and
     * nothing changes; every failure leaves offset and counter unchanged.
     */
    method Read(dev: LoopbackDev, len: nat, backing: Backing, allocOk: bool, copyOk: bool) returns (r: int, data: seq<u8>)
      requires dev.Valid()
      requires backing.Failure? ==> backing.errno > 0
      modifies this, dev
      ensures dev.Valid() && dev.Table() == old(dev.Table())
      ensures dev.regions == old(dev.regions) && dev.regionCount == old(dev.regionCount)
      ensures dev.coreId == old(dev.coreId) && dev.mapVersion == old(dev.mapVersion)
      ensures dev.nesPath == old(dev.nesPath) && dev.snesPath == old(dev.snesPath) && dev.genPath == old(dev.genPath)
      ensures selectedRegion == old(selectedRegion)
      ensures var size := FirstSize(dev.Table(), selectedRegion);
        if size == 0 || dev.PathForRegion(selectedRegion).None? || old(offset) > size then
          r == -EINVAL && offset == old(offset) && dev.frameCounter == old(dev.frameCounter)
        else
          var n := ReadLength(old(offset), size, len);
          if n == 0 then r == 0 && data == [] && offset == old(offset) && dev.frameCounter == old(dev.frameCounter)
          else if !allocOk then r == -ENOMEM && offset == old(offset) && dev.frameCounter == old(dev.frameCounter)
          else
            var f := FileReadExact(dev.PathForRegion(selectedRegion), backing, old(offset), n);
            if f.0 < 0 then r == f.0 && offset == old(offset) && dev.frameCounter == old(dev.frameCounter)
            else if !copyOk then r == -EFAULT && offset == old(offset) && dev.frameCounter == old(dev.frameCounter)
            else
              && r == n && data == f.1 && offset == old(offset) + n
              && dev.frameCounter == (old(dev.frameCounter) + 1) % 0x1_0000_0000_0000_0000
      ensures r > 0 ==> offset == old(offset) + r && |data| == r
      ensures r <= 0 ==> offset == old(offset)
      ensures old(OffsetInRegion(dev.Table(), selectedRegion, offset)) ==> OffsetInRegion(dev.Table(), selectedRegion, offset)
    {
      data := [];
      var size := dev.SizeForRegion(selectedRegion);
      var path := dev.PathForRegion(selectedRegion);
      if size == 0 || path.None? {
        return -EINVAL, [];
      }
      if offset > size {
        return -EINVAL, [];
      }
      var n := len;
      if n > size - offset {
        n := size - offset;
      }
      if n == 0 {
        return 0, [];
      }
      if !allocOk {
        return -ENOMEM, [];
      }
      var f := FileReadExact(path, backing, offset, n);
      if f.0 < 0 {
        return f.0, [];
      }
      if !copyOk {
        return -EFAULT, [];
      }
      offset := offset + n;
      dev.frameCounter := (dev.frameCounter + 1) % 0x1_0000_0000_0000_0000;
      return n, f.1;
    }

    /**
     * The SELECT_REGION ioctl; `copyOk` is the copy_from_user outcome. A
     * valid id is selected with offset 0; otherwise -EINVAL (or -EFAULT)
     * and nothing changes.
     */
    method SelectRegion(dev: LoopbackDev, regionId: u32, copyOk: bool) returns (ret: int)
      requires dev.Valid()
      modifies this
      ensures !copyOk ==> ret == -EFAULT
      ensures copyOk ==> (ret == 0 <==> FirstSize(dev.Table(), regionId) != 0)
      ensures ret == 0 || ret == -EINVAL || ret == -EFAULT
      ensures ret == 0 ==> selectedRegion == regionId && offset == 0
      ensures ret != 0 ==> selectedRegion == old(selectedRegion) && offset == old(offset)
      ensures old(OffsetInRegion(dev.Table(), selectedRegion, offset)) ==> OffsetInRegion(dev.Table(), selectedRegion, offset)
    {
      if !copyOk {
        return -EFAULT;
      }
      var valid := dev.RegionIsValid(regionId);
      if !valid {
        return -EINVAL;
      }
      selectedRegion := regionId;
      offset := 0;
      return 0;
    }

    /**
     * The SEEK ioctl; `copyOk` is the copy_from_user outcome. The offset is
     * stored iff the selected region is valid and the offset does not
     * exceed its size; otherwise -EINVAL (or -EFAULT) and nothing changes.
     */
    method Seek(dev: LoopbackDev, reqOffset: u32, copyOk: bool) returns (ret: int)
      requires dev.Valid()
      modifies this
      ensures var size := FirstSize(dev.Table(), selectedRegion);
        ret == (if !copyOk then -EFAULT else if size == 0 || reqOffset > size then -EINVAL else 0)
      ensures selectedRegion == old(selectedRegion)
      ensures offset == if ret == 0 then reqOffset else old(offset)
      ensures ret == 0 ==> OffsetInRegion(dev.Table(), selectedRegion, offset)
      ensures old(OffsetInRegion(dev.Table(), selectedRegion, offset)) ==> OffsetInRegion(dev.Table(), selectedRegion, offset)
    {
      if !copyOk {
        return -EFAULT;
      }
      var size := dev.SizeForRegion(selectedRegion);
      if size == 0 {
        return -EINVAL;
      }
      if reqOffset > size {
        return -EINVAL;
      }
      offset := reqOffset;
      return 0;
    }
  }

  /**
   * mmr_open; `allocOk` is the kzalloc outcome (-ENOMEM when it fails).
   * A new file selects the first region of the table, or none when the
   * table is empty, at offset 0, which satisfies the invariant.
   */
  method Open(dev: LoopbackDev, allocOk: bool) returns (ret: int, st: Option<FileState>)
    requires dev.Valid()
    ensures allocOk <==> ret == 0
    ensures !allocOk ==> ret == -ENOMEM && st.None?
    ensures allocOk ==>
      && st.Some? && fresh(st.value) && st.value.offset == 0
      && st.value.selectedRegion == (if dev.regionCount > 0 then dev.regions[0].regionId else REGION_NONE)
      && OffsetInRegion(dev.Table(), st.value.selectedRegion, st.value.offset)
  {
    if !allocOk {
      return -ENOMEM, None;
    }
    var first := if dev.regionCount > 0 then dev.regions[0].regionId else REGION_NONE;
    var s := new FileState(first);
    return 0, Some(s);
  }

  /** A newly opened file satisfies the invariant (the partner of Open, for any table). */
  lemma OpenInRegion(t: seq<RegionDesc>)
    ensures OffsetInRegion(t, if |t| > 0 then t[0].regionId else REGION_NONE, 0)
  {
  }

  /** llseek never goes past the region: whatever SeekTarget accepts satisfies the invariant. */
  lemma SeekTargetInRegion(t: seq<RegionDesc>, selectedRegion: u32, offset: u32, off: int, whence: int)
    requires SeekTarget(offset, FirstSize(t, selectedRegion), off, whence).Some?
    ensures OffsetInRegion(t, selectedRegion, SeekTarget(offset, FirstSize(t, selectedRegion), off, whence).value)
  {
  }

  /** Reading from the end of a region returns 0; any read from inside it returns at least one byte if asked to. */
  lemma ReadLengthEnds(offset: u32, size: u32, len: nat)
    requires offset <= size
    ensures ReadLength(offset, size, len) == 0 <==> len == 0 || offset == size
  {
  }

  /** A backing file exactly as large as the region serves every in-bounds read in full. */
  lemma FullBackingReads(path: string, bytes: seq<u8>, offset: u32, size: u32, len: nat)
    requires offset <= size && |bytes| == size
    ensures var n := ReadLength(offset, size, len);
      FileReadExact(Some(path), Contents(bytes), offset, n) == (n, bytes[offset..offset + n])
  {
    var n := ReadLength(offset, size, len);
    var f := FileReadExact(Some(path), Contents(bytes), offset, n);
    assert f.0 == n;
    if n == 0 {
      assert f.1 == [] == bytes[offset..offset];
    }
  }

  /** A backing file shorter than the requested span makes the read fail with -EIO. */
  lemma ShortBackingFails(path: string, bytes: seq<u8>, offset: nat, len: nat)
    requires len > 0 && |bytes| < offset + len
    ensures FileReadExact(Some(path), Contents(bytes), offset, len).0 == -EIO
  {
  }
}
