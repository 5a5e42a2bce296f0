# A Dafny model of the mister-milestones memory tap and achievement daemon

mister-milestones splits into two parts.

- A kernel driver exposes the RAM of an emulated console (NES, SNES or Mega Drive/Genesis) as a character device: `/dev/mmr_memtap`.
- A user-space daemon reads that memory once per frame. It can feed the memory to an achievement engine built on the rcheevos runtime.

This project models the sequential logic of both parts and proves what each one promises:

- **Adapters** (`daemon/adapters.c`): the fixed core table (primary region and size per core) and the per-core address window. NES masks with `0x07FF`, which reproduces its mirroring.
- **Engine** (`daemon/engine.c`), in two parts:
  - the bounds-safe little-endian peek bridge;
  - the two-flag policy that decides whether the file-defined achievement set or the builtin set is active.

  The rcheevos runtime is an oracle that accepts or rejects each activation. Its reset empties the active set.
- **AchLoad / AchGrammar** (`daemon/ach_load.c`):
  - the line grammar `achievement <id> "<title>" <memaddr>`;
  - the loader that collects the definitions of the accepted lines in file order, in an array that starts at 16 slots and doubles;
  - the release of that array.

  AchGrammar holds the lemmas about this grammar: the round trip, the rejection cases and the file-level properties.
- **Memtap** (`daemon/memtap.c`): the `memtap_t` handle.
  - The mock backend is modelled in full.
  - The device backend is modelled only by the success or failure of each ioctl.
- **Loopback** (`kernel/module/mmr_memtap_loopback.c`):
  - the driver's global region table;
  - the per-open state (selected region, offset), changed by `llseek`, `read` and the SELECT_REGION/SEEK ioctls.

  The invariant "offset ≤ size of the selected region" is preserved by every one of these.
- **DaemonMain** (`daemon/main.c`):
  - `parse_core`;
  - the 32-bit rotating checksum;
  - the `--fps` parsing and the frame period;
  - the exit conditions of the poll loop.
- **Abi** (`kernel/mmr_memtap.h`): the ABI constants and records.

C's fixed-width unsigned integers are modelled by the subset types `u8`, `u32` and `u64`. Wrap-around is written out where the C code can wrap: the 64-bit frame counters and the 32-bit casts. The checksum is computed on `bv32` over `bv8` bytes; `DaemonMain.Bits8` converts a buffer of `u8` values, byte for byte, into that form. C strings are `string` values, with each `char` standing for one byte of the C string. Length limits such as the 511-byte mock directory therefore count characters, and a path of non-ASCII text would be cut elsewhere than in C, where it is cut by bytes.

`ra_peek` returns 0 for a read that straddles the end of the snapshot (`daemon/engine.c:21`); it does not return a partial value. `Engine.RaPeek` states this, and `Engine.PeekExamples` shows `peek(2, 4) == 0` on a four-byte snapshot.

## Model

| member | source | states |
|---|---|---|
| Adapters.AdapterGet | daemon/adapters.c:7-18 | A descriptor exists exactly for the NES, SNES and Genesis core ids. It echoes the core id and has a non-zero primary size. Ids 10/20/30 with sizes 0x800/0x20000/0x10000 come from the table. |
| Adapters.MaskIsMod | daemon/adapters.c:28 | `addr & 0x07FF` (C's `&`, computed bit by bit) equals `addr % 0x800`. |
| Adapters.Translate | daemon/adapters.c:22-50 | adapter_translate as an Option: NES takes addresses up to 0x1FFF to `Mask7FF(addr)`; Genesis takes addresses below 0x10000 and SNES below 0x20000 unchanged; any other core, or an address outside the window, gives None. The null out-pointer check is not modelled (there is no pointer). Its contract is stated by the five lemmas below. |
| Adapters.TranslateNes | daemon/adapters.c:26-31 | NES translation succeeds iff addr ≤ 0x1FFF, giving addr mod 0x800. 0x1FFF maps to 0x07FF and 0x2000 fails. |
| Adapters.NesMirroring | daemon/adapters.c:28 | Two NES addresses 0x800 apart, both in the window, translate to the same offset. |
| Adapters.TranslateGenesis | daemon/adapters.c:33-38 | Genesis translation is the identity below 0x10000 and fails from 0x10000. 0xFFFF maps to 0xFFFF. |
| Adapters.TranslateSnes | daemon/adapters.c:40-45 | SNES translation is the identity below 0x20000 and fails otherwise. |
| Adapters.TranslateUnknown | daemon/adapters.c:47-48 | Any other core id never translates. |
| Adapters.TranslateWithinPrimary | daemon/adapters.c:8-14 | A successful translation lies strictly below the primary size that adapter_get reports for the same core. |
| AchLoad.CStr | daemon/ach_load.c:42-43 | The characters a C function sees: the prefix before the first NUL, which contains no NUL. |
| AchLoad.TrimEnd | daemon/ach_load.c:16-23 | rstrip's result is a prefix of its input. It ends in a non-whitespace character or is empty, and only whitespace was removed. |
| AchLoad.RStrip | daemon/ach_load.c:16-23 | The loop that overwrites trailing whitespace leaves exactly `TrimEnd(s)`. |
| AchLoad.SkipSpace | daemon/ach_load.c:25-28 | lskip's index: everything skipped is whitespace, and it stops at the end or at a non-whitespace character. |
| AchLoad.LSkip | daemon/ach_load.c:25-28 | The pointer-walking loop stops at exactly `SkipSpace(s, i)`. |
| AchLoad.DigitsEnd | daemon/ach_load.c:58-60 | Where strtoul stops: the end of the maximal digit run. |
| AchLoad.QuoteEnd | daemon/ach_load.c:66-68 | The title scan stops at the first `"` or at the end of the line. |
| AchLoad.StrtoulU32 | daemon/ach_load.c:59-78 | Base-10 `strtoul` on a digit run, saturating at ULONG_MAX, then the `(uint32_t)` cast. A value below 2^32 is kept as written, and a value above ULONG_MAX gives 0xFFFFFFFF. |
| AchLoad.LineDef | daemon/ach_load.c:37-87 | The meaning of parse_line: drop everything from the first NUL, strip trailing whitespace, then parse with `ParseTrimmed`. `AchLoad.ParseLine` is proved equal to it and `AchGrammar.ParseRender` and `AchGrammar.LineDefWellFormed` state its grammar. |
| AchLoad.ParseTrimmed | daemon/ach_load.c:45-55 | Skip leading whitespace. Give None for an empty rest, a `#`, a `//`, or no `achievement` followed by whitespace. Otherwise parse the id after the whitespace that follows the keyword. |
| AchLoad.ParseId | daemon/ach_load.c:57-61 | None when no decimal digit is at p. Otherwise the id is `StrtoulU32` of the maximal digit run, and the title is looked for after the whitespace that follows it. |
| AchLoad.ParseTitle | daemon/ach_load.c:63-72 | None unless a `"` is at q and a second `"` follows. The title is the text between them, and the memaddr is looked for after the whitespace past the closing quote. |
| AchLoad.ParseMemaddr | daemon/ach_load.c:74-80 | None when nothing is left. Otherwise the definition holds the id, the title and the rest of the line as its memaddr. |
| AchLoad.ParseLine | daemon/ach_load.c:37-87 | parse_line's pointer walk, on a copy of the line, gives exactly the grammar's reading `LineDef(line)`. |
| AchLoad.ParseBuffer | daemon/ach_load.c:45-55 | Comment, blank and keyword checks on the trimmed buffer, as in `ParseTrimmed`. |
| AchLoad.ParseFields | daemon/ach_load.c:57-80 | Id, title and memaddr parsing from the index after the keyword, as in `ParseId`. |
| AchLoad.Accepted | daemon/ach_load.c:99-123 | The definitions of the accepted lines, in file order. There are never more than there are lines. |
| AchLoad.AcceptedStep | daemon/ach_load.c:99-122 | One more line adds its definition, if it parses, after those of the lines before it. |
| AchLoad.Append | daemon/ach_load.c:103-122 | When the array is full it grows to 16, then doubles its capacity. The new definition lands at index count, with the earlier ones kept. |
| AchLoad.LoadLine | daemon/ach_load.c:99-123 | One loop iteration keeps `items[..count] == Accepted(lines[..i])` and the capacity invariant. |
| AchLoad.LoadLines | daemon/ach_load.c:95-123 | The loop leaves exactly `Accepted(lines)` in a fresh array. The capacity is 0 for no definitions, else 16 or less than twice the count. |
| AchLoad.LoadFile | daemon/ach_load.c:90-129 | Succeeds iff the file opens. The list then holds `Accepted(lines)`; otherwise it is empty. |
| AchLoad.AchList.Free | daemon/ach_load.c:131-140 | After mmr_ach_free the list has no items and a count of 0. |
| AchGrammar.Dec | daemon/ach_load.c:58-59 | A decimal spelling of n: a non-empty digit run whose value is n. |
| AchGrammar.StrtoulDec | daemon/ach_load.c:59-78 | An id spelled in decimal reads back as itself through strtoul and the 32-bit cast. |
| AchGrammar.ParseRender | daemon/ach_load.c:37-87 | Round trip: every well-formed definition, written with any whitespace the grammar allows, parses back to itself. |
| AchGrammar.LineDefWellFormed | daemon/ach_load.c:64-80 | Every parsed definition has a quote-free title and a non-empty memaddr with no leading or trailing whitespace. |
| AchGrammar.ParseExample | daemon/ach_load.c:37-87 | `achievement 3 "Counter Hit 5" 0xH07ED=5_0xH07EE=0` parses to id 3, title `Counter Hit 5` and that memaddr, verbatim. |
| AchGrammar.BlankRejected | daemon/ach_load.c:47 | A whitespace-only line defines nothing. |
| AchGrammar.CommentRejected | daemon/ach_load.c:48-49 | A line whose first non-blank text is `#` or `//` defines nothing. |
| AchGrammar.KeywordUnseparated | daemon/ach_load.c:52-54 | `achievement` not followed by whitespace (`achievementX`, or a bare keyword) is rejected. |
| AchGrammar.IdMissing | daemon/ach_load.c:58-60 | A non-digit where the id should start rejects the line. For a `+` or `-` this is the model's restriction, not C's behaviour (see Left out). |
| AchGrammar.TitleMissing | daemon/ach_load.c:61-64 | After the id and its trailing whitespace, a character other than `"` rejects the line. This includes a digit after whitespace (`achievement 3 4 "t" m`). Without whitespace, a digit would still be part of the id. |
| AchGrammar.TitleUnterminated | daemon/ach_load.c:65-68 | A title without its closing quote rejects the line. |
| AchGrammar.MemaddrMissing | daemon/ach_load.c:72-75 | Nothing but whitespace after the title rejects the line. |
| AchGrammar.AcceptedAppend | daemon/ach_load.c:99-123 | Loading `a + b` keeps the definitions of a, then those of b. |
| AchGrammar.AcceptedSound | daemon/ach_load.c:99-123 | Every kept definition is well formed and is the parse of some line of the file. |
| AchGrammar.AcceptedComplete | daemon/ach_load.c:99-123 | Every line that parses has its definition kept. |
| AchGrammar.AcceptedGoodThenBad | daemon/ach_load.c:101 | A rejected line after an accepted one is skipped, so only the first line's definition is kept. |
| AchGrammar.CommentExample | daemon/ach_load.c:49 | `// achievement 9 "x" y` is skipped. |
| AchGrammar.FileExample | daemon/ach_load.c:90-129 | A file with the example line and a commented-out line loads exactly the example's definition. |
| Engine.LeValueBound | daemon/engine.c:18-24 | k little-endian bytes give a value below 2^(8k). |
| Engine.LeValueU32 | daemon/engine.c:18-24 | At most four bytes fit in a uint32_t. |
| Engine.LeValue | daemon/engine.c:22 | The little-endian value of a byte sequence: the first byte plus 256 times the value of the rest. `Engine.LeAcc` proves it is what the OR-shift loop accumulates, and `Engine.LeValueBound` bounds it. |
| Engine.LeSnoc | daemon/engine.c:22 | Appending a byte adds it in the next byte lane: `LeValue(q + [b]) == LeValue(q) + b * 2^(8|q|)`. |
| Engine.LeAcc | daemon/engine.c:22-23 | After i rounds of `v \|= p[i] << 8i` the accumulator holds the little-endian value of the first i bytes. |
| Engine.ReadLeSafe | daemon/engine.c:18-24 | 0 when fewer than n bytes are available; otherwise Σ p[i]·256^i over i < n, for n ≤ 4. |
| Engine.RaPeek | daemon/engine.c:26-35 | 0 for a null context or memory, and for an address at or past mem_len. A read straddling the end also gives 0. A read that fits gives the little-endian value of `mem[address..address+n]`. |
| Engine.PeekBound | daemon/engine.c:26-35 | A peek of n bytes is below 2^(8n). |
| Engine.PeekFrame | daemon/engine.c:21-34 | Two snapshots that agree on [address, address+n) give the same peek, so no other byte is read. |
| Engine.LeBytes | daemon/engine.c:18-24 | The encoder that partners the peek: n little-endian bytes. |
| Engine.LeBytesValue | daemon/engine.c:18-24 | Round trip: decoding the n-byte encoding of v < 2^(8n) gives v. |
| Engine.LeValueBytes | daemon/engine.c:18-24 | Round trip: encoding the value of p in |p| bytes gives back p. |
| Engine.PeekEncoded | daemon/engine.c:26-35 | A value stored little-endian at any position of a snapshot is read back by a peek there. |
| Engine.PeekExamples | daemon/engine.c:21-34 | On mem [1,2,3,4]: peek(2,4) is 0, peek(2,2) is 0x0403, peek(10,1) is 0. A null context gives 0. |
| Engine.ActivatePrefix | daemon/engine.c:162-170 | The builtin loop makes activations for a prefix of the list and reports success iff it made all of them. |
| Engine.ActivatePrefixStops | daemon/engine.c:163-168 | Every activation made was accepted. On failure, the next one was rejected by the runtime. |
| Engine.ActivateAll | daemon/engine.c:106-117 | The file loop keeps the earlier active set and counts what it adds. Every added activation comes from the list. |
| Engine.ActivateAllAccepted | daemon/engine.c:106-117 | If the runtime accepts everything, the whole list is activated in order. |
| Engine.ActivateAllRejected | daemon/engine.c:106-117 | If the runtime rejects everything, nothing is added and the count is 0. |
| Engine.NoBackendInert | daemon/engine.c:88 | Without the RA backend both loaders return true and change nothing. |
| Engine.BuiltinSkipped | daemon/engine.c:141-144 | With a file set loaded, or the builtins already loaded, load_builtin returns true and changes nothing. |
| Engine.BuiltinOnce | daemon/engine.c:144-145 | After one call, later calls are no-ops returning true, whatever the runtime does. This holds after a failed activation too. |
| Engine.BuiltinNonNes | daemon/engine.c:145-150 | A non-NES core sets builtins_loaded and returns true with nothing activated. |
| Engine.BuiltinNes | daemon/engine.c:145-170 | On NES the flag is set first. A prefix of the three builtins (ids 1, 2, 3 in order) is activated, and ok holds iff all three were. |
| Engine.BuiltinNesAccepted | daemon/engine.c:156-170 | With an accepting runtime, exactly the three builtin activations with their memaddrs are added. |
| Engine.BuiltinStep | daemon/engine.c:136-174 | engine_load_builtin as a state transition: with no RA backend, a loaded file, or builtins already loaded, the state is unchanged and the result is true. Otherwise builtins_loaded is set. A non-NES core then returns true; NES activates the three builtins in order, stops at the first rejection and returns whether all were accepted. The lemmas beside it state these cases. |
| Engine.FileRejected | daemon/engine.c:89-101 | A missing or empty path, a load failure or an empty list returns false with nothing reset or changed. |
| Engine.FileOutcome | daemon/engine.c:104-128 | After the reset, success holds iff some activation succeeded, and it sets file_loaded and clears builtins_loaded. Zero successes returns false with the flags unchanged but the runtime cleared. Every activation comes from the file. |
| Engine.FileAccepted | daemon/engine.c:104-128 | With an accepting runtime the active set becomes exactly the file's definitions, in order. |
| Engine.FileThenBuiltin | daemon/engine.c:126-144 | Once a file set is loaded, load_builtin is a no-op: the file set takes precedence. |
| Engine.FileStep | daemon/engine.c:86-129 | engine_load_ach_file as a state transition: with no RA backend the state is unchanged and the result is true. A null or empty path, a file that cannot be opened, or a file with no definitions gives false with no change. Otherwise the runtime is reset and every definition is tried. If none was activated the result is false with only the runtime changed; otherwise file_loaded is set, builtins_loaded is cleared and the result is true. The lemmas beside it state these cases. |
| Engine.FrameContext | daemon/engine.c:176-183 | do_frame passes the snapshot to the runtime only with the RA backend and a non-null, non-empty snapshot. |
| Engine.Engine.LoadBuiltin | daemon/engine.c:136-174 | The imperative loader, with its early return, changes the state and returns exactly what `BuiltinStep` gives. |
| Engine.Engine.LoadAchFile | daemon/engine.c:86-129 | The imperative loader (load, free, reset, loop, free) changes the state and returns exactly what `FileStep` gives. |
| Engine.ActivateList | daemon/engine.c:106-117 | The counting loop over the loaded list yields exactly `ActivateAll` from an empty runtime. |
| Engine.PrefixStops | daemon/engine.c:164-167 | Once an activation fails, the later entries are never tried. |
| Engine.EngineInit | daemon/engine.c:59-74 | On a successful allocation, a fresh engine with both flags clear and an empty runtime; None otherwise. |
| Memtap.MockTablesAgree | daemon/memtap.c:12-28 | mock_file_for_region is non-NULL, and default_region_size non-zero, exactly for ids 10/20/30. |
| Memtap.MockFileForRegion | daemon/memtap.c:12-19 | The mock file name for regions 10, 20 and 30 (`nes_cpu_ram.bin`, `snes_wram.bin`, `gen_68k_ram.bin`), None for any other region. `Memtap.MockTablesAgree` relates it to the size table. |
| Memtap.DefaultRegionSize | daemon/memtap.c:21-28 | The mock size for regions 10, 20 and 30 (0x800, 0x20000, 0x10000), 0 for any other region. |
| Memtap.MockRegion | daemon/memtap.c:52-67 | A region exists exactly for the three cores: a known id, the SNAPSHOT flag and the default size. |
| Memtap.MockRegionMatchesAdapter | daemon/memtap.c:52-63 | The mock region of each core is its adapter's primary region with the primary size. |
| Memtap.MockDirCopy | daemon/memtap.c:48-49 | The stored mock directory is the first 511 characters of the argument at most. A shorter argument is kept whole. |
| Memtap.PositionedRead | daemon/memtap.c:193-205 | A read at an offset returns the file's bytes from that offset: len of them, or as many as remain, or none past the end. |
| Memtap.Memtap.Clear | daemon/memtap.c:44 | The memset: every field zeroed and the region table emptied. |
| Memtap.Memtap.OpenDevice | daemon/memtap.c:30-41 | The handle is cleared in device mode and keeps the descriptor. It succeeds iff open succeeded. |
| Memtap.Memtap.OpenMock | daemon/memtap.c:43-73 | Succeeds iff the core is NES, SNES or Genesis. The table then holds exactly its one region, which is selected; otherwise it is empty. Offset and frame counter are 0. |
| Memtap.Memtap.Close | daemon/memtap.c:75-81 | Only the descriptor changes (to -1). |
| Memtap.Memtap.GetInfo | daemon/memtap.c:83-101 | Mock: abi 1, the mock core, map version 1, the region count and the frame counter, with nothing changed. Device: the ioctl's answer. |
| Memtap.Memtap.GetRegions | daemon/memtap.c:103-126 | The device count is clamped to 16. Mock returns its own table and count. |
| Memtap.Memtap.SelectRegion | daemon/memtap.c:128-151 | Mock succeeds iff the id is in the table; device iff the ioctl succeeds. Success selects the region and resets the offset to 0. Failure changes nothing. |
| Memtap.Memtap.Seek | daemon/memtap.c:153-169 | Mock always succeeds and stores the offset without a bound check. Device stores it only when the ioctl succeeds. |
| Memtap.Memtap.Read | daemon/memtap.c:171-206 | Mock reads the selected region's file at the stored offset and returns the count of bytes delivered; an unknown region or a failed open gives -1. Device returns the read's count and bytes, or -1 on error. |
| Memtap.Memtap.WaitFrame | daemon/memtap.c:208-224 | Mock bumps the frame counter by exactly 1 (mod 2^64) and returns true. Device only reports the ioctl. |
| Memtap.MockSession | daemon/memtap.c:43-224 | A NES mock session: a foreign region id is refused, region 10 is accepted, and after one wait the info reads frame 1. |
| Loopback.InitTableShape | kernel/module/mmr_memtap_loopback.c:364-395 | mmr_init appends NES, SNES, Genesis in that order, only for configured paths, with distinct ids, the SNAPSHOT flag and sizes 2048/131072/65536. The count is at most 3 ≤ 16 and is 0 iff no path is set. |
| Loopback.InitTable | kernel/module/mmr_memtap_loopback.c:364-395 | The region table mmr_init builds: a NES entry of 2048 bytes, then SNES of 131072, then Genesis of 65536, each SNAPSHOT and present only when its path is configured. `Loopback.InitTableShape` states its shape. |
| Loopback.RegionIds | kernel/module/mmr_memtap_loopback.c:67-75 | The ids of a region table, position by position. |
| Loopback.FirstSize | kernel/module/mmr_memtap_loopback.c:67-75 | The size of the first entry with the id, or 0 when no entry has it. |
| Loopback.InitRegionValid | kernel/module/mmr_memtap_loopback.c:364-395 | After init a region is valid exactly when its path was configured, and its size is the fixed one. |
| Loopback.LoopbackDev.Init | kernel/module/mmr_memtap_loopback.c:353-405 | Builds exactly `InitTable` for the configured paths with core NES. Zero regions gives -EINVAL; otherwise the result of registration. |
| Loopback.LoopbackDev.SizeForRegion | kernel/module/mmr_memtap_loopback.c:67-75 | The loop over the first region_count entries returns `FirstSize` of the table. |
| Loopback.LoopbackDev.RegionIsValid | kernel/module/mmr_memtap_loopback.c:77-80 | Valid iff size_for_region is non-zero. |
| Loopback.LoopbackDev.GetInfo | kernel/module/mmr_memtap_loopback.c:238-253 | The info record (abi 1, core, map version, count, frame counter), or -EFAULT when the copy fails. |
| Loopback.LoopbackDev.GetRegions | kernel/module/mmr_memtap_loopback.c:255-266 | All 16 descriptors, whose first region_count entries are the table, or -EFAULT. |
| Loopback.SeekTarget | kernel/module/mmr_memtap_loopback.c:146-168 | The new position from SET/CUR/END. None for an invalid region, an unknown whence, or a result < 0 or > size. |
| Loopback.ReadLength | kernel/module/mmr_memtap_loopback.c:194-199 | len clamped to size − offset: it is len itself, or it reaches the end of the region. |
| Loopback.FileReadExact | kernel/module/mmr_memtap_loopback.c:82-109 | -ENOENT without a path, the backing's error when it fails, -EIO on a short read. Otherwise exactly len bytes from the offset. |
| Loopback.FileState.Llseek | kernel/module/mmr_memtap_loopback.c:139-169 | offset := the SeekTarget position, or -EINVAL with the offset unchanged. The offset-in-region invariant is kept. |
| Loopback.FileState.Read | kernel/module/mmr_memtap_loopback.c:171-228 | Error cases in source order (-EINVAL, 0 at the end, -ENOMEM, the backing's error, -EFAULT) leave offset and frame counter unchanged. Success returns the clamped count of backing bytes, advances the offset by it and bumps the counter by 1. The invariant is kept. |
| Loopback.FileState.SelectRegion | kernel/module/mmr_memtap_loopback.c:268-287 | An unknown id gives -EINVAL and changes nothing. A known id is selected with offset 0. The invariant is kept. |
| Loopback.FileState.Seek | kernel/module/mmr_memtap_loopback.c:289-310 | An offset beyond the region's size, or an invalid region, gives -EINVAL; otherwise the offset is stored. The invariant is kept. |
| Loopback.Open | kernel/module/mmr_memtap_loopback.c:113-129 | -ENOMEM on allocation failure. Otherwise the first region (or NONE) is selected with offset 0, which satisfies the invariant. |
| Loopback.OpenInRegion | kernel/module/mmr_memtap_loopback.c:122-124 | Offset 0 on the first region (or on NONE) satisfies the invariant. |
| Loopback.SeekTargetInRegion | kernel/module/mmr_memtap_loopback.c:162-168 | Every position llseek accepts lies within the selected region. |
| Loopback.ReadLengthEnds | kernel/module/mmr_memtap_loopback.c:194-199 | The clamped length is 0 exactly for len 0 or an offset at the end. |
| Loopback.FullBackingReads | kernel/module/mmr_memtap_loopback.c:82-209 | A backing file of the region's full size always satisfies a clamped read, with the bytes at the offset. |
| Loopback.ShortBackingFails | kernel/module/mmr_memtap_loopback.c:105-106 | A backing file too short for the request gives -EIO. |
| DaemonMain.ParseCore | daemon/main.c:24-32 | `nes`→1, `snes`→2, `genesis`/`gen`/`md`→3 (each iff), anything else or NULL→0. |
| DaemonMain.StepIsRotate | daemon/main.c:37 | `(x<<5) ^ (x>>27) ^ b` in 32 bits is a rotate left by 5, then an xor with b. |
| DaemonMain.UnstepStep | daemon/main.c:37 | Each round can be inverted given the byte. |
| DaemonMain.ChecksumEmpty | daemon/main.c:35 | The empty buffer checksums to 0x12345678. |
| DaemonMain.Checksum | daemon/main.c:34-40 | The checksum of a buffer: the rounds of `Step` over every byte, first byte first, from 0x12345678. The lemmas around it state its fold structure and its sensitivity to every byte. |
| DaemonMain.FoldAppend | daemon/main.c:36-38 | The checksum of a + b continues from the checksum state after a. |
| DaemonMain.ChecksumSnoc | daemon/main.c:36-38 | A left fold: checksum(a + [b]) == step(checksum(a), b). |
| DaemonMain.FoldInjective | daemon/main.c:36-38 | Different states stay different through any bytes. |
| DaemonMain.StepInjectiveByte | daemon/main.c:37 | Different bytes give different states after one round. |
| DaemonMain.SingleByteChange | daemon/main.c:34-40 | Changing any single byte of a buffer changes its checksum. |
| DaemonMain.SimpleChecksum | daemon/main.c:34-40 | The loop computes `Checksum(buf[..n])`. |
| DaemonMain.DigitsStart | daemon/main.c:55 | Where atoi starts reading digits: after white space and an optional sign. |
| DaemonMain.Atoi | daemon/main.c:56 | atoi: skip isspace whitespace and one optional sign, then read the longest digit run. The result is its value, negated after a `-`, and 0 when there are no digits. A value outside the range of int is kept as the mathematical value (see the `DaemonMain.FpsFromArg` line under Left out). `DaemonMain.FpsNonNumeric` and `DaemonMain.FpsDecimal` state its cases. |
| DaemonMain.FpsFromArg | daemon/main.c:55-57 | `(uint32_t)atoi(arg)`, with 0 replaced by 60: never 0. |
| DaemonMain.FpsNonNumeric | daemon/main.c:55-57 | An argument without a digit where atoi looks for one gives 60. |
| DaemonMain.FpsDecimal | daemon/main.c:55-57 | A decimal rate n is taken as written, and "0" gives 60. |
| DaemonMain.FrameMs | daemon/main.c:111-112 | 1000/fps for 1 ≤ fps ≤ 1000 (the largest r with r·fps ≤ 1000), 1 above 1000, 16 for fps 0. Always ≥ 1. |
| DaemonMain.PollReports | daemon/main.c:114-128 | The reports of the loop never outnumber its iterations. |
| DaemonMain.PollStopsAtFirstFailure | daemon/main.c:117-124 | If iteration k is the first whose get_info, seek or read fails, exactly the k before it are reported. Each report carries its frame counter and the checksum of exactly the bytes read. |
| DaemonMain.PollAllReported | daemon/main.c:117-124 | Without a failure every iteration is reported. |
| DaemonMain.PollLoop | daemon/main.c:114-128 | The loop's reports are exactly `PollReports` of the iterations it sees. |

## Left out

- Null pointers: the checks on `eng`, `mt`, `list`, `out`, `st`, `ctx` and similar are not modelled, because Dafny references are never null. A missing string or a missing memory snapshot is an `Option`.
- `v |= p[i] << 8*i` in read_le_safe is modelled as a bitwise OR on naturals (`Bits.BitOr`), proved equal to addition on disjoint byte lanes.
- `Engine.ReadLeSafe`: requires n ≤ 4. A larger n shifts past the width of uint32_t, which is undefined in C.
- rcheevos internals are not modelled: trigger parsing and evaluation, how it handles a duplicate id, `rc_error_str`, and `rc_runtime_do_frame`. The runtime is an oracle over the current active sequence.
- `engine_do_frame` is modelled only up to its guard (`Engine.FrameContext`).
- `ra_event_handler` and every `fprintf`/`printf`/`notify` call only print, so they are not modelled.
- `engine_destroy` only frees memory, so it is not modelled.
- `rc_runtime_init` in `engine_init` is part of the foreign runtime. The engine starts with an empty active set.
- ach_load: `fgets` reads lines of at most 2047 characters, and `strncpy` truncates the copy to 2047 characters. The model takes each line of the file as given.
- AchLoad.ParseId: the model accepts only an unsigned decimal digit run as the id. C's base-10 `strtoul` also accepts a leading `+` or `-` (a negative value wraps mod 2^64 before the 32-bit cast), so `achievement +5 "t" m` and `achievement -1 "t" m` define ids 5 and 0xFFFFFFFF in C but are rejected here (and `AchGrammar.IdMissing` covers such lines). Values beyond ULONG_MAX saturate, as in C. ULONG_MAX is taken as 2^64 − 1, as on an LP64 platform. With a 32-bit `unsigned long`, an id between 2^32 and 2^64 would read as 0xFFFFFFFF rather than as its value mod 2^32.
- ach_load: `malloc`/`realloc`/`strdup` failure paths are not modelled, so the loader always has memory.
- Device-mode memtap: `open`, `ioctl`, `read` and `close` are system calls. Their outcomes are parameters (`openFd`, `ioctlOk`, `deviceInfo`, `deviceTable`, `deviceRead`), and only their effect on the handle is modelled.
- The mock file read in `memtap_read`: `open`/`lseek`/`read` on the file named by the mock directory and region. The file's contents (or the failure to open it) are a parameter, and the read is `Memtap.PositionedRead` at the stored offset. An `lseek` or `read` that fails after a successful `open` (the C code then returns -1) is not modelled: an opened mock file always yields its bytes.
- `Memtap.Memtap.WaitFrame`: `timeout_ms` and the blocking of the device ioctl are not modelled, only the success of the call.
- Loopback: the mutex, the wait queue, `wait_event_interruptible` (WAIT_FRAME) and `mmr_release` are not modelled. These are concurrency and memory management.
- Loopback: `copy_to_user`/`copy_from_user` success and `kmalloc` success are parameters. Misc-device registration is a result parameter of `Loopback.LoopbackDev.Init`, and `mmr_exit` is not modelled.
- Loopback: `filp_open`/`kernel_read` of the backing file are modelled as a `Backing` value: either the bytes of the file or an error number.
- The ioctl dispatcher's `-ENOTTY` default is not modelled.
- `loff_t` arithmetic in llseek is on mathematical integers. With a 32-bit offset and size, the 64-bit signed sum cannot overflow except for an `off` near the limits of loff_t, which the model does not bound.
- main.c: the argv loop, the usage text and the startup sequence (open, get_info, adapter_get, select, malloc) are plumbing and are not modelled.
- main.c: `sleep_ms` and `memtap_wait_frame` inside the loop are not modelled. The loop's iterations are a finite script of outcomes (`DaemonMain.Tick`) instead of the memtap calls, and `DaemonMain.PollLoop` requires each read to be shorter than 2^32 bytes, which the checksum's `(uint32_t)r` needs.
- `DaemonMain.FpsFromArg`: atoi's result outside the range of int is taken as its mathematical value mod 2^32 (C leaves it undefined).
- daemon/memsrc.h and daemon/memsrc_memtap.c only forward to memtap, so they are not modelled.
- daemon/notify.c and daemon/util.c (logging, clock, sleep) are not part of this model.
- tools/mock_poke.py is not part of this model.
- kernel/mra_memtap.h is an unused duplicate of the ABI and is not part of this model.
