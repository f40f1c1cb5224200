# puregobpf loader core in Dafny

This project models the part of the puregobpf Go loader that turns a compiled
eBPF object file into programs the kernel can load:

- decoding the 8-byte `bpfInsn` records of a program section;
- decoding the 28-byte map descriptors of the "maps" section;
- creating one kernel map per descriptor;
- choosing the SHT_REL section related to a program section;
- extracting its ELF64 `Rel64` records;
- patching each named instruction with `SetSrcReg(1)` (BPF_PSEUDO_MAP_FD) and `SetImm(int32(fd))`;
- the `BpfLoadProg` loop, which fills the caller's `sectionNameToFd` and `mapNameToFd` tables.

It also models the errno classification of the `BpfCreateMap`,
`BpfMapLookupElem` and `BpfMapGetNextKey` wrappers.

## Layout

- `wrappers.dfy`: `Option` and `Result`.
- `bits.dfy`: Go's fixed-width integers and conversions (`int16(x)`, `int32(x)`, `int(r1)`). It also holds the uint8 `&`, `|` and `<<` used by `SetSrcReg`, and small arithmetic lemmas.
- `little_endian.dfy`: `binary.LittleEndian`, plus `binary.Read` into a slice of fixed-size records (`DecodeRecords`).
- `bpf_insn.dfy`: the `bpfInsn` record, `SetSrcReg` and `SetImm` as methods on an array slot, and the 8-byte layout.
- `elf.dfy`: the parsed object file as `debug/elf` presents it: sections (name, type, info, data) and the symbol list.
- `faults.dfy`: the loader's errors and its run-time panics.
- `syscalls.dfy`: the errno classification of the three syscall wrappers.
- `maps.dfy`: `bpfLoadMapsData` and `bpfCreateMaps`.
- `sections.dfy`: `getBpfInsnsFromSection`, `getElfRelocSections` and `getElfRelatedRelocSection`.
- `relocations.dfy`: `getBpfRelocationsFromSection` and `doBpfMapRelocation`.
- `loader.dfy`: `BpfLoadProg`. It is a specification function `LoadProg` with its lemmas, and an imperative method `BpfLoadProg` on a class `FdMaps` that holds the caller's two maps. The method is proved to end in the state and outcome that `LoadProg` describes.

The loader's imperative code keeps its form:

- `doBpfMapRelocation` patches an `array<Insn>` in place through the two setters.
- `bpfCreateMaps`, `getElfRelocSections`, `getElfRelatedRelocSection` and `getBpfRelocationsFromSection` are loops.
- `BpfLoadProg` writes into the fields of `FdMaps`.

Each of these is proved equal to a function that states the same computation. The properties are proved as lemmas about that function.

A Go run-time panic (an index out of range) is modelled as the result `Failed(Panic(cause))`. The kernel is an input:

- map creation is a function from the call number and the five attributes passed to `BpfCreateMap` to the reply `(r1, errno)`;
- program load is a function from the call number, the instructions and the license bytes to the reply.

## Model

| member | source | states |
|---|---|---|
| BpfInsn.RegsWithSrc | bpf_insn.go:47-51 | The Regs byte written by SetSrcReg has `value mod 16` as its source register (the uint8 shift drops the high bits). Its destination register is the old one. |
| BpfInsn.SetSrcRegIdempotent | bpf_insn.go:47-51 | Setting the same source register twice gives the same Regs byte as setting it once. |
| BpfInsn.SetSrcReg | bpf_insn.go:47-51 | On slot i, only Regs changes: to the byte above. Code, Offset, Imm and every other slot are unchanged. |
| BpfInsn.SetImm | bpf_insn.go:53-55 | On slot i, only Imm changes, to the value given. Every other field and slot is unchanged. |
| BpfInsn.DecodeInsn | bpf_insn.go:40-45 | `binary.Read` of one 8-byte slot: the Code and Regs bytes, then a little-endian int16 Offset and int32 Imm. Its properties are DecodeEncodeInsn and EncodeDecodeInsn. |
| BpfInsn.EncodeInsn | bpf_insn.go:40-45 | The field widths 1+1+2+4 add up to the 8 bytes of bpfInsnLen. |
| BpfInsn.DecodeEncodeInsn | bpf_insn.go:40-45 | Every instruction survives encoding to 8 little-endian bytes and decoding unchanged. |
| BpfInsn.EncodeDecodeInsn | bpf_insn.go:40-45 | Every 8-byte slot is the encoding of the one instruction decoded from it. So slots and records correspond one to one. |
| Bits.ToInt32 | bpf.go:481 | `int32(fd)` is the unique int32 congruent to fd modulo 2^32. |
| Bits.ToInt64 | bpf.go:93 | `int(r1)` is the unique int64 congruent to r1 modulo 2^64. |
| LittleEndian.DecodeRecordAt | bpf.go:427 | `binary.Read` into n records: record i is decoded from bytes [w*i, w*i+w). |
| LittleEndian.DecodeRecordsAt | bpf.go:427 | The same, for every record at once. |
| LittleEndian.DecodeRecordsPrefix | bpf.go:448 | Bytes after the last record read do not change the records. |
| LittleEndian.DecodeLeWords | bpf.go:318-326 | Consecutive little-endian uint32 fields read back as written. |
| LittleEndian.LeWordsOfDecode | bpf.go:318-326 | Writing back the uint32 fields read from 4n bytes gives those bytes. |
| Elf.FindSection | bpf.go:409-413 | `f.Section(name)` is the first section with that name, or nil when there is none. |
| Sections.DecodeInsns | bpf.go:423-427 | A byte string of 8k bytes decodes to exactly k instructions. |
| Sections.GetBpfInsnsFromSection | bpf.go:408-433 | A missing section is an error. A length that is not a multiple of 8 is an error. Otherwise there are len/8 instructions, and instruction i is the decoding of bytes [8i, 8i+8). |
| Sections.DecodeEncodeInsns | bpf.go:419-432 | Every program survives encoding and decoding unchanged. |
| Sections.EncodeDecodeInsns | bpf.go:419-432 | Every byte string whose length is a multiple of 8 is the encoding of the program decoded from it. |
| Sections.RelocSectionsUpTo | bpf.go:394-404 | The result holds exactly the SHT_REL sections among the first n, in strictly increasing (table) order. |
| Sections.GetElfRelocSections | bpf.go:394-404 | The loop returns exactly the SHT_REL sections, in table order. |
| Sections.RelatedRelocSection | bpf.go:379-390 | `getElfRelatedRelocSection` as a function: a chosen section is always an index into the section table. Its properties are RelatedRelocSectionChoice, and GetElfRelatedRelocSection computes it. |
| Sections.RelatedFromPanics | bpf.go:383-387 | The scan panics exactly when some relocation section's Info indexes past the section table. |
| Sections.RelatedFromChoice | bpf.go:383-387 | A scan that finishes keeps the last relocation section related to the name, or the match it started with. |
| Sections.RelatedRelocSectionChoice | bpf.go:379-390 | getElfRelatedRelocSection panics exactly when an SHT_REL Info is out of range. Otherwise it returns the LAST SHT_REL section whose Info names the section, or nil exactly when none does. |
| Sections.GetElfRelatedRelocSection | bpf.go:379-390 | The loop computes that choice. |
| Maps.DecodeElfMap | bpf.go:318-326 | One descriptor: seven little-endian uint32 fields in declaration order. Its properties are DecodeEncodeElfMap and EncodeDecodeElfMap. |
| Maps.DecodeEncodeElfMap | bpf.go:318-328 | Every descriptor survives its 28-byte little-endian encoding. |
| Maps.EncodeDecodeElfMap | bpf.go:318-328 | Every 28-byte record is the encoding of the descriptor decoded from it. |
| Maps.BpfLoadMapsData | bpf.go:332-357 | No "maps" section gives no maps and no error. A "maps" section that is not SHT_PROGBITS is the only error. Otherwise there are floor(len/28) descriptors, and descriptor i is the decoding of bytes [28i, 28i+28). |
| Maps.TrailingBytesIgnored | bpf.go:343-351 | Bytes after the last whole descriptor do not change the descriptors. |
| Maps.FixtureDescriptorDecodes | bpf/simple_map.c:38-44 | The fixture's hash map (key 8, value 16, 256 entries, id 0) decodes as declared. |
| Maps.CreateMaps | bpf.go:362-375 | `bpfCreateMaps` as a function of the kernel's replies. Only Type, SizeKey, SizeValue, MaxElem and Flags reach the kernel (bpf.go:366). Its properties are CreateMapsAllOrNothing and CreateMapsIgnoresIdPinning. |
| Maps.CreateMapsIgnoresIdPinning | bpf.go:366 | Map creation ignores `Id` and `Pinning`: two descriptor lists that agree on the other five fields give the same fds, the same error and the same number of calls. |
| Maps.CreateMapsAllOrNothing | bpf.go:362-375 | Either every creation succeeds and the fds come back in descriptor order, or the first refused creation ends the loop with its error and no fds, and no later descriptor is attempted. |
| Maps.BpfCreateMaps | bpf.go:362-375 | The loop computes that result and that number of calls. |
| Relocations.DecodeRel64 | bpf.go:446-448 | One ELF64 `Rel64` record: two little-endian uint64, Off then Info. Its properties are DecodeEncodeRel64 and EncodeDecodeRel64, and RelocationRecords places it in the section. |
| Relocations.DecodeEncodeRel64 | bpf.go:446-448 | Every record survives its 16-byte little-endian encoding (Off, then Info). |
| Relocations.EncodeDecodeRel64 | bpf.go:446-448 | Every 16 bytes are the encoding of the record decoded from them. So records and 16-byte slots correspond one to one. |
| Relocations.RelocationOf | bpf.go:456-467 | One record becomes one relocation, or the symbol-list error, or the panic of `syms[symIdx-1]`. Its properties are in RelocationsExtracted. |
| Relocations.MapRelocations | bpf.go:453-472 | The relocations of all records, in order, stopping at the first error. Its properties are RelocationsExtracted, and GetBpfRelocationsFromSection computes it. |
| Relocations.RelocationRecords | bpf.go:444-448 | A relocation section holds floor(len/16) records, and record i is the two little-endian uint64 (Off, Info) at bytes [16i, 16i+16). |
| Relocations.RelocationsExtracted | bpf.go:443-473 | Without a symbol table, a non-empty section is an error. A symbol index of 0 or past the list panics. Otherwise there is one relocation per record, in order, with insnIdx = Off/8, value = sym.Value/28 and name = sym.Name for sym = syms[(Info>>32)-1]. |
| Relocations.GetBpfRelocationsFromSection | bpf.go:443-473 | The loop computes that list. |
| Relocations.Relocated | bpf.go:476-485 | `doBpfMapRelocation` on a value: each relocation in order patches its instruction. Its properties are RelocatedUntouched, RelocatedKeepsFields, RelocatedLastWins and RelocatedAt, and DoBpfMapRelocation computes it in place. |
| Relocations.PatchInsn | bpf.go:479-481 | A patched instruction has source register 1 and immediate int32(fd), and keeps its opcode, offset and destination register. |
| Relocations.RelocatedUntouched | bpf.go:478-482 | An instruction that no relocation names is unchanged. |
| Relocations.RelocatedKeepsFields | bpf.go:478-482 | Relocation never changes an opcode, an offset or a destination register. |
| Relocations.RelocatedHeadLast | bpf.go:478-482 | A relocation that no later one overrides leaves source register 1 and its fd in its instruction (first-relocation case). |
| Relocations.RelocatedLastWins | bpf.go:478-482 | The last relocation naming an instruction decides its source register (1) and its immediate, int32(mapFds[value]). |
| Relocations.RelocatedAt | bpf.go:476-485 | Only the named instructions change. A named instruction gets source register 1 and the fd of the last relocation naming it, and keeps its Code, Offset and destination register. |
| Relocations.DoBpfMapRelocation | bpf.go:476-485 | Patching the array in place through the two setters yields exactly that relocated sequence, and the function returns nil. |
| Syscalls.BpfCreateMap | bpf.go:80-93 | Any errno is an error: ENOMEM, EPERM and EINVAL each get their own, every other errno is "unknown". Without an errno the fd is int(r1). |
| Syscalls.BpfMapLookupElem | bpf.go:134-145 | Found exactly when int64(r1) is 0. A non-zero result with ENOENT is a silent miss; any other non-zero result is an error carrying the errno. |
| Syscalls.BpfMapGetNextKey | bpf.go:184-198 | Found exactly when there is no errno. ENOENT is the end of iteration without an error; every other errno is an error. |
| Syscalls.LookupMissIsSilent | bpf_test.go:220-228 | A lookup of a missing key returns (false, nil). |
| Syscalls.LookupAgreesWithNextKey | bpf.go:137-145 | For replies that follow the kernel's return convention, the lookup wrapper (which tests r1) and the next-key wrapper (which tests errno) classify alike. |
| Syscalls.LookupDiffersWithoutConvention | bpf.go:137-145 | Without that convention, the two wrappers classify the same reply differently. |
| Loader.RecordMapFds | bpf.go:279-281 | `mapNameToFd[reloc.name] = mapFds[reloc.value]` for each relocation in order. Its properties are RecordMapFdsGrows and RecordMapFdsAt, and RecordMapNames computes it in place. |
| Loader.RecordMapFdsGrows | bpf.go:279-281 | The map-name loop never removes a name. |
| Loader.RecordMapFdsAt | bpf.go:279-281 | After the loop, a name no relocation carries is as before. A carried name maps to the fd of the LAST relocation carrying it. |
| Loader.RecordMapNames | bpf.go:279-281 | The loop writes exactly that into the caller's mapNameToFd and leaves sectionNameToFd alone. |
| Loader.PrepareSection | bpf.go:254-282 | The first part of the loop body: decode, find the relocation section, relocate, record the map names. Its properties are MapsNeedRelocations, PrepareSectionGrowsMapNames and ProgramUsesRecordedFd, and PrepareSectionInPlace computes it in place. |
| Loader.Submit | bpf.go:284-310 | The rest of the loop body: the `&insns[0]` and `&licenseData[0]` panics, the kernel's verdict, and the write of `int(r1)` under the section's name. Its properties are in LoadSectionWrites. |
| Loader.LoadSection | bpf.go:253-311 | One iteration of the section loop: PrepareSection, then Submit. Its properties are LoadSectionWrites, LoadSectionStepWrites, LoadSectionGrowsMapNames and LoadSectionNeedsRelocation. |
| Loader.MapsNeedRelocations | bpf.go:260-263 | In a file that defines maps, a section without a related relocation section is an error. |
| Loader.PrepareSectionGrowsMapNames | bpf.go:265-282 | Preparing a section never removes a map name. |
| Loader.ProgramUsesRecordedFd | bpf.go:272-281 | Take a relocation that is the last to name its instruction, where every relocation carrying its map name also carries its map slot. This holds when name and slot come from one symbol (bpf.go:465-467), and the map may be used at any number of instructions. The instruction handed to the kernel has source register 1, and its immediate is int32 of the fd recorded under that map name. |
| Loader.LoadSectionWrites | bpf.go:292-310 | sectionNameToFd is written only after the kernel accepts the program, only under the section's name, and with int(r1). A refusal names the section and carries the errno. Every other ending leaves the table as it was. |
| Loader.LoadSectionStepWrites | bpf.go:253-311 | One iteration keeps to those rules, and never removes a map name. |
| Loader.LoadSectionGrowsMapNames | bpf.go:253-311 | One iteration never removes a map name. |
| Loader.LoadSectionNeedsRelocation | bpf.go:261-263 | With maps defined, an iteration goes on only for a section that has a related relocation section. |
| Loader.Loop | bpf.go:253-313 | `for _, section := range sections` over any loop body. Its properties are LoopStops, LoopTables and LoopOnlyIf. |
| Loader.LoopStops | bpf.go:253-313 | The loop ends at the first section whose iteration fails, or after the last section. It succeeds exactly when it got through every section. A verifier refusal names the section it stopped at. |
| Loader.LoopTables | bpf.go:253-311 | The keys of sectionNameToFd after the loop are the old keys plus the sections loaded. Other entries keep their fds. No map name is removed. |
| Loader.LoopOnlyIf | bpf.go:253-311 | Every section the loop got through passed the body's gate. |
| Loader.LoadProg | bpf.go:217-314 | `BpfLoadProg` on the parsed file: the license, the map data, map creation, then the section loop. Its properties are LoadProgOutputs, and the method BpfLoadProg computes it. |
| Loader.LoadProgOutputs | bpf.go:217-314 | See the list below this table. |
| Loader.PrepareSectionInPlace | bpf.go:254-282 | Decoding, relocating a fresh buffer in place and writing the map names give exactly the prepared section, or the same error with mapNameToFd untouched. |
| Loader.BpfLoadProg | bpf.go:217-314 | The imperative loader returns the outcome and leaves the caller's two maps exactly as LoadProg says. |

`Loader.LoadProgOutputs` states these outputs of BpfLoadProg:

- Without a license section, it fails with that error and changes nothing.
- With a license but map data that cannot be read, it fails with the map-data error, tries no section and changes nothing.
- With map data but a map the kernel refuses to create, it fails with the map-creation error, tries no section and changes nothing.
- It succeeds only after all three of these steps went through.
- The sections before the failing one (the first `loaded` sections) are exactly the new keys of sectionNameToFd, and they stay keys when a later section fails. The fd each one gets, `int(r1)` of the accepting load, is stated per iteration by LoadSectionWrites.
- Other entries are untouched, and no map name is removed.
- It succeeds only when every section loaded.
- A refusal names the section it stopped at.
- With maps defined, every loaded section had a related relocation section.

## Left out

- The bpf(2) syscalls are not modelled. The kernel's reply `(r1, errno)` to each call is an input. So are the attribute structs, `unsafe` pointers and the verifier log buffer and its message text (bpf.go:289-307).
- `os.Open` and `elf.NewFile` (bpf.go:218-226) are not modelled. The loader starts from the parsed file: its sections and its symbol list. A failing `f.Symbols()` is a missing symbol list.
- `Section.Data()` errors (bpf.go:233-236, 345-348, 414-417) are not modelled: section contents are always available. `getBpfRelocationsFromSection` ignores that error anyway (bpf.go:444).
- `binary.Read` errors are not modelled. The model reads only whole records, so these reads cannot run short.
- Maps.BpfLoadMapsData: the descriptor count is taken from the length of the section data rather than from the header's `Size` field (bpf.go:343). The two agree for the uncompressed SHT_PROGBITS sections this reads.
- Loader.BpfLoadProg: the `uint32(len(insns))` instruction count (bpf.go:294) is not modelled; the kernel oracle receives the instructions themselves.
- Loader.BpfLoadProg: nil caller maps, where the Go map assignment would panic, are not modelled. The caller's maps always exist.
- Loader.BpfLoadProg: the two caller maps are assumed to be distinct objects. Go maps are references, so a caller may pass one map as both `sectionNameToFd` and `mapNameToFd`. Then the map-name writes (bpf.go:280) land in the same table as the program fds. `FdMaps` has two separate fields and cannot represent that input. For such a caller, LoopTables and LoadProgOutputs do not hold: program-fd entries can be overwritten by map fds, and map names become keys of `sectionNameToFd`.
- The diagnostics printed by the loader and the wrappers are not modelled. These are the `log.Println` calls at bpf.go:241 and 249 and the `fmt.Println` calls at bpf.go:189 and 193. They do not change any result.
- Loader.PrepareSectionInPlace: a relocation whose instruction index or map slot is out of range panics in Go partway through `doBpfMapRelocation`, after earlier instructions were patched. The model checks all relocations first and panics before patching. Nothing observable differs, because the partly patched slice is local and is discarded, and the map-name loop has not run yet.
- Loader.PrepareSectionInPlace: the first half of the loop body of `BpfLoadProg` is a separate method. Inside the loop this has the same effect.
- `BpfMapUpdateElem` and `BpfMapDeleteElem` (bpf.go:104-166) are left out. They only print on failure and return nothing.
- `BpfObjPin` and `BpfObjUnpin` are left out. They are a syscall wrapper and an empty stub.
- `printInsn` and `BpfPrintInsns` (bpf_insn.go:57-174) are left out. They only print diagnostics.
- The tests in bpf_test.go and the helper `keyGetKeys` are not modelled: they need a live kernel. Only the lookup-miss expectation (bpf_test.go:220-228) is stated, as a lemma.
- The eBPF classifier in bpf/simple_map.c is not modelled: it is kernel-side code. Only its map descriptor serves as a fixture.
- The fixture's comment (bpf/simple_map.c:58-59) says the loader errors out when the map is not used. That happens because a section that uses no map has no SHT_REL section, and with maps defined the loader rejects such a section (bpf.go:261-263). The model states this check (Loader.MapsNeedRelocations) and no separate check for unused maps, because the loader has none.
