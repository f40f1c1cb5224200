/**
 * Map relocations: reading the ELF64 `Rel64` records of a relocation
 * section into map relocations (`getBpfRelocationsFromSection`) and
 * patching the instructions they name with map file descriptors
 * (`doBpfMapRelocation`).
 */
module Relocations {
  import opened Wrappers
  import opened Bits
  import opened LittleEndian
  import opened Faults
  import opened Elf
  import opened BpfInsn
  import Maps

  /** Size in bytes of one ELF64 `Rel64` record: r_offset then r_info. */
  const Rel64Len: nat := 16

  /** `BPF_PSEUDO_MAP_FD`: the source register that marks `imm` as a map fd. */
  const PseudoMapFd: u8 := 1

  /** Size in bytes of each of the two fields of a record. */
  const Rel64FieldLen: nat := 8

  /** An ELF64 relocation without addend. */
  datatype Rel64 = Rel64(off: u64, info: u64)

  /** The relocation the loader derives from one record. */
  datatype MapRelocation = MapRelocation(insnIdx: u64, value: u64, name: string)

  /** One record read from 16 bytes: little-endian `Off`, then little-endian `Info`. */
  function DecodeRel64(b: seq<byte>): Rel64
    requires |b| == Rel64Len
  {
    Rel64(LeU64(b[0..8]), LeU64(b[8..16]))
  }

  /** The 16 bytes a linker emits for a record. */
  function EncodeRel64(r: Rel64): (b: seq<byte>)
    ensures |b| == Rel64Len
  {
    LeBytes(r.off, Rel64FieldLen) + LeBytes(r.info, Rel64FieldLen)
  }

  /** Every record survives encoding and decoding unchanged. */
  lemma DecodeEncodeRel64(r: Rel64)
    ensures DecodeRel64(EncodeRel64(r)) == r
  {
    var b := EncodeRel64(r);
    assert b[0..8] == LeBytes(r.off, Rel64FieldLen);
    assert b[8..16] == LeBytes(r.info, Rel64FieldLen);
    LeUintOfLeBytes(r.off, Rel64FieldLen);
    LeUintOfLeBytes(r.info, Rel64FieldLen);
  }

  /** Every 16-byte record is the encoding of the record decoded from it. */
  lemma EncodeDecodeRel64(b: seq<byte>)
    requires |b| == Rel64Len
    ensures EncodeRel64(DecodeRel64(b)) == b
  {
    var lo, hi := b[0..8], b[8..16];
    assert DecodeRel64(b) == Rel64(LeUint(lo), LeUint(hi));
    assert |lo| == Rel64FieldLen && |hi| == Rel64FieldLen;
    LeBytesOfLeUintPair(lo, hi);
    assert b == lo + hi;
  }

  /** `binary.Read` into `n` records: the first `n` 16-byte records of `d`. */
  function DecodeRel64s(d: seq<byte>, n: nat): seq<Rel64>
    requires Rel64Len * n <= |d|
  {
    DecodeRecords(d, Rel64Len, n, DecodeRel64)
  }

  /** The records of a relocation section: one per whole 16 bytes. */
  function RelocationRecords(sec: Section): (recs: seq<Rel64>)
    ensures |recs| == |sec.data| / Rel64Len
    ensures forall i :: 0 <= i < |recs| ==>
      Rel64Len * i + Rel64Len <= |sec.data| &&
      recs[i] == DecodeRel64(sec.data[Rel64Len * i .. Rel64Len * i + Rel64Len])
  {
    WholeRecords(|sec.data|, Rel64Len);
    DecodeRecordsAt(sec.data, Rel64Len, |sec.data| / Rel64Len, DecodeRel64);
    DecodeRel64s(sec.data, |sec.data| / Rel64Len)
  }

  /** `r_info >> 32`: the symbol-table index of ELF64_R_SYM. */
  function SymIndex(info: u64): nat
  {
    info / 0x1_0000_0000
  }

  /**
   * One iteration of `getBpfRelocationsFromSection`. `f.Symbols()` fails
   * without a symbol table; `syms[symIdx-1]` panics for symIdx == 0 (the
   * uint64 subtraction wraps) and past the end of the list.
   */
  function RelocationOf(rec: Rel64, symbols: Option<seq<Symbol>>): Result<MapRelocation, Fault>
  {
    var symIdx := SymIndex(rec.info);
    if symbols.None? then Err(NoSymbols)
    else if symIdx == 0 || symIdx - 1 >= |symbols.value| then Err(Panic(SymbolIndexOutOfRange))
    else
      var sym := symbols.value[symIdx - 1];
      Ok(MapRelocation(rec.off / InsnLen, sym.value / Maps.ElfMapLen, sym.name))
  }

  /** The loop of `getBpfRelocationsFromSection` from record `i` on, with `acc` built so far. */
  function RelocationsFrom(recs: seq<Rel64>, symbols: Option<seq<Symbol>>, i: nat, acc: seq<MapRelocation>)
    : Result<seq<MapRelocation>, Fault>
    requires i <= |recs|
    decreases |recs| - i
  {
    if i == |recs| then Ok(acc)
    else match RelocationOf(recs[i], symbols)
      case Err(e) => Err(e)
      case Ok(reloc) => RelocationsFrom(recs, symbols, i + 1, acc + [reloc])
  }

  /** `getBpfRelocationsFromSection` on the records `recs`. */
  function MapRelocations(recs: seq<Rel64>, symbols: Option<seq<Symbol>>): Result<seq<MapRelocation>, Fault>
  {
    RelocationsFrom(recs, symbols, 0, [])
  }

  /** Record `rec` names an entry of the symbol list. */
  predicate SymbolInRange(rec: Rel64, syms: seq<Symbol>)
  {
    1 <= SymIndex(rec.info) <= |syms|
  }

  /** `reloc` is what the loader derives from `rec`. */
  predicate DerivedFrom(reloc: MapRelocation, rec: Rel64, syms: seq<Symbol>)
    requires SymbolInRange(rec, syms)
  {
    var sym := syms[SymIndex(rec.info) - 1];
    reloc.insnIdx == rec.off / 8 &&
    reloc.value == sym.value / 28 &&
    reloc.name == sym.name
  }

  lemma {:induction false} RelocationsFromExtracted(
    recs: seq<Rel64>, symbols: Option<seq<Symbol>>, i: nat, acc: seq<MapRelocation>)
    requires i <= |recs| && |acc| == i
    requires i > 0 ==> symbols.Some?
    requires symbols.Some? ==> forall j :: 0 <= j < i ==>
      SymbolInRange(recs[j], symbols.value) && DerivedFrom(acc[j], recs[j], symbols.value)
    ensures var r := RelocationsFrom(recs, symbols, i, acc);
      (r.Ok? <==>
        (i == |recs| || (symbols.Some? && forall j :: i <= j < |recs| ==> SymbolInRange(recs[j], symbols.value)))) &&
      (r.Ok? ==>
        |r.value| == |recs| &&
        (symbols.Some? ==> forall j :: 0 <= j < |recs| ==>
          SymbolInRange(recs[j], symbols.value) && DerivedFrom(r.value[j], recs[j], symbols.value))) &&
      (r.Err? ==>
        (r.error == NoSymbols <==> symbols.None?) &&
        (symbols.Some? ==> r.error == Panic(SymbolIndexOutOfRange)))
    decreases |recs| - i
  {
    if i < |recs| {
      if symbols.Some? && SymbolInRange(recs[i], symbols.value) {
        var reloc := RelocationOf(recs[i], symbols).value;
        var acc' := acc + [reloc];
        forall j | 0 <= j < i + 1
          ensures SymbolInRange(recs[j], symbols.value) && DerivedFrom(acc'[j], recs[j], symbols.value)
        {
          if j < i { assert acc'[j] == acc[j]; }
        }
        RelocationsFromExtracted(recs, symbols, i + 1, acc');
        var r := RelocationsFrom(recs, symbols, i + 1, acc');
        if !r.Ok? {
          var j :| i + 1 <= j < |recs| && !SymbolInRange(recs[j], symbols.value);
        }
      }
    }
  }

  /**
   * `getBpfRelocationsFromSection`: without a symbol table any record is an
   * error; a record whose symbol index is 0 or past the symbol list
   * panics; otherwise one relocation per record, in record order, with
   * `insnIdx = Off / 8`, `value = sym.Value / 28` and `name = sym.Name`
   * for `sym = syms[(Info >> 32) - 1]`.
   */
  lemma RelocationsExtracted(recs: seq<Rel64>, symbols: Option<seq<Symbol>>)
    ensures var r := MapRelocations(recs, symbols);
      (r.Ok? <==>
        (recs == [] || (symbols.Some? && forall j :: 0 <= j < |recs| ==> SymbolInRange(recs[j], symbols.value)))) &&
      (r.Ok? ==>
        |r.value| == |recs| &&
        (symbols.Some? ==> forall j :: 0 <= j < |recs| ==>
          SymbolInRange(recs[j], symbols.value) && DerivedFrom(r.value[j], recs[j], symbols.value))) &&
      (r.Err? ==>
        (r.error == NoSymbols <==> symbols.None?) &&
        (symbols.Some? ==> r.error == Panic(SymbolIndexOutOfRange)))
  {
    RelocationsFromExtracted(recs, symbols, 0, []);
  }

  /** `getBpfRelocationsFromSection(f, sec)`: read the records, look each symbol up, in order. */
  method GetBpfRelocationsFromSection(file: File, sec: Section)
    returns (r: Result<seq<MapRelocation>, Fault>)
    ensures r == MapRelocations(RelocationRecords(sec), file.symbols)
  {
    WholeRecords(|sec.data|, Rel64Len);
    var recs := DecodeRel64s(sec.data, |sec.data| / Rel64Len);
    var relocs: seq<MapRelocation> := [];
    var i := 0;
    while i < |recs|
      invariant 0 <= i <= |recs|
      invariant RelocationsFrom(recs, file.symbols, i, relocs) == MapRelocations(recs, file.symbols)
    {
      var rec := recs[i];
      var symIdx := SymIndex(rec.info);
      if file.symbols.None? {
        return Err(NoSymbols);
      }
      var syms := file.symbols.value;
      if symIdx == 0 || symIdx - 1 >= |syms| {
        return Err(Panic(SymbolIndexOutOfRange));
      }
      var sym := syms[symIdx - 1];
      relocs := relocs + [MapRelocation(rec.off / InsnLen, sym.value / Maps.ElfMapLen, sym.name)];
      i := i + 1;
    }
    return Ok(relocs);
  }

  // ---------------------------------------------------------------------
  // doBpfMapRelocation
  // ---------------------------------------------------------------------

  /** Every relocation names an existing instruction and an existing map slot. */
  predicate TargetsInRange(relocs: seq<MapRelocation>, insnCount: nat, mapCount: nat)
  {
    forall j :: 0 <= j < |relocs| ==> relocs[j].insnIdx < insnCount && relocs[j].value < mapCount
  }

  /** One relocated instruction: source register BPF_PSEUDO_MAP_FD, immediate `int32(fd)`. */
  function PatchInsn(insn: Insn, fd: int): (r: Insn)
    ensures SrcReg(r.regs) == PseudoMapFd && DstReg(r.regs) == DstReg(insn.regs)
    ensures r.imm == ToInt32(fd) && r.code == insn.code && r.offset == insn.offset
  {
    insn.(regs := RegsWithSrc(insn.regs, PseudoMapFd), imm := ToInt32(fd))
  }

  /** The instructions after applying `relocs` in order. */
  function Relocated(insns: seq<Insn>, relocs: seq<MapRelocation>, mapFds: seq<int>): (r: seq<Insn>)
    requires TargetsInRange(relocs, |insns|, |mapFds|)
    ensures |r| == |insns|
    decreases |relocs|
  {
    if relocs == [] then insns
    else
      var reloc := relocs[0];
      Relocated(insns[reloc.insnIdx := PatchInsn(insns[reloc.insnIdx], mapFds[reloc.value])], relocs[1..], mapFds)
  }

  /** An instruction that no relocation names is left as it was. */
  lemma {:induction false} RelocatedUntouched(insns: seq<Insn>, relocs: seq<MapRelocation>, mapFds: seq<int>, k: nat)
    requires TargetsInRange(relocs, |insns|, |mapFds|) && k < |insns|
    requires forall j :: 0 <= j < |relocs| ==> relocs[j].insnIdx != k
    ensures Relocated(insns, relocs, mapFds)[k] == insns[k]
    decreases |relocs|
  {
    if relocs != [] {
      var reloc := relocs[0];
      var patched := insns[reloc.insnIdx := PatchInsn(insns[reloc.insnIdx], mapFds[reloc.value])];
      assert forall j :: 0 <= j < |relocs[1..]| ==> relocs[1..][j] == relocs[j + 1];
      RelocatedUntouched(patched, relocs[1..], mapFds, k);
    }
  }

  /** Relocation never changes an instruction's opcode, offset or destination register. */
  lemma {:induction false} RelocatedKeepsFields(insns: seq<Insn>, relocs: seq<MapRelocation>, mapFds: seq<int>, k: nat)
    requires TargetsInRange(relocs, |insns|, |mapFds|) && k < |insns|
    ensures var r := Relocated(insns, relocs, mapFds)[k];
      r.code == insns[k].code && r.offset == insns[k].offset && DstReg(r.regs) == DstReg(insns[k].regs)
    decreases |relocs|
  {
    if relocs != [] {
      var reloc := relocs[0];
      var patched := insns[reloc.insnIdx := PatchInsn(insns[reloc.insnIdx], mapFds[reloc.value])];
      RelocatedKeepsFields(patched, relocs[1..], mapFds, k);
    }
  }

  /** A first relocation that no later one overrides decides its instruction's source register and immediate. */
  lemma RelocatedHeadLast(insns: seq<Insn>, relocs: seq<MapRelocation>, mapFds: seq<int>)
    requires TargetsInRange(relocs, |insns|, |mapFds|) && relocs != []
    requires forall j' :: 0 < j' < |relocs| ==> relocs[j'].insnIdx != relocs[0].insnIdx
    ensures var r := Relocated(insns, relocs, mapFds)[relocs[0].insnIdx];
      SrcReg(r.regs) == PseudoMapFd && r.imm == ToInt32(mapFds[relocs[0].value])
  {
    var reloc := relocs[0];
    var patched := insns[reloc.insnIdx := PatchInsn(insns[reloc.insnIdx], mapFds[reloc.value])];
    var rest := relocs[1..];
    assert Relocated(insns, relocs, mapFds) == Relocated(patched, rest, mapFds);
    assert forall i :: 0 <= i < |rest| ==> rest[i].insnIdx != reloc.insnIdx by {
      forall i | 0 <= i < |rest| ensures rest[i].insnIdx != reloc.insnIdx {
        assert rest[i] == relocs[i + 1];
      }
    }
    RelocatedUntouched(patched, rest, mapFds, reloc.insnIdx);
    assert patched[reloc.insnIdx] == PatchInsn(insns[reloc.insnIdx], mapFds[reloc.value]);
  }

  /** The last relocation naming an instruction decides its source register and immediate. */
  lemma {:induction false} RelocatedLastWins(insns: seq<Insn>, relocs: seq<MapRelocation>, mapFds: seq<int>, j: nat)
    requires TargetsInRange(relocs, |insns|, |mapFds|) && j < |relocs|
    requires forall j' :: j < j' < |relocs| ==> relocs[j'].insnIdx != relocs[j].insnIdx
    ensures var r := Relocated(insns, relocs, mapFds)[relocs[j].insnIdx];
      SrcReg(r.regs) == PseudoMapFd && r.imm == ToInt32(mapFds[relocs[j].value])
    decreases |relocs|
  {
    if j == 0 {
      RelocatedHeadLast(insns, relocs, mapFds);
    } else {
      var reloc := relocs[0];
      var patched := insns[reloc.insnIdx := PatchInsn(insns[reloc.insnIdx], mapFds[reloc.value])];
      var rest := relocs[1..];
      assert Relocated(insns, relocs, mapFds) == Relocated(patched, rest, mapFds);
      assert rest[j - 1] == relocs[j];
      assert forall i :: j - 1 < i < |rest| ==> rest[i].insnIdx != rest[j - 1].insnIdx by {
        forall i | j - 1 < i < |rest| ensures rest[i].insnIdx != rest[j - 1].insnIdx {
          assert rest[i] == relocs[i + 1];
        }
      }
      RelocatedLastWins(patched, rest, mapFds, j - 1);
    }
  }

  /**
   * Only the named instructions change: an instruction no relocation names
   * is unchanged; one that is named gets source register 1 and the fd of
   * the LAST relocation naming it as immediate, and keeps its opcode,
   * offset and destination register.
   */
  lemma RelocatedAt(insns: seq<Insn>, relocs: seq<MapRelocation>, mapFds: seq<int>, k: nat)
    requires TargetsInRange(relocs, |insns|, |mapFds|) && k < |insns|
    ensures (forall j :: 0 <= j < |relocs| ==> relocs[j].insnIdx != k) ==>
      Relocated(insns, relocs, mapFds)[k] == insns[k]
    ensures forall j ::
      (0 <= j < |relocs| && relocs[j].insnIdx == k &&
       (forall j' :: j < j' < |relocs| ==> relocs[j'].insnIdx != k)) ==>
        var r := Relocated(insns, relocs, mapFds)[k];
        SrcReg(r.regs) == PseudoMapFd && DstReg(r.regs) == DstReg(insns[k].regs) &&
        r.code == insns[k].code && r.offset == insns[k].offset &&
        r.imm == ToInt32(mapFds[relocs[j].value])
  {
    if forall j :: 0 <= j < |relocs| ==> relocs[j].insnIdx != k {
      RelocatedUntouched(insns, relocs, mapFds, k);
    }
    RelocatedKeepsFields(insns, relocs, mapFds, k);
    forall j | 0 <= j < |relocs| && relocs[j].insnIdx == k &&
      (forall j' :: j < j' < |relocs| ==> relocs[j'].insnIdx != k)
    {
      RelocatedLastWins(insns, relocs, mapFds, j);
    }
  }

  /**
   * `doBpfMapRelocation`: patch each named instruction in place through
   * its two setters. It always returns a nil error.
   */
  method DoBpfMapRelocation(insns: array<Insn>, relocs: seq<MapRelocation>, mapFds: seq<int>)
    returns (err: Option<Fault>)
    requires TargetsInRange(relocs, insns.Length, |mapFds|)
    modifies insns
    ensures insns[..] == Relocated(old(insns[..]), relocs, mapFds)
    ensures err == None
  {
    var i := 0;
    while i < |relocs|
      invariant 0 <= i <= |relocs|
      invariant Relocated(insns[..], relocs[i..], mapFds) == Relocated(old(insns[..]), relocs, mapFds)
    {
      var reloc := relocs[i];
      assert relocs[i..][1..] == relocs[i + 1..];
      ghost var before := insns[..];
      SetSrcReg(insns, reloc.insnIdx, PseudoMapFd);
      SetImm(insns, reloc.insnIdx, ToInt32(mapFds[reloc.value]));
      assert insns[..] == before[reloc.insnIdx := PatchInsn(before[reloc.insnIdx], mapFds[reloc.value])];
      i := i + 1;
    }
    return None;
  }
}
