/**
 * Map descriptors: decoding the "maps" section (`bpfLoadMapsData`) and
 * creating one kernel map per descriptor (`bpfCreateMaps`).
 */
module Maps {
  import opened Wrappers
  import opened Bits
  import opened LittleEndian
  import opened Faults
  import opened Elf
  import opened Syscalls

  /** Size in bytes of one descriptor (`bpfElfMapLen`). */
  const ElfMapLen: nat := 28

  /** Name of the section holding the descriptors. */
  const MapsSection: string := "maps"

  /** Map type numbers of the kernel's `enum bpf_map_type` used by the fixture. */
  const BpfMapTypeHash: u32 := 1

  /** One map descriptor: iproute2's `struct bpf_elf_map`, seven u32 fields. */
  datatype ElfMap = ElfMap(
    mapType: u32, sizeKey: u32, sizeValue: u32, maxElem: u32,
    flags: u32, id: u32, pinning: u32)

  /** Number of u32 fields in a descriptor. */
  const ElfMapWords: nat := 7

  /** The fields of a descriptor in declaration order. */
  function Fields(m: ElfMap): (ws: seq<u32>)
    ensures |ws| == ElfMapWords
  {
    [m.mapType, m.sizeKey, m.sizeValue, m.maxElem, m.flags, m.id, m.pinning]
  }

  /** One descriptor read from 28 bytes, seven little-endian u32 in declaration order. */
  function DecodeElfMap(b: seq<byte>): ElfMap
    requires |b| == ElfMapLen
  {
    var ws := DecodeRecords(b, 4, ElfMapWords, LeU32);
    ElfMap(ws[0], ws[1], ws[2], ws[3], ws[4], ws[5], ws[6])
  }

  /** The 28 bytes a compiler emits for a descriptor. */
  function EncodeElfMap(m: ElfMap): (b: seq<byte>)
    ensures |b| == ElfMapLen
  {
    LeWords(Fields(m))
  }

  /** Every descriptor survives encoding and decoding unchanged. */
  lemma DecodeEncodeElfMap(m: ElfMap)
    ensures DecodeElfMap(EncodeElfMap(m)) == m
  {
    DecodeLeWords(Fields(m));
  }

  /** Every 28-byte record is the encoding of the descriptor decoded from it. */
  lemma EncodeDecodeElfMap(b: seq<byte>)
    requires |b| == ElfMapLen
    ensures EncodeElfMap(DecodeElfMap(b)) == b
  {
    var ws := DecodeRecords(b, 4, ElfMapWords, LeU32);
    LeWordsOfDecode(b, ElfMapWords);
    FieldsOfWords(ws);
  }

  /** A descriptor built from seven words has exactly those words as its fields. */
  lemma FieldsOfWords(ws: seq<u32>)
    requires |ws| == ElfMapWords
    ensures Fields(ElfMap(ws[0], ws[1], ws[2], ws[3], ws[4], ws[5], ws[6])) == ws
  {
  }

  /** `binary.Read` into a slice of `n` descriptors: the first `n` records of `d`. */
  function DecodeElfMaps(d: seq<byte>, n: nat): seq<ElfMap>
    requires ElfMapLen * n <= |d|
  {
    DecodeRecords(d, ElfMapLen, n, DecodeElfMap)
  }

  /**
   * `bpfLoadMapsData`: no "maps" section means no maps; a "maps" section
   * that is not SHT_PROGBITS is an error; otherwise one descriptor per
   * whole 28-byte record, trailing bytes ignored.
   */
  function BpfLoadMapsData(sections: seq<Section>): (r: Result<seq<ElfMap>, Fault>)
    ensures FindSection(sections, MapsSection).None? ==> r == Ok([])
    ensures r.Err? <==>
      (FindSection(sections, MapsSection).Some? &&
       sections[FindSection(sections, MapsSection).value].sectionType != SHT_PROGBITS)
    ensures r.Err? ==> r.error == MapsWrongType
    ensures r.Ok? && FindSection(sections, MapsSection).Some? ==>
      var d := sections[FindSection(sections, MapsSection).value].data;
      |r.value| == |d| / ElfMapLen &&
      forall i :: 0 <= i < |r.value| ==>
        r.value[i] == DecodeElfMap(d[ElfMapLen * i .. ElfMapLen * i + ElfMapLen])
  {
    match FindSection(sections, MapsSection)
    case None => Ok([])
    case Some(k) =>
      if sections[k].sectionType != SHT_PROGBITS then Err(MapsWrongType)
      else
        WholeRecords(|sections[k].data|, ElfMapLen);
        DecodeRecordsAt(sections[k].data, ElfMapLen, |sections[k].data| / ElfMapLen, DecodeElfMap);
        Ok(DecodeElfMaps(sections[k].data, |sections[k].data| / ElfMapLen))
  }

  /** Bytes after the last whole record do not change the descriptors read. */
  lemma TrailingBytesIgnored(d: seq<byte>, extra: seq<byte>, n: nat)
    requires ElfMapLen * n <= |d|
    ensures DecodeElfMaps(d + extra, n) == DecodeElfMaps(d, n)
  {
    DecodeRecordsPrefix(d, extra, ElfMapLen, n, DecodeElfMap);
  }

  /**
   * The descriptor of the test fixture's map (a hash map with 8-byte keys,
   * 16-byte values, 256 entries, id 0) decodes from its 28 bytes as declared.
   */
  lemma FixtureDescriptorDecodes()
    ensures var m := ElfMap(BpfMapTypeHash, 8, 16, 256, 0, 0, 0);
      BpfLoadMapsData([Section(MapsSection, SHT_PROGBITS, 0, EncodeElfMap(m))]) == Ok([m])
  {
    var m := ElfMap(BpfMapTypeHash, 8, 16, 256, 0, 0, 0);
    var b := EncodeElfMap(m);
    DecodeEncodeElfMap(m);
    assert FindSection([Section(MapsSection, SHT_PROGBITS, 0, b)], MapsSection) == Some(0);
    DecodeRecordsStep(b, ElfMapLen, 1, DecodeElfMap);
    assert b[..ElfMapLen] == b;
    assert |b| / ElfMapLen == 1;
    assert DecodeElfMaps(b, 1) == [m];
  }

  // ---------------------------------------------------------------------
  // bpfCreateMaps
  // ---------------------------------------------------------------------

  /**
   * The kernel's answer to the `n`-th map-creation call with the given map
   * type, key size, value size, maximum number of entries and flags; the
   * syscall itself is not modelled.
   */
  type CreateOracle = (nat, u32, u32, u32, u32, u32) -> Reply

  /**
   * The reply to creating descriptor `m` as the `n`-th call: only its first
   * five fields reach `BpfCreateMap`; `Id` and `Pinning` are never passed.
   */
  function CreateReply(kernel: CreateOracle, n: nat, m: ElfMap): Reply
  {
    kernel(n, m.mapType, m.sizeKey, m.sizeValue, m.maxElem, m.flags)
  }

  /** The result of `bpfCreateMaps` and the number of creation syscalls it issued. */
  datatype CreateRun = CreateRun(result: Result<seq<int>, CreateError>, calls: nat)

  /** `bpfCreateMaps` from descriptor `i` on, with `fds` already created. */
  function CreateMapsFrom(maps: seq<ElfMap>, kernel: CreateOracle, i: nat, fds: seq<int>): CreateRun
    requires i <= |maps|
    decreases |maps| - i
  {
    if i == |maps| then CreateRun(Ok(fds), i)
    else match BpfCreateMap(CreateReply(kernel, i, maps[i]))
      case Err(e) => CreateRun(Err(e), i + 1)
      case Ok(fd) => CreateMapsFrom(maps, kernel, i + 1, fds + [fd])
  }

  /** `bpfCreateMaps(maps)` as a function of the kernel's answers. */
  function CreateMaps(maps: seq<ElfMap>, kernel: CreateOracle): CreateRun
  {
    CreateMapsFrom(maps, kernel, 0, [])
  }

  /** Two descriptors that differ at most in `Id` and `Pinning`. */
  predicate SameAttributes(a: ElfMap, b: ElfMap)
  {
    a.(id := b.id, pinning := b.pinning) == b
  }

  /**
   * Map creation ignores `Id` and `Pinning`: descriptor lists that agree on
   * the other five fields create the same maps with the same calls.
   */
  lemma CreateMapsIgnoresIdPinning(a: seq<ElfMap>, b: seq<ElfMap>, kernel: CreateOracle)
    requires |a| == |b| && forall j :: 0 <= j < |a| ==> SameAttributes(a[j], b[j])
    ensures CreateMaps(a, kernel) == CreateMaps(b, kernel)
  {
    CreateMapsFromIgnoresIdPinning(a, b, kernel, 0, []);
  }

  lemma {:induction false} CreateMapsFromIgnoresIdPinning(
    a: seq<ElfMap>, b: seq<ElfMap>, kernel: CreateOracle, i: nat, fds: seq<int>)
    requires |a| == |b| && i <= |a|
    requires forall j :: 0 <= j < |a| ==> SameAttributes(a[j], b[j])
    ensures CreateMapsFrom(a, kernel, i, fds) == CreateMapsFrom(b, kernel, i, fds)
    decreases |a| - i
  {
    if i < |a| {
      assert SameAttributes(a[i], b[i]);
      assert CreateReply(kernel, i, a[i]) == CreateReply(kernel, i, b[i]);
      match BpfCreateMap(CreateReply(kernel, i, a[i]))
      case Err(_) =>
      case Ok(fd) => CreateMapsFromIgnoresIdPinning(a, b, kernel, i + 1, fds + [fd]);
    }
  }

  /** All creations succeed and `fds[j]` is the fd of descriptor j, for j < i. */
  ghost predicate CreatedUpTo(maps: seq<ElfMap>, kernel: CreateOracle, i: nat, fds: seq<int>)
    requires i <= |maps|
  {
    |fds| == i &&
    forall j :: 0 <= j < i ==>
      CreateReply(kernel, j, maps[j]).errno == 0 && fds[j] == ToInt64(CreateReply(kernel, j, maps[j]).r1)
  }

  /**
   * All or nothing: either every descriptor gets a map and the fds come back
   * in descriptor order, or the first refused creation ends the loop with
   * its error, no fds, and no later descriptor attempted.
   */
  lemma CreateMapsAllOrNothing(maps: seq<ElfMap>, kernel: CreateOracle)
    ensures var run := CreateMaps(maps, kernel);
      (run.result.Ok? <==> forall j :: 0 <= j < |maps| ==> CreateReply(kernel, j, maps[j]).errno == 0) &&
      (run.result.Ok? ==> run.calls == |maps| && CreatedUpTo(maps, kernel, |maps|, run.result.value)) &&
      (run.result.Err? ==>
        1 <= run.calls <= |maps| &&
        (forall j :: 0 <= j < run.calls - 1 ==> CreateReply(kernel, j, maps[j]).errno == 0) &&
        Err(run.result.error) == BpfCreateMap(CreateReply(kernel, run.calls - 1, maps[run.calls - 1])))
  {
    CreateMapsFromAllOrNothing(maps, kernel, 0, []);
  }

  lemma {:induction false} CreateMapsFromAllOrNothing(
    maps: seq<ElfMap>, kernel: CreateOracle, i: nat, fds: seq<int>)
    requires i <= |maps| && CreatedUpTo(maps, kernel, i, fds)
    ensures var run := CreateMapsFrom(maps, kernel, i, fds);
      (run.result.Ok? <==> forall j :: i <= j < |maps| ==> CreateReply(kernel, j, maps[j]).errno == 0) &&
      (run.result.Ok? ==> run.calls == |maps| && CreatedUpTo(maps, kernel, |maps|, run.result.value)) &&
      (run.result.Err? ==>
        i + 1 <= run.calls <= |maps| &&
        (forall j :: i <= j < run.calls - 1 ==> CreateReply(kernel, j, maps[j]).errno == 0) &&
        Err(run.result.error) == BpfCreateMap(CreateReply(kernel, run.calls - 1, maps[run.calls - 1])))
    decreases |maps| - i
  {
    if i < |maps| {
      var reply := CreateReply(kernel, i, maps[i]);
      if reply.errno == 0 {
        var fds' := fds + [ToInt64(reply.r1)];
        assert CreatedUpTo(maps, kernel, i + 1, fds') by {
          forall j | 0 <= j < i + 1
            ensures CreateReply(kernel, j, maps[j]).errno == 0 && fds'[j] == ToInt64(CreateReply(kernel, j, maps[j]).r1)
          {
            if j < i { assert fds'[j] == fds[j]; }
          }
        }
        CreateMapsFromAllOrNothing(maps, kernel, i + 1, fds');
      }
    }
  }

  /** `bpfCreateMaps`: create the maps in order, stopping at the first failure. */
  method BpfCreateMaps(maps: seq<ElfMap>, kernel: CreateOracle)
    returns (r: Result<seq<int>, CreateError>, calls: nat)
    ensures CreateRun(r, calls) == CreateMaps(maps, kernel)
  {
    var fds: seq<int> := [];
    var i := 0;
    while i < |maps|
      invariant 0 <= i <= |maps|
      invariant CreateMapsFrom(maps, kernel, i, fds) == CreateMaps(maps, kernel)
    {
      var created := BpfCreateMap(CreateReply(kernel, i, maps[i]));
      if created.Err? {
        return Err(created.error), i + 1;
      }
      fds := fds + [created.value];
      i := i + 1;
    }
    return Ok(fds), |maps|;
  }
}
