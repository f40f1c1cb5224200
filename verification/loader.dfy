/**
 * `BpfLoadProg`: load the maps of an object file, then relocate and load
 * each requested program section, recording the program fds by section
 * name and the map fds by map name in two tables the caller owns.
 *
 * Opening and parsing the file are not modelled: the loader starts from
 * the parsed `File`. The two bpf(2) commands it issues (map creation,
 * program load) are oracles that map the call number and the arguments to
 * the kernel's reply.
 */
module Loader {
  import opened Wrappers
  import opened Bits
  import opened LittleEndian
  import opened Faults
  import opened Elf
  import opened Syscalls
  import opened BpfInsn
  import opened Maps
  import opened Sections
  import opened Relocations

  /** The mandatory section whose contents are passed to the kernel as the license string. */
  const LicenseSection: string := "license"

  /** The kernel's answer to the `n`-th program load for instructions `insns` and license bytes. */
  type LoadOracle = (nat, seq<Insn>, seq<byte>) -> Reply

  /** The kernel as far as the loader can observe it. */
  datatype Kernel = Kernel(createMap: CreateOracle, loadProg: LoadOracle)

  /**
   * How `BpfLoadProg` ends: both errors nil; an error from the loader (or a
   * panic); or the verifier error for a section together with the errno.
   */
  datatype Outcome =
    | Loaded
    | Failed(fault: Fault)
    | Rejected(section: string, r1: u64, errno: nat)

  /** The contents of the two caller-owned maps. */
  datatype Tables = Tables(sectionNameToFd: map<string, int>, mapNameToFd: map<string, int>)

  /**
   * Everything the section loop uses that is fixed before it starts: the
   * file, the license bytes, the number of map descriptors and the fds
   * created for them.
   */
  datatype Setup = Setup(file: File, license: seq<byte>, mapCount: nat, mapFds: seq<int>, loadProg: LoadOracle)

  /** What one iteration of the section loop does: go on, or end the call. */
  datatype Step = Next(tables: Tables) | Stop(outcome: Outcome, tables: Tables)

  /** The result of the whole call; `loaded` counts the programs the kernel accepted. */
  datatype LoadRun = LoadRun(outcome: Outcome, tables: Tables, loaded: nat)

  // ---------------------------------------------------------------------
  // mapNameToFd
  // ---------------------------------------------------------------------

  /** Every relocation names an existing map slot. */
  predicate SlotsInRange(relocs: seq<MapRelocation>, mapFds: seq<int>)
  {
    forall j :: 0 <= j < |relocs| ==> relocs[j].value < |mapFds|
  }

  /** `mapNameToFd[reloc.name] = mapFds[reloc.value]` for each relocation in order. */
  function RecordMapFds(m: map<string, int>, relocs: seq<MapRelocation>, mapFds: seq<int>): map<string, int>
    requires SlotsInRange(relocs, mapFds)
    decreases |relocs|
  {
    if relocs == [] then m
    else RecordMapFds(m[relocs[0].name := mapFds[relocs[0].value]], relocs[1..], mapFds)
  }

  /** Recording map fds never removes a name. */
  lemma {:induction false} RecordMapFdsGrows(m: map<string, int>, relocs: seq<MapRelocation>, mapFds: seq<int>)
    requires SlotsInRange(relocs, mapFds)
    ensures m.Keys <= RecordMapFds(m, relocs, mapFds).Keys
    decreases |relocs|
  {
    if relocs != [] {
      RecordMapFdsGrows(m[relocs[0].name := mapFds[relocs[0].value]], relocs[1..], mapFds);
    }
  }

  /** A name that no relocation carries keeps its entry, or its absence. */
  lemma {:induction false} RecordMapFdsUntouched(
    m: map<string, int>, relocs: seq<MapRelocation>, mapFds: seq<int>, name: string)
    requires SlotsInRange(relocs, mapFds)
    requires forall j :: 0 <= j < |relocs| ==> relocs[j].name != name
    ensures var r := RecordMapFds(m, relocs, mapFds);
      (name in r <==> name in m) && (name in m ==> r[name] == m[name])
    decreases |relocs|
  {
    if relocs != [] {
      assert forall j :: 0 <= j < |relocs[1..]| ==> relocs[1..][j] == relocs[j + 1];
      RecordMapFdsUntouched(m[relocs[0].name := mapFds[relocs[0].value]], relocs[1..], mapFds, name);
    }
  }

  /** The last relocation carrying a name decides that name's fd. */
  lemma {:induction false} RecordMapFdsLastWins(
    m: map<string, int>, relocs: seq<MapRelocation>, mapFds: seq<int>, j: nat)
    requires SlotsInRange(relocs, mapFds) && j < |relocs|
    requires forall j' :: j < j' < |relocs| ==> relocs[j'].name != relocs[j].name
    ensures var r := RecordMapFds(m, relocs, mapFds);
      relocs[j].name in r && r[relocs[j].name] == mapFds[relocs[j].value]
    decreases |relocs|
  {
    var m' := m[relocs[0].name := mapFds[relocs[0].value]];
    assert forall i :: 0 <= i < |relocs[1..]| ==> relocs[1..][i] == relocs[i + 1];
    if j == 0 {
      RecordMapFdsUntouched(m', relocs[1..], mapFds, relocs[0].name);
    } else {
      RecordMapFdsLastWins(m', relocs[1..], mapFds, j - 1);
    }
  }

  /**
   * After the map-name loop, a name no relocation carries is as before;
   * a name some relocation carries maps to the fd of the map slot of the
   * LAST relocation carrying it.
   */
  lemma RecordMapFdsAt(m: map<string, int>, relocs: seq<MapRelocation>, mapFds: seq<int>, name: string)
    requires SlotsInRange(relocs, mapFds)
    ensures var r := RecordMapFds(m, relocs, mapFds);
      ((forall j :: 0 <= j < |relocs| ==> relocs[j].name != name) ==>
        (name in r <==> name in m) && (name in m ==> r[name] == m[name])) &&
      (forall j ::
        (0 <= j < |relocs| && relocs[j].name == name &&
         (forall j' :: j < j' < |relocs| ==> relocs[j'].name != name)) ==>
          name in r && r[name] == mapFds[relocs[j].value])
  {
    if forall j :: 0 <= j < |relocs| ==> relocs[j].name != name {
      RecordMapFdsUntouched(m, relocs, mapFds, name);
    }
    forall j | 0 <= j < |relocs| && relocs[j].name == name &&
      (forall j' :: j < j' < |relocs| ==> relocs[j'].name != name)
    {
      RecordMapFdsLastWins(m, relocs, mapFds, j);
    }
  }

  // ---------------------------------------------------------------------
  // One iteration of the section loop
  // ---------------------------------------------------------------------

  /** A section ready for the kernel: its instructions, relocated, and the map-name table after it. */
  datatype Prepared = Prepared(insns: seq<Insn>, mapNameToFd: map<string, int>)

  /**
   * The first part of the loop body for section `name`: decode it, find its
   * relocation section (which must exist when the file defines maps),
   * extract and apply the relocations and record the map names. A
   * relocation naming an instruction or map slot that does not exist
   * panics. None of these errors has written a table yet.
   */
  function PrepareSection(setup: Setup, name: string, m: map<string, int>): Result<Prepared, Fault>
  {
    match GetBpfInsnsFromSection(setup.file.sections, name)
    case Err(e) => Err(e)
    case Ok(insns) =>
      match RelatedRelocSection(setup.file.sections, name)
      case Err(e) => Err(e)
      case Ok(rel) =>
        if setup.mapCount > 0 && rel.None? then Err(MapsWithoutRelocs)
        else if rel.None? then Ok(Prepared(insns, m))
        else
          match MapRelocations(RelocationRecords(setup.file.sections[rel.value]), setup.file.symbols)
          case Err(e) => Err(e)
          case Ok(relocs) =>
            if !TargetsInRange(relocs, |insns|, |setup.mapFds|) then Err(Panic(RelocTargetOutOfRange))
            else Ok(Prepared(Relocated(insns, relocs, setup.mapFds), RecordMapFds(m, relocs, setup.mapFds)))
  }

  /**
   * The rest of the loop body: `&insns[0]` and `&licenseData[0]` panic when
   * the section or the license is empty; a load the kernel refuses ends the
   * call; an accepted one records `int(r1)` under the section's name.
   */
  function Submit(setup: Setup, call: nat, name: string, insns: seq<Insn>, t: Tables): Step
  {
    if |insns| == 0 then Stop(Failed(Panic(EmptyInstructions)), t)
    else if |setup.license| == 0 then Stop(Failed(Panic(EmptyLicense)), t)
    else
      var reply := setup.loadProg(call, insns, setup.license);
      if reply.errno != 0 then Stop(Rejected(name, reply.r1, reply.errno), t)
      else Next(t.(sectionNameToFd := t.sectionNameToFd[name := ToInt64(reply.r1)]))
  }

  /** The loop body for section `name`, the `call`-th program load. */
  function LoadSection(setup: Setup, call: nat, name: string, t: Tables): Step
  {
    match PrepareSection(setup, name, t.mapNameToFd)
    case Err(e) => Stop(Failed(e), t)
    case Ok(p) => Submit(setup, call, name, p.insns, t.(mapNameToFd := p.mapNameToFd))
  }

  /**
   * `sectionNameToFd` is written only after the kernel accepts the
   * program, and then only under the section's own name, with `int(r1)`;
   * an iteration that ends the call leaves it as it was, and a refusal
   * names the section and carries the kernel's errno.
   */
  lemma LoadSectionWrites(setup: Setup, call: nat, name: string, t: Tables)
    ensures var step := LoadSection(setup, call, name, t);
      var prep := PrepareSection(setup, name, t.mapNameToFd);
      (step.Stop? ==> step.tables.sectionNameToFd == t.sectionNameToFd) &&
      (step.Next? <==>
        prep.Ok? && |prep.value.insns| > 0 && |setup.license| > 0 &&
        setup.loadProg(call, prep.value.insns, setup.license).errno == 0) &&
      (step.Next? ==>
        step.tables.sectionNameToFd ==
          t.sectionNameToFd[name := ToInt64(setup.loadProg(call, prep.value.insns, setup.license).r1)]) &&
      (step.Stop? && step.outcome.Rejected? ==>
        step.outcome.section == name && prep.Ok? &&
        step.outcome.errno == setup.loadProg(call, prep.value.insns, setup.license).errno != 0)
  {
  }

  /** In a file that defines maps, a section without a related relocation section is an error. */
  lemma MapsNeedRelocations(setup: Setup, name: string, m: map<string, int>)
    requires setup.mapCount > 0
    requires RelatedRelocSection(setup.file.sections, name) == Ok(None)
    ensures PrepareSection(setup, name, m).Err?
    ensures GetBpfInsnsFromSection(setup.file.sections, name).Ok? ==>
      PrepareSection(setup, name, m) == Err(MapsWithoutRelocs)
  {
  }

  /** Preparing a section never removes a map name. */
  lemma PrepareSectionGrowsMapNames(setup: Setup, name: string, m: map<string, int>)
    ensures PrepareSection(setup, name, m).Ok? ==> m.Keys <= PrepareSection(setup, name, m).value.mapNameToFd.Keys
  {
    var insns := GetBpfInsnsFromSection(setup.file.sections, name);
    var rel := RelatedRelocSection(setup.file.sections, name);
    if insns.Ok? && rel.Ok? && rel.value.Some? {
      var rr := MapRelocations(RelocationRecords(setup.file.sections[rel.value.value]), setup.file.symbols);
      if rr.Ok? && TargetsInRange(rr.value, |insns.value|, |setup.mapFds|) {
        RecordMapFdsGrows(m, rr.value, setup.mapFds);
      }
    }
  }

  /** Among the relocations from `j` on, one carrying `relocs[j].name` is the last to carry it. */
  lemma {:induction false} LastCarrying(relocs: seq<MapRelocation>, j: nat) returns (k: nat)
    requires j < |relocs|
    ensures j <= k < |relocs| && relocs[k].name == relocs[j].name
    ensures forall j' :: k < j' < |relocs| ==> relocs[j'].name != relocs[j].name
    decreases |relocs| - j
  {
    if exists j' :: j < j' < |relocs| && relocs[j'].name == relocs[j].name {
      var j' :| j < j' < |relocs| && relocs[j'].name == relocs[j].name;
      k := LastCarrying(relocs, j');
    } else {
      k := j;
    }
  }

  /**
   * The program and the map-name table agree: for a relocation that is the
   * last to name its instruction, and whose map name always comes with the
   * same map slot (as it does when both are read from one symbol), the
   * instruction handed to the kernel is marked BPF_PSEUDO_MAP_FD and its
   * immediate is the fd recorded under the map's name.
   */
  lemma ProgramUsesRecordedFd(setup: Setup, name: string, m: map<string, int>, relocs: seq<MapRelocation>, j: nat)
    requires GetBpfInsnsFromSection(setup.file.sections, name).Ok?
    requires RelatedRelocSection(setup.file.sections, name).Ok?
    requires RelatedRelocSection(setup.file.sections, name).value.Some?
    requires MapRelocations(
      RelocationRecords(setup.file.sections[RelatedRelocSection(setup.file.sections, name).value.value]),
      setup.file.symbols) == Ok(relocs)
    requires TargetsInRange(relocs, |GetBpfInsnsFromSection(setup.file.sections, name).value|, |setup.mapFds|)
    requires j < |relocs|
    requires forall j' :: j < j' < |relocs| ==> relocs[j'].insnIdx != relocs[j].insnIdx
    requires forall j' :: 0 <= j' < |relocs| && relocs[j'].name == relocs[j].name ==>
      relocs[j'].value == relocs[j].value
    ensures PrepareSection(setup, name, m).Ok?
    ensures var p := PrepareSection(setup, name, m).value;
      relocs[j].insnIdx < |p.insns| && relocs[j].name in p.mapNameToFd &&
      SrcReg(p.insns[relocs[j].insnIdx].regs) == PseudoMapFd &&
      p.insns[relocs[j].insnIdx].imm == ToInt32(p.mapNameToFd[relocs[j].name])
  {
    var insns := GetBpfInsnsFromSection(setup.file.sections, name).value;
    RelocatedLastWins(insns, relocs, setup.mapFds, j);
    var k := LastCarrying(relocs, j);
    RecordMapFdsLastWins(m, relocs, setup.mapFds, k);
  }

  /**
   * What every iteration of the section loop guarantees about the tables:
   * an iteration that ends the call leaves `sectionNameToFd` as it was (a
   * refusal naming the section); one that goes on adds the section's own
   * name and changes no other entry; no map name is ever removed.
   */
  predicate StepWrites(step: Step, name: string, t: Tables)
  {
    (step.Stop? ==>
      !step.outcome.Loaded? &&
      step.tables.sectionNameToFd == t.sectionNameToFd &&
      (step.outcome.Rejected? ==> step.outcome.section == name)) &&
    (step.Next? ==>
      step.tables.sectionNameToFd.Keys == t.sectionNameToFd.Keys + {name} &&
      forall n :: n in t.sectionNameToFd && n != name ==>
        step.tables.sectionNameToFd[n] == t.sectionNameToFd[n]) &&
    t.mapNameToFd.Keys <= step.tables.mapNameToFd.Keys
  }

  /** The loop body of `BpfLoadProg` keeps to `StepWrites`. */
  lemma LoadSectionStepWrites(setup: Setup, call: nat, name: string, t: Tables)
    ensures StepWrites(LoadSection(setup, call, name, t), name, t)
  {
    LoadSectionWrites(setup, call, name, t);
    LoadSectionGrowsMapNames(setup, call, name, t);
  }

  /** One iteration never removes a map name. */
  lemma LoadSectionGrowsMapNames(setup: Setup, call: nat, name: string, t: Tables)
    ensures t.mapNameToFd.Keys <= LoadSection(setup, call, name, t).tables.mapNameToFd.Keys
  {
    var prep := PrepareSection(setup, name, t.mapNameToFd);
    PrepareSectionGrowsMapNames(setup, name, t.mapNameToFd);
    if prep.Ok? {
      var t' := t.(mapNameToFd := prep.value.mapNameToFd);
      assert LoadSection(setup, call, name, t) == Submit(setup, call, name, prep.value.insns, t');
      assert Submit(setup, call, name, prep.value.insns, t').tables.mapNameToFd == t'.mapNameToFd;
    }
  }

  /** Section `name` has a relocation section whose Info names it. */
  predicate HasRelocSection(sections: seq<Section>, name: string)
  {
    RelatedRelocSection(sections, name).Ok? && RelatedRelocSection(sections, name).value.Some?
  }

  /** With maps defined, an iteration goes on only for a section with a related relocation section. */
  lemma LoadSectionNeedsRelocation(setup: Setup, call: nat, name: string, t: Tables)
    requires setup.mapCount > 0
    ensures LoadSection(setup, call, name, t).Next? ==> HasRelocSection(setup.file.sections, name)
  {
    if RelatedRelocSection(setup.file.sections, name) == Ok(None) {
      MapsNeedRelocations(setup, name, t.mapNameToFd);
    }
  }

  // ---------------------------------------------------------------------
  // The section loop and the whole call
  // ---------------------------------------------------------------------

  /** A loop body: the `call`-th iteration, for section `name`, on tables `t`. */
  type Body = (nat, string, Tables) -> Step

  /** The loop body of `BpfLoadProg` once the maps exist. */
  function SectionBody(setup: Setup): Body
  {
    (call: nat, name: string, t: Tables) => LoadSection(setup, call, name, t)
  }

  /** `for _, section := range sections` from the `i`-th section on, with tables `t`. */
  function Loop(body: Body, sections: seq<string>, i: nat, t: Tables): LoadRun
    requires i <= |sections|
    decreases |sections| - i
  {
    if i == |sections| then LoadRun(Loaded, t, i)
    else match body(i, sections[i], t)
      case Stop(outcome, t') => LoadRun(outcome, t', i)
      case Next(t') => Loop(body, sections, i + 1, t')
  }

  /** `BpfLoadProg(file, sections, ...)` on the parsed file, starting from the caller's tables `t`. */
  function LoadProg(file: File, sections: seq<string>, kernel: Kernel, t: Tables): LoadRun
  {
    match FindSection(file.sections, LicenseSection)
    case None => LoadRun(Failed(NoLicense), t, 0)
    case Some(l) =>
      match BpfLoadMapsData(file.sections)
      case Err(_) => LoadRun(Failed(MapDataError), t, 0)
      case Ok(maps) =>
        var created := CreateMaps(maps, kernel.createMap);
        if created.result.Err? then LoadRun(Failed(MapCreateError), t, 0)
        else
          var setup := Setup(file, file.sections[l].data, |maps|, created.result.value, kernel.loadProg);
          Loop(SectionBody(setup), sections, 0, t)
  }

  /** Every iteration of `body` keeps to `StepWrites`. */
  ghost predicate BodyWrites(body: Body)
  {
    forall call, name, t :: StepWrites(body(call, name, t), name, t)
  }

  /** `body` goes on only for sections satisfying `p`. */
  ghost predicate GoesOnOnlyIf(body: Body, p: string -> bool)
  {
    forall call, name, t :: body(call, name, t).Next? ==> p(name)
  }

  /**
   * The loop stops at the first section whose iteration ends the call,
   * or after the last section; it succeeds exactly when it got through.
   */
  lemma {:induction false} LoopStops(body: Body, sections: seq<string>, i: nat, t: Tables)
    requires i <= |sections| && BodyWrites(body)
    ensures var run := Loop(body, sections, i, t);
      i <= run.loaded <= |sections| &&
      (run.outcome.Loaded? <==> run.loaded == |sections|) &&
      (run.outcome.Rejected? ==> run.outcome.section == sections[run.loaded])
    decreases |sections| - i
  {
    if i < |sections| {
      var step := body(i, sections[i], t);
      assert StepWrites(step, sections[i], t);
      if step.Next? {
        LoopStops(body, sections, i + 1, step.tables);
      }
    }
  }

  /**
   * The sections got through are added to `sectionNameToFd` and nothing
   * else changes in it: no name is removed and other names keep their fds;
   * no map name is removed from `mapNameToFd`.
   */
  lemma {:induction false} LoopTables(body: Body, sections: seq<string>, i: nat, t: Tables)
    requires i <= |sections| && BodyWrites(body)
    ensures var run := Loop(body, sections, i, t);
      i <= run.loaded <= |sections| &&
      (forall n :: n in run.tables.sectionNameToFd <==>
        n in t.sectionNameToFd || n in sections[i..run.loaded]) &&
      (forall n :: n in t.sectionNameToFd && n !in sections[i..run.loaded] ==>
        run.tables.sectionNameToFd[n] == t.sectionNameToFd[n]) &&
      t.mapNameToFd.Keys <= run.tables.mapNameToFd.Keys
    decreases |sections| - i
  {
    LoopStops(body, sections, i, t);
    var run := Loop(body, sections, i, t);
    if i == |sections| {
      assert sections[i..run.loaded] == [];
    } else {
      var step := body(i, sections[i], t);
      assert StepWrites(step, sections[i], t);
      if step.Next? {
        LoopTables(body, sections, i + 1, step.tables);
        assert sections[i..run.loaded] == [sections[i]] + sections[i + 1..run.loaded];
      } else {
        assert sections[i..run.loaded] == [];
      }
    }
  }

  /** Every section the loop got through satisfies `p` when the body goes on only for such sections. */
  lemma {:induction false} LoopOnlyIf(body: Body, p: string -> bool, sections: seq<string>, i: nat, t: Tables)
    requires i <= |sections| && GoesOnOnlyIf(body, p)
    ensures var run := Loop(body, sections, i, t);
      forall j :: i <= j < run.loaded && j < |sections| ==> p(sections[j])
    decreases |sections| - i
  {
    if i < |sections| {
      var step := body(i, sections[i], t);
      if step.Next? {
        LoopOnlyIf(body, p, sections, i + 1, step.tables);
      }
    }
  }

  /**
   * The outputs of `BpfLoadProg`. Without a license section, with map data
   * that cannot be read, or with a map the kernel refuses to create, the
   * call fails before any section is tried and both tables are unchanged.
   * Otherwise the sections before the `loaded`-th were accepted by
   * the kernel and are keys of `sectionNameToFd`, left in place when a
   * later section fails; entries of other names are untouched; no map
   * name is ever removed; the call succeeds only when every section was
   * loaded; and when the file defines maps, every loaded section had a
   * related relocation section.
   */
  lemma LoadProgOutputs(file: File, sections: seq<string>, kernel: Kernel, t: Tables)
    ensures var run := LoadProg(file, sections, kernel, t);
      (FindSection(file.sections, LicenseSection).None? ==> run == LoadRun(Failed(NoLicense), t, 0)) &&
      (FindSection(file.sections, LicenseSection).Some? && BpfLoadMapsData(file.sections).Err? ==>
        run == LoadRun(Failed(MapDataError), t, 0)) &&
      (FindSection(file.sections, LicenseSection).Some? && BpfLoadMapsData(file.sections).Ok? &&
       CreateMaps(BpfLoadMapsData(file.sections).value, kernel.createMap).result.Err? ==>
        run == LoadRun(Failed(MapCreateError), t, 0)) &&
      (run.outcome.Loaded? ==>
        FindSection(file.sections, LicenseSection).Some? && BpfLoadMapsData(file.sections).Ok? &&
        CreateMaps(BpfLoadMapsData(file.sections).value, kernel.createMap).result.Ok?) &&
      run.loaded <= |sections| &&
      (run.outcome.Loaded? ==> run.loaded == |sections|) &&
      (run.outcome.Rejected? ==> run.loaded < |sections| && run.outcome.section == sections[run.loaded]) &&
      (forall n :: n in run.tables.sectionNameToFd <==> n in t.sectionNameToFd || n in sections[..run.loaded]) &&
      (forall n :: n in t.sectionNameToFd && n !in sections[..run.loaded] ==>
        run.tables.sectionNameToFd[n] == t.sectionNameToFd[n]) &&
      t.mapNameToFd.Keys <= run.tables.mapNameToFd.Keys &&
      (BpfLoadMapsData(file.sections).Ok? && |BpfLoadMapsData(file.sections).value| > 0 ==>
        forall j :: 0 <= j < run.loaded && j < |sections| ==> HasRelocSection(file.sections, sections[j]))
  {
    var run := LoadProg(file, sections, kernel, t);
    var lic := FindSection(file.sections, LicenseSection);
    var maps := BpfLoadMapsData(file.sections);
    if lic.Some? && maps.Ok? {
      var created := CreateMaps(maps.value, kernel.createMap);
      if created.result.Ok? {
        var setup := Setup(file, file.sections[lic.value].data, |maps.value|, created.result.value, kernel.loadProg);
        var body := SectionBody(setup);
        forall call, name, t' ensures StepWrites(body(call, name, t'), name, t') {
          LoadSectionStepWrites(setup, call, name, t');
        }
        LoopStops(body, sections, 0, t);
        LoopTables(body, sections, 0, t);
        assert sections[0..run.loaded] == sections[..run.loaded];
        if |maps.value| > 0 {
          var p := (name: string) => HasRelocSection(file.sections, name);
          forall call, name, t' ensures body(call, name, t').Next? ==> p(name) {
            LoadSectionNeedsRelocation(setup, call, name, t');
          }
          LoopOnlyIf(body, p, sections, 0, t);
        }
        return;
      }
    }
    assert sections[..run.loaded] == [];
  }

  // ---------------------------------------------------------------------
  // The caller-owned tables and the imperative loader
  // ---------------------------------------------------------------------

  /** The two maps the caller passes in and `BpfLoadProg` writes into. */
  class FdMaps {
    var sectionNameToFd: map<string, int>
    var mapNameToFd: map<string, int>

    constructor (sectionNameToFd: map<string, int>, mapNameToFd: map<string, int>)
      ensures this.sectionNameToFd == sectionNameToFd && this.mapNameToFd == mapNameToFd
    {
      this.sectionNameToFd := sectionNameToFd;
      this.mapNameToFd := mapNameToFd;
    }

    function Contents(): Tables
      reads this
    {
      Tables(sectionNameToFd, mapNameToFd)
    }
  }

  /** `mapNameToFd[reloc.name] = mapFds[reloc.value]` for each relocation, into the caller's map. */
  method RecordMapNames(fdMaps: FdMaps, relocs: seq<MapRelocation>, mapFds: seq<int>)
    requires SlotsInRange(relocs, mapFds)
    modifies fdMaps
    ensures fdMaps.sectionNameToFd == old(fdMaps.sectionNameToFd)
    ensures fdMaps.mapNameToFd == RecordMapFds(old(fdMaps.mapNameToFd), relocs, mapFds)
  {
    var j := 0;
    while j < |relocs|
      invariant 0 <= j <= |relocs|
      invariant fdMaps.sectionNameToFd == old(fdMaps.sectionNameToFd)
      invariant RecordMapFds(fdMaps.mapNameToFd, relocs[j..], mapFds) == RecordMapFds(old(fdMaps.mapNameToFd), relocs, mapFds)
    {
      var reloc := relocs[j];
      assert relocs[j..][1..] == relocs[j + 1..];
      fdMaps.mapNameToFd := fdMaps.mapNameToFd[reloc.name := mapFds[reloc.value]];
      j := j + 1;
    }
    assert relocs[j..] == [];
  }

  /**
   * The first part of the loop body of `BpfLoadProg`, on the caller's
   * tables: decode the section, relocate a fresh instruction buffer in
   * place, and write the map names into `mapNameToFd`.
   */
  method PrepareSectionInPlace(setup: Setup, name: string, fdMaps: FdMaps) returns (r: Result<seq<Insn>, Fault>)
    modifies fdMaps
    ensures fdMaps.sectionNameToFd == old(fdMaps.sectionNameToFd)
    ensures r.Err? ==>
      PrepareSection(setup, name, old(fdMaps.mapNameToFd)) == Err(r.error) &&
      fdMaps.mapNameToFd == old(fdMaps.mapNameToFd)
    ensures r.Ok? ==> PrepareSection(setup, name, old(fdMaps.mapNameToFd)) == Ok(Prepared(r.value, fdMaps.mapNameToFd))
  {
    var decoded := GetBpfInsnsFromSection(setup.file.sections, name);
    if decoded.Err? {
      return Err(decoded.error);
    }
    var insns := decoded.value;

    var relocSection := GetElfRelatedRelocSection(setup.file.sections, name);
    if relocSection.Err? {
      return Err(relocSection.error);
    }
    if setup.mapCount > 0 && relocSection.value.None? {
      return Err(MapsWithoutRelocs);
    }
    if relocSection.value.None? {
      return Ok(insns);
    }

    var relocs := GetBpfRelocationsFromSection(setup.file, setup.file.sections[relocSection.value.value]);
    if relocs.Err? {
      return Err(relocs.error);
    }
    if !TargetsInRange(relocs.value, |insns|, |setup.mapFds|) {
      return Err(Panic(RelocTargetOutOfRange));
    }
    var buf := new Insn[|insns|](k requires 0 <= k < |insns| => insns[k]);
    assert buf[..] == insns;
    var _ := DoBpfMapRelocation(buf, relocs.value, setup.mapFds);

    RecordMapNames(fdMaps, relocs.value, setup.mapFds);
    return Ok(buf[..]);
  }

  /**
   * `BpfLoadProg`: check the license, load and create the maps, then for
   * each section prepare it, hand it to the kernel and record its fd,
   * writing the caller's tables as it goes.
   */
  method BpfLoadProg(file: File, sections: seq<string>, kernel: Kernel, fdMaps: FdMaps)
    returns (outcome: Outcome)
    modifies fdMaps
    ensures var run := LoadProg(file, sections, kernel, old(fdMaps.Contents()));
      outcome == run.outcome && fdMaps.Contents() == run.tables
  {
    var license := FindSection(file.sections, LicenseSection);
    if license.None? {
      return Failed(NoLicense);
    }
    var licenseData := file.sections[license.value].data;

    var maps := BpfLoadMapsData(file.sections);
    if maps.Err? {
      return Failed(MapDataError);
    }

    var mapFds, calls := BpfCreateMaps(maps.value, kernel.createMap);
    if mapFds.Err? {
      return Failed(MapCreateError);
    }
    var setup := Setup(file, licenseData, |maps.value|, mapFds.value, kernel.loadProg);

    var i := 0;
    while i < |sections|
      invariant 0 <= i <= |sections|
      invariant Loop(SectionBody(setup), sections, i, fdMaps.Contents()) == LoadProg(file, sections, kernel, old(fdMaps.Contents()))
    {
      var section := sections[i];
      var prepared := PrepareSectionInPlace(setup, section, fdMaps);
      if prepared.Err? {
        return Failed(prepared.error);
      }
      var insns := prepared.value;
      if |insns| == 0 {
        return Failed(Panic(EmptyInstructions));
      }
      if |licenseData| == 0 {
        return Failed(Panic(EmptyLicense));
      }
      var reply := kernel.loadProg(i, insns, licenseData);
      if reply.errno != 0 {
        return Rejected(section, reply.r1, reply.errno);
      }
      fdMaps.sectionNameToFd := fdMaps.sectionNameToFd[section := ToInt64(reply.r1)];
      i := i + 1;
    }
    return Loaded;
  }
}
