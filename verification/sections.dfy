/**
 * Reading the program sections of the object file: the instructions of a
 * named section (`getBpfInsnsFromSection`), the relocation sections
 * (`getElfRelocSections`) and the one that relates to a program section
 * (`getElfRelatedRelocSection`). Section pointers are modelled as indices
 * into the section table.
 */
module Sections {
  import opened Wrappers
  import opened Bits
  import opened LittleEndian
  import opened Faults
  import opened Elf
  import opened BpfInsn

  // ---------------------------------------------------------------------
  // getBpfInsnsFromSection
  // ---------------------------------------------------------------------

  /** `binary.Read` into `len(d)/8` instructions: record i is bytes [8i, 8i+8). */
  function DecodeInsns(d: seq<byte>): (insns: seq<Insn>)
    requires |d| % InsnLen == 0
    ensures InsnLen * |insns| == |d|
  {
    WholeRecords(|d|, InsnLen);
    DecodeRecords(d, InsnLen, |d| / InsnLen, DecodeInsn)
  }

  /** The bytes of a program: the instructions' encodings back to back. */
  function EncodeInsns(insns: seq<Insn>): (d: seq<byte>)
    ensures |d| == InsnLen * |insns| && |d| % InsnLen == 0
  {
    if insns == [] then []
    else
      var rest := EncodeInsns(insns[1..]);
      DivMod(|rest| + InsnLen, InsnLen, |insns|, 0);
      EncodeInsn(insns[0]) + rest
  }

  /** A non-empty program's bytes decode to its first record followed by the rest. */
  lemma DecodeInsnsCons(d: seq<byte>)
    requires |d| % InsnLen == 0 && d != []
    ensures InsnLen <= |d| && (|d| - InsnLen) % InsnLen == 0
    ensures DecodeInsns(d) == [DecodeInsn(d[..InsnLen])] + DecodeInsns(d[InsnLen..])
  {
    var n := |d| / InsnLen;
    RecordCount(|d|, InsnLen);
    DecodeRecordsStep(d, InsnLen, n, DecodeInsn);
    var tail := d[InsnLen..];
    assert |tail| / InsnLen == n - 1;
    assert DecodeInsns(tail) == DecodeRecords(tail, InsnLen, n - 1, DecodeInsn);
  }

  /** Every program survives encoding and decoding unchanged. */
  lemma {:induction false} DecodeEncodeInsns(insns: seq<Insn>)
    ensures DecodeInsns(EncodeInsns(insns)) == insns
  {
    if insns != [] {
      var head, rest := EncodeInsn(insns[0]), EncodeInsns(insns[1..]);
      var d := EncodeInsns(insns);
      assert d == head + rest;
      DecodeEncodeInsns(insns[1..]);
      DecodeEncodeInsn(insns[0]);
      DecodeInsnsCons(d);
      assert d[..InsnLen] == head;
      assert d[InsnLen..] == rest;
      assert DecodeInsns(d) == [insns[0]] + insns[1..];
    }
  }

  /** Every byte string whose length is a multiple of 8 is the encoding of the program decoded from it. */
  lemma {:induction false} EncodeDecodeInsns(d: seq<byte>)
    requires |d| % InsnLen == 0
    ensures EncodeInsns(DecodeInsns(d)) == d
    decreases |d|
  {
    if d != [] {
      DecodeInsnsCons(d);
      var insns := DecodeInsns(d);
      EncodeDecodeInsns(d[InsnLen..]);
      EncodeDecodeInsn(d[..InsnLen]);
      assert insns[0] == DecodeInsn(d[..InsnLen]);
      assert insns[1..] == DecodeInsns(d[InsnLen..]);
      assert EncodeInsns(insns) == EncodeInsn(insns[0]) + EncodeInsns(insns[1..]);
      assert d == d[..InsnLen] + d[InsnLen..];
    }
  }

  /**
   * `getBpfInsnsFromSection`: a missing section is an error, a section
   * whose length is not a multiple of 8 is an error, otherwise one
   * instruction per 8 bytes, in order.
   */
  function GetBpfInsnsFromSection(sections: seq<Section>, name: string): (r: Result<seq<Insn>, Fault>)
    ensures FindSection(sections, name).None? ==> r == Err(SectionNotFound(name))
    ensures FindSection(sections, name).Some? ==>
      var d := sections[FindSection(sections, name).value].data;
      (r.Err? <==> |d| % InsnLen != 0) &&
      (r.Err? ==> r.error == BadInstructionsSize) &&
      (r.Ok? ==>
        |r.value| == |d| / InsnLen &&
        forall i :: 0 <= i < |r.value| ==>
          r.value[i] == DecodeInsn(d[InsnLen * i .. InsnLen * i + InsnLen]))
  {
    match FindSection(sections, name)
    case None => Err(SectionNotFound(name))
    case Some(k) =>
      var d := sections[k].data;
      if |d| % InsnLen != 0 then Err(BadInstructionsSize)
      else
        WholeRecords(|d|, InsnLen);
        DecodeRecordsAt(d, InsnLen, |d| / InsnLen, DecodeInsn);
        Ok(DecodeInsns(d))
  }

  // ---------------------------------------------------------------------
  // getElfRelocSections
  // ---------------------------------------------------------------------

  /** The indices of the SHT_REL sections among the first `n`, in table order. */
  function RelocSectionsUpTo(sections: seq<Section>, n: nat): (rels: seq<nat>)
    requires n <= |sections|
    ensures forall j :: 0 <= j < |rels| ==> rels[j] < n && sections[rels[j]].sectionType == SHT_REL
    ensures forall j, j' :: 0 <= j < j' < |rels| ==> rels[j] < rels[j']
    ensures forall k :: 0 <= k < n && sections[k].sectionType == SHT_REL ==> k in rels
  {
    if n == 0 then []
    else RelocSectionsUpTo(sections, n - 1) + (if sections[n - 1].sectionType == SHT_REL then [n - 1] else [])
  }

  /** `getElfRelocSections`: exactly the SHT_REL sections, in their original order. */
  method GetElfRelocSections(sections: seq<Section>) returns (rels: seq<nat>)
    ensures rels == RelocSectionsUpTo(sections, |sections|)
  {
    rels := [];
    var i := 0;
    while i < |sections|
      invariant 0 <= i <= |sections|
      invariant rels == RelocSectionsUpTo(sections, i)
    {
      if sections[i].sectionType == SHT_REL {
        rels := rels + [i];
      }
      i := i + 1;
    }
  }

  // ---------------------------------------------------------------------
  // getElfRelatedRelocSection
  // ---------------------------------------------------------------------

  /** Section `k` is a relocation section whose Info field names section `name`. */
  predicate RelatesTo(sections: seq<Section>, k: nat, name: string)
  {
    k < |sections| && sections[k].info < |sections| && sections[sections[k].info].name == name
  }

  /** Every SHT_REL section's Info field is a valid section index. */
  predicate RelocInfosInRange(sections: seq<Section>)
  {
    forall k :: 0 <= k < |sections| && sections[k].sectionType == SHT_REL ==> sections[k].info < |sections|
  }

  /**
   * The scan of `getElfRelatedRelocSection` over the relocation sections
   * `rels`, with `found` the match so far; `f.Sections[sec.Info]` panics
   * when Info is out of range.
   */
  function RelatedFrom(sections: seq<Section>, rels: seq<nat>, name: string, found: Option<nat>)
    : (r: Result<Option<nat>, Fault>)
    requires forall j :: 0 <= j < |rels| ==> rels[j] < |sections|
    requires found.Some? ==> found.value < |sections|
    ensures r.Ok? && r.value.Some? ==> r.value.value < |sections|
  {
    if rels == [] then Ok(found)
    else
      var sec := sections[rels[0]];
      if sec.info >= |sections| then Err(Panic(RelocInfoOutOfRange))
      else RelatedFrom(sections, rels[1..], name,
                       if sections[sec.info].name == name then Some(rels[0]) else found)
  }

  /** `getElfRelatedRelocSection(f, name)`. */
  function RelatedRelocSection(sections: seq<Section>, name: string): (r: Result<Option<nat>, Fault>)
    ensures r.Ok? && r.value.Some? ==> r.value.value < |sections|
  {
    RelatedFrom(sections, RelocSectionsUpTo(sections, |sections|), name, None)
  }

  /** The scan panics exactly when some relocation section's Info is out of range. */
  lemma {:induction false} RelatedFromPanics(
    sections: seq<Section>, rels: seq<nat>, name: string, found: Option<nat>)
    requires forall j :: 0 <= j < |rels| ==> rels[j] < |sections|
    requires found.Some? ==> found.value < |sections|
    ensures var r := RelatedFrom(sections, rels, name, found);
      (r.Err? <==> exists j :: 0 <= j < |rels| && sections[rels[j]].info >= |sections|) &&
      (r.Err? ==> r.error == Panic(RelocInfoOutOfRange))
  {
    if rels != [] {
      var sec := sections[rels[0]];
      if sec.info < |sections| {
        var found' := if sections[sec.info].name == name then Some(rels[0]) else found;
        RelatedFromPanics(sections, rels[1..], name, found');
        if RelatedFrom(sections, rels[1..], name, found').Err? {
          var j :| 0 <= j < |rels[1..]| && sections[rels[1..][j]].info >= |sections|;
          assert sections[rels[j + 1]].info >= |sections|;
        } else {
          forall j | 0 <= j < |rels|
            ensures sections[rels[j]].info < |sections|
          {
            if j > 0 { assert rels[1..][j - 1] == rels[j]; }
          }
        }
      }
    }
  }

  /**
   * A successful scan keeps the last related section of `rels`, falling back
   * to `found` when none of `rels` relates to `name`.
   */
  lemma {:induction false} RelatedFromChoice(
    sections: seq<Section>, rels: seq<nat>, name: string, found: Option<nat>)
    requires forall j :: 0 <= j < |rels| ==> rels[j] < |sections|
    requires forall j, j' :: 0 <= j < j' < |rels| ==> rels[j] < rels[j']
    requires found.Some? ==> RelatesTo(sections, found.value, name)
    requires found.Some? ==> forall j :: 0 <= j < |rels| ==> found.value < rels[j]
    ensures var r := RelatedFrom(sections, rels, name, found);
      (r.Ok? && r.value.None? ==>
        found.None? && forall j :: 0 <= j < |rels| ==> !RelatesTo(sections, rels[j], name)) &&
      (r.Ok? && r.value.Some? ==>
        RelatesTo(sections, r.value.value, name) &&
        (r.value.value in rels || r.value == found) &&
        forall j :: 0 <= j < |rels| && rels[j] > r.value.value ==> !RelatesTo(sections, rels[j], name))
  {
    if rels != [] {
      var sec := sections[rels[0]];
      if sec.info < |sections| {
        var found' := if sections[sec.info].name == name then Some(rels[0]) else found;
        RelatedFromChoice(sections, rels[1..], name, found');
        var r := RelatedFrom(sections, rels[1..], name, found');
        if r.Ok? && r.value.None? {
          forall j | 0 <= j < |rels|
            ensures !RelatesTo(sections, rels[j], name)
          {
            if j > 0 { assert rels[1..][j - 1] == rels[j]; }
          }
        }
        if r.Ok? && r.value.Some? {
          var k := r.value.value;
          assert k in rels[1..] ==> k in rels;
          forall j | 0 <= j < |rels| && rels[j] > k
            ensures !RelatesTo(sections, rels[j], name)
          {
            if j == 0 {
              assert k !in rels[1..] by {
                forall m | 0 <= m < |rels[1..]|
                  ensures rels[1..][m] != k
                {
                  assert rels[0] < rels[m + 1];
                }
              }
            } else {
              assert rels[1..][j - 1] == rels[j];
            }
          }
        }
      }
    }
  }

  /**
   * `getElfRelatedRelocSection`: it panics when some SHT_REL section's Info
   * is out of range; otherwise it returns the LAST SHT_REL section whose
   * Info names a section called `name`, or nothing when there is none.
   */
  lemma RelatedRelocSectionChoice(sections: seq<Section>, name: string)
    ensures var r := RelatedRelocSection(sections, name);
      (r.Err? <==> !RelocInfosInRange(sections)) &&
      (r.Err? ==> r.error == Panic(RelocInfoOutOfRange)) &&
      (r.Ok? && r.value.None? ==>
        forall k :: 0 <= k < |sections| && sections[k].sectionType == SHT_REL ==>
          !RelatesTo(sections, k, name)) &&
      (r.Ok? && r.value.Some? ==>
        var k := r.value.value;
        k < |sections| && sections[k].sectionType == SHT_REL && RelatesTo(sections, k, name) &&
        forall k' :: k < k' < |sections| && sections[k'].sectionType == SHT_REL ==>
          !RelatesTo(sections, k', name))
  {
    var rels := RelocSectionsUpTo(sections, |sections|);
    RelatedFromPanics(sections, rels, name, None);
    RelatedFromChoice(sections, rels, name, None);
    var r := RelatedRelocSection(sections, name);
    if !RelocInfosInRange(sections) {
      var k :| 0 <= k < |sections| && sections[k].sectionType == SHT_REL && sections[k].info >= |sections|;
      var j :| 0 <= j < |rels| && rels[j] == k;
    }
    if r.Ok? && r.value.Some? {
      var k := r.value.value;
      var j :| 0 <= j < |rels| && rels[j] == k;
      forall k' | k < k' < |sections| && sections[k'].sectionType == SHT_REL
        ensures !RelatesTo(sections, k', name)
      {
        var j' :| 0 <= j' < |rels| && rels[j'] == k';
      }
    }
    if r.Ok? && r.value.None? {
      forall k | 0 <= k < |sections| && sections[k].sectionType == SHT_REL
        ensures !RelatesTo(sections, k, name)
      {
        var j :| 0 <= j < |rels| && rels[j] == k;
      }
    }
  }

  /** `getElfRelatedRelocSection`: collect the SHT_REL sections, keep the last one related to `name`. */
  method GetElfRelatedRelocSection(sections: seq<Section>, name: string)
    returns (r: Result<Option<nat>, Fault>)
    ensures r == RelatedRelocSection(sections, name)
  {
    var rels := GetElfRelocSections(sections);
    var found: Option<nat> := None;
    var j := 0;
    while j < |rels|
      invariant 0 <= j <= |rels|
      invariant found.Some? ==> found.value < |sections|
      invariant RelatedFrom(sections, rels[j..], name, found) == RelatedRelocSection(sections, name)
    {
      var sec := sections[rels[j]];
      assert rels[j..][1..] == rels[j + 1..];
      if sec.info >= |sections| {
        return Err(Panic(RelocInfoOutOfRange));
      }
      if sections[sec.info].name == name {
        found := Some(rels[j]);
      }
      j := j + 1;
    }
    return Ok(found);
  }
}
