/**
 * The part of an ELF object file the loader looks at, as `debug/elf` hands
 * it over: the section table (name, type, info field and contents) and the
 * symbol table. Parsing the file itself is not part of this model.
 */
module Elf {
  import opened Wrappers
  import opened Bits
  import opened LittleEndian

  /** Section types the loader distinguishes (System V gABI "Sections"). */
  const SHT_PROGBITS: u32 := 1
  const SHT_REL: u32 := 9

  /** One section header with the bytes `Data()` returns for it. */
  datatype Section = Section(name: string, sectionType: u32, info: u32, data: seq<byte>)

  /** One entry of `f.Symbols()`; the null symbol at index 0 is not in the list. */
  datatype Symbol = Symbol(name: string, value: u64)

  /**
   * The opened object file. `symbols` is None when `f.Symbols()` reports
   * an error (the file has no symbol table).
   */
  datatype File = File(sections: seq<Section>, symbols: Option<seq<Symbol>>)

  /** `f.Section(name)`: the index of the first section with that name, if any. */
  function FindSection(sections: seq<Section>, name: string): (r: Option<nat>)
    ensures r.Some? ==> r.value < |sections| && sections[r.value].name == name
    ensures r.Some? ==> forall k :: 0 <= k < r.value ==> sections[k].name != name
    ensures r.None? ==> forall k :: 0 <= k < |sections| ==> sections[k].name != name
  {
    if sections == [] then None
    else if sections[0].name == name then Some(0)
    else match FindSection(sections[1..], name)
      case None => None
      case Some(k) => Some(k + 1)
  }
}
