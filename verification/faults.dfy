/**
 * Why a step of the loader did not produce its result: either an error the
 * Go code returns, or a run-time panic (an index out of range) that the Go
 * code does not guard against.
 */
module Faults {

  /** The slice index expressions of the loader that can be out of range. */
  datatype PanicCause =
    | SymbolIndexOutOfRange       // syms[symIdx-1], including symIdx == 0
    | RelocInfoOutOfRange         // f.Sections[sec.Info]
    | RelocTargetOutOfRange       // insns[reloc.insnIdx] or mapFds[reloc.value]
    | EmptyInstructions           // &insns[0]
    | EmptyLicense                // &licenseData[0]

  datatype Fault =
    | SectionNotFound(name: string)   // "Could not find section ..."
    | BadInstructionsSize             // section length not a multiple of 8
    | MapsWrongType                   // "maps" section is not SHT_PROGBITS
    | NoSymbols                       // f.Symbols() failed
    | NoLicense                       // no "license" section
    | MapDataError                    // bpfLoadMapsData failed
    | MapCreateError                  // bpfCreateMaps failed
    | MapsWithoutRelocs               // maps defined, section has no SHT_REL
    | Panic(cause: PanicCause)
}
