/**
 * The eBPF instruction record (`bpfInsn`) and its two field setters.
 *
 * The record follows `struct bpf_insn` of the Linux UAPI header
 * include/uapi/linux/bpf.h: an 8-bit opcode, one byte holding the source
 * register (high nibble) and the destination register (low nibble), a
 * signed 16-bit offset and a signed 32-bit immediate.
 */
module BpfInsn {
  import opened Bits
  import opened LittleEndian

  /** Size in bytes of one encoded instruction (`bpfInsnLen`). */
  const InsnLen: nat := 8

  /** Encoded widths of Code, Regs, Offset and Imm, in declaration order. */
  const CodeLen: nat := 1
  const RegsLen: nat := 1
  const OffsetLen: nat := 2
  const ImmLen: nat := 4

  /** Go's `bpfInsn` struct. */
  datatype Insn = Insn(code: u8, regs: u8, offset: i16, imm: i32)

  /** The source register: the high nibble of Regs. */
  function SrcReg(regs: u8): (r: nat)
    ensures r < 16
  {
    regs / 16
  }

  /** The destination register: the low nibble of Regs. */
  function DstReg(regs: u8): (r: nat)
    ensures r < 16
  {
    regs % 16
  }

  /**
   * The Regs byte that `SetSrcReg(value)` stores: `(value << 4) | (regs & 0xF)`,
   * with Go's uint8 shift dropping the bits of `value` above its low nibble.
   */
  function RegsWithSrc(regs: u8, value: u8): (r: u8)
    ensures SrcReg(r) == value % 16
    ensures DstReg(r) == DstReg(regs)
  {
    SetSrcRegBits(regs, value);
    BitOr(ShiftLeftU8(value, 4), BitAnd(regs, 0xF))
  }

  /** The bit expression of SetSrcReg places the two nibbles side by side. */
  lemma SetSrcRegBits(regs: u8, value: u8)
    ensures BitOr(ShiftLeftU8(value, 4), BitAnd(regs, 0xF)) == (value % 16) * 16 + regs % 16
  {
    assert Pow2(4) == 16;
    AndLowMask(regs, 4);
    ShiftLeftNibble(value);
    OrDisjoint(value % 16, regs % 16, 4);
  }

  /** A Regs byte is determined by its two nibbles. */
  lemma NibblesDetermineRegs(a: u8, b: u8)
    requires SrcReg(a) == SrcReg(b) && DstReg(a) == DstReg(b)
    ensures a == b
  {
  }

  /** Setting the same source register twice is the same as setting it once. */
  lemma SetSrcRegIdempotent(regs: u8, value: u8)
    ensures RegsWithSrc(RegsWithSrc(regs, value), value) == RegsWithSrc(regs, value)
  {
    NibblesDetermineRegs(RegsWithSrc(RegsWithSrc(regs, value), value), RegsWithSrc(regs, value));
  }

  /**
   * `insns[i].SetSrcReg(value)`: the pointer receiver `&insns[i]` is the
   * array slot `i`. Only the Regs field of that one slot changes.
   */
  method SetSrcReg(insns: array<Insn>, i: nat, value: u8)
    requires i < insns.Length
    modifies insns
    ensures insns[..] == old(insns[..])[i := old(insns[i]).(regs := RegsWithSrc(old(insns[i].regs), value))]
    ensures SrcReg(insns[i].regs) == value % 16
    ensures DstReg(insns[i].regs) == DstReg(old(insns[i].regs))
    ensures forall j :: 0 <= j < insns.Length && j != i ==> insns[j] == old(insns[j])
  {
    var dstReg := BitAnd(insns[i].regs, 0xF);
    SetSrcRegBits(insns[i].regs, value);
    insns[i] := insns[i].(regs := BitOr(ShiftLeftU8(value, 4), dstReg));
  }

  /** `insns[i].SetImm(value)`: only the Imm field of slot `i` changes. */
  method SetImm(insns: array<Insn>, i: nat, value: i32)
    requires i < insns.Length
    modifies insns
    ensures insns[..] == old(insns[..])[i := old(insns[i]).(imm := value)]
    ensures forall j :: 0 <= j < insns.Length && j != i ==> insns[j] == old(insns[j])
  {
    insns[i] := insns[i].(imm := value);
  }

  // ---------------------------------------------------------------------
  // The 8-byte little-endian layout read by `binary.Read`.
  // ---------------------------------------------------------------------

  /** One instruction read from 8 bytes: fields in declaration order, no padding. */
  function DecodeInsn(b: seq<byte>): Insn
    requires |b| == InsnLen
  {
    Insn(b[0], b[1], ToInt16(LeU16(b[2..4])), ToInt32(LeU32(b[4..8])))
  }

  /** The 8 bytes that `binary.Write` would produce for `insn`. */
  function EncodeInsn(insn: Insn): (b: seq<byte>)
    ensures |b| == CodeLen + RegsLen + OffsetLen + ImmLen == InsnLen
  {
    [insn.code, insn.regs] + LeBytes(ToUint16(insn.offset), OffsetLen) + LeBytes(ToUint32(insn.imm), ImmLen)
  }

  /** Every instruction survives encoding and decoding unchanged. */
  lemma DecodeEncodeInsn(insn: Insn)
    ensures DecodeInsn(EncodeInsn(insn)) == insn
  {
    var b := EncodeInsn(insn);
    assert b[2..4] == LeBytes(ToUint16(insn.offset), 2);
    assert b[4..8] == LeBytes(ToUint32(insn.imm), 4);
    LeUintOfLeBytes(ToUint16(insn.offset), 2);
    LeUintOfLeBytes(ToUint32(insn.imm), 4);
    Int16RoundTrip(insn.offset);
    Int32RoundTrip(insn.imm);
  }

  /** Every 8-byte slot is the encoding of exactly the instruction decoded from it. */
  lemma EncodeDecodeInsn(b: seq<byte>)
    requires |b| == InsnLen
    ensures EncodeInsn(DecodeInsn(b)) == b
  {
    var u16, u32 := LeU16(b[2..4]), LeU32(b[4..8]);
    Uint16RoundTrip(u16);
    Uint32RoundTrip(u32);
    LeBytesOfLeUint(b[2..4]);
    LeBytesOfLeUint(b[4..8]);
    assert b == [b[0], b[1]] + b[2..4] + b[4..8];
  }
}
