/**
 * Decoding of the trapped store. The handler reads the byte after the faulting pc;
 * on a little-endian A32 instruction that byte holds bits 15..8, so its high nibble
 * is the Rt field (bits 15..12) of `STR Rt, [Rn, #imm]`: the register being stored.
 * The register offset is the low byte of the faulting address, and a register value
 * is split into its low byte and, when it is wider, its second byte.
 */
module Decode {

  /** Index of the source register: the high nibble of the byte at pc+1. */
  function SourceRegister(pc1: bv8): (i: nat)
    ensures i < 16
  {
    ((pc1 & 0xf0) >> 4) as int
  }

  /** Register offset within the device's shadow: the low byte of the faulting address. */
  function Offset(addr: bv32): bv8 {
    (addr & 0xff) as bv8
  }

  /** The value checked first: the register truncated to a char. */
  function LowByte(v: bv32): bv8 {
    (v & 0xff) as bv8
  }

  /** The value checked second: bits 15..8 of the register. */
  function HighByte(v: bv32): bv8 {
    ((v >> 8) & 0xff) as bv8
  }

  /**
   * In arithmetic terms: the register index is the byte divided by 16, the offset is
   * the address modulo 256, the two checked bytes are the value's base-256 digits 0 and 1.
   */
  lemma DecodeArithmetic(pc1: bv8, addr: bv32, v: bv32)
    ensures SourceRegister(pc1) == (pc1 / 16) as int
    ensures Offset(addr) as bv32 == addr % 256
    ensures LowByte(v) as bv32 == v % 256
    ensures HighByte(v) as bv32 == v / 256 % 256
  {
  }

  /** The byte at pc+1 of a little-endian instruction word. */
  function InstructionByte1(insn: bv32): bv8 {
    ((insn >> 8) & 0xff) as bv8
  }

  /** Decoding the byte at pc+1 yields the Rt field, bits 15..12, of the instruction word. */
  lemma SourceRegisterIsRt(insn: bv32)
    ensures SourceRegister(InstructionByte1(insn)) == ((insn >> 12) & 0xf) as int
  {
  }

  /** The two checked bytes together are the whole value whenever it fits in 16 bits. */
  lemma SplitRecombines(v: bv32)
    requires v <= 0xffff
    ensures v == (HighByte(v) as bv32 << 8) | LowByte(v) as bv32
    ensures v == HighByte(v) as bv32 * 256 + LowByte(v) as bv32
  {
  }
}
