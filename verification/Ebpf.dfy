/** The instruction encoding of the SBF virtual machine, as far as the recorder looks at it
    (`solana_sbpf::ebpf` and the `decode` function of `sbf_memory.rs`). */
module Ebpf {
  import opened Words
  import opened Wrappers

  const INSN_SIZE := 8
  const FRAME_POINTER := 10

  // Instruction classes: the low three bits of an opcode.
  const BPF_LDX := 0x01
  const BPF_ST := 0x02
  const BPF_STX := 0x03
  const BPF_JMP64 := 0x05
  const BPF_JMP32 := 0x06
  const BPF_ALU64_STORE := 0x07

  const ADD64_IMM := 0x07
  const MOV64_REG := 0xbf
  const CALL_IMM := 0x85
  const CALL_REG := 0x8d
  const EXIT := 0x95

  // Loads, classic and relocated encoding.
  const LD_W_REG := 0x61
  const LD_H_REG := 0x69
  const LD_B_REG := 0x71
  const LD_DW_REG := 0x79
  const LD_1B_REG := 0x2c
  const LD_2B_REG := 0x3c
  const LD_4B_REG := 0x8c
  const LD_8B_REG := 0x9c

  // Stores, classic encoding.
  const ST_W_IMM := 0x62
  const ST_H_IMM := 0x6a
  const ST_B_IMM := 0x72
  const ST_DW_IMM := 0x7a
  const ST_W_REG := 0x63
  const ST_H_REG := 0x6b
  const ST_B_REG := 0x73
  const ST_DW_REG := 0x7b

  // Stores, relocated encoding (SBPF v2 memory instruction classes).
  const ST_1B_IMM := 0x27
  const ST_2B_IMM := 0x37
  const ST_4B_IMM := 0x87
  const ST_8B_IMM := 0x97
  const ST_1B_REG := 0x2f
  const ST_2B_REG := 0x3f
  const ST_4B_REG := 0x8f
  const ST_8B_REG := 0x9f

  /** One decoded slot.  `dst` and `src` are four-bit fields, `off` is a signed 16-bit and
      `imm` a signed 32-bit number. */
  datatype Insn = Insn(opc: byte, dst: nat, src: nat, off: int, imm: int)

  /** Decode the instruction in slot `pc` of `text`; None when the slot is not wholly inside. */
  function Decode(text: seq<byte>, pc: u64): (r: Option<Insn>)
    ensures r.Some? <==> 8 * pc + 8 <= |text| && 8 * pc + 8 < TWO64
    ensures r.Some? ==> r.value.dst < 16 && r.value.src < 16
  {
    var start := pc * INSN_SIZE;
    var end := start + INSN_SIZE;
    if end >= TWO64 || end > |text| then None
    else
      var b := text[start..end];
      Some(Insn(b[0], b[1] % 16, b[1] / 16, FromTwos(b[2..4]), FromTwos(b[4..8])))
  }

  function Class(opc: byte): nat {
    opc % 8
  }

  /** The slot that holds an instruction, as an assembler lays it out: opcode, the two registers in one
      byte, a 16-bit offset and a 32-bit immediate, both little-endian and in two's complement. */
  function SlotBytes(insn: Insn): (bytes: seq<byte>)
    requires insn.dst < 16 && insn.src < 16
    ensures |bytes| == 8
  {
    [insn.opc, 16 * insn.src + insn.dst] + ToLe(insn.off % 0x1_0000, 2) + ToLe(insn.imm % 0x1_0000_0000, 4)
  }

  /** The instructions a slot can hold. */
  predicate Encodable(insn: Insn) {
    && insn.dst < 16 && insn.src < 16
    && -0x8000 <= insn.off < 0x8000 && -0x8000_0000 <= insn.imm < 0x8000_0000
  }

  lemma Pow256Small()
    ensures Pow256(2) == 0x1_0000 && Pow256(4) == 0x1_0000_0000
  {
  }

  /** Decoding inverts assembling, for every instruction in every slot. */
  lemma DecodeInvertsEncoding(text: seq<byte>, pc: u64, insn: Insn)
    requires Encodable(insn) && 8 * pc + 8 <= |text| && 8 * pc + 8 < TWO64
    requires text[8 * pc..8 * pc + 8] == SlotBytes(insn)
    ensures Decode(text, pc) == Some(insn)
  {
    Pow256Small();
    var b := text[8 * pc..8 * pc + 8];
    assert b[2..4] == ToLe(insn.off % 0x1_0000, 2) && b[4..8] == ToLe(insn.imm % 0x1_0000_0000, 4);
    TwosOfToLe(insn.off, 2);
    TwosOfToLe(insn.imm, 4);
  }

  /** And what a slot decodes to is encodable, with the slot's own bytes. */
  lemma EncodingInvertsDecode(text: seq<byte>, pc: u64)
    requires Decode(text, pc).Some?
    ensures Encodable(Decode(text, pc).value)
    ensures SlotBytes(Decode(text, pc).value) == text[8 * pc..8 * pc + 8]
  {
    Pow256Small();
    var b, insn := text[8 * pc..8 * pc + 8], Decode(text, pc).value;
    BytesOfTwos(b[2..4]);
    BytesOfTwos(b[4..8]);
    assert b == [b[0], b[1]] + b[2..4] + b[4..8];
  }

  lemma BytesOfTwos(bytes: seq<byte>)
    requires bytes != []
    ensures 0 <= 2 * FromTwos(bytes) + Pow256(|bytes|) && 2 * FromTwos(bytes) < Pow256(|bytes|)
    ensures ToLe(FromTwos(bytes) % Pow256(|bytes|), |bytes|) == bytes
  {
    FromLeBound(bytes);
    ToLeFromLe(bytes);
    TwosRemainder(FromLe(bytes), Pow256(|bytes|));
  }

  lemma TwosRemainder(v: nat, p: nat)
    requires v < p
    ensures
      var x := if 2 * v >= p then v - p else v;
      0 <= 2 * x + p && 2 * x < p && x % p == v
  {
    RemainderOf(if 2 * v >= p then v - p else v, p);
  }

  /** The opcodes named above are class, source bit and operation. */
  lemma OpcodesAreTheEncoding()
    ensures ADD64_IMM == BPF_ALU64_STORE + 0x00 && MOV64_REG == BPF_ALU64_STORE + 0x08 + 0xb0
    ensures CALL_IMM == BPF_JMP64 + 0x80 && CALL_REG == BPF_JMP64 + 0x08 + 0x80 && EXIT == BPF_JMP64 + 0x90
  {
  }
}
