/** Guest-memory reconstruction (`src/sbf_memory.rs`): a list of regions that stores and
    journalled syscall writes are replayed into. */
module SbfMemory {
  import opened Words
  import opened Wrappers
  import opened Ebpf

  datatype Region = Region(start: u64, bytes: seq<byte>)

  /** A journalled write: the address and the bytes now there. */
  datatype Write = Write(addr: u64, bytes: seq<byte>)

  /** What one instruction did to memory, as far as the shadow can tell. */
  datatype InstructionEffect = NoEffect | Stored | MaybeSyscall

  /** Whether [addr, addr + n) is addressed inside `r`, by the checked arithmetic of the source. */
  predicate Fits(r: Region, addr: u64, n: nat) {
    var off := addr - r.start;
    off >= 0 && off + n < TWO64 && off + n <= |r.bytes|
  }

  /** Index of the first region at or after `from` that holds [addr, addr + n); |regions| if none. */
  function FindFit(regions: seq<Region>, addr: u64, n: nat, from: nat): (k: nat)
    requires from <= |regions|
    ensures from <= k <= |regions|
    ensures k < |regions| ==> Fits(regions[k], addr, n)
    ensures forall j :: from <= j < k ==> !Fits(regions[j], addr, n)
    decreases |regions| - from
  {
    if from == |regions| || Fits(regions[from], addr, n) then from
    else FindFit(regions, addr, n, from + 1)
  }

  function ReadRegions(regions: seq<Region>, addr: u64, n: nat): Option<seq<byte>> {
    var k := FindFit(regions, addr, n, 0);
    if k == |regions| then None
    else
      var off := addr - regions[k].start;
      Some(regions[k].bytes[off..off + n])
  }

  /** `bytes` with `data` laid over it from `off` on. */
  function Splice(bytes: seq<byte>, off: nat, data: seq<byte>): (r: seq<byte>)
    requires off + |data| <= |bytes|
    ensures |r| == |bytes|
    ensures forall i :: 0 <= i < |bytes| ==>
      r[i] == if off <= i < off + |data| then data[i - off] else bytes[i]
  {
    bytes[..off] + data + bytes[off + |data|..]
  }

  function WriteRegions(regions: seq<Region>, addr: u64, data: seq<byte>): (r: seq<Region>)
    ensures |r| == |regions|
  {
    var k := FindFit(regions, addr, |data|, 0);
    if k == |regions| then regions
    else
      var region := regions[k];
      regions[k := region.(bytes := Splice(region.bytes, addr - region.start, data))]
  }

  function ApplyWrites(regions: seq<Region>, writes: seq<Write>): (r: seq<Region>)
    ensures |r| == |regions|
    decreases |writes|
  {
    if writes == [] then regions
    else ApplyWrites(WriteRegions(regions, writes[0].addr, writes[0].bytes), writes[1..])
  }

  /** Store width in bytes, and whether the value comes from a register. */
  function StoreKind(moved: bool, opc: byte): (r: Option<(nat, bool)>)
    ensures r.Some? ==> r.value.0 in {1, 2, 4, 8}
  {
    if moved then
      if opc == ST_1B_IMM then Some((1, false))
      else if opc == ST_2B_IMM then Some((2, false))
      else if opc == ST_4B_IMM then Some((4, false))
      else if opc == ST_8B_IMM then Some((8, false))
      else if opc == ST_1B_REG then Some((1, true))
      else if opc == ST_2B_REG then Some((2, true))
      else if opc == ST_4B_REG then Some((4, true))
      else if opc == ST_8B_REG then Some((8, true))
      else None
    else
      if opc == ST_B_IMM then Some((1, false))
      else if opc == ST_H_IMM then Some((2, false))
      else if opc == ST_W_IMM then Some((4, false))
      else if opc == ST_DW_IMM then Some((8, false))
      else if opc == ST_B_REG then Some((1, true))
      else if opc == ST_H_REG then Some((2, true))
      else if opc == ST_W_REG then Some((4, true))
      else if opc == ST_DW_REG then Some((8, true))
      else None
  }

  /** If slot `pc` is a store, the registers it names exist. */
  predicate SlotNamesRegisters(text: seq<byte>, moved: bool, pc: u64) {
    var insn := Decode(text, pc);
    insn.Some? && StoreKind(moved, insn.value.opc).Some? ==> insn.value.dst < 12 && insn.value.src < 12
  }

  /** The source indexes a 12-entry array with the registers of a store; the programs it runs have
      passed the VM's verifier. */
  predicate StoresNameRegisters(text: seq<byte>, moved: bool) {
    forall pc: u64 :: SlotNamesRegisters(text, moved, pc)
  }

  /** The write the store instruction `insn` makes with registers `regs`. */
  function StoreWrite(insn: Insn, kind: (nat, bool), regs: seq<u64>): Write
    requires |regs| == 12 && insn.dst < 12 && insn.src < 12
  {
    var value := if kind.1 then regs[insn.src] else Wrap(insn.imm);
    Write(Wrap(regs[insn.dst] + insn.off), ToLe(value, kind.0))
  }

  function EffectOf(text: seq<byte>, moved: bool, pc: u64): InstructionEffect {
    match Decode(text, pc)
    case None => NoEffect
    case Some(insn) =>
      if insn.opc == CALL_IMM then MaybeSyscall
      else if StoreKind(moved, insn.opc).Some? then Stored
      else NoEffect
  }

  /** The regions after the instruction at `pc`, leaving syscalls aside. */
  function ApplyStore(regions: seq<Region>, text: seq<byte>, moved: bool, pc: u64, regs: seq<u64>): seq<Region>
    requires |regs| == 12 && StoresNameRegisters(text, moved)
  {
    assert SlotNamesRegisters(text, moved, pc);
    match Decode(text, pc)
    case None => regions
    case Some(insn) =>
      var kind := StoreKind(moved, insn.opc);
      if insn.opc == CALL_IMM || kind.None? then regions
      else
        var w := StoreWrite(insn, kind.value, regs);
        WriteRegions(regions, w.addr, w.bytes)
  }

  /** The replayable copy of the program's memory. */
  class ShadowMemory {
    var regions: seq<Region>
    const moved: bool

    constructor (initial: seq<Region>, moved: bool)
      ensures regions == initial && this.moved == moved
    {
      regions := initial;
      this.moved := moved;
    }

    method Read(addr: u64, n: nat) returns (r: Option<seq<byte>>)
      ensures r == ReadRegions(regions, addr, n)
    {
      for i := 0 to |regions|
        invariant forall j :: 0 <= j < i ==> !Fits(regions[j], addr, n)
      {
        if Fits(regions[i], addr, n) {
          var off := addr - regions[i].start;
          return Some(regions[i].bytes[off..off + n]);
        }
      }
      return None;
    }

    method Write(addr: u64, data: seq<byte>)
      modifies this
      ensures regions == WriteRegions(old(regions), addr, data)
    {
      for i := 0 to |regions|
        invariant regions == old(regions)
        invariant forall j :: 0 <= j < i ==> !Fits(regions[j], addr, |data|)
      {
        if addr < regions[i].start {
          continue;
        }
        var off := addr - regions[i].start;
        if off + |data| < TWO64 && off + |data| <= |regions[i].bytes| {
          regions := regions[i := regions[i].(bytes := Splice(regions[i].bytes, off, data))];
          return;
        }
      }
    }

    /** Replay the journalled writes of one syscall, in order. */
    method Replay(writes: seq<Write>)
      modifies this
      ensures regions == ApplyWrites(old(regions), writes)
    {
      for i := 0 to |writes|
        invariant ApplyWrites(old(regions), writes) == ApplyWrites(regions, writes[i..])
      {
        Write(writes[i].addr, writes[i].bytes);
        assert writes[i..][1..] == writes[i + 1..];
      }
    }

    method ApplyInstruction(text: seq<byte>, pc: u64, regs: seq<u64>) returns (effect: InstructionEffect)
      requires |regs| == 12 && StoresNameRegisters(text, moved)
      modifies this
      ensures regions == ApplyStore(old(regions), text, moved, pc, regs)
      ensures effect == EffectOf(text, moved, pc)
    {
      var decoded := Decode(text, pc);
      if decoded.None? {
        return NoEffect;
      }
      var insn := decoded.value;
      if insn.opc == CALL_IMM {
        return MaybeSyscall;
      }
      var kind := StoreKind(moved, insn.opc);
      if kind.None? {
        return NoEffect;
      }
      assert SlotNamesRegisters(text, moved, pc);
      var addr := Wrap(regs[insn.dst] + insn.off);
      var value := if kind.value.1 then regs[insn.src] else Wrap(insn.imm);
      Write(addr, ToLe(value, kind.value.0));
      return Stored;
    }
  }
}
