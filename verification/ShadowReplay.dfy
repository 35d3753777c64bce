/** The memory half of the recording loop (`src/source_recorder.rs`, `run`): the shadow memory and
    the journal cursor, driven by register snapshots alone. */
module ShadowReplay {
  import opened Words
  import opened Wrappers
  import opened Ebpf
  import opened SbfMemory

  type Registers = r: seq<u64> | |r| == 12 witness seq(12, _ => 0)

  const PC_REGISTER := 11

  function Pc(regs: Registers): u64 {
    regs[PC_REGISTER]
  }

  /** What one execution leaves behind (`ExecutionTrace` in `src/executor.rs`), with the register
      dump already parsed into snapshots. */
  datatype ExecutionTrace = ExecutionTrace(
    snapshots: seq<Registers>,
    text: seq<byte>,
    initialMemory: seq<Region>,
    syscallWrites: seq<seq<Write>>,
    moved: bool,
    manualStackFrames: bool)
  {
    predicate Valid() {
      StoresNameRegisters(text, moved)
    }

    function PcAt(i: nat): u64
      requires i < |snapshots|
    {
      Pc(snapshots[i])
    }

    function OpcodeAt(i: nat): Option<byte>
      requires i < |snapshots|
    {
      match Decode(text, PcAt(i))
      case None => None
      case Some(insn) => Some(insn.opc)
    }

    /** The recorder's guess that a `call imm` was a syscall: execution continued in the next slot,
        or was not seen to continue at all. */
    predicate NextContinues(i: nat)
      requires i < |snapshots|
    {
      i + 1 < |snapshots| ==> PcAt(i + 1) == PcAt(i) + 1
    }
  }

  /** The shadow's regions and how many journal entries have been replayed into them. */
  datatype MemState = MemState(regions: seq<Region>, cursor: nat)

  /** Whether instruction i takes an entry off the journal, with `cursor` entries already taken. */
  predicate Consumes(t: ExecutionTrace, i: nat, cursor: nat)
    requires i < |t.snapshots|
  {
    EffectOf(t.text, t.moved, t.PcAt(i)) == MaybeSyscall && t.NextContinues(i) && cursor < |t.syscallWrites|
  }

  function AdvanceMemory(t: ExecutionTrace, i: nat, m: MemState): MemState
    requires t.Valid() && i < |t.snapshots|
  {
    var regions := ApplyStore(m.regions, t.text, t.moved, t.PcAt(i), t.snapshots[i]);
    if Consumes(t, i, m.cursor) then MemState(ApplyWrites(regions, t.syscallWrites[m.cursor]), m.cursor + 1)
    else MemState(regions, m.cursor)
  }

  /** The shadow memory used at snapshot i. */
  function MemAt(t: ExecutionTrace, i: nat): MemState
    requires t.Valid() && i <= |t.snapshots|
    decreases i, 0
  {
    if i == 0 then MemState(t.initialMemory, 0) else MemAfter(t, i - 1)
  }

  /** The shadow memory once instruction i is replayed. */
  function MemAfter(t: ExecutionTrace, i: nat): MemState
    requires t.Valid() && i < |t.snapshots|
    decreases i, 1
  {
    AdvanceMemory(t, i, MemAt(t, i))
  }
}
