/** Replaying stores and journalled syscall writes reproduces the VM's memory: the shadow memory
    refines the machine of `Vm`, and exactly when. */
module ReplayRefinement {
  import opened Words
  import opened Wrappers
  import opened Ebpf
  import opened SbfMemory
  import opened FlatMemory
  import opened Syscalls
  import opened ShadowReplay
  import opened Vm

  /** Instruction i is an internal `call imm` whose target is the next slot: to the recorder it
      looks like a syscall. */
  ghost predicate LooksLikeSyscall(t: ExecutionTrace, run: seq<State>, i: nat)
    requires i + 1 < |run| && |run| == |t.snapshots|
  {
    t.OpcodeAt(i) == Some(CALL_IMM) && t.PcAt(i + 1) == t.PcAt(i) + 1 && run[i + 1].journal == run[i].journal
  }

  /** No internal call lands on the next slot while the journal still has entries to give. */
  ghost predicate CallsAreTold(t: ExecutionTrace, run: seq<State>)
    requires |run| == |t.snapshots|
  {
    forall i :: 0 <= i < |run| - 1 && LooksLikeSyscall(t, run, i) ==> |run[i].journal| == |t.syscallWrites|
  }

  /** Before instruction i the shadow holds the VM's memory, and has taken one journal entry per
      syscall executed. */
  ghost predicate InStep(t: ExecutionTrace, p: Program, run: seq<State>, i: nat)
    requires t.Valid() && i < |run| && |run| == |t.snapshots|
  {
    MemAt(t, i).cursor == |run[i].journal| && Refines(MemAt(t, i).regions, p.layout, run[i].mem)
  }

  /** Replaying the journal entry of a syscall step keeps the shadow in step. */
  lemma SyscallStepReplays(p: Program, regions: seq<Region>, s: State, t: State)
    requires WellLaidOut(p.layout) && Refines(regions, p.layout, s.mem) && SyscallStep(p, s, t)
    ensures |t.journal| == |s.journal| + 1
    ensures Refines(ApplyWrites(regions, t.journal[|s.journal|]), p.layout, t.mem)
  {
    var call, residue :|
      var d := Handle(p.layout, s.mem, p.heapStart, s.bump, call, residue);
      d.Done? && t.mem == d.mem && t.bump == d.bump && t.journal == s.journal + [d.writes];
    JournalIsFaithful(p.layout, s.mem, p.heapStart, s.bump, call, residue, regions);
  }

  lemma StoreReplays(p: Program, regions: seq<Region>, insn: Insn, shape: (nat, bool), s: State, t: State)
    requires WellLaidOut(p.layout) && Refines(regions, p.layout, s.mem)
    requires insn.dst < 12 && insn.src < 12 && shape.0 > 0 && StoreStep(p, insn, shape, s, t)
    ensures
      var w := StoreWrite(insn, shape, s.regs);
      Refines(WriteRegions(regions, w.addr, w.bytes), p.layout, t.mem)
  {
    var w := StoreWrite(insn, shape, s.regs);
    StoreIsMapped(p.layout, w.addr, |w.bytes|);
    WriteRefines(regions, p.layout, s.mem, w.addr, w.bytes);
  }

  /** Replaying any other step's own store keeps the shadow in step. */
  lemma StoreStepReplays(p: Program, regions: seq<Region>, s: State, t: State)
    requires WellLaidOut(p.layout) && StoresNameRegisters(p.text, p.moved)
    requires Refines(regions, p.layout, s.mem) && Step(p, s, t) && t.journal == s.journal
    ensures Refines(ApplyStore(regions, p.text, p.moved, Pc(s.regs), s.regs), p.layout, t.mem)
  {
    assert SlotNamesRegisters(p.text, p.moved, Pc(s.regs));
    var insn := Decode(p.text, Pc(s.regs)).value;
    StoreKindIsTheEncoding(p.moved, insn.opc);
    var kind := StoreKind(p.moved, insn.opc);
    if insn.opc !in {CALL_IMM, CALL_REG, EXIT} && kind.Some? {
      StoreReplays(p, regions, insn, kind.value, s, t);
    } else {
      assert t.mem == s.mem;
      assert ApplyStore(regions, p.text, p.moved, Pc(s.regs), s.regs) == regions;
    }
  }

  /** Only a `call imm` can be a syscall, and it alone adds to the journal. */
  lemma StepKinds(p: Program, s: State, t: State)
    requires StoresNameRegisters(p.text, p.moved) && Step(p, s, t)
    ensures t.journal == s.journal || SyscallStep(p, s, t)
    ensures SyscallStep(p, s, t) ==> t.journal != s.journal
    ensures t.journal != s.journal ==> Decode(p.text, Pc(s.regs)).value.opc == CALL_IMM
  {
  }

  lemma ConsumesSyscallsOnly(t: ExecutionTrace, i: nat, s: State, s': State, cursor: nat)
    requires t.Valid() && i + 1 < |t.snapshots| && t.snapshots[i] == s.regs && t.snapshots[i + 1] == s'.regs
    requires s'.journal == s.journal && cursor == |s.journal|
    requires t.OpcodeAt(i) == Some(CALL_IMM) && t.PcAt(i + 1) == t.PcAt(i) + 1 ==> cursor == |t.syscallWrites|
    ensures !Consumes(t, i, cursor)
  {
  }

  lemma ConsumesSyscall(t: ExecutionTrace, i: nat, p: Program, s: State, s': State, cursor: nat)
    requires t.Valid() && i + 1 < |t.snapshots| && t.snapshots[i] == s.regs && t.snapshots[i + 1] == s'.regs
    requires SyscallStep(p, s, s') && Decode(t.text, Pc(s.regs)).Some? && Decode(t.text, Pc(s.regs)).value.opc == CALL_IMM
    requires cursor < |t.syscallWrites|
    ensures Consumes(t, i, cursor)
    ensures forall regions :: ApplyStore(regions, t.text, t.moved, t.PcAt(i), s.regs) == regions
  {
  }

  /** The step of the refinement: one VM step, mirrored by one step of the shadow. */
  lemma AdvanceMirrorsStep(t: ExecutionTrace, i: nat, p: Program, s: State, s': State, m: MemState)
    requires t.Valid() && i + 1 < |t.snapshots| && t.snapshots[i] == s.regs && t.snapshots[i + 1] == s'.regs
    requires t.text == p.text && t.moved == p.moved && WellLaidOut(p.layout) && Step(p, s, s')
    requires s'.journal <= t.syscallWrites
    requires m.cursor == |s.journal| && Refines(m.regions, p.layout, s.mem)
    requires t.OpcodeAt(i) == Some(CALL_IMM) && t.PcAt(i + 1) == t.PcAt(i) + 1 && s'.journal == s.journal ==>
      |s.journal| == |t.syscallWrites|
    ensures
      var m' := AdvanceMemory(t, i, m);
      m'.cursor == |s'.journal| && Refines(m'.regions, p.layout, s'.mem)
  {
    StepKinds(p, s, s');
    if s'.journal == s.journal {
      ConsumesSyscallsOnly(t, i, s, s', m.cursor);
      StoreStepReplays(p, m.regions, s, s');
    } else {
      SyscallStepReplays(p, m.regions, s, s');
      ConsumesSyscall(t, i, p, s, s', m.cursor);
      assert t.syscallWrites[m.cursor] == s'.journal[m.cursor];
    }
  }

  /** Shadow replay refines the VM: at every snapshot of every run in which no internal call is
      taken for a syscall. */
  lemma {:induction false} ShadowRefinesVm(t: ExecutionTrace, p: Program, run: seq<State>, i: nat)
    requires IsTraceOf(t, p, run) && CallsAreTold(t, run) && i < |run|
    ensures InStep(t, p, run, i)
  {
    if i > 0 {
      ShadowRefinesVm(t, p, run, i - 1);
      JournalGrows(p, run, i, |run| - 1);
      assert LooksLikeSyscall(t, run, i - 1) ==> |run[i - 1].journal| == |t.syscallWrites|;
      assert StepAt(p, run, i - 1);
      AdvanceMirrorsStep(t, i - 1, p, run[i - 1], run[i], MemAt(t, i - 1));
      assert MemAt(t, i) == MemAfter(t, i - 1);
    }
  }

  /** The condition is exact: the journal cursor equals the number of syscalls executed at every
      snapshot if and only if no internal call is taken for a syscall. */
  lemma CursorCountsSyscallsIff(t: ExecutionTrace, p: Program, run: seq<State>)
    requires IsTraceOf(t, p, run)
    ensures (forall i :: 0 <= i < |run| ==> MemAt(t, i).cursor == |run[i].journal|) <==> CallsAreTold(t, run)
  {
    if CallsAreTold(t, run) {
      forall i | 0 <= i < |run|
        ensures MemAt(t, i).cursor == |run[i].journal|
      {
        ShadowRefinesVm(t, p, run, i);
      }
    } else {
      var i :| 0 <= i < |run| - 1 && LooksLikeSyscall(t, run, i) && |run[i].journal| != |t.syscallWrites|;
      JournalGrows(p, run, i, |run| - 1);
      MiscountedCall(t, run, i);
    }
  }

  /** An internal call taken for a syscall puts the cursor out of step there or just after. */
  lemma MiscountedCall(t: ExecutionTrace, run: seq<State>, i: nat)
    requires t.Valid() && |run| == |t.snapshots| && i + 1 < |run|
    requires LooksLikeSyscall(t, run, i) && |run[i].journal| < |t.syscallWrites|
    ensures MemAt(t, i).cursor != |run[i].journal| || MemAt(t, i + 1).cursor != |run[i + 1].journal|
  {
  }

  /** A read of the shadow at snapshot i is a read of the VM's memory before instruction i. */
  lemma ShadowReadsVmMemory(t: ExecutionTrace, p: Program, run: seq<State>, i: nat, addr: u64, n: nat)
    requires IsTraceOf(t, p, run) && CallsAreTold(t, run) && i < |run| && n > 0
    ensures ReadRegions(MemAt(t, i).regions, addr, n).Some? <==> Mapped(p.layout, addr, n, false)
    ensures Mapped(p.layout, addr, n, false) ==>
      && (forall a :: addr <= a < addr + n ==> a in run[i].mem)
      && ReadRegions(MemAt(t, i).regions, addr, n) == Some(Peek(run[i].mem, addr, n))
  {
    ShadowRefinesVm(t, p, run, i);
    ReadRefines(MemAt(t, i).regions, p.layout, run[i].mem, addr, n);
  }

  // ---------------------------------------------------------------------------
  // The condition is needed: a call to the very next slot
  // ---------------------------------------------------------------------------

  /** Slot 0 calls slot 1; slot 1 is `sol_memset_` of one byte; slot 2 is `exit`. */
  const CALL_NEXT_TEXT: seq<byte> :=
    [0x85, 0, 0, 0, 0, 0, 0, 0, 0x85, 0, 0, 0, 0, 0, 0, 0, 0x95, 0, 0, 0, 0, 0, 0, 0]
  const CALL_NEXT_LAYOUT := [Mapping(0x1000, 1, true)]
  const CALL_NEXT := Program(CALL_NEXT_TEXT, CALL_NEXT_LAYOUT, false, 0)

  function RegistersAt(pc: u64): Registers {
    [0, 0, 0, 0, 0, 0, 0, 0, 0, 0, 0, pc]
  }

  const CALL_NEXT_RUN := [
    State(RegistersAt(0), map[0x1000 := 0], [0], [], 0),
    State(RegistersAt(1), map[0x1000 := 0], [0, 1], [], 0),
    State(RegistersAt(2), map[0x1000 := 7], [0, 1], [[Write(0x1000, [7])]], 0)]

  const CALL_NEXT_TRACE := ExecutionTrace(
    [RegistersAt(0), RegistersAt(1), RegistersAt(2)], CALL_NEXT_TEXT,
    [Region(0x1000, [0])], [[Write(0x1000, [7])]], false, false)

  lemma CallNextDecodes()
    ensures Decode(CALL_NEXT_TEXT, 0) == Some(Insn(CALL_IMM, 0, 0, 0, 0))
    ensures Decode(CALL_NEXT_TEXT, 1) == Some(Insn(CALL_IMM, 0, 0, 0, 0))
    ensures Decode(CALL_NEXT_TEXT, 2) == Some(Insn(EXIT, 0, 0, 0, 0))
    ensures forall pc: u64 :: pc > 2 ==> Decode(CALL_NEXT_TEXT, pc) == None
  {
    ZeroTwos();
    assert CALL_NEXT_TEXT[0..8] == [0x85, 0, 0, 0, 0, 0, 0, 0];
    assert CALL_NEXT_TEXT[8..16] == [0x85, 0, 0, 0, 0, 0, 0, 0];
    assert CALL_NEXT_TEXT[16..24] == [0x95, 0, 0, 0, 0, 0, 0, 0];
    var insn := (opc: byte) => [opc, 0, 0, 0, 0, 0, 0, 0];
    assert insn(0x85)[2..4] == insn(0x95)[2..4] == [0, 0];
    assert insn(0x85)[4..8] == insn(0x95)[4..8] == [0, 0, 0, 0];
  }

  lemma ZeroTwos()
    ensures FromTwos([0, 0]) == 0 && FromTwos([0, 0, 0, 0]) == 0
  {
  }

  lemma CallNextMemory()
    ensures WellLaidOut(CALL_NEXT_LAYOUT) && Mapped(CALL_NEXT_LAYOUT, 0x1000, 1, true)
    ensures Covers(CALL_NEXT_LAYOUT, map[0x1000 := 0])
    ensures Refines([Region(0x1000, [0])], CALL_NEXT_LAYOUT, map[0x1000 := 0])
    ensures Poke(map[0x1000 := 0], 0x1000, [7]) == map[0x1000 := 7]
    ensures MemsetOutcome(CALL_NEXT_LAYOUT, map[0x1000 := 0], 0, 0x1000, 7, 1)
         == Done(map[0x1000 := 7], [Write(0x1000, [7])], 0, 0)
  {
    assert Holds(CALL_NEXT_LAYOUT[0], 0x1000, 1);
    assert seq(1, _ => (7 % 256) as byte) == [7];
  }

  lemma CallNextNamesRegisters()
    ensures StoresNameRegisters(CALL_NEXT_TEXT, false)
  {
    CallNextDecodes();
    assert StoreKind(false, CALL_IMM).None? && StoreKind(false, EXIT).None?;
    forall pc: u64
      ensures SlotNamesRegisters(CALL_NEXT_TEXT, false, pc)
    {
      assert pc == 0 || pc == 1 || pc == 2 || pc > 2;
    }
  }

  lemma CallNextFirstStep()
    requires StoresNameRegisters(CALL_NEXT_TEXT, false)
    ensures Step(CALL_NEXT, CALL_NEXT_RUN[0], CALL_NEXT_RUN[1])
  {
    CallNextDecodes();
    assert CallStep(CALL_NEXT_RUN[0], CALL_NEXT_RUN[1]);
  }

  lemma CallNextSecondStep()
    requires StoresNameRegisters(CALL_NEXT_TEXT, false)
    ensures Step(CALL_NEXT, CALL_NEXT_RUN[1], CALL_NEXT_RUN[2])
  {
    CallNextDecodes();
    CallNextMemory();
    assert Handle(CALL_NEXT_LAYOUT, CALL_NEXT_RUN[1].mem, 0, 0, Memset(0x1000, 7, 1), [])
        == Done(CALL_NEXT_RUN[2].mem, [Write(0x1000, [7])], 0, 0);
    assert CALL_NEXT_RUN[1].journal + [[Write(0x1000, [7])]] == CALL_NEXT_RUN[2].journal;
    assert Performs(CALL_NEXT, CALL_NEXT_RUN[1], CALL_NEXT_RUN[2], Memset(0x1000, 7, 1), []);
    assert SyscallStep(CALL_NEXT, CALL_NEXT_RUN[1], CALL_NEXT_RUN[2]);
  }

  lemma CallNextIsARun()
    ensures IsTraceOf(CALL_NEXT_TRACE, CALL_NEXT, CALL_NEXT_RUN)
  {
    CallNextMemory();
    CallNextNamesRegisters();
    CallNextFirstStep();
    CallNextSecondStep();
    var run := CALL_NEXT_RUN;
    assert StepAt(CALL_NEXT, run, 0) && StepAt(CALL_NEXT, run, 1);
    assert IsRun(CALL_NEXT, run);
    assert run[2].journal == CALL_NEXT_TRACE.syscallWrites;
  }

  /** Before the second instruction the shadow already holds the byte that instruction will write. */
  lemma CallToNextSlotCorruptsShadow()
    ensures IsTraceOf(CALL_NEXT_TRACE, CALL_NEXT, CALL_NEXT_RUN)
    ensures ReadRegions(MemAt(CALL_NEXT_TRACE, 1).regions, 0x1000, 1) == Some([7])
    ensures Peek(CALL_NEXT_RUN[1].mem, 0x1000, 1) == [0]
  {
    CallNextIsARun();
    CallNextDecodes();
    var t := CALL_NEXT_TRACE;
    assert Consumes(t, 0, 0);
    assert MemAt(t, 0) == MemState([Region(0x1000, [0])], 0);
    var entry := [Write(0x1000, [7])];
    assert entry[1..] == [];
    assert Fits(t.initialMemory[0], 0x1000, 1);
    var after := WriteRegions(t.initialMemory, 0x1000, [7]);
    assert Splice([0], 0, [7]) == [7];
    assert after == [Region(0x1000, [7])];
    assert ApplyWrites(t.initialMemory, entry) == after;
    assert MemAt(t, 1) == MemAfter(t, 0) == AdvanceMemory(t, 0, MemAt(t, 0)) == MemState(after, 1);
    assert Fits(after[0], 0x1000, 1);
  }
}
