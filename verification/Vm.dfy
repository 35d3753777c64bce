/** The virtual machine the recorder watches, pinned only as far as the recorder's claims reach:
    which instructions change memory and how, which enter and leave calls, and that a fault ends
    the run.  Other register and control-flow effects are left open. */
module Vm {
  import opened Words
  import opened Wrappers
  import opened Ebpf
  import opened SbfMemory
  import opened FlatMemory
  import opened Syscalls
  import opened ShadowReplay

  datatype Program = Program(text: seq<byte>, layout: seq<Mapping>, moved: bool, heapStart: u64)

  /** The machine before one instruction.  `frames` are the entry slots of the calls in progress,
      outermost first. */
  datatype State = State(regs: Registers, mem: Memory, frames: seq<u64>, journal: seq<seq<Write>>, bump: u64)

  /** Store width and operand, read off the fields of the opcode.  Classic stores are the ST and
      STX classes in MEM mode; relocated ones use the ALU64/STORE class with a width nibble. */
  function StoreShape(moved: bool, opc: byte): Option<(nat, bool)> {
    if moved then
      if Class(opc) != BPF_ALU64_STORE then None
      else
        var fromRegister := (opc / 8) % 2 == 1;
        match opc / 16
        case 2 => Some((1, fromRegister))
        case 3 => Some((2, fromRegister))
        case 8 => Some((4, fromRegister))
        case 9 => Some((8, fromRegister))
        case _ => None
    else
      if (Class(opc) != BPF_ST && Class(opc) != BPF_STX) || opc / 32 != 3 then None
      else
        var width := match (opc / 8) % 4 case 0 => 4 case 1 => 2 case 2 => 1 case _ => 8;
        Some((width, Class(opc) == BPF_STX))
  }

  /** The shadow's opcode table is the encoding: all 256 opcodes, both encodings. */
  lemma StoreKindIsTheEncoding(moved: bool, opc: byte)
    ensures StoreKind(moved, opc) == StoreShape(moved, opc)
  {
    var low, high := opc % 8, opc / 8;
    assert opc == 8 * high + low;
    assert high / 2 == opc / 16 && high / 4 == opc / 32;
  }

  ghost predicate SameMemory(s: State, t: State) {
    t.mem == s.mem && t.journal == s.journal && t.bump == s.bump
  }

  /** The handler of `call` did what leads from one state to the other: its effect on memory, one more
      journal entry, and its result in r0. */
  ghost predicate Performs(p: Program, s: State, t: State, call: Syscall, residue: seq<byte>)
    requires Covers(p.layout, s.mem)
  {
    var d := Handle(p.layout, s.mem, p.heapStart, s.bump, call, residue);
    d.Done? && t.mem == d.mem && t.bump == d.bump && t.journal == s.journal + [d.writes] && t.regs[0] == d.r0
  }

  /** A successful syscall: what its handler performs, and control passing to the next slot. */
  ghost predicate SyscallStep(p: Program, s: State, t: State) {
    && Covers(p.layout, s.mem)
    && Pc(t.regs) == Pc(s.regs) + 1
    && t.frames == s.frames
    && exists call, residue :: Performs(p, s, t, call, residue)
  }

  /** An internal call: control passes to the callee's entry. */
  ghost predicate CallStep(s: State, t: State) {
    SameMemory(s, t) && t.frames == s.frames + [Pc(t.regs)]
  }

  /** An `exit` below the outermost call; at the outermost one the run is over. */
  ghost predicate ExitStep(s: State, t: State) {
    SameMemory(s, t) && |s.frames| > 1 && t.frames == s.frames[..|s.frames| - 1]
  }

  /** A store inside one writable mapping; any other faults, so the run has no next state. */
  ghost predicate StoreStep(p: Program, insn: Insn, shape: (nat, bool), s: State, t: State)
    requires insn.dst < 12 && insn.src < 12
  {
    var addr := Wrap(s.regs[insn.dst] + insn.off);
    var value := if shape.1 then s.regs[insn.src] else Wrap(insn.imm);
    && Mapped(p.layout, addr, shape.0, true)
    && t.mem == Poke(s.mem, addr, ToLe(value, shape.0))
    && t.journal == s.journal && t.bump == s.bump && t.frames == s.frames
  }

  ghost predicate Step(p: Program, s: State, t: State)
    requires StoresNameRegisters(p.text, p.moved)
  {
    assert SlotNamesRegisters(p.text, p.moved, Pc(s.regs));
    match Decode(p.text, Pc(s.regs))
    case None => false
    case Some(insn) =>
      if insn.opc == CALL_IMM then SyscallStep(p, s, t) || CallStep(s, t)
      else if insn.opc == CALL_REG then CallStep(s, t)
      else if insn.opc == EXIT then ExitStep(s, t)
      else
        match StoreShape(p.moved, insn.opc)
        case Some(shape) =>
          StoreKindIsTheEncoding(p.moved, insn.opc);
          StoreStep(p, insn, shape, s, t)
        case None => SameMemory(s, t) && t.frames == s.frames
  }

  ghost predicate StepAt(p: Program, run: seq<State>, i: nat)
    requires i + 1 < |run| && StoresNameRegisters(p.text, p.moved)
  {
    Step(p, run[i], run[i + 1])
  }

  /** The states before the executed instructions of one run. */
  ghost predicate IsRun(p: Program, run: seq<State>) {
    && WellLaidOut(p.layout)
    && StoresNameRegisters(p.text, p.moved)
    && (run != [] ==> run[0].journal == [] && run[0].frames == [Pc(run[0].regs)] && Covers(p.layout, run[0].mem))
    && forall i :: 0 <= i < |run| - 1 ==> StepAt(p, run, i)
  }

  /** `t` is what the executor keeps of the run.  The instruction the run stopped at may have left
      one more journal entry. */
  ghost predicate IsTraceOf(t: ExecutionTrace, p: Program, run: seq<State>) {
    && IsRun(p, run)
    && t.text == p.text && t.moved == p.moved
    && |t.snapshots| == |run|
    && (forall i :: 0 <= i < |run| ==> t.snapshots[i] == run[i].regs)
    && (run != [] ==>
         && Refines(t.initialMemory, p.layout, run[0].mem)
         && run[|run| - 1].journal <= t.syscallWrites
         && |t.syscallWrites| <= |run[|run| - 1].journal| + 1)
  }

  /** The journal of an earlier state is a prefix of every later one. */
  lemma {:induction false} JournalGrows(p: Program, run: seq<State>, i: nat, j: nat)
    requires IsRun(p, run) && i <= j < |run|
    ensures run[i].journal <= run[j].journal
    decreases j - i
  {
    if i < j {
      assert StepAt(p, run, i);
      JournalGrows(p, run, i + 1, j);
    }
  }

  // ---------------------------------------------------------------------------
  // Allocation
  // ---------------------------------------------------------------------------

  /** The step is a call to the allocator that hands out a block of `size` bytes at `a`. */
  ghost predicate Allocates(p: Program, s: State, t: State, size: u64, a: u64) {
    && Covers(p.layout, s.mem)
    && a != 0 && a == t.regs[0]
    && exists call: Syscall, residue :: call.AllocFree? && call.size == size && Performs(p, s, t, call, residue)
  }

  /** Instruction i of the run does. */
  ghost predicate AllocatesAt(p: Program, run: seq<State>, i: nat, size: u64, a: u64) {
    i + 1 < |run| && Allocates(p, run[i], run[i + 1], size, a)
  }

  lemma StepLowersBump(p: Program, s: State, t: State)
    requires StoresNameRegisters(p.text, p.moved) && Step(p, s, t)
    ensures t.bump <= s.bump
  {
    assert SlotNamesRegisters(p.text, p.moved, Pc(s.regs));
    if SyscallStep(p, s, t) {
      var call, residue :| Performs(p, s, t, call, residue);
      FirstResult(p.layout, s.mem, p.heapStart, s.bump, call, residue);
    }
  }

  /** Nothing the program does raises the bump pointer. */
  lemma {:induction false} BumpFalls(p: Program, run: seq<State>, i: nat, j: nat)
    requires IsRun(p, run) && i <= j < |run|
    ensures run[j].bump <= run[i].bump
    decreases j - i
  {
    if i < j {
      assert StepAt(p, run, i);
      StepLowersBump(p, run[i], run[i + 1]);
      BumpFalls(p, run, i + 1, j);
    }
  }

  lemma BlockOfStep(p: Program, s: State, t: State, size: u64, a: u64)
    requires Allocates(p, s, t, size, a)
    ensures a % 8 == 0 && p.heapStart + 8 <= a && a + size <= s.bump && t.bump == a
  {
    var call: Syscall, residue :| call.AllocFree? && call.size == size && Performs(p, s, t, call, residue);
    AllocatesHighest(p.heapStart, s.bump, size);
  }

  /** In every run of the machine, whatever it stores and calls in between: each block handed out is
      aligned and lies in the heap, above its reserved head. */
  lemma BlocksOfRunAreInside(p: Program, run: seq<State>, heapLen: u64, i: nat, size: u64, a: u64)
    requires IsRun(p, run) && AllocatesAt(p, run, i, size, a)
    requires run[0].bump == SaturatingAdd(p.heapStart, heapLen)
    ensures a % 8 == 0 && p.heapStart + 8 <= a && a + size <= p.heapStart + heapLen
  {
    BumpFalls(p, run, 0, i);
    BlockOfStep(p, run[i], run[i + 1], size, a);
  }

  /** And each lies wholly below all blocks handed out before it, so that no two overlap. */
  lemma BlocksOfRunAreApart(p: Program, run: seq<State>, i: nat, size: u64, a: u64, j: nat, size': u64, a': u64)
    requires IsRun(p, run) && i < j && AllocatesAt(p, run, i, size, a) && AllocatesAt(p, run, j, size', a')
    ensures a' + size' <= a
  {
    BlockOfStep(p, run[i], run[i + 1], size, a);
    BumpFalls(p, run, i + 1, j);
    BlockOfStep(p, run[j], run[j + 1], size', a');
  }
}
