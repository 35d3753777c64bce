/** The recorded stack mirrors the VM's call stack, and exactly when; and the two places that ask
    whether a `call` continued in the next slot agree. */
module StackMirror {
  import opened Words
  import opened Wrappers
  import opened Ebpf
  import opened SbfMemory
  import opened ShadowReplay
  import opened Vm
  import opened ReplayRefinement
  import opened SourceRecorder

  function Functions(stack: seq<Frame>): (r: seq<nat>)
    ensures |r| == |stack|
    ensures forall k :: 0 <= k < |stack| ==> r[k] == stack[k].fn
  {
    seq(|stack|, k requires 0 <= k < |stack| => stack[k].fn)
  }

  /** Slot `pc` lies in function `f`, the first described one there. */
  predicate IsEntryOf(debug: SourceDebugInfo, pc: u64, f: nat) {
    debug.FunctionAt(debug.AddressOfSlot(pc)) == Some(f)
  }

  predicate Described(debug: SourceDebugInfo, pc: u64) {
    debug.FunctionAt(debug.AddressOfSlot(pc)).Some?
  }

  /** One recorded frame per VM frame, naming the function its entry lies in. */
  ghost predicate Names(debug: SourceDebugInfo, fns: seq<nat>, frames: seq<u64>) {
    |fns| == |frames| && forall k :: 0 <= k < |fns| ==> IsEntryOf(debug, frames[k], fns[k])
  }

  /** At snapshot i the recorded stack, outermost first, is the VM's. */
  ghost predicate MirroredAt(s: Session, run: seq<State>, i: nat)
    requires s.Valid() && i < |s.t.snapshots| && |run| == |s.t.snapshots|
  {
    Names(s.debug, Functions(TraceAfter(s, i + 1).stack), run[i].frames)
  }

  /** Instruction i of the run is an internal call. */
  ghost predicate IsInternalCall(s: Session, run: seq<State>, i: nat)
    requires i + 1 < |run| && |run| == |s.t.snapshots|
  {
    s.t.OpcodeAt(i) in {Some(CALL_IMM), Some(CALL_REG)} && run[i + 1].journal == run[i].journal
  }

  /** The internal call at i leads to a described function other than by falling into the next slot. */
  ghost predicate CallIsSeen(s: Session, run: seq<State>, i: nat)
    requires i + 1 < |run| && |run| == |s.t.snapshots|
  {
    IsInternalCall(s, run, i) ==> s.t.PcAt(i + 1) != s.t.PcAt(i) + 1 && Described(s.debug, s.t.PcAt(i + 1))
  }

  /** The entry is described, and every internal call is seen. */
  ghost predicate AllCallsSeen(s: Session, run: seq<State>)
    requires |run| == |s.t.snapshots|
  {
    && (run != [] ==> Described(s.debug, s.t.PcAt(0)))
    && forall i :: 0 <= i < |run| - 1 ==> CallIsSeen(s, run, i)
  }

  /** The functions on the stack after snapshot i, given those before it. */
  function FunctionsAfter(s: Session, i: nat, fns: seq<nat>): seq<nat>
    requires i < |s.t.snapshots|
  {
    var f := s.debug.FunctionAt(s.Addr(i));
    if i == 0 || EnteredByCall(s.t, i) then
      if f.Some? then fns + [f.value] else fns
    else if LeftByExit(s.t, i) && fns != [] then fns[..|fns| - 1]
    else fns
  }

  lemma PatchKeepsFunctions(s: Session, a: u64, st: TraceState)
    requires FramesKnown(s.debug, st.stack)
    ensures Functions(PatchInlined(s, a, st).stack) == Functions(st.stack)
  {
  }

  lemma EmitKeepsStack(s: Session, i: nat, regions: seq<Region>, st: TraceState)
    requires s.Defined() && i < |s.t.snapshots| && FramesKnown(s.debug, st.stack)
    ensures EmitStep(s, i, regions, st).stack == st.stack
  {
  }

  lemma TransitionFunctions(s: Session, i: nat, regions: seq<Region>, st: TraceState)
    requires s.Defined() && i < |s.t.snapshots| && FramesKnown(s.debug, st.stack)
    ensures Functions(Transition(s, i, regions, st).stack) == FunctionsAfter(s, i, Functions(st.stack))
  {
  }

  /** The functions on the stack after the first n snapshots. */
  function StackAfter(s: Session, n: nat): seq<nat>
    requires n <= |s.t.snapshots|
    decreases n, 0
  {
    if n == 0 then [] else StackTurned(s, n - 1)
  }

  function StackTurned(s: Session, i: nat): seq<nat>
    requires i < |s.t.snapshots|
    decreases i, 1
  {
    FunctionsAfter(s, i, StackAfter(s, i))
  }

  lemma EnteredFunctions(s: Session, i: nat)
    requires s.Defined() && i < |s.t.snapshots|
    ensures Functions(EnteredAt(s, i).stack) == FunctionsAfter(s, i, Functions(TraceAfter(s, i).stack))
  {
    TransitionFunctions(s, i, MemAt(s.t, i).regions, TraceAfter(s, i));
  }

  lemma SteppedFunctions(s: Session, i: nat)
    requires s.Defined() && i < |s.t.snapshots|
    ensures Functions(TraceAfter(s, i + 1).stack) == Functions(EnteredAt(s, i).stack)
  {
    PatchKeepsFunctions(s, s.Addr(i), EnteredAt(s, i));
    EmitKeepsStack(s, i, MemAt(s.t, i).regions, PatchedAt(s, i));
    assert TraceAfter(s, i + 1) == AfterSnapshot(s, i) == SteppedAt(s, i);
  }

  lemma TurnFunctions(s: Session, i: nat)
    requires s.Defined() && i < |s.t.snapshots|
    ensures Functions(TraceAfter(s, i + 1).stack) == FunctionsAfter(s, i, Functions(TraceAfter(s, i).stack))
  {
    EnteredFunctions(s, i);
    SteppedFunctions(s, i);
  }

  lemma {:induction false} StackFunctions(s: Session, n: nat)
    requires s.Defined() && n <= |s.t.snapshots|
    ensures Functions(TraceAfter(s, n).stack) == StackAfter(s, n)
  {
    if n > 0 {
      StackFunctions(s, n - 1);
      TurnFunctions(s, n - 1);
      assert StackAfter(s, n) == StackTurned(s, n - 1);
    } else {
      assert TraceAfter(s, 0).stack == [];
    }
  }

  /** How one VM step moves the call stack, told by opcode and journal. */
  lemma StepFrames(p: Program, a: State, b: State)
    requires StoresNameRegisters(p.text, p.moved) && Vm.Step(p, a, b)
    ensures
      var opc := Decode(p.text, Pc(a.regs)).value.opc;
      if opc in {CALL_IMM, CALL_REG} then
        if b.journal == a.journal then b.frames == a.frames + [Pc(b.regs)]
        else b.frames == a.frames && Pc(b.regs) == Pc(a.regs) + 1
      else if opc == EXIT then |a.frames| > 1 && b.frames == a.frames[..|a.frames| - 1]
      else b.frames == a.frames
  {
    StepKinds(p, a, b);
    if SyscallStep(p, a, b) {
      assert |b.journal| == |a.journal| + 1;
    }
  }

  /** One step: if the stacks agree before it, they agree after it exactly when the call, if it is
      one, is seen. */
  lemma StepKeepsMirror(s: Session, p: Program, run: seq<State>, i: nat, fns: seq<nat>)
    requires IsTraceOf(s.t, p, run) && i + 1 < |run|
    requires Names(s.debug, fns, run[i].frames)
    ensures Names(s.debug, FunctionsAfter(s, i + 1, fns), run[i + 1].frames) <==> CallIsSeen(s, run, i)
  {
    assert StepAt(p, run, i);
    StepFrames(p, run[i], run[i + 1]);
    assert s.t.snapshots[i] == run[i].regs && s.t.snapshots[i + 1] == run[i + 1].regs;
  }

  lemma {:induction false} SeenCallsMirror(s: Session, p: Program, run: seq<State>, i: nat)
    requires IsTraceOf(s.t, p, run) && AllCallsSeen(s, run) && i < |run|
    ensures Names(s.debug, StackAfter(s, i + 1), run[i].frames)
  {
    if i == 0 {
      FirstFrame(s, p, run);
    } else {
      SeenCallsMirror(s, p, run, i - 1);
      assert CallIsSeen(s, run, i - 1);
      StepKeepsMirror(s, p, run, i - 1, StackAfter(s, i));
      assert StackAfter(s, i + 1) == StackTurned(s, i);
    }
  }

  lemma FirstFrame(s: Session, p: Program, run: seq<State>)
    requires IsTraceOf(s.t, p, run) && run != []
    ensures Names(s.debug, StackAfter(s, 1), run[0].frames) <==> Described(s.debug, s.t.PcAt(0))
  {
  }

  lemma MirroredIsNamed(s: Session, run: seq<State>, i: nat)
    requires s.Valid() && i < |s.t.snapshots| && |run| == |s.t.snapshots|
    ensures MirroredAt(s, run, i) <==> Names(s.debug, StackAfter(s, i + 1), run[i].frames)
  {
    StackFunctions(s, i + 1);
  }

  lemma MirroringSeesCalls(s: Session, p: Program, run: seq<State>)
    requires IsTraceOf(s.t, p, run)
    requires forall i :: 0 <= i < |run| ==> Names(s.debug, StackAfter(s, i + 1), run[i].frames)
    ensures AllCallsSeen(s, run)
  {
    if run != [] {
      FirstFrame(s, p, run);
    }
    forall i | 0 <= i < |run| - 1
      ensures CallIsSeen(s, run, i)
    {
      StepKeepsMirror(s, p, run, i, StackAfter(s, i + 1));
      assert StackAfter(s, i + 2) == StackTurned(s, i + 1);
      assert Names(s.debug, StackAfter(s, (i + 1) + 1), run[i + 1].frames);
    }
  }

  /** The recorded stack mirrors the VM's at every snapshot if and only if the entry lies in a
      described function and every internal call leads to one, elsewhere than the next slot. */
  lemma StackMirrorsVmIff(s: Session, p: Program, run: seq<State>)
    requires s.Valid() && IsTraceOf(s.t, p, run)
    ensures (forall i :: 0 <= i < |run| ==> MirroredAt(s, run, i)) <==> AllCallsSeen(s, run)
  {
    forall i | 0 <= i < |run|
      ensures MirroredAt(s, run, i) <==> Names(s.debug, StackAfter(s, i + 1), run[i].frames)
      ensures AllCallsSeen(s, run) ==> MirroredAt(s, run, i)
    {
      MirroredIsNamed(s, run, i);
      if AllCallsSeen(s, run) {
        SeenCallsMirror(s, p, run, i);
      }
    }
    if forall i :: 0 <= i < |run| ==> MirroredAt(s, run, i) {
      MirroringSeesCalls(s, p, run);
    }
  }

  /** For every input, no call is both taken for a syscall and pushed as a frame. */
  lemma NeverPushedAndConsumed(s: Session, i: nat)
    requires s.Valid() && i + 1 < |s.t.snapshots|
    requires Consumes(s.t, i, MemAt(s.t, i).cursor)
    ensures Functions(TraceAfter(s, i + 2).stack) == Functions(TraceAfter(s, i + 1).stack)
  {
    TurnFunctions(s, i + 1);
    ConsumedIsNotPushed(s, i, MemAt(s.t, i).cursor, Functions(TraceAfter(s, i + 1).stack));
  }

  lemma ConsumedIsNotPushed(s: Session, i: nat, cursor: nat, fns: seq<nat>)
    requires i + 1 < |s.t.snapshots| && Consumes(s.t, i, cursor)
    ensures FunctionsAfter(s, i + 1, fns) == fns
  {
  }

  lemma SeenCallsAreTold(s: Session, run: seq<State>)
    requires |run| == |s.t.snapshots| && AllCallsSeen(s, run)
    ensures CallsAreTold(s.t, run)
  {
    forall j | 0 <= j < |run| - 1
      ensures !LooksLikeSyscall(s.t, run, j)
    {
      assert CallIsSeen(s, run, j);
    }
  }

  /** Of one `call imm`: it takes a journal entry exactly if it was a syscall. */
  lemma SyscallConsumes(s: Session, p: Program, run: seq<State>, i: nat)
    requires s.t.Valid() && IsTraceOf(s.t, p, run) && AllCallsSeen(s, run)
    requires i + 1 < |run| && s.t.OpcodeAt(i) == Some(CALL_IMM)
    ensures Consumes(s.t, i, |run[i].journal|) <==> run[i + 1].journal != run[i].journal
  {
    assert StepAt(p, run, i) && CallIsSeen(s, run, i);
    StepFrames(p, run[i], run[i + 1]);
    JournalGrows(p, run, i + 1, |run| - 1);
    StepKinds(p, run[i], run[i + 1]);
    assert s.t.snapshots[i] == run[i].regs && s.t.snapshots[i + 1] == run[i + 1].regs;
    if SyscallStep(p, run[i], run[i + 1]) {
      assert |run[i + 1].journal| == |run[i].journal| + 1;
    }
  }

  /** When all calls are seen there are as many recorded frames as VM frames. */
  lemma AsManyFrames(s: Session, p: Program, run: seq<State>, i: nat)
    requires s.Valid() && IsTraceOf(s.t, p, run) && AllCallsSeen(s, run) && i < |run|
    ensures |TraceAfter(s, i + 1).stack| == |run[i].frames|
  {
    SeenCallsMirror(s, p, run, i);
    StackFunctions(s, i + 1);
  }

  lemma CallFrames(s: Session, p: Program, run: seq<State>, i: nat)
    requires IsTraceOf(s.t, p, run) && i + 1 < |run| && s.t.OpcodeAt(i) == Some(CALL_IMM)
    ensures |run[i + 1].frames| == |run[i].frames| + (if run[i + 1].journal != run[i].journal then 0 else 1)
  {
    assert StepAt(p, run, i);
    StepFrames(p, run[i], run[i + 1]);
  }

  lemma CursorAt(s: Session, p: Program, run: seq<State>, i: nat)
    requires s.t.Valid() && IsTraceOf(s.t, p, run) && AllCallsSeen(s, run) && i < |run|
    ensures MemAt(s.t, i).cursor == |run[i].journal|
  {
    SeenCallsAreTold(s, run);
    ShadowRefinesVm(s.t, p, run, i);
  }

  /** When all calls are seen, every `call imm` but the last instruction is one or the other: a
      syscall takes a journal entry and pushes nothing, an internal call pushes its function and
      takes none. */
  lemma CallIsPushedOrConsumed(s: Session, p: Program, run: seq<State>, i: nat)
    requires s.Valid() && IsTraceOf(s.t, p, run) && AllCallsSeen(s, run)
    requires i + 1 < |run| && s.t.OpcodeAt(i) == Some(CALL_IMM)
    ensures |TraceAfter(s, i + 2).stack|
         == |TraceAfter(s, i + 1).stack| + (if Consumes(s.t, i, MemAt(s.t, i).cursor) then 0 else 1)
    ensures Consumes(s.t, i, MemAt(s.t, i).cursor) <==> run[i + 1].journal != run[i].journal
  {
    CursorAt(s, p, run, i);
    SyscallConsumes(s, p, run, i);
    AsManyFrames(s, p, run, i);
    AsManyFrames(s, p, run, i + 1);
    CallFrames(s, p, run, i);
  }
}
