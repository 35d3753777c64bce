/** When recording (`SourceRecorder::run` in `src/source_recorder.rs`) panics: the values in a trace
    that stand for a panic, and the condition on the debug information that keeps all traces free of
    them. */
module TracePanics {
  import opened Words
  import opened Wrappers
  import opened Ebpf
  import opened SbfMemory
  import opened DebugModel
  import opened LineIndex
  import opened FrameVariables
  import opened ValueDecoding
  import opened TypedValues
  import opened TypeInterning
  import opened ShadowReplay
  import opened SourceRecorder
  import opened StackMirror

  predicate IsClean(e: Event) {
    match e
    case Return(value) => !HasPanic(value)
    case Local(_, value) => !HasPanic(value)
    case _ => true
  }

  ghost predicate Clean(log: seq<Event>) {
    forall k :: 0 <= k < |log| ==> IsClean(log[k])
  }

  lemma CleanBoth(a: seq<Event>, b: seq<Event>)
    requires Clean(a) && Clean(b)
    ensures Clean(a + b)
  {
  }

  lemma KnownDoesNotPanic(types: seq<TypeDesc>, regions: seq<Region>, t: TypeRef, bytes: seq<byte>)
    requires AliasesEnd(types) && FloatPartsSized(types) && TypeSize(types, t) == Some(|bytes|)
    ensures !HasPanic(DecodeValue(types, regions, t, bytes, 0))
  {
    KnownIsSized(types, t);
    SizedIsSliceable(types, t, bytes);
    NoPanic(types, regions, t, bytes, 0);
  }

  lemma ResultIsClean(types: seq<TypeDesc>, regions: seq<Region>, ty: Option<TypeRef>, r0: u64)
    requires AliasesEnd(types) && FloatPartsSized(types)
    ensures !HasPanic(ReturnValue(types, regions, ty, r0))
  {
    if ty.Some? && TypeSize(types, ty.value).Some? && TypeSize(types, ty.value).value <= 8 {
      KnownDoesNotPanic(types, regions, ty.value, ToLe(r0, 8)[..TypeSize(types, ty.value).value]);
    }
  }

  lemma LocalIsClean(s: Session, f: Function, v: Variable, a: u64, regs: Registers, regions: seq<Region>)
    requires s.Defined() && FloatPartsSized(s.debug.types) && Reservable(s.debug.types, f, v, a)
    ensures Clean(LocalOf(s, f, v, a, regs, regions))
  {
    var reading := ReadVariable(s.debug.types, regions, f, v, a, regs, s.t.manualStackFrames);
    if reading.Bytes? {
      KnownDoesNotPanic(s.debug.types, regions, v.typeRef.value, reading.bytes);
    }
  }

  lemma {:induction false} VariablesAreClean(s: Session, f: Function, vars: seq<Variable>, a: u64, regs: Registers,
                                             regions: seq<Region>)
    requires s.Defined() && FloatPartsSized(s.debug.types)
    requires forall v :: v in vars ==> Reservable(s.debug.types, f, v, a)
    ensures Clean(LocalsOfVariables(s, f, vars, a, regs, regions))
  {
    if vars != [] {
      assert LocalsOfVariables(s, f, vars, a, regs, regions) == LocalsFrom(s, f, vars, a, regs, regions);
      LocalIsClean(s, f, vars[0], a, regs, regions);
      VariablesAreClean(s, f, vars[1..], a, regs, regions);
    }
  }

  lemma {:induction false} ScopesAreClean(s: Session, f: Function, scopes: seq<Scope>, a: u64, regs: Registers,
                                          regions: seq<Region>)
    requires s.Defined() && FloatPartsSized(s.debug.types)
    requires forall scope, v :: scope in scopes && v in scope.variables ==> Reservable(s.debug.types, f, v, a)
    ensures Clean(LocalsOfScopes(s, f, scopes, a, regs, regions))
  {
    if scopes != [] {
      assert LocalsOfScopes(s, f, scopes, a, regs, regions) == LocalsFromScope(s, f, scopes, a, regs, regions);
      VariablesAreClean(s, f, scopes[0].variables, a, regs, regions);
      ScopesAreClean(s, f, scopes[1..], a, regs, regions);
    }
  }

  // The frames on the recorded stack are of functions found at some instruction slot.

  ghost predicate Entered(debug: SourceDebugInfo, fn: nat) {
    exists entry: u64 :: debug.FunctionAt(debug.AddressOfSlot(entry)) == Some(fn)
  }

  ghost predicate FramesEntered(debug: SourceDebugInfo, stack: seq<Frame>) {
    forall k :: 0 <= k < |stack| ==> Entered(debug, stack[k].fn)
  }

  lemma TransitionIsClean(s: Session, i: nat, regions: seq<Region>, st: TraceState)
    requires s.Valid() && i < |s.t.snapshots| && FramesKnown(s.debug, st.stack)
    requires Clean(st.log) && FramesEntered(s.debug, st.stack)
    ensures
      var next := Transition(s, i, regions, st);
      Clean(next.log) && FramesEntered(s.debug, next.stack)
  {
    var f := s.debug.FunctionAt(s.Addr(i));
    if i == 0 || EnteredByCall(s.t, i) {
      if f.Some? {
        assert s.debug.AddressOfSlot(s.t.PcAt(i)) == s.Addr(i);
        assert Entered(s.debug, f.value);
      }
    } else if LeftByExit(s.t, i) && st.stack != [] {
      PopIsClean(s, regions, s.t.snapshots[i - 1][0], st);
    }
  }

  lemma PopIsClean(s: Session, regions: seq<Region>, r0: u64, st: TraceState)
    requires s.Valid() && st.stack != [] && FramesKnown(s.debug, st.stack)
    requires Clean(st.log) && FramesEntered(s.debug, st.stack)
    ensures
      var next := PopFrame(s, regions, r0, st);
      Clean(next.log) && FramesEntered(s.debug, next.stack)
  {
    var frame := st.stack[|st.stack| - 1];
    ResultIsClean(s.debug.types, regions, s.debug.functions[frame.fn].returnType, r0);
  }

  lemma PatchIsClean(s: Session, a: u64, st: TraceState)
    requires FramesKnown(s.debug, st.stack) && Clean(st.log) && FramesEntered(s.debug, st.stack)
    ensures
      var next := PatchInlined(s, a, st);
      Clean(next.log) && FramesEntered(s.debug, next.stack)
  {
    if st.stack != [] {
      var frame := st.stack[|st.stack| - 1];
      assert Entered(s.debug, frame.fn);
      var events := PatchEvents(frame.inlined, InlinedAt(s.debug, frame.fn, a));
      assert Clean(events);
    }
  }

  lemma EmitIsClean(s: Session, i: nat, regions: seq<Region>, st: TraceState)
    requires s.Valid() && i < |s.t.snapshots| && FramesKnown(s.debug, st.stack)
    requires Clean(st.log) && FramesEntered(s.debug, st.stack)
    ensures Clean(EmitStep(s, i, regions, st).log)
  {
    var a := s.Addr(i);
    assert s.debug.PositionKnown(a);
    if st.stack != [] && s.debug.PositionAt(a).Some? {
      var fn := st.stack[|st.stack| - 1].fn;
      var f := s.debug.functions[fn];
      assert Entered(s.debug, fn);
      var entry: u64 :| s.debug.FunctionAt(s.debug.AddressOfSlot(entry)) == Some(fn);
      assert s.debug.FitsAt(entry, s.t.PcAt(i));
      ScopesAreClean(s, f, FrameScopes(f, a), a, s.t.snapshots[i], regions);
    }
  }

  lemma {:induction false} TraceIsClean(s: Session, n: nat)
    requires s.Valid() && n <= |s.t.snapshots|
    ensures Clean(TraceAfter(s, n).log) && FramesEntered(s.debug, TraceAfter(s, n).stack)
  {
    if n > 0 {
      TraceIsClean(s, n - 1);
      TurnIsClean(s, n - 1);
    }
  }

  lemma TurnIsClean(s: Session, i: nat)
    requires s.Valid() && i < |s.t.snapshots|
    requires Clean(TraceAfter(s, i).log) && FramesEntered(s.debug, TraceAfter(s, i).stack)
    ensures Clean(TraceAfter(s, i + 1).log) && FramesEntered(s.debug, TraceAfter(s, i + 1).stack)
  {
    var regions := MemAt(s.t, i).regions;
    TransitionIsClean(s, i, regions, TraceAfter(s, i));
    assert EnteredAt(s, i) == Transition(s, i, regions, TraceAfter(s, i));
    PatchIsClean(s, s.Addr(i), EnteredAt(s, i));
    assert PatchedAt(s, i) == PatchInlined(s, s.Addr(i), EnteredAt(s, i));
    EmitIsClean(s, i, regions, PatchedAt(s, i));
    assert TraceAfter(s, i + 1) == AfterSnapshot(s, i) == SteppedAt(s, i) == EmitStep(s, i, regions, PatchedAt(s, i));
  }

  lemma {:induction false} ClosingIsClean(s: Session, regions: seq<Region>, stack: seq<Frame>)
    requires s.Valid() && FramesKnown(s.debug, stack)
    ensures Clean(CloseAll(s, regions, stack))
  {
    if stack != [] {
      var left := |stack| - 1;
      assert CloseAll(s, regions, stack) == CloseTop(s, regions, stack);
      if EndedWithExit(s.t) {
        var last := s.t.snapshots[|s.t.snapshots| - 1];
        ResultIsClean(s.debug.types, regions, s.debug.functions[stack[left].fn].returnType, last[0]);
      }
      ClosingIsClean(s, regions, stack[..left]);
    }
  }

  /** No value in the trace of a valid session stands for a panic of the source. */
  lemma RecordingNeverPanics(s: Session)
    requires s.Valid()
    ensures Clean(FullLog(s))
  {
    var n := |s.t.snapshots|;
    TraceIsClean(s, n);
    ClosingIsClean(s, MemAt(s.t, n).regions, TraceAfter(s, n).stack);
    CleanBoth(TraceAfter(s, n).log, CloseAll(s, MemAt(s.t, n).regions, TraceAfter(s, n).stack));
  }

  // ---------------------------------------------------------------------------
  // Why no weaker condition would do
  // ---------------------------------------------------------------------------

  function At(pc: u64): (r: Registers)
    ensures Pc(r) == pc
  {
    seq(11, _ => 0) + [pc]
  }

  /** A call in slot `base` and an exit in the next. */
  function CallThenExit(base: nat): seq<byte> {
    seq(8 * base, _ => 0) + [CALL_IMM] + seq(7, _ => 0) + [EXIT] + seq(7, _ => 0)
  }

  /** Call the function at `entry` twice, and return to slot `pc` of the first of the two frames. */
  function Detour(entry: u64, pc: u64): (t: ExecutionTrace)
    ensures |t.snapshots| == 6
  {
    var base: u64 := if entry == 1 then 2 else 0;
    var snapshots := [At(base), At(entry), At(base), At(entry), At(base + 1), At(pc)];
    ExecutionTrace(snapshots, CallThenExit(base), [], [], false, false)
  }

  /** Only the two slots hold anything but zeros. */
  lemma SlotOfText(base: nat, k: u64)
    requires base <= 2
    ensures
      var insn := Decode(CallThenExit(base), k);
      && (insn.Some? <==> k < base + 2)
      && (insn.Some? ==>
            && insn.value.opc == (if k == base then CALL_IMM else if k == base + 1 then EXIT else 0)
            && insn.value.dst == 0 && insn.value.src == 0)
  {
    var text := CallThenExit(base);
    if k < base + 2 {
      var b := text[8 * k..8 * k + 8];
      assert b[0] == text[8 * k] && b[1] == text[8 * k + 1];
    }
  }

  lemma DetourIsValid(entry: u64, pc: u64)
    ensures Detour(entry, pc).Valid()
  {
    var t := Detour(entry, pc);
    forall k: u64 ensures SlotNamesRegisters(t.text, t.moved, k) {
      SlotOfText(if entry == 1 then 2 else 0, k);
    }
  }

  /** Snapshots 1 and 3 are calls of the function entered, 5 an exit, and 4 neither; 2 is a call only if it
      calls the same function. */
  lemma DetourTransitions(entry: u64, pc: u64)
    ensures
      var t := Detour(entry, pc);
      && EnteredByCall(t, 1) && EnteredByCall(t, 3)
      && !LeftByExit(t, 2) && (EnteredByCall(t, 2) ==> t.PcAt(2) == entry)
      && !LeftByExit(t, 4) && !EnteredByCall(t, 4)
      && LeftByExit(t, 5) && !EnteredByCall(t, 5)
  {
    var base: u64 := if entry == 1 then 2 else 0;
    SlotOfText(base, base);
    SlotOfText(base, entry);
    SlotOfText(base, base + 1);
  }

  lemma TurnedStack(s: Session, i: nat)
    requires i < |s.t.snapshots|
    ensures StackAfter(s, i + 1) == FunctionsAfter(s, i, StackAfter(s, i))
  {
    assert StackAfter(s, i + 1) == StackTurned(s, i);
  }

  /** On the way to `pc` the last frame closed and the one below it are both of the function entered. */
  lemma DetourStack(s: Session, entry: u64, pc: u64, fn: nat)
    requires s.t == Detour(entry, pc) && s.debug.FunctionAt(s.debug.AddressOfSlot(entry)) == Some(fn)
    ensures |StackAfter(s, 5)| >= 2 && StackAfter(s, 5)[|StackAfter(s, 5)| - 2] == fn
  {
    DetourTransitions(entry, pc);
    TurnedStack(s, 1);
    assert StackAfter(s, 2) == StackAfter(s, 1) + [fn];
    TurnedStack(s, 2);
    assert StackAfter(s, 3) == StackAfter(s, 2) || StackAfter(s, 3) == StackAfter(s, 2) + [fn];
    TurnedStack(s, 3);
    assert StackAfter(s, 4) == StackAfter(s, 3) + [fn];
    TurnedStack(s, 4);
  }

  /** Nothing is remembered as the last position, and the frame on top is of `fn`. */
  predicate Fresh(st: TraceState, fn: nat) {
    st.last.None? && st.stack != [] && st.stack[|st.stack| - 1].fn == fn
  }

  lemma PatchStaysFresh(s: Session, a: u64, st: TraceState, fn: nat)
    requires FramesKnown(s.debug, st.stack) && Fresh(st, fn)
    ensures Fresh(PatchInlined(s, a, st), fn)
  {
  }

  lemma ExitIsFresh(s: Session, i: nat, regions: seq<Region>, st: TraceState, fn: nat)
    requires s.Defined() && 0 < i < |s.t.snapshots| && FramesKnown(s.debug, st.stack)
    requires LeftByExit(s.t, i) && !EnteredByCall(s.t, i)
    requires |st.stack| >= 2 && Functions(st.stack)[|st.stack| - 2] == fn
    ensures Fresh(Transition(s, i, regions, st), fn)
  {
  }

  lemma ExitArrives(s: Session, i: nat, fn: nat)
    requires s.Defined() && 0 < i < |s.t.snapshots| && LeftByExit(s.t, i) && !EnteredByCall(s.t, i)
    requires |StackAfter(s, i)| >= 2 && StackAfter(s, i)[|StackAfter(s, i)| - 2] == fn
    ensures Fresh(PatchedAt(s, i), fn)
  {
    StackFunctions(s, i);
    ExitIsFresh(s, i, MemAt(s.t, i).regions, TraceAfter(s, i), fn);
    assert Fresh(EnteredAt(s, i), fn);
    PatchStaysFresh(s, s.Addr(i), EnteredAt(s, i), fn);
  }

  lemma {:induction false} CleanVariablesFit(s: Session, f: Function, vars: seq<Variable>, a: u64, regs: Registers,
                                             regions: seq<Region>)
    requires s.Defined() && Clean(LocalsOfVariables(s, f, vars, a, regs, regions))
    ensures forall v :: v in vars ==> Reservable(s.debug.types, f, v, a)
  {
    if vars != [] {
      var first, rest := LocalOf(s, f, vars[0], a, regs, regions), LocalsOfVariables(s, f, vars[1..], a, regs, regions);
      assert LocalsOfVariables(s, f, vars, a, regs, regions) == LocalsFrom(s, f, vars, a, regs, regions) == first + rest;
      CleanParts(first, rest);
      assert Reservable(s.debug.types, f, vars[0], a) by {
        assert |first| == 1 ==> IsClean(first[0]);
      }
      CleanVariablesFit(s, f, vars[1..], a, regs, regions);
    }
  }

  lemma {:induction false} CleanScopesFit(s: Session, f: Function, scopes: seq<Scope>, a: u64, regs: Registers,
                                          regions: seq<Region>)
    requires s.Defined() && Clean(LocalsOfScopes(s, f, scopes, a, regs, regions))
    ensures forall scope, v :: scope in scopes && v in scope.variables ==> Reservable(s.debug.types, f, v, a)
  {
    if scopes != [] {
      var first := LocalsOfVariables(s, f, scopes[0].variables, a, regs, regions);
      var rest := LocalsOfScopes(s, f, scopes[1..], a, regs, regions);
      assert LocalsOfScopes(s, f, scopes, a, regs, regions) == LocalsFromScope(s, f, scopes, a, regs, regions)
          == first + rest;
      CleanParts(first, rest);
      CleanVariablesFit(s, f, scopes[0].variables, a, regs, regions);
      CleanScopesFit(s, f, scopes[1..], a, regs, regions);
    }
  }

  lemma CleanParts(a: seq<Event>, b: seq<Event>)
    requires Clean(a + b)
    ensures Clean(a) && Clean(b)
  {
    forall k | 0 <= k < |b| ensures IsClean(b[k]) {
      assert (a + b)[|a| + k] == b[k];
    }
    forall k | 0 <= k < |a| ensures IsClean(a[k]) {
      assert (a + b)[k] == a[k];
    }
  }

  /** A frame event, and then a clean step of the top frame: its variables can be reserved. */
  lemma CleanArrivalFits(s: Session, i: nat, fn: nat)
    requires s.Defined() && i < |s.t.snapshots| && Fresh(PatchedAt(s, i), fn)
    requires s.debug.PositionAt(s.Addr(i)).Some? && Clean(TraceAfter(s, i + 1).log)
    ensures LocalsFit(s.debug.types, s.debug.functions[fn], s.Addr(i))
  {
    var regions, st, f := MemAt(s.t, i).regions, PatchedAt(s, i), s.debug.functions[fn];
    assert TraceAfter(s, i + 1) == AfterSnapshot(s, i) == SteppedAt(s, i) == EmitStep(s, i, regions, st);
    EmittedLocals(s, i, regions, st);
    CleanScopesFit(s, f, FrameScopes(f, s.Addr(i)), s.Addr(i), s.t.snapshots[i], regions);
  }

  lemma DetourArrives(s: Session, entry: u64, pc: u64, fn: nat)
    requires s.Defined() && s.t == Detour(entry, pc)
    requires s.debug.FunctionAt(s.debug.AddressOfSlot(entry)) == Some(fn)
    ensures Fresh(PatchedAt(s, 5), fn)
  {
    DetourTransitions(entry, pc);
    DetourStack(s, entry, pc, fn);
    ExitArrives(s, 5, fn);
  }

  lemma CleanLogPrefix(s: Session)
    requires s.Defined() && Clean(FullLog(s))
    ensures Clean(TraceAfter(s, |s.t.snapshots|).log)
  {
    var n := |s.t.snapshots|;
    CleanParts(TraceAfter(s, n).log, CloseAll(s, MemAt(s.t, n).regions, TraceAfter(s, n).stack));
  }

  /** A detour's trace is free of panics only if the variables at its end can be reserved. */
  lemma CleanDetourFits(s: Session, entry: u64, pc: u64)
    requires s.Defined() && s.t == Detour(entry, pc) && Clean(FullLog(s))
    ensures s.debug.FitsAt(entry, pc)
  {
    var fn, a := s.debug.FunctionAt(s.debug.AddressOfSlot(entry)), s.debug.AddressOfSlot(pc);
    if fn.Some? && s.debug.PositionAt(a).Some? {
      assert a == s.Addr(5);
      DetourArrives(s, entry, pc, fn.value);
      CleanLogPrefix(s);
      CleanArrivalFits(s, 5, fn.value);
    }
  }

  /** A step that is taken records the locals of the frame on top. */
  lemma EmittedLocals(s: Session, i: nat, regions: seq<Region>, st: TraceState)
    requires s.Defined() && i < |s.t.snapshots| && FramesKnown(s.debug, st.stack)
    requires st.last.None? && st.stack != [] && s.debug.PositionAt(s.Addr(i)).Some?
    requires Clean(EmitStep(s, i, regions, st).log)
    ensures Clean(Locals(s, s.debug.functions[st.stack[|st.stack| - 1].fn], s.Addr(i), s.t.snapshots[i], regions))
  {
    var a := s.Addr(i);
    assert s.debug.PositionKnown(a);
    var p := s.debug.PositionAt(a).value;
    var locals := Locals(s, s.debug.functions[st.stack[|st.stack| - 1].fn], a, s.t.snapshots[i], regions);
    CleanParts(st.log + [Step(p, OfferedColumn(s.lineLengths, p))], locals);
  }

  /** The trace recorded of one execution is free of panics. */
  ghost predicate CleanRecording(debug: SourceDebugInfo, lineLengths: seq<seq<nat>>, t: ExecutionTrace)
    requires debug.Defined() && |lineLengths| == |debug.files|
  {
    t.Valid() ==> Clean(FullLog(Session(debug, t, lineLengths)))
  }

  /** Once interning ends and no float part is lost, recording panics on no execution at all if and only
      if no variable that a trace can record is located and of 2^63 bytes or more. */
  lemma RecordingNeverPanicsIff(debug: SourceDebugInfo, lineLengths: seq<seq<nat>>)
    requires debug.Defined() && |lineLengths| == |debug.files|
    requires StructsEnd(debug.types) && FloatPartsSized(debug.types)
    ensures (forall t :: CleanRecording(debug, lineLengths, t)) <==> debug.VariablesFit()
  {
    if debug.VariablesFit() {
      forall t ensures CleanRecording(debug, lineLengths, t) {
        if t.Valid() {
          RecordingNeverPanics(Session(debug, t, lineLengths));
        }
      }
    }
    if forall t :: CleanRecording(debug, lineLengths, t) {
      forall entry: u64, pc: u64 ensures debug.FitsAt(entry, pc) {
        DetourIsValid(entry, pc);
        assert CleanRecording(debug, lineLengths, Detour(entry, pc));
        CleanDetourFits(Session(debug, Detour(entry, pc), lineLengths), entry, pc);
      }
    }
  }

  // ---------------------------------------------------------------------------
  // A variable that is too big
  // ---------------------------------------------------------------------------

  /** A function in slot 0 with one variable at fbreg 0, of a structure of 2^64 - 1 bytes. */
  function HugeFunction(name: string): Function {
    Function(FunctionKey(name, None, 0), None,
             Scope([Span(0, 8)], [HugeVariable(name)], [], None), Some(FRAME_POINTER), 0)
  }

  /** The execution of that one slot. */
  function HugeSession(name: string): Session {
    Session(
      SourceDebugInfo(0, [name], [HugeFunction(name)], [Struct(TWO64 - 1, [])],
                      [LineRow(0, 8, Some(SourcePosition(0, 1, None)))]),
      ExecutionTrace([At(0)], [], [], [], false, false),
      [[]])
  }

  lemma HugeSessionIsDefined(name: string)
    ensures
      var s := HugeSession(name);
      s.Defined() && StructsEnd(s.debug.types) && FloatPartsSized(s.debug.types)
  {
    var s := HugeSession(name);
    forall t: nat ensures ChainEnds(s.debug.types, t) {
    }
    forall a: u64 ensures s.debug.PositionKnown(a) {
    }
    forall path ensures !IsCycle(s.debug.types, path) {
      if |path| >= 2 {
        assert !IsMemberOf(s.debug.types, path[1], path[0]);
      }
    }
  }

  function HugeVariable(name: string): Variable {
    Variable(name, Some(0), Some(Expr(Fbreg(0))))
  }

  lemma HugeLocal(name: string, regs: Registers)
    requires HugeSession(name).Defined()
    ensures LocalOf(HugeSession(name), HugeFunction(name), HugeVariable(name), 0, regs, []) == [Local(name, Panicked(0))]
  {
    assert TypeSizeDepth(HugeSession(name).debug.types, 0, 0) == Some(TWO64 - 1);
  }

  /** A function of one scope with one variable records that one. */
  lemma OnlyLocal(s: Session, f: Function, v: Variable, a: u64, regs: Registers, regions: seq<Region>)
    requires s.Defined() && f.body.children == [] && f.body.variables == [v]
    ensures Locals(s, f, a, regs, regions) == LocalOf(s, f, v, a, regs, regions)
  {
    var scopes := [f.body];
    assert FrameScopes(f, a) == scopes;
    assert scopes[1..] == [];
    OneVariable(s, f, v, a, regs, regions);
    assert LocalsOfScopes(s, f, scopes[1..], a, regs, regions) == [];
    assert LocalsOfScopes(s, f, scopes, a, regs, regions) == LocalsFromScope(s, f, scopes, a, regs, regions)
        == LocalOf(s, f, v, a, regs, regions) + [];
  }

  lemma OneVariable(s: Session, f: Function, v: Variable, a: u64, regs: Registers, regions: seq<Region>)
    requires s.Defined()
    ensures LocalsOfVariables(s, f, [v], a, regs, regions) == LocalOf(s, f, v, a, regs, regions)
  {
    var vars := [v];
    assert vars[1..] == [];
    assert LocalsOfVariables(s, f, vars, a, regs, regions) == LocalsFrom(s, f, vars, a, regs, regions);
  }

  lemma HugeLocals(name: string, regs: Registers)
    requires HugeSession(name).Defined()
    ensures Locals(HugeSession(name), HugeFunction(name), 0, regs, []) == [Local(name, Panicked(0))]
  {
    HugeLocal(name, regs);
    OnlyLocal(HugeSession(name), HugeFunction(name), HugeVariable(name), 0, regs, []);
  }

  /** With its function called. */
  function HugeCalled(name: string): TraceState {
    TraceState([Frame(0, [])], None, [Call(FunctionKey(name, None, 0))])
  }

  /** With its step recorded. */
  function HugeStepped(name: string): TraceState {
    var p := SourcePosition(0, 1, None);
    TraceState([Frame(0, [])], Some(p), [Call(FunctionKey(name, None, 0)), Step(p, None), Local(name, Panicked(0))])
  }

  lemma HugeSlotIsDescribed(name: string)
    ensures
      var s := HugeSession(name);
      s.Addr(0) == 0 && s.debug.FunctionAt(0) == Some(0) && s.debug.PositionAt(0) == Some(SourcePosition(0, 1, None))
  {
    assert HugeFunction(name).body.ranges[0].Contains(0);
  }

  lemma HugeIsCalled(name: string)
    requires HugeSession(name).Defined()
    ensures PatchedAt(HugeSession(name), 0) == HugeCalled(name)
  {
    var s, st := HugeSession(name), HugeCalled(name);
    HugeSlotIsDescribed(name);
    assert EnteredAt(s, 0) == Transition(s, 0, [], TraceAfter(s, 0)) == st;
    assert InlinedAt(s.debug, 0, 0) == [];
    assert PatchedAt(s, 0) == PatchInlined(s, 0, st);
  }

  lemma HugeIsStepped(name: string)
    requires HugeSession(name).Defined()
    ensures TraceAfter(HugeSession(name), 1) == HugeStepped(name)
  {
    var s, st := HugeSession(name), HugeCalled(name);
    HugeSlotIsDescribed(name);
    HugeIsCalled(name);
    HugeLocals(name, s.t.snapshots[0]);
    assert TraceAfter(s, 1) == AfterSnapshot(s, 0) == SteppedAt(s, 0) == EmitStep(s, 0, [], st);
  }

  lemma HugeIsClosed(name: string, regions: seq<Region>)
    requires HugeSession(name).Defined()
    ensures CloseAll(HugeSession(name), regions, [Frame(0, [])]) == [Return(NoValue)]
  {
    var s, stack := HugeSession(name), [Frame(0, [])];
    assert stack[..0] == [];
    assert CloseAll(s, regions, stack) == CloseTop(s, regions, stack);
  }

  /** Its recording ends in the panic, at the first step. */
  lemma HugeLocalPanics(name: string)
    ensures
      var s := HugeSession(name);
      && s.Defined() && StructsEnd(s.debug.types) && FloatPartsSized(s.debug.types)
      && FullLog(s) == [Call(FunctionKey(name, None, 0)), Step(SourcePosition(0, 1, None), None),
                        Local(name, Panicked(0)), Return(NoValue)]
  {
    HugeSessionIsDefined(name);
    HugeIsStepped(name);
    HugeIsClosed(name, MemAt(HugeSession(name).t, 1).regions);
  }
}
