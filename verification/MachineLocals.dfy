/** The variables in a trace (`record_locals` in `src/source_recorder.rs`, `read_variable` in
    `src/source_debug.rs`), read against the run of the machine that was recorded. */
module MachineLocals {
  import opened Words
  import opened Wrappers
  import opened SbfMemory
  import opened FlatMemory
  import opened DebugModel
  import opened LineIndex
  import opened FrameVariables
  import opened ValueDecoding
  import opened TypedValues
  import opened ShadowReplay
  import opened Vm
  import opened ReplayRefinement
  import opened SourceRecorder

  // ---------------------------------------------------------------------------
  // What a step records
  // ---------------------------------------------------------------------------

  /** Snapshot i has a position, and it is not the last one recorded or a frame event followed it. */
  ghost predicate StepsAt(s: Session, i: nat)
    requires s.Defined() && i < |s.t.snapshots|
  {
    s.debug.PositionAt(s.Addr(i)).Some? && PatchedAt(s, i).last != s.debug.PositionAt(s.Addr(i))
  }

  /** All variables of all scopes, in order: what is recorded of each, one after the other. */
  function EachOf(s: Session, f: Function, vars: seq<Variable>, a: u64, regs: Registers, regions: seq<Region>):
    seq<seq<Event>>
    requires s.Defined()
  {
    seq(|vars|, k requires 0 <= k < |vars| && s.Defined() => LocalOf(s, f, vars[k], a, regs, regions))
  }

  function AllVariables(scopes: seq<Scope>): seq<Variable> {
    Concat(seq(|scopes|, k requires 0 <= k < |scopes| => scopes[k].variables))
  }

  lemma {:induction false} ConcatAppend<T>(a: seq<seq<T>>, b: seq<seq<T>>)
    ensures Concat(a + b) == Concat(a) + Concat(b)
  {
    if a == [] {
      assert a + b == b;
    } else {
      assert (a + b)[1..] == a[1..] + b;
      ConcatAppend(a[1..], b);
    }
  }

  lemma {:induction false} VariablesInOrder(s: Session, f: Function, vars: seq<Variable>, a: u64, regs: Registers,
                                            regions: seq<Region>)
    requires s.Defined()
    ensures LocalsOfVariables(s, f, vars, a, regs, regions) == Concat(EachOf(s, f, vars, a, regs, regions))
  {
    if vars != [] {
      assert LocalsOfVariables(s, f, vars, a, regs, regions) == LocalsFrom(s, f, vars, a, regs, regions);
      assert EachOf(s, f, vars, a, regs, regions)[1..] == EachOf(s, f, vars[1..], a, regs, regions);
      VariablesInOrder(s, f, vars[1..], a, regs, regions);
    }
  }

  lemma {:induction false} ScopesInOrder(s: Session, f: Function, scopes: seq<Scope>, a: u64, regs: Registers,
                                         regions: seq<Region>)
    requires s.Defined()
    ensures LocalsOfScopes(s, f, scopes, a, regs, regions) == Concat(EachOf(s, f, AllVariables(scopes), a, regs, regions))
  {
    if scopes != [] {
      var vars, rest := scopes[0].variables, AllVariables(scopes[1..]);
      assert LocalsOfScopes(s, f, scopes, a, regs, regions) == LocalsFromScope(s, f, scopes, a, regs, regions);
      assert seq(|scopes|, k requires 0 <= k < |scopes| => scopes[k].variables)[1..]
          == seq(|scopes[1..]|, k requires 0 <= k < |scopes[1..]| => scopes[1..][k].variables);
      assert AllVariables(scopes) == vars + rest;
      assert EachOf(s, f, vars + rest, a, regs, regions)
          == EachOf(s, f, vars, a, regs, regions) + EachOf(s, f, rest, a, regs, regions);
      ConcatAppend(EachOf(s, f, vars, a, regs, regions), EachOf(s, f, rest, a, regs, regions));
      VariablesInOrder(s, f, vars, a, regs, regions);
      ScopesInOrder(s, f, scopes[1..], a, regs, regions);
    }
  }

  /** What is recorded of each variable of the top frame's scopes, in order, from the registers of
      snapshot i. */
  function EachLocalAt(s: Session, i: nat, stack: seq<Frame>): seq<Event>
    requires s.Defined() && i < |s.t.snapshots| && FramesKnown(s.debug, stack)
  {
    if stack == [] then []
    else
      var f, a := s.debug.functions[stack[|stack| - 1].fn], s.Addr(i);
      Concat(EachOf(s, f, AllVariables(FrameScopes(f, a)), a, s.t.snapshots[i], MemAt(s.t, i).regions))
  }

  /** One step for the position, whatever its column, and the locals after it. */
  ghost predicate AddsStep(before: seq<Event>, after: seq<Event>, p: SourcePosition, locals: seq<Event>) {
    exists column :: after == before + [Step(p, column)] + locals
  }

  lemma LocalsAreEach(s: Session, i: nat, stack: seq<Frame>)
    requires s.Defined() && i < |s.t.snapshots| && FramesKnown(s.debug, stack) && stack != []
    ensures
      Locals(s, s.debug.functions[stack[|stack| - 1].fn], s.Addr(i), s.t.snapshots[i], MemAt(s.t, i).regions)
        == EachLocalAt(s, i, stack)
  {
    var f, a := s.debug.functions[stack[|stack| - 1].fn], s.Addr(i);
    ScopesInOrder(s, f, FrameScopes(f, a), a, s.t.snapshots[i], MemAt(s.t, i).regions);
  }

  lemma StepAdded(before: seq<Event>, p: SourcePosition, column: Option<nat>, locals: seq<Event>)
    ensures AddsStep(before, before + [Step(p, column)] + locals, p, locals)
  {
  }

  lemma EmitAdds(s: Session, i: nat, st: TraceState)
    requires s.Defined() && i < |s.t.snapshots| && FramesKnown(s.debug, st.stack)
    ensures
      var after, position := EmitStep(s, i, MemAt(s.t, i).regions, st), s.debug.PositionAt(s.Addr(i));
      if position.None? || st.last == position then after == st
      else after.stack == st.stack && AddsStep(st.log, after.log, position.value, EachLocalAt(s, i, st.stack))
  {
    assert s.debug.PositionKnown(s.Addr(i));
    var position := s.debug.PositionAt(s.Addr(i));
    if position.Some? && st.last != position {
      if st.stack != [] {
        LocalsAreEach(s, i, st.stack);
      }
      StepAdded(st.log, position.value, OfferedColumn(s.lineLengths, position.value), EachLocalAt(s, i, st.stack));
    }
  }

  /** A snapshot that takes a step adds the step and then, if a frame is open, what is recorded of each
      variable of the top frame's scopes; any other adds nothing. */
  lemma StepThenLocals(s: Session, i: nat)
    requires s.Defined() && i < |s.t.snapshots|
    ensures
      var before, after := PatchedAt(s, i), TraceAfter(s, i + 1);
      if StepsAt(s, i) then
        && after.stack == before.stack
        && AddsStep(before.log, after.log, s.debug.PositionAt(s.Addr(i)).value, EachLocalAt(s, i, before.stack))
      else after == before
  {
    EmitAdds(s, i, PatchedAt(s, i));
    assert TraceAfter(s, i + 1) == AfterSnapshot(s, i) == SteppedAt(s, i)
        == EmitStep(s, i, MemAt(s.t, i).regions, PatchedAt(s, i));
  }

  // ---------------------------------------------------------------------------
  // What is recorded of an integer
  // ---------------------------------------------------------------------------

  /** An integer type whose size is known. */
  predicate IsKnownInteger(types: seq<TypeDesc>, v: Variable, encoding: Encoding, size: u64)
    requires AliasesEnd(types)
  {
    v.typeRef.Some? && IsIntegerType(types, v.typeRef.value, encoding, size) && AliasRank(types, v.typeRef.value) <= 32
  }

  /** At instruction i of the run an integer variable located in register r is recorded under its name, as
      the number in the low bytes of the machine's register; one of more than 8 bytes, or in a register
      there is not, is not recorded. */
  lemma RegisterVariable(s: Session, p: Program, run: seq<State>, i: nat, f: Function, v: Variable, r: nat,
                         encoding: Encoding, size: u64)
    requires s.Defined() && IsTraceOf(s.t, p, run) && i < |run|
    requires IsKnownInteger(s.debug.types, v, encoding, size) && size < 0x8000_0000_0000_0000
    requires OpAt(v.location, s.Addr(i)) == Some(InRegister(r))
    ensures
      var recorded := LocalOf(s, f, v, s.Addr(i), s.t.snapshots[i], MemAt(s.t, i).regions);
      if r < 12 && size <= 8 then
        && |recorded| == 1 && recorded[0].name == v.name
        && Denotes(recorded[0].value) == Some(BaseValue(encoding, ToLe(run[i].regs[r], 8)[..size]))
      else recorded == []
  {
    BaseSizeKnownIff(s.debug.types, v.typeRef.value, encoding, size);
    if r < 12 && size <= 8 {
      WholeValueIff(s.debug.types, MemAt(s.t, i).regions, v.typeRef.value, encoding, size, ToLe(run[i].regs[r], 8)[..size], 0);
    }
  }

  /** Where the machine has the variable that lies `off` from the frame base held in register b: below r10
      the frames of a program with fixed frames are counted from their lower end. */
  function MachineAddress(f: Function, b: nat, regs: Registers, manual: bool, off: int): u64
    requires b < 12
  {
    (regs[b] + off - (if b == 10 && !manual then f.stackSize else 0)) % 0x1_0000_0000_0000_0000
  }

  lemma AddressIsMachines(f: Function, v: Variable, b: nat, off: int, a: u64, regs: Registers, manual: bool)
    requires b < 12 && f.frameBase == Some(b) && OpAt(v.location, a) == Some(Fbreg(off))
    ensures Located(f, v, a) && AddressOf(f, v, a, regs, manual) == Some(MachineAddress(f, b, regs, manual, off))
  {
    WrapTwice(regs[b] - f.stackSize, off);
  }

  /** An integer variable located off the frame base is recorded exactly when its bytes are mapped, under
      its name, and as the number they hold in the machine's memory exactly when `decode_base` records
      such bytes right. */
  lemma FrameVariable(s: Session, p: Program, run: seq<State>, i: nat, f: Function, v: Variable, b: nat, off: int,
                      encoding: Encoding, size: u64)
    requires s.Defined() && IsTraceOf(s.t, p, run) && CallsAreTold(s.t, run) && i < |run|
    requires IsKnownInteger(s.debug.types, v, encoding, size) && size < 0x8000_0000_0000_0000
    requires b < 12 && f.frameBase == Some(b) && OpAt(v.location, s.Addr(i)) == Some(Fbreg(off))
    ensures
      var at := MachineAddress(f, b, run[i].regs, s.t.manualStackFrames, off);
      var recorded := LocalOf(s, f, v, s.Addr(i), s.t.snapshots[i], MemAt(s.t, i).regions);
      if Mapped(p.layout, at, size, false) then
        && (forall x :: at <= x < at + size ==> x in run[i].mem)
        && |recorded| == 1 && recorded[0].name == v.name
        && var bytes := Peek(run[i].mem, at, size);
        (Denotes(recorded[0].value) == Some(BaseValue(encoding, bytes)) <==> RecordedRight(encoding, bytes))
      else recorded == []
  {
    var regions, at := MemAt(s.t, i).regions, MachineAddress(f, b, run[i].regs, s.t.manualStackFrames, off);
    AddressIsMachines(f, v, b, off, s.Addr(i), run[i].regs, s.t.manualStackFrames);
    BaseSizeKnownIff(s.debug.types, v.typeRef.value, encoding, size);
    ShadowRefinesVm(s.t, p, run, i);
    ReadRefines(regions, p.layout, run[i].mem, at, size);
    if Mapped(p.layout, at, size, false) {
      WholeValueIff(s.debug.types, regions, v.typeRef.value, encoding, size, Peek(run[i].mem, at, size), 0);
    }
  }

  /** Nothing is recorded of a variable without a type or a known size, without a location at the address,
      or located off a frame base the function does not have. */
  lemma NothingToRead(s: Session, f: Function, v: Variable, a: u64, regs: Registers, regions: seq<Region>)
    requires s.Defined()
    requires
      || v.typeRef.None?
      || TypeSize(s.debug.types, v.typeRef.value).None?
      || OpAt(v.location, a).None?
      || (OpAt(v.location, a).value.Fbreg? && (f.frameBase.None? || f.frameBase.value >= 12))
    ensures LocalOf(s, f, v, a, regs, regions) == []
  {
  }
}
