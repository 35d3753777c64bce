/** The recording loop (`SourceRecorder::run` in `src/source_recorder.rs`): calls, returns, steps and
    locals written to the trace as the snapshots are walked.  The trace writer is an event log. */
module SourceRecorder {
  import opened Words
  import opened Wrappers
  import opened Ebpf
  import opened SbfMemory
  import opened DebugModel
  import opened LineIndex
  import opened FrameVariables
  import opened ValueDecoding
  import opened TypedValues
  import opened TypeInterning
  import opened ShadowReplay

  /** What the recorder tells the trace writer.  A step carries the line-table position it is for,
      and the column actually offered. */
  datatype Event =
    | Call(key: FunctionKey)
    | Return(value: ValueRecord)
    | Step(position: SourcePosition, column: Option<nat>)
    | Local(name: string, value: ValueRecord)

  /** A frame on the recorded call stack.  Inlined calls are identified by scope path, outermost
      first, as the source identifies them by scope address. */
  datatype Frame = Frame(fn: nat, inlined: seq<ScopeId>)

  datatype SourceDebugInfo = SourceDebugInfo(
    textVaddr: u64, files: seq<string>, functions: seq<Function>, types: seq<TypeDesc>, rows: seq<LineRow>)
  {
    function AddressOfSlot(pc: u64): u64 {
      Wrap(textVaddr + Wrap(pc * INSN_SIZE))
    }

    /** The first function containing `a`, at or after `from`. */
    function FunctionFrom(a: u64, from: nat): (r: Option<nat>)
      requires from <= |functions|
      ensures r.Some? ==> r.value < |functions| && InRanges(functions[r.value].body.ranges, a)
      ensures r.None? ==> forall k :: from <= k < |functions| ==> !InRanges(functions[k].body.ranges, a)
      decreases |functions| - from
    {
      if from == |functions| then None
      else if InRanges(functions[from].body.ranges, a) then Some(from)
      else FunctionFrom(a, from + 1)
    }

    function FunctionAt(a: u64): (r: Option<nat>)
      ensures r.Some? ==> r.value < |functions|
    {
      FunctionFrom(a, 0)
    }

    function PositionAt(a: u64): Option<SourcePosition> {
      Position(rows, a)
    }

    predicate PositionKnown(a: u64) {
      PositionAt(a).Some? ==> PositionAt(a).value.file < |files|
    }

    /** Line-table positions name known files, as the index builder makes them, and alias chains end,
        else the type lookups recurse for ever. */
    ghost predicate Defined() {
      AliasesEnd(types) && forall a: u64 :: PositionKnown(a)
    }

    /** In a frame of the function entered at slot `entry`, no variable that is recorded at slot `pc`
        makes the source reserve more bytes than a `Vec` can hold. */
    ghost predicate FitsAt(entry: u64, pc: u64) {
      var f, a := FunctionAt(AddressOfSlot(entry)), AddressOfSlot(pc);
      f.Some? && PositionAt(a).Some? ==> LocalsFit(types, functions[f.value], a)
    }

    /** No variable a trace can record is located and too big to reserve. */
    ghost predicate VariablesFit() {
      forall entry: u64, pc: u64 :: FitsAt(entry, pc)
    }
  }

  /** One recording: the execution, its debug information, and the line lengths of each file. */
  datatype Session = Session(debug: SourceDebugInfo, t: ExecutionTrace, lineLengths: seq<seq<nat>>) {
    /** What the walk needs to be defined. */
    ghost predicate Defined() {
      t.Valid() && debug.Defined() && |lineLengths| == |debug.files|
    }

    /** What the source needs besides to come to its end: no structure contains itself (else
        `dwarf_type` recurses for ever), no float part loses its size (else `decode_base` panics), and
        no recorded variable is too big to reserve (else `read_variable` panics). */
    ghost predicate Valid() {
      && Defined()
      && StructsEnd(debug.types)
      && FloatPartsSized(debug.types)
      && debug.VariablesFit()
    }

    function Addr(i: nat): u64
      requires i < |t.snapshots|
    {
      debug.AddressOfSlot(t.PcAt(i))
    }
  }

  /** The trace side of the loop: recorded stack, position of the last step (None after a frame
      event), and the log. */
  datatype TraceState = TraceState(stack: seq<Frame>, last: Option<SourcePosition>, log: seq<Event>)

  predicate FramesKnown(debug: SourceDebugInfo, stack: seq<Frame>) {
    forall k :: 0 <= k < |stack| ==> stack[k].fn < |debug.functions|
  }

  function Returns(n: nat): (r: seq<Event>)
    ensures |r| == n && forall k :: 0 <= k < n ==> r[k] == Return(NoValue)
  {
    seq(n, _ => Return(NoValue))
  }

  /** The typed return value of a function returning `ty`, held in r0. */
  function ReturnValue(types: seq<TypeDesc>, regions: seq<Region>, ty: Option<TypeRef>, r0: u64): ValueRecord
    requires AliasesEnd(types)
  {
    if ty.None? then NoValue
    else
      match TypeSize(types, ty.value)
      case Some(size) =>
        if size <= 8 then DecodeValue(types, regions, ty.value, ToLe(r0, 8)[..size], 0) else NoValue
      case None => NoValue
  }

  // ---------------------------------------------------------------------------
  // Frame transitions caused by the previous instruction
  // ---------------------------------------------------------------------------

  /** Instruction i - 1 transferred control to another function's code by a call. */
  predicate EnteredByCall(t: ExecutionTrace, i: nat)
    requires 0 < i < |t.snapshots|
  {
    t.OpcodeAt(i - 1) in {Some(CALL_IMM), Some(CALL_REG)} && t.PcAt(i) != t.PcAt(i - 1) + 1
  }

  predicate LeftByExit(t: ExecutionTrace, i: nat)
    requires 0 < i < |t.snapshots|
  {
    t.OpcodeAt(i - 1) == Some(EXIT)
  }

  function PushFrame(s: Session, f: nat, st: TraceState): TraceState
    requires f < |s.debug.functions|
  {
    TraceState(st.stack + [Frame(f, [])], None, st.log + [Call(s.debug.functions[f].key)])
  }

  function PopFrame(s: Session, regions: seq<Region>, r0: u64, st: TraceState): TraceState
    requires s.Defined() && st.stack != [] && FramesKnown(s.debug, st.stack)
  {
    var frame := st.stack[|st.stack| - 1];
    var value := ReturnValue(s.debug.types, regions, s.debug.functions[frame.fn].returnType, r0);
    TraceState(st.stack[..|st.stack| - 1], None, st.log + Returns(|frame.inlined|) + [Return(value)])
  }

  function Transition(s: Session, i: nat, regions: seq<Region>, st: TraceState): TraceState
    requires s.Defined() && i < |s.t.snapshots| && FramesKnown(s.debug, st.stack)
  {
    var f := s.debug.FunctionAt(s.Addr(i));
    if i == 0 || EnteredByCall(s.t, i) then
      if f.Some? then PushFrame(s, f.value, st) else st
    else if LeftByExit(s.t, i) && st.stack != [] then PopFrame(s, regions, s.t.snapshots[i - 1][0], st)
    else st
  }

  // ---------------------------------------------------------------------------
  // Inlined calls entered or left within the current frame
  // ---------------------------------------------------------------------------

  function InlinedOnly(chain: seq<ScopeRef>): (r: seq<ScopeRef>)
    ensures forall k :: 0 <= k < |r| ==> r[k].scope.inlined.Some?
  {
    if chain == [] then []
    else if chain[0].scope.inlined.Some? then [chain[0]] + InlinedOnly(chain[1..])
    else InlinedOnly(chain[1..])
  }

  function Paths(refs: seq<ScopeRef>): (r: seq<ScopeId>)
    ensures |r| == |refs|
    ensures forall k :: 0 <= k < |refs| ==> r[k] == ScopeId(refs[k].path)
  {
    seq(|refs|, k requires 0 <= k < |refs| => ScopeId(refs[k].path))
  }

  /** How many leading entries agree. */
  function Common(a: seq<ScopeId>, b: seq<ScopeId>): (n: nat)
    ensures n <= |a| && n <= |b| && a[..n] == b[..n]
    ensures n < |a| && n < |b| ==> a[n] != b[n]
  {
    AgreeFrom(a, b, 0)
  }

  /** The first index from k on at which the lists differ or one of them ends. */
  function AgreeFrom(a: seq<ScopeId>, b: seq<ScopeId>, k: nat): (n: nat)
    requires k <= |a| && k <= |b|
    ensures k <= n <= |a| && n <= |b|
    ensures forall j :: k <= j < n ==> a[j] == b[j]
    ensures n < |a| && n < |b| ==> a[n] != b[n]
    decreases |a| - k
  {
    if k < |a| && k < |b| && a[k] == b[k] then AgreeFrom(a, b, k + 1) else k
  }

  function CallsOf(refs: seq<ScopeRef>): (r: seq<Event>)
    requires forall k :: 0 <= k < |refs| ==> refs[k].scope.inlined.Some?
    ensures |r| == |refs|
    ensures forall k :: 0 <= k < |refs| ==> r[k] == Call(refs[k].scope.inlined.value)
  {
    seq(|refs|, k requires 0 <= k < |refs| => Call(refs[k].scope.inlined.value))
  }

  /** The inlined calls around `a` in function `f`, outermost first. */
  function InlinedAt(debug: SourceDebugInfo, f: nat, a: u64): seq<ScopeRef>
    requires f < |debug.functions|
  {
    InlinedOnly(ScopeChain(debug.functions[f], a))
  }

  /** The inlined list is not the chain: something was entered or left. */
  predicate NeedsPatch(inlined: seq<ScopeId>, chain: seq<ScopeRef>) {
    var common := Common(inlined, Paths(chain));
    common < |inlined| || common < |chain|
  }

  /** The patched list, and the events that close and open what differs. */
  function PatchedTo(inlined: seq<ScopeId>, chain: seq<ScopeRef>): seq<ScopeId> {
    var common := Common(inlined, Paths(chain));
    inlined[..common] + Paths(chain[common..])
  }

  function PatchEvents(inlined: seq<ScopeId>, chain: seq<ScopeRef>): seq<Event>
    requires forall k :: 0 <= k < |chain| ==> chain[k].scope.inlined.Some?
  {
    var common := Common(inlined, Paths(chain));
    Returns(|inlined| - common) + CallsOf(chain[common..])
  }

  lemma Joined(a: seq<Event>, b: seq<Event>, c: seq<Event>)
    ensures a + b + c == a + (b + c)
  {
  }

  function PatchInlined(s: Session, a: u64, st: TraceState): TraceState
    requires FramesKnown(s.debug, st.stack)
  {
    if st.stack == [] then st
    else
      var frame := st.stack[|st.stack| - 1];
      var chain := InlinedAt(s.debug, frame.fn, a);
      if NeedsPatch(frame.inlined, chain) then
        TraceState(st.stack[..|st.stack| - 1] + [Frame(frame.fn, PatchedTo(frame.inlined, chain))],
                   None, st.log + PatchEvents(frame.inlined, chain))
      else st
  }

  // ---------------------------------------------------------------------------
  // Steps and locals
  // ---------------------------------------------------------------------------

  /** Index of the last inlined call in a chain; |chain| if there is none. */
  function LastInlined(chain: seq<ScopeRef>, n: nat): (k: nat)
    requires n <= |chain|
    ensures k < n || k == |chain|
    ensures k < |chain| ==> chain[k].scope.inlined.Some?
    ensures forall j :: (if k == |chain| then 0 else k + 1) <= j < n ==> chain[j].scope.inlined.None?
  {
    if n == 0 then |chain|
    else if chain[n - 1].scope.inlined.Some? then n - 1
    else LastInlined(chain, n - 1)
  }

  function ScopesOf(refs: seq<ScopeRef>): (r: seq<Scope>)
    ensures |r| == |refs|
    ensures forall k :: 0 <= k < |refs| ==> r[k] == refs[k].scope
  {
    seq(|refs|, k requires 0 <= k < |refs| => refs[k].scope)
  }

  /** The scopes of the innermost frame at `a`: the innermost inlined call or the body, and the
      blocks inside it. */
  function FrameScopes(f: Function, a: u64): seq<Scope> {
    FromLastInlined(f.body, ScopeChain(f, a))
  }

  function FromLastInlined(body: Scope, chain: seq<ScopeRef>): seq<Scope> {
    var k := LastInlined(chain, |chain|);
    if k < |chain| then ScopesOf(chain[k..]) else [body] + ScopesOf(chain)
  }

  /** No variable recorded at `a` in a frame of `f` is located and too big to reserve. */
  ghost predicate LocalsFit(types: seq<TypeDesc>, f: Function, a: u64) {
    forall scope, v :: scope in FrameScopes(f, a) && v in scope.variables ==> Reservable(types, f, v, a)
  }

  /** What is recorded of one variable: nothing unless it has a type and a readable value.  A variable
      that is too big to reserve gets the record that stands for a panic. */
  function LocalOf(s: Session, f: Function, v: Variable, a: u64, regs: Registers, regions: seq<Region>): (r: seq<Event>)
    requires s.Defined()
    ensures |r| <= 1 && (|r| == 1 ==> r[0].Local?)
  {
    match ReadVariable(s.debug.types, regions, f, v, a, regs, s.t.manualStackFrames)
    case NoReading => []
    case Bytes(bytes) => [Local(v.name, DecodeValue(s.debug.types, regions, v.typeRef.value, bytes, 0))]
    case CapacityOverflow => [Local(v.name, Panicked(v.typeRef.value))]
  }

  function LocalsOfVariables(s: Session, f: Function, vars: seq<Variable>, a: u64, regs: Registers, regions: seq<Region>):
    seq<Event>
    requires s.Defined()
    decreases |vars|, 1
  {
    if vars == [] then [] else LocalsFrom(s, f, vars, a, regs, regions)
  }

  function LocalsFrom(s: Session, f: Function, vars: seq<Variable>, a: u64, regs: Registers, regions: seq<Region>):
    seq<Event>
    requires s.Defined() && vars != []
    decreases |vars|, 0
  {
    LocalOf(s, f, vars[0], a, regs, regions) + LocalsOfVariables(s, f, vars[1..], a, regs, regions)
  }

  function LocalsOfScopes(s: Session, f: Function, scopes: seq<Scope>, a: u64, regs: Registers, regions: seq<Region>):
    seq<Event>
    requires s.Defined()
    decreases |scopes|, 1
  {
    if scopes == [] then [] else LocalsFromScope(s, f, scopes, a, regs, regions)
  }

  function LocalsFromScope(s: Session, f: Function, scopes: seq<Scope>, a: u64, regs: Registers, regions: seq<Region>):
    seq<Event>
    requires s.Defined() && scopes != []
    decreases |scopes|, 0
  {
    LocalsOfVariables(s, f, scopes[0].variables, a, regs, regions) + LocalsOfScopes(s, f, scopes[1..], a, regs, regions)
  }

  lemma {:induction false} LocalsOfVariablesSnoc(s: Session, f: Function, vars: seq<Variable>, v: Variable, a: u64,
                                                 regs: Registers, regions: seq<Region>)
    requires s.Defined()
    ensures LocalsOfVariables(s, f, vars + [v], a, regs, regions)
         == LocalsOfVariables(s, f, vars, a, regs, regions) + LocalOf(s, f, v, a, regs, regions)
  {
    var whole := vars + [v];
    assert LocalsOfVariables(s, f, whole, a, regs, regions) == LocalsFrom(s, f, whole, a, regs, regions);
    if vars == [] {
      assert whole[1..] == [];
    } else {
      assert whole[0] == vars[0] && whole[1..] == vars[1..] + [v];
      LocalsOfVariablesSnoc(s, f, vars[1..], v, a, regs, regions);
    }
  }

  lemma {:induction false} LocalsOfScopesSnoc(s: Session, f: Function, scopes: seq<Scope>, scope: Scope, a: u64,
                                              regs: Registers, regions: seq<Region>)
    requires s.Defined()
    ensures LocalsOfScopes(s, f, scopes + [scope], a, regs, regions)
         == LocalsOfScopes(s, f, scopes, a, regs, regions) + LocalsOfVariables(s, f, scope.variables, a, regs, regions)
  {
    var whole := scopes + [scope];
    assert LocalsOfScopes(s, f, whole, a, regs, regions) == LocalsFromScope(s, f, whole, a, regs, regions);
    if scopes == [] {
      assert whole[1..] == [];
    } else {
      assert whole[0] == scopes[0] && whole[1..] == scopes[1..] + [scope];
      LocalsOfScopesSnoc(s, f, scopes[1..], scope, a, regs, regions);
    }
  }

  lemma ScopeAppends(s: Session, f: Function, scopes: seq<Scope>, k: nat, a: u64, regs: Registers,
                     regions: seq<Region>, log: seq<Event>)
    requires s.Defined() && k < |scopes|
    ensures
      log + LocalsOfScopes(s, f, scopes[..k], a, regs, regions)
        + LocalsOfVariables(s, f, scopes[k].variables, a, regs, regions)
        == log + LocalsOfScopes(s, f, scopes[..k + 1], a, regs, regions)
  {
    LocalsOfScopesSnoc(s, f, scopes[..k], scopes[k], a, regs, regions);
    assert scopes[..k] + [scopes[k]] == scopes[..k + 1];
  }

  function Locals(s: Session, f: Function, a: u64, regs: Registers, regions: seq<Region>): seq<Event>
    requires s.Defined()
  {
    LocalsOfScopes(s, f, FrameScopes(f, a), a, regs, regions)
  }

  /** The column offered for a position: only one inside the text of its line.  Lines count from 1;
      line 2^32 is line 0 in 32 bits, and has no column. */
  function OfferedColumn(lineLengths: seq<seq<nat>>, p: SourcePosition): Option<nat>
    requires p.file < |lineLengths|
  {
    match p.column
    case None => None
    case Some(c) =>
      var lengths := lineLengths[p.file];
      if 1 <= p.line <= |lengths| && 1 <= c <= lengths[p.line - 1] then Some(c) else None
  }

  function EmitStep(s: Session, i: nat, regions: seq<Region>, st: TraceState): TraceState
    requires s.Defined() && i < |s.t.snapshots| && FramesKnown(s.debug, st.stack)
  {
    var a := s.Addr(i);
    assert s.debug.PositionKnown(a);
    match s.debug.PositionAt(a)
    case None => st
    case Some(p) =>
      if st.last == Some(p) then st
      else
        var step := Step(p, OfferedColumn(s.lineLengths, p));
        var locals :=
          if st.stack == [] then []
          else Locals(s, s.debug.functions[st.stack[|st.stack| - 1].fn], a, s.t.snapshots[i], regions);
        TraceState(st.stack, Some(p), st.log + [step] + locals)
  }

  // ---------------------------------------------------------------------------
  // The whole walk
  // ---------------------------------------------------------------------------

  // The states below are one loop turn cut at its three parts.  They refer to one another, so that
  // the verifier unfolds a part only in the proofs that name it.

  /** The state after the first n snapshots. */
  function TraceAfter(s: Session, n: nat): (r: TraceState)
    requires s.Defined() && n <= |s.t.snapshots|
    ensures FramesKnown(s.debug, r.stack)
    decreases n, 0
  {
    if n == 0 then TraceState([], None, []) else AfterSnapshot(s, n - 1)
  }

  /** At snapshot i, once the frame transition of the previous instruction is recorded. */
  function EnteredAt(s: Session, i: nat): (r: TraceState)
    requires s.Defined() && i < |s.t.snapshots|
    ensures FramesKnown(s.debug, r.stack)
    decreases i, 1
  {
    Transition(s, i, MemAt(s.t, i).regions, TraceAfter(s, i))
  }

  /** At snapshot i, once the inlined calls are up to date. */
  function PatchedAt(s: Session, i: nat): (r: TraceState)
    requires s.Defined() && i < |s.t.snapshots|
    ensures FramesKnown(s.debug, r.stack)
    decreases i, 2
  {
    PatchInlined(s, s.Addr(i), EnteredAt(s, i))
  }

  /** At snapshot i, once its step is recorded. */
  function SteppedAt(s: Session, i: nat): (r: TraceState)
    requires s.Defined() && i < |s.t.snapshots|
    ensures FramesKnown(s.debug, r.stack)
    decreases i, 3
  {
    EmitStep(s, i, MemAt(s.t, i).regions, PatchedAt(s, i))
  }

  /** The state after snapshot i. */
  function AfterSnapshot(s: Session, i: nat): (r: TraceState)
    requires s.Defined() && i < |s.t.snapshots|
    ensures FramesKnown(s.debug, r.stack)
    decreases i, 4
  {
    SteppedAt(s, i)
  }

  predicate EndedWithExit(t: ExecutionTrace) {
    t.snapshots != [] && t.OpcodeAt(|t.snapshots| - 1) == Some(EXIT)
  }

  /** The value the frame closed with `left` others below it returns when execution stops: the
      outermost `exit` ends the program with its result, anything else was cut short. */
  function FinalValue(s: Session, regions: seq<Region>, frame: Frame, left: nat): ValueRecord
    requires s.Defined() && frame.fn < |s.debug.functions|
  {
    if EndedWithExit(s.t) && left == 0 then
      ReturnValue(s.debug.types, regions, s.debug.functions[frame.fn].returnType, s.t.snapshots[|s.t.snapshots| - 1][0])
    else NoValue
  }

  /** The events that close one frame. */
  function Closing(s: Session, regions: seq<Region>, frame: Frame, left: nat): seq<Event>
    requires s.Defined() && frame.fn < |s.debug.functions|
  {
    Returns(|frame.inlined|) + [Return(FinalValue(s, regions, frame, left))]
  }

  /** The returns that close the frames still open, innermost first. */
  function CloseAll(s: Session, regions: seq<Region>, stack: seq<Frame>): seq<Event>
    requires s.Defined() && FramesKnown(s.debug, stack)
    decreases |stack|, 1
  {
    if stack == [] then [] else CloseTop(s, regions, stack)
  }

  function CloseTop(s: Session, regions: seq<Region>, stack: seq<Frame>): seq<Event>
    requires s.Defined() && FramesKnown(s.debug, stack) && stack != []
    decreases |stack|, 0
  {
    var left := |stack| - 1;
    Closing(s, regions, stack[left], left) + CloseAll(s, regions, stack[..left])
  }

  lemma ClosesTop(s: Session, regions: seq<Region>, stack: seq<Frame>, log: seq<Event>)
    requires s.Defined() && FramesKnown(s.debug, stack) && stack != []
    ensures
      var left := |stack| - 1;
      log + CloseAll(s, regions, stack)
        == log + Closing(s, regions, stack[left], left) + CloseAll(s, regions, stack[..left])
  {
    assert CloseAll(s, regions, stack) == CloseTop(s, regions, stack);
  }

  /** Everything one recording writes. */
  function FullLog(s: Session): seq<Event>
    requires s.Defined()
  {
    var st := TraceAfter(s, |s.t.snapshots|);
    st.log + CloseAll(s, MemAt(s.t, |s.t.snapshots|).regions, st.stack)
  }

  class Recorder {
    const s: Session
    var log: seq<Event>

    constructor (s: Session)
      requires s.Valid()
      ensures this.s == s && log == []
    {
      this.s := s;
      log := [];
    }

    method EmitCall(f: nat)
      requires f < |s.debug.functions|
      modifies this
      ensures log == old(log) + [Call(s.debug.functions[f].key)]
    {
      log := log + [Call(s.debug.functions[f].key)];
    }

    /** Close `n` inlined-call frames. */
    method UnwindInlined(n: nat)
      modifies this
      ensures log == old(log) + Returns(n)
    {
      for k := 0 to n
        invariant log == old(log) + Returns(k)
      {
        assert Returns(k + 1) == Returns(k) + [Return(NoValue)];
        log := log + [Return(NoValue)];
      }
    }

    /** Frame transitions caused by the previous instruction. */
    method EnterOrLeave(i: nat, memory: ShadowMemory, stack0: seq<Frame>, last0: Option<SourcePosition>)
      returns (stack: seq<Frame>, last: Option<SourcePosition>)
      requires s.Valid() && i < |s.t.snapshots| && FramesKnown(s.debug, stack0) && (i == 0 ==> last0 == None)
      modifies this
      ensures TraceState(stack, last, log) == Transition(s, i, memory.regions, TraceState(stack0, last0, old(log)))
    {
      stack, last := stack0, last0;
      var addr := s.Addr(i);
      if i == 0 {
        var f := s.debug.FunctionAt(addr);
        if f.Some? {
          EmitCall(f.value);
          stack := stack + [Frame(f.value, [])];
        }
        return;
      }
      var continued := s.t.PcAt(i) == s.t.PcAt(i - 1) + 1;
      var opcode := s.t.OpcodeAt(i - 1);
      if (opcode == Some(CALL_IMM) || opcode == Some(CALL_REG)) && !continued {
        var f := s.debug.FunctionAt(addr);
        if f.Some? {
          EmitCall(f.value);
          stack := stack + [Frame(f.value, [])];
          last := None;
        }
      } else if opcode == Some(EXIT) {
        if stack != [] {
          var frame := stack[|stack| - 1];
          stack := stack[..|stack| - 1];
          UnwindInlined(|frame.inlined|);
          var value := ReturnValue(s.debug.types, memory.regions, s.debug.functions[frame.fn].returnType,
                                   s.t.snapshots[i - 1][0]);
          log := log + [Return(value)];
          last := None;
        }
      }
    }

    /** Open the inlined calls `refs`, outermost first. */
    method OpenInlined(refs: seq<ScopeRef>, inlined0: seq<ScopeId>) returns (inlined: seq<ScopeId>)
      requires forall k :: 0 <= k < |refs| ==> refs[k].scope.inlined.Some?
      modifies this
      ensures log == old(log) + CallsOf(refs)
      ensures inlined == inlined0 + Paths(refs)
    {
      inlined := inlined0;
      for k := 0 to |refs|
        invariant log == old(log) + CallsOf(refs[..k])
        invariant inlined == inlined0 + Paths(refs[..k])
      {
        assert CallsOf(refs[..k + 1]) == CallsOf(refs[..k]) + [Call(refs[k].scope.inlined.value)];
        assert Paths(refs[..k + 1]) == Paths(refs[..k]) + [ScopeId(refs[k].path)];
        log := log + [Call(refs[k].scope.inlined.value)];
        inlined := inlined + [ScopeId(refs[k].path)];
      }
      assert refs[..|refs|] == refs;
    }

    /** Inlined calls entered or left within the current frame. */
    method UpdateInlined(a: u64, stack0: seq<Frame>, last0: Option<SourcePosition>)
      returns (stack: seq<Frame>, last: Option<SourcePosition>)
      requires FramesKnown(s.debug, stack0)
      modifies this
      ensures TraceState(stack, last, log) == PatchInlined(s, a, TraceState(stack0, last0, old(log)))
    {
      stack, last := stack0, last0;
      if stack == [] {
        return;
      }
      var top := |stack| - 1;
      var full := ComputeScopeChain(s.debug.functions[stack[top].fn], a);
      var chain := InlinedOnly(full);
      var changed, inlined := PatchList(stack[top].inlined, chain);
      if changed {
        stack := stack[..top] + [Frame(stack[top].fn, inlined)];
        last := None;
      }
    }

    /** Close and open inlined calls until `inlined0` has become `chain`. */
    method PatchList(inlined0: seq<ScopeId>, chain: seq<ScopeRef>) returns (changed: bool, inlined: seq<ScopeId>)
      requires forall k :: 0 <= k < |chain| ==> chain[k].scope.inlined.Some?
      modifies this
      ensures changed == NeedsPatch(inlined0, chain)
      ensures changed ==> inlined == PatchedTo(inlined0, chain) && log == old(log) + PatchEvents(inlined0, chain)
      ensures !changed ==> log == old(log)
    {
      inlined := inlined0;
      var common := Common(inlined, Paths(chain));
      changed := common < |inlined| || common < |chain|;
      if changed {
        Joined(log, Returns(|inlined| - common), CallsOf(chain[common..]));
        UnwindInlined(|inlined| - common);
        inlined := OpenInlined(chain[common..], inlined[..common]);
      }
    }

    method RecordVariable(f: Function, v: Variable, a: u64, regs: Registers, memory: ShadowMemory)
      requires s.Valid()
      modifies this
      ensures log == old(log) + LocalOf(s, f, v, a, regs, memory.regions)
    {
      if v.typeRef.None? {
        return;
      }
      match ReadVariable(s.debug.types, memory.regions, f, v, a, regs, s.t.manualStackFrames)
      case NoReading =>
      case Bytes(bytes) =>
        var value := DecodeValue(s.debug.types, memory.regions, v.typeRef.value, bytes, 0);
        log := log + [Local(v.name, value)];
      case CapacityOverflow =>
        log := log + [Local(v.name, Panicked(v.typeRef.value))];
    }

    method RecordVariables(f: Function, vars: seq<Variable>, a: u64, regs: Registers, memory: ShadowMemory)
      requires s.Valid()
      modifies this
      ensures log == old(log) + LocalsOfVariables(s, f, vars, a, regs, memory.regions)
    {
      var k := 0;
      while k < |vars|
        invariant k <= |vars|
        invariant log == old(log) + LocalsOfVariables(s, f, vars[..k], a, regs, memory.regions)
      {
        RecordVariable(f, vars[k], a, regs, memory);
        LocalsOfVariablesSnoc(s, f, vars[..k], vars[k], a, regs, memory.regions);
        assert vars[..k] + [vars[k]] == vars[..k + 1];
        k := k + 1;
      }
      assert vars[..k] == vars;
    }

    method RecordScopes(f: Function, scopes: seq<Scope>, a: u64, regs: Registers, memory: ShadowMemory)
      requires s.Valid()
      modifies this
      ensures log == old(log) + LocalsOfScopes(s, f, scopes, a, regs, memory.regions)
    {
      var k := 0;
      while k < |scopes|
        invariant k <= |scopes|
        invariant log == old(log) + LocalsOfScopes(s, f, scopes[..k], a, regs, memory.regions)
      {
        ScopeAppends(s, f, scopes, k, a, regs, memory.regions, old(log));
        RecordVariables(f, scopes[k].variables, a, regs, memory);
        k := k + 1;
      }
      assert scopes[..k] == scopes;
    }

    /** Record every variable in scope in the innermost frame. */
    method RecordLocals(f: Function, a: u64, regs: Registers, memory: ShadowMemory)
      requires s.Valid()
      modifies this
      ensures log == old(log) + Locals(s, f, a, regs, memory.regions)
    {
      var chain := ComputeScopeChain(f, a);
      var frameStart := LastInlined(chain, |chain|);
      if frameStart < |chain| {
        RecordScopes(f, ScopesOf(chain[frameStart..]), a, regs, memory);
      } else {
        RecordScopes(f, [f.body] + ScopesOf(chain), a, regs, memory);
      }
    }

    /** A step at every new source position. */
    method StepAt(i: nat, memory: ShadowMemory, stack: seq<Frame>, last0: Option<SourcePosition>)
      returns (last: Option<SourcePosition>)
      requires s.Valid() && i < |s.t.snapshots| && FramesKnown(s.debug, stack)
      modifies this
      ensures TraceState(stack, last, log) == EmitStep(s, i, memory.regions, TraceState(stack, last0, old(log)))
    {
      last := last0;
      var a := s.Addr(i);
      assert s.debug.PositionKnown(a);
      var position := s.debug.PositionAt(a);
      if position.Some? {
        if last != position {
          last := position;
          var p := position.value;
          log := log + [Step(p, OfferedColumn(s.lineLengths, p))];
          if stack != [] {
            RecordLocals(s.debug.functions[stack[|stack| - 1].fn], a, s.t.snapshots[i], memory);
          }
        }
      }
    }

    /** Bring memory up to date with instruction i; returns the new journal cursor. */
    method Advance(i: nat, memory: ShadowMemory, cursor0: nat) returns (cursor: nat)
      requires s.Valid() && i < |s.t.snapshots|
      requires memory.moved == s.t.moved && MemState(memory.regions, cursor0) == MemAt(s.t, i)
      modifies memory
      ensures MemState(memory.regions, cursor) == MemAt(s.t, i + 1)
    {
      cursor := cursor0;
      assert MemAt(s.t, i + 1) == MemAfter(s.t, i);
      var effect := memory.ApplyInstruction(s.t.text, s.t.PcAt(i), s.t.snapshots[i]);
      if effect == MaybeSyscall {
        var nextContinues := i + 1 >= |s.t.snapshots| || s.t.PcAt(i + 1) == s.t.PcAt(i) + 1;
        if nextContinues && cursor < |s.t.syscallWrites| {
          memory.Replay(s.t.syscallWrites[cursor]);
          cursor := cursor + 1;
        }
      }
    }

    method Turn(i: nat, memory: ShadowMemory, cursor0: nat, stack0: seq<Frame>, last0: Option<SourcePosition>)
      returns (stack: seq<Frame>, last: Option<SourcePosition>, cursor: nat)
      requires s.Valid() && i < |s.t.snapshots|
      requires memory.moved == s.t.moved && MemState(memory.regions, cursor0) == MemAt(s.t, i)
      requires TraceState(stack0, last0, log) == TraceAfter(s, i)
      modifies this, memory
      ensures MemState(memory.regions, cursor) == MemAt(s.t, i + 1)
      ensures TraceState(stack, last, log) == TraceAfter(s, i + 1)
    {
      stack, last := EnterOrLeave(i, memory, stack0, last0);
      assert TraceState(stack, last, log) == EnteredAt(s, i);
      stack, last := UpdateInlined(s.Addr(i), stack, last);
      assert TraceState(stack, last, log) == PatchedAt(s, i);
      last := StepAt(i, memory, stack, last);
      assert TraceState(stack, last, log) == SteppedAt(s, i) == AfterSnapshot(s, i) == TraceAfter(s, i + 1);
      cursor := Advance(i, memory, cursor0);
    }

    /** Close `frame`, with `left` frames below it. */
    method CloseFrame(memory: ShadowMemory, frame: Frame, left: nat)
      requires s.Valid() && frame.fn < |s.debug.functions|
      modifies this
      ensures log == old(log) + Closing(s, memory.regions, frame, left)
    {
      UnwindInlined(|frame.inlined|);
      var value := NoValue;
      if EndedWithExit(s.t) && left == 0 {
        value := ReturnValue(s.debug.types, memory.regions, s.debug.functions[frame.fn].returnType,
                             s.t.snapshots[|s.t.snapshots| - 1][0]);
      }
      log := log + [Return(value)];
    }

    /** Close the frames still open when execution stopped. */
    method CloseOpenFrames(memory: ShadowMemory, stack0: seq<Frame>)
      requires s.Valid() && FramesKnown(s.debug, stack0)
      modifies this
      ensures log == old(log) + CloseAll(s, memory.regions, stack0)
    {
      var stack := stack0;
      ghost var target := log + CloseAll(s, memory.regions, stack);
      while stack != []
        invariant FramesKnown(s.debug, stack)
        invariant log + CloseAll(s, memory.regions, stack) == target
        decreases |stack|
      {
        var frame := stack[|stack| - 1];
        ClosesTop(s, memory.regions, stack, log);
        stack := stack[..|stack| - 1];
        CloseFrame(memory, frame, |stack|);
      }
    }

    /** Walk the snapshots and record the trace. */
    method Run()
      requires s.Valid() && log == []
      modifies this
      ensures log == FullLog(s)
    {
      var memory := new ShadowMemory(s.t.initialMemory, s.t.moved);
      var cursor := 0;
      var stack: seq<Frame> := [];
      var last: Option<SourcePosition> := None;
      var i := 0;
      while i < |s.t.snapshots|
        invariant i <= |s.t.snapshots|
        invariant fresh(memory) && memory.moved == s.t.moved
        invariant MemState(memory.regions, cursor) == MemAt(s.t, i)
        invariant TraceState(stack, last, log) == TraceAfter(s, i)
      {
        stack, last, cursor := Turn(i, memory, cursor, stack, last);
        i := i + 1;
      }
      CloseOpenFrames(memory, stack);
    }
  }
}
