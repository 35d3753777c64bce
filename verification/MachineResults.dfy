/** The returns in a trace (`SourceRecorder::run` in `src/source_recorder.rs`), read against the run of
    the machine that was recorded: every result is what r0 held. */
module MachineResults {
  import opened Words
  import opened Wrappers
  import opened Ebpf
  import opened SbfMemory
  import opened DebugModel
  import opened ValueDecoding
  import opened TypedValues
  import opened ShadowReplay
  import opened Vm
  import opened SourceRecorder
  import opened TraceValues

  /** The instruction in slot regs[11] is an `exit`. */
  predicate Exits(text: seq<byte>, regs: Registers) {
    Decode(text, regs[11]).Some? && Decode(text, regs[11]).value.opc == 0x95
  }

  /** What a function's result is recorded as when it leaves `r0` behind: nothing if it has no result,
      and an integer of up to 8 bytes, behind at most 32 aliases, as the number in the low bytes. */
  ghost predicate ResultIs(types: seq<TypeDesc>, f: Function, r0: u64, value: ValueRecord)
    requires AliasesEnd(types)
  {
    && (f.returnType.None? ==> value == NoValue)
    && forall encoding, size: u64 :: IntegerResult(types, f, encoding, size) ==>
         if size <= 8 && AliasRank(types, f.returnType.value) <= 32 then
           Denotes(value) == Some(BaseValue(encoding, ToLe(r0, 8)[..size]))
         else value == NoValue
  }

  predicate IntegerResult(types: seq<TypeDesc>, f: Function, encoding: Encoding, size: u64)
    requires AliasesEnd(types)
  {
    f.returnType.Some? && IsIntegerType(types, f.returnType.value, encoding, size)
  }

  lemma ReturnValueIs(types: seq<TypeDesc>, regions: seq<Region>, f: Function, r0: u64)
    requires AliasesEnd(types)
    ensures ResultIs(types, f, r0, ReturnValue(types, regions, f.returnType, r0))
  {
    forall encoding, size: u64 | IntegerResult(types, f, encoding, size)
      ensures
        var value := ReturnValue(types, regions, f.returnType, r0);
        if size <= 8 && AliasRank(types, f.returnType.value) <= 32 then
          Denotes(value) == Some(BaseValue(encoding, ToLe(r0, 8)[..size]))
        else value == NoValue
    {
      ResultDenotes(types, regions, f.returnType.value, r0, encoding, size);
    }
  }

  /** `after` is `before`, n empty returns, and one return with a value. */
  predicate EndsIn(after: seq<Event>, before: seq<Event>, n: nat, value: ValueRecord) {
    && |after| == |before| + n + 1 && before <= after
    && (forall k :: |before| <= k < |after| - 1 ==> after[k] == Return(NoValue))
    && after[|after| - 1] == Return(value)
  }

  lemma PopEndsIn(s: Session, regions: seq<Region>, r0: u64, st: TraceState)
    requires s.Defined() && st.stack != [] && FramesKnown(s.debug, st.stack)
    ensures
      var frame := st.stack[|st.stack| - 1];
      var value := ReturnValue(s.debug.types, regions, s.debug.functions[frame.fn].returnType, r0);
      EndsIn(PopFrame(s, regions, r0, st).log, st.log, |frame.inlined|, value)
  {
  }

  /** When instruction i - 1 of the run is an `exit` and a frame is open, the trace goes on with an empty
      return for each inlined call in the frame and one return for the frame itself.  That one carries
      the result of the frame's function, read from r0 of the machine before the `exit`. */
  lemma ReturnsAreR0(s: Session, p: Program, run: seq<State>, i: nat)
    requires s.Defined() && IsTraceOf(s.t, p, run) && 0 < i < |run|
    requires Exits(p.text, run[i - 1].regs) && TraceAfter(s, i).stack != []
    ensures
      var before := TraceAfter(s, i);
      var top := before.stack[|before.stack| - 1];
      && EnteredAt(s, i).stack == before.stack[..|before.stack| - 1]
      && exists value ::
           && EndsIn(EnteredAt(s, i).log, before.log, |top.inlined|, value)
           && ResultIs(s.debug.types, s.debug.functions[top.fn], run[i - 1].regs[0], value)
  {
    var before, regions, r0 := TraceAfter(s, i), MemAt(s.t, i).regions, run[i - 1].regs[0];
    var f := s.debug.functions[before.stack[|before.stack| - 1].fn];
    assert LeftByExit(s.t, i) && !EnteredByCall(s.t, i);
    assert EnteredAt(s, i) == Transition(s, i, regions, before) == PopFrame(s, regions, r0, before);
    PopEndsIn(s, regions, r0, before);
    ReturnValueIs(s.debug.types, regions, f, r0);
  }

  /** The returns that close frames, innermost first: only one can carry a value. */
  lemma {:induction false} ClosingReturns(s: Session, regions: seq<Region>, stack: seq<Frame>)
    requires s.Defined() && FramesKnown(s.debug, stack) && stack != []
    ensures
      var closing := CloseAll(s, regions, stack);
      && closing != []
      && (forall k :: 0 <= k < |closing| - 1 ==> closing[k] == Return(NoValue))
      && closing[|closing| - 1] == Return(FinalValue(s, regions, stack[0], 0))
  {
    var left := |stack| - 1;
    var rest := CloseAll(s, regions, stack[..left]);
    assert CloseAll(s, regions, stack) == CloseTop(s, regions, stack) == Closing(s, regions, stack[left], left) + rest;
    if left == 0 {
      assert rest == [];
    } else {
      ClosingReturns(s, regions, stack[..left]);
    }
  }

  /** When the run is over, the frames still open are closed by empty returns, but for the last: if the run
      ended with an `exit`, it carries the result of the outermost function, read from the machine's r0. */
  lemma LastReturnIsR0(s: Session, p: Program, run: seq<State>)
    requires s.Defined() && IsTraceOf(s.t, p, run) && run != [] && TraceAfter(s, |run|).stack != []
    ensures
      var before, log, last := TraceAfter(s, |run|), FullLog(s), run[|run| - 1].regs;
      && |log| > |before.log| && before.log <= log
      && (forall k :: |before.log| <= k < |log| - 1 ==> log[k] == Return(NoValue))
      && log[|log| - 1].Return?
      && (if Exits(p.text, last) then
            ResultIs(s.debug.types, s.debug.functions[before.stack[0].fn], last[0], log[|log| - 1].value)
          else log[|log| - 1] == Return(NoValue))
  {
    var before, regions := TraceAfter(s, |run|), MemAt(s.t, |run|).regions;
    ClosingReturns(s, regions, before.stack);
    ReturnValueIs(s.debug.types, regions, s.debug.functions[before.stack[0].fn], run[|run| - 1].regs[0]);
  }
}
