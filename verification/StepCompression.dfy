/** Steps are compressed without loss: the log always shows the position last reached, and a step is
    repeated only after a frame event or a different step. */
module StepCompression {
  import opened Words
  import opened Wrappers
  import opened SbfMemory
  import opened DebugModel
  import opened ShadowReplay
  import opened SourceRecorder

  predicate IsFrameEvent(e: Event) {
    e.Call? || e.Return?
  }

  /** The position a reader of the log is at: that of the last step, unless a frame event followed. */
  function Reached(log: seq<Event>): Option<SourcePosition> {
    if log == [] then None
    else
      match log[|log| - 1]
      case Step(p, _) => Some(p)
      case Call(_) => None
      case Return(_) => None
      case Local(_, _) => Reached(log[..|log| - 1])
  }

  lemma {:induction false} LocalsReachNothing(log: seq<Event>, locals: seq<Event>)
    requires forall e :: e in locals ==> e.Local?
    ensures Reached(log + locals) == Reached(log)
    decreases |locals|
  {
    if locals == [] {
      assert log + locals == log;
    } else {
      var last := |locals| - 1;
      var whole := log + locals;
      assert whole[|whole| - 1] == locals[last] && locals[last] in locals;
      assert whole[..|whole| - 1] == log + locals[..last];
      LocalsReachNothing(log, locals[..last]);
    }
  }

  lemma FrameEventsReachNothing(log: seq<Event>, events: seq<Event>)
    requires events != [] && IsFrameEvent(events[|events| - 1])
    ensures Reached(log + events) == None
  {
    var whole := log + events;
    assert whole[|whole| - 1] == events[|events| - 1];
  }

  // ---------------------------------------------------------------------------
  // The recorder's `last_position` is what a reader has reached
  // ---------------------------------------------------------------------------

  ghost predicate Tracks(st: TraceState) {
    st.last == Reached(st.log)
  }

  lemma TransitionTracks(s: Session, i: nat, regions: seq<Region>, st: TraceState)
    requires s.Valid() && i < |s.t.snapshots| && FramesKnown(s.debug, st.stack) && Tracks(st)
    ensures Tracks(Transition(s, i, regions, st))
  {
    var f := s.debug.FunctionAt(s.Addr(i));
    if i == 0 || EnteredByCall(s.t, i) {
      if f.Some? {
        FrameEventsReachNothing(st.log, [Call(s.debug.functions[f.value].key)]);
      }
    } else if LeftByExit(s.t, i) && st.stack != [] {
      var frame := st.stack[|st.stack| - 1];
      var value := ReturnValue(s.debug.types, regions, s.debug.functions[frame.fn].returnType, s.t.snapshots[i - 1][0]);
      FrameEventsReachNothing(st.log + Returns(|frame.inlined|), [Return(value)]);
    }
  }

  lemma PatchTracks(s: Session, a: u64, st: TraceState)
    requires FramesKnown(s.debug, st.stack) && Tracks(st)
    ensures Tracks(PatchInlined(s, a, st))
  {
    if st.stack != [] {
      var frame := st.stack[|st.stack| - 1];
      var chain := InlinedAt(s.debug, frame.fn, a);
      if NeedsPatch(frame.inlined, chain) {
        FrameEventsReachNothing(st.log, PatchEvents(frame.inlined, chain));
      }
    }
  }

  lemma {:induction false} VariablesAreLocals(s: Session, f: Function, vars: seq<Variable>, a: u64, regs: Registers,
                                              regions: seq<Region>)
    requires s.Defined()
    ensures forall e :: e in LocalsOfVariables(s, f, vars, a, regs, regions) ==> e.Local?
  {
    if vars != [] {
      assert LocalsOfVariables(s, f, vars, a, regs, regions) == LocalsFrom(s, f, vars, a, regs, regions);
      VariablesAreLocals(s, f, vars[1..], a, regs, regions);
    }
  }

  lemma {:induction false} ScopesAreLocals(s: Session, f: Function, scopes: seq<Scope>, a: u64, regs: Registers,
                                           regions: seq<Region>)
    requires s.Defined()
    ensures forall e :: e in LocalsOfScopes(s, f, scopes, a, regs, regions) ==> e.Local?
  {
    if scopes != [] {
      assert LocalsOfScopes(s, f, scopes, a, regs, regions) == LocalsFromScope(s, f, scopes, a, regs, regions);
      VariablesAreLocals(s, f, scopes[0].variables, a, regs, regions);
      ScopesAreLocals(s, f, scopes[1..], a, regs, regions);
    }
  }

  /** A step for p, if there is one, is followed by locals only. */
  lemma EmitTracks(s: Session, i: nat, regions: seq<Region>, st: TraceState)
    requires s.Valid() && i < |s.t.snapshots| && FramesKnown(s.debug, st.stack) && Tracks(st)
    ensures Tracks(EmitStep(s, i, regions, st))
    ensures s.debug.PositionAt(s.Addr(i)).Some? ==> Reached(EmitStep(s, i, regions, st).log) == s.debug.PositionAt(s.Addr(i))
    ensures s.debug.PositionAt(s.Addr(i)).None? ==> EmitStep(s, i, regions, st) == st
  {
    assert s.debug.PositionKnown(s.Addr(i));
    var position := s.debug.PositionAt(s.Addr(i));
    if position.Some? && st.last != position {
      var stepped := st.log + [Step(position.value, OfferedColumn(s.lineLengths, position.value))];
      assert Reached(stepped) == position;
      if st.stack == [] {
        assert stepped + [] == stepped;
      } else {
        var f := s.debug.functions[st.stack[|st.stack| - 1].fn];
        ScopesAreLocals(s, f, FrameScopes(f, s.Addr(i)), s.Addr(i), s.t.snapshots[i], regions);
        LocalsReachNothing(stepped, Locals(s, f, s.Addr(i), s.t.snapshots[i], regions));
      }
    }
  }

  lemma EnteredTracks(s: Session, i: nat)
    requires s.Valid() && i < |s.t.snapshots| && Tracks(TraceAfter(s, i))
    ensures Tracks(EnteredAt(s, i))
  {
    TransitionTracks(s, i, MemAt(s.t, i).regions, TraceAfter(s, i));
  }

  lemma PatchedTracks(s: Session, i: nat)
    requires s.Valid() && i < |s.t.snapshots| && Tracks(EnteredAt(s, i))
    ensures Tracks(PatchedAt(s, i))
  {
    PatchTracks(s, s.Addr(i), EnteredAt(s, i));
  }

  lemma SteppedTracks(s: Session, i: nat)
    requires s.Valid() && i < |s.t.snapshots| && Tracks(PatchedAt(s, i))
    ensures Tracks(TraceAfter(s, i + 1))
    ensures s.debug.PositionAt(s.Addr(i)).Some? ==> Reached(TraceAfter(s, i + 1).log) == s.debug.PositionAt(s.Addr(i))
  {
    EmitTracks(s, i, MemAt(s.t, i).regions, PatchedAt(s, i));
    assert TraceAfter(s, i + 1) == AfterSnapshot(s, i) == SteppedAt(s, i);
  }

  lemma {:induction false} LastPositionIsReached(s: Session, n: nat)
    requires s.Valid() && n <= |s.t.snapshots|
    ensures Tracks(TraceAfter(s, n))
  {
    if n > 0 {
      LastPositionIsReached(s, n - 1);
      EnteredTracks(s, n - 1);
      PatchedTracks(s, n - 1);
      SteppedTracks(s, n - 1);
    }
  }

  /** Nothing is lost: after every snapshot that has a position, the last step in the log is at that
      position and no frame event follows it. */
  lemma EveryPositionIsReached(s: Session, i: nat)
    requires s.Valid() && i < |s.t.snapshots| && s.debug.PositionAt(s.Addr(i)).Some?
    ensures Reached(TraceAfter(s, i + 1).log) == s.debug.PositionAt(s.Addr(i))
  {
    LastPositionIsReached(s, i);
    EnteredTracks(s, i);
    PatchedTracks(s, i);
    SteppedTracks(s, i);
  }

  // ---------------------------------------------------------------------------
  // Nothing is repeated
  // ---------------------------------------------------------------------------

  /** Every step in the log is at a position the reader had not already reached there. */
  ghost predicate NoRepeats(log: seq<Event>) {
    forall k: nat :: k < |log| ==> Fresh(log, k)
  }

  ghost predicate Fresh(log: seq<Event>, k: nat)
    requires k < |log|
  {
    log[k].Step? ==> Reached(log[..k]) != Some(log[k].position)
  }

  lemma NoRepeatsAppend(log: seq<Event>, added: seq<Event>)
    requires NoRepeats(log)
    requires forall k :: 0 <= k < |added| && added[k].Step? ==> k == 0 && Reached(log) != Some(added[k].position)
    ensures NoRepeats(log + added)
  {
    var whole := log + added;
    forall k: nat | k < |whole|
      ensures Fresh(whole, k)
    {
      if k < |log| {
        assert whole[..k] == log[..k] && Fresh(log, k);
      } else if whole[k].Step? {
        assert added[k - |log|].Step?;
        assert whole[..k] == log;
      }
    }
  }

  lemma TransitionNoRepeats(s: Session, i: nat, regions: seq<Region>, st: TraceState)
    requires s.Valid() && i < |s.t.snapshots| && FramesKnown(s.debug, st.stack) && NoRepeats(st.log)
    ensures NoRepeats(Transition(s, i, regions, st).log)
  {
    var f := s.debug.FunctionAt(s.Addr(i));
    if i == 0 || EnteredByCall(s.t, i) {
      if f.Some? {
        NoRepeatsAppend(st.log, [Call(s.debug.functions[f.value].key)]);
      }
    } else if LeftByExit(s.t, i) && st.stack != [] {
      var frame := st.stack[|st.stack| - 1];
      var value := ReturnValue(s.debug.types, regions, s.debug.functions[frame.fn].returnType, s.t.snapshots[i - 1][0]);
      NoRepeatsAppend(st.log, Returns(|frame.inlined|));
      NoRepeatsAppend(st.log + Returns(|frame.inlined|), [Return(value)]);
    }
  }

  lemma PatchNoRepeats(s: Session, a: u64, st: TraceState)
    requires FramesKnown(s.debug, st.stack) && NoRepeats(st.log)
    ensures NoRepeats(PatchInlined(s, a, st).log)
  {
    if st.stack != [] {
      var frame := st.stack[|st.stack| - 1];
      NoRepeatsAppend(st.log, PatchEvents(frame.inlined, InlinedAt(s.debug, frame.fn, a)));
    }
  }

  lemma EmitNoRepeats(s: Session, i: nat, regions: seq<Region>, st: TraceState)
    requires s.Valid() && i < |s.t.snapshots| && FramesKnown(s.debug, st.stack) && Tracks(st) && NoRepeats(st.log)
    ensures NoRepeats(EmitStep(s, i, regions, st).log)
  {
    assert s.debug.PositionKnown(s.Addr(i));
    var position := s.debug.PositionAt(s.Addr(i));
    if position.Some? && st.last != position {
      var step := Step(position.value, OfferedColumn(s.lineLengths, position.value));
      NoRepeatsAppend(st.log, [step]);
      if st.stack == [] {
        assert st.log + [step] + [] == st.log + [step];
      } else {
        var f := s.debug.functions[st.stack[|st.stack| - 1].fn];
        var locals := Locals(s, f, s.Addr(i), s.t.snapshots[i], regions);
        ScopesAreLocals(s, f, FrameScopes(f, s.Addr(i)), s.Addr(i), s.t.snapshots[i], regions);
        assert forall k :: 0 <= k < |locals| ==> locals[k] in locals;
        NoRepeatsAppend(st.log + [step], locals);
      }
    }
  }

  lemma EnteredNoRepeats(s: Session, i: nat)
    requires s.Valid() && i < |s.t.snapshots| && NoRepeats(TraceAfter(s, i).log)
    ensures NoRepeats(EnteredAt(s, i).log)
  {
    TransitionNoRepeats(s, i, MemAt(s.t, i).regions, TraceAfter(s, i));
  }

  lemma PatchedNoRepeats(s: Session, i: nat)
    requires s.Valid() && i < |s.t.snapshots| && NoRepeats(EnteredAt(s, i).log)
    ensures NoRepeats(PatchedAt(s, i).log)
  {
    PatchNoRepeats(s, s.Addr(i), EnteredAt(s, i));
  }

  lemma SteppedNoRepeats(s: Session, i: nat)
    requires s.Valid() && i < |s.t.snapshots| && Tracks(PatchedAt(s, i)) && NoRepeats(PatchedAt(s, i).log)
    ensures NoRepeats(TraceAfter(s, i + 1).log)
  {
    EmitNoRepeats(s, i, MemAt(s.t, i).regions, PatchedAt(s, i));
    assert TraceAfter(s, i + 1) == AfterSnapshot(s, i) == SteppedAt(s, i);
  }

  lemma {:induction false} TraceHasNoRepeats(s: Session, n: nat)
    requires s.Valid() && n <= |s.t.snapshots|
    ensures NoRepeats(TraceAfter(s, n).log)
  {
    if n > 0 {
      TraceHasNoRepeats(s, n - 1);
      LastPositionIsReached(s, n - 1);
      EnteredTracks(s, n - 1);
      PatchedTracks(s, n - 1);
      EnteredNoRepeats(s, n - 1);
      PatchedNoRepeats(s, n - 1);
      SteppedNoRepeats(s, n - 1);
    }
  }

  /** A frame event, or a step at another position than p. */
  predicate Separates(e: Event, p: SourcePosition) {
    IsFrameEvent(e) || (e.Step? && e.position != p)
  }

  /** The reader is at p as long as only locals follow a step at p. */
  lemma {:induction false} StaysReached(log: seq<Event>, j: nat, k: nat)
    requires j < k <= |log| && log[j].Step?
    requires forall m :: j < m < k ==> !Separates(log[m], log[j].position)
    ensures Reached(log[..k]) == Some(log[j].position)
    decreases k
  {
    assert log[..k][|log[..k]| - 1] == log[k - 1];
    if k - 1 > j && log[k - 1].Local? {
      assert log[..k][..k - 1] == log[..k - 1];
      StaysReached(log, j, k - 1);
    }
  }

  lemma {:induction false} ClosingHasNoSteps(s: Session, regions: seq<Region>, stack: seq<Frame>)
    requires s.Defined() && FramesKnown(s.debug, stack)
    ensures OnlyReturns(CloseAll(s, regions, stack))
  {
    if stack != [] {
      var left := |stack| - 1;
      assert CloseAll(s, regions, stack) == CloseTop(s, regions, stack);
      ClosingHasNoSteps(s, regions, stack[..left]);
      ReturnsBoth(Closing(s, regions, stack[left], left), CloseAll(s, regions, stack[..left]));
    }
  }

  predicate OnlyReturns(log: seq<Event>) {
    forall k :: 0 <= k < |log| ==> log[k].Return?
  }

  lemma ReturnsBoth(a: seq<Event>, b: seq<Event>)
    requires OnlyReturns(a) && OnlyReturns(b)
    ensures OnlyReturns(a + b)
  {
  }

  lemma FullLogHasNoRepeats(s: Session)
    requires s.Valid()
    ensures NoRepeats(FullLog(s))
  {
    var st, regions := TraceAfter(s, |s.t.snapshots|), MemAt(s.t, |s.t.snapshots|).regions;
    TraceHasNoRepeats(s, |s.t.snapshots|);
    ClosingHasNoSteps(s, regions, st.stack);
    NoRepeatsAppend(st.log, CloseAll(s, regions, st.stack));
  }

  /** Two steps at one position always have a frame event or a step elsewhere between them. */
  lemma RepeatedStepsAreSeparated(s: Session, j: nat, k: nat)
    requires s.Valid() && j < k < |FullLog(s)|
    requires FullLog(s)[j].Step? && FullLog(s)[k].Step? && FullLog(s)[j].position == FullLog(s)[k].position
    ensures exists m :: j < m < k && Separates(FullLog(s)[m], FullLog(s)[k].position)
  {
    var log := FullLog(s);
    FullLogHasNoRepeats(s);
    assert Fresh(log, k);
    if forall m :: j < m < k ==> !Separates(log[m], log[k].position) {
      StaysReached(log, j, k);
    }
  }
}
