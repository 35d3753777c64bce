/** The columns of the steps in a trace (`src/source_recorder.rs`, the filter before
    `register_step_with_column`). */
module StepColumns {
  import opened Words
  import opened Wrappers
  import opened SbfMemory
  import opened DebugModel
  import opened ShadowReplay
  import opened SourceRecorder
  import opened StepCompression
  import opened LineTable

  /** The step is for a known file.  It has the column of its position if that lies inside the text of
      its line, and no column if it does not. */
  predicate HasItsColumn(lineLengths: seq<seq<nat>>, e: Event) {
    e.Step? ==>
      && e.position.file < |lineLengths|
      && var p, lengths := e.position, lineLengths[e.position.file];
      e.column == if p.column.Some? && Offered(lengths, p.line, p.column.value) then p.column else None
  }

  ghost predicate Columned(lineLengths: seq<seq<nat>>, log: seq<Event>) {
    forall k :: 0 <= k < |log| ==> HasItsColumn(lineLengths, log[k])
  }

  lemma NoSteps(lineLengths: seq<seq<nat>>, log: seq<Event>, added: seq<Event>)
    requires Columned(lineLengths, log) && forall e :: e in added ==> !e.Step?
    ensures Columned(lineLengths, log + added)
  {
    forall k | 0 <= k < |log + added|
      ensures HasItsColumn(lineLengths, (log + added)[k])
    {
      if k >= |log| {
        assert (log + added)[k] in added;
      }
    }
  }

  lemma TransitionIsColumned(s: Session, i: nat, regions: seq<Region>, st: TraceState)
    requires s.Defined() && i < |s.t.snapshots| && FramesKnown(s.debug, st.stack) && Columned(s.lineLengths, st.log)
    ensures Columned(s.lineLengths, Transition(s, i, regions, st).log)
  {
  }

  lemma PatchIsColumned(s: Session, a: u64, st: TraceState)
    requires FramesKnown(s.debug, st.stack) && Columned(s.lineLengths, st.log)
    ensures Columned(s.lineLengths, PatchInlined(s, a, st).log)
  {
    if st.stack != [] {
      var frame := st.stack[|st.stack| - 1];
      NoSteps(s.lineLengths, st.log, PatchEvents(frame.inlined, InlinedAt(s.debug, frame.fn, a)));
    }
  }

  lemma OneMoreStep(lineLengths: seq<seq<nat>>, log: seq<Event>, p: SourcePosition)
    requires Columned(lineLengths, log) && p.file < |lineLengths|
    ensures Columned(lineLengths, log + [Step(p, OfferedColumn(lineLengths, p))])
  {
  }

  lemma EmitIsColumned(s: Session, i: nat, regions: seq<Region>, st: TraceState)
    requires s.Defined() && i < |s.t.snapshots| && FramesKnown(s.debug, st.stack) && Columned(s.lineLengths, st.log)
    ensures Columned(s.lineLengths, EmitStep(s, i, regions, st).log)
  {
    var a := s.Addr(i);
    assert s.debug.PositionKnown(a);
    var position := s.debug.PositionAt(a);
    if position.Some? && st.last != position {
      var stepped := st.log + [Step(position.value, OfferedColumn(s.lineLengths, position.value))];
      OneMoreStep(s.lineLengths, st.log, position.value);
      if st.stack != [] {
        var f := s.debug.functions[st.stack[|st.stack| - 1].fn];
        ScopesAreLocals(s, f, FrameScopes(f, a), a, s.t.snapshots[i], regions);
        NoSteps(s.lineLengths, stepped, Locals(s, f, a, s.t.snapshots[i], regions));
      }
    }
  }

  lemma {:induction false} TraceIsColumned(s: Session, n: nat)
    requires s.Defined() && n <= |s.t.snapshots|
    ensures Columned(s.lineLengths, TraceAfter(s, n).log)
  {
    if n > 0 {
      TraceIsColumned(s, n - 1);
      TurnIsColumned(s, n - 1);
    }
  }

  lemma TurnIsColumned(s: Session, i: nat)
    requires s.Defined() && i < |s.t.snapshots| && Columned(s.lineLengths, TraceAfter(s, i).log)
    ensures Columned(s.lineLengths, TraceAfter(s, i + 1).log)
  {
    var regions := MemAt(s.t, i).regions;
    TransitionIsColumned(s, i, regions, TraceAfter(s, i));
    assert EnteredAt(s, i) == Transition(s, i, regions, TraceAfter(s, i));
    PatchIsColumned(s, s.Addr(i), EnteredAt(s, i));
    assert PatchedAt(s, i) == PatchInlined(s, s.Addr(i), EnteredAt(s, i));
    EmitIsColumned(s, i, regions, PatchedAt(s, i));
    assert TraceAfter(s, i + 1) == AfterSnapshot(s, i) == SteppedAt(s, i) == EmitStep(s, i, regions, PatchedAt(s, i));
  }

  lemma {:induction false} ClosingHasNoSteps(s: Session, regions: seq<Region>, stack: seq<Frame>)
    requires s.Defined() && FramesKnown(s.debug, stack)
    ensures forall e :: e in CloseAll(s, regions, stack) ==> !e.Step?
  {
    if stack != [] {
      assert CloseAll(s, regions, stack) == CloseTop(s, regions, stack);
      ClosingHasNoSteps(s, regions, stack[..|stack| - 1]);
    }
  }

  /** Every step of every trace has a column exactly when its position has one inside the text of its
      line, and then that one. */
  lemma StepsHaveTheirColumns(s: Session, k: nat)
    requires s.Defined() && k < |FullLog(s)|
    ensures HasItsColumn(s.lineLengths, FullLog(s)[k])
  {
    var n := |s.t.snapshots|;
    var st, regions := TraceAfter(s, n), MemAt(s.t, n).regions;
    TraceIsColumned(s, n);
    ClosingHasNoSteps(s, regions, st.stack);
    NoSteps(s.lineLengths, st.log, CloseAll(s, regions, st.stack));
    assert Columned(s.lineLengths, FullLog(s));
  }
}
