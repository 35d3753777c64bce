/** What the recorder's trace says about the program it watched: the same as a recorder that could
    read every value out of the virtual machine's own memory. */
module RecordedValues {
  import opened Wrappers
  import opened Ebpf
  import opened SbfMemory
  import opened FlatMemory
  import opened ShadowReplay
  import opened Vm
  import opened ReplayRefinement
  import opened SourceRecorder

  /** The machine's memory as a region list. */
  function Image(layout: seq<Mapping>, mem: Memory): (regions: seq<Region>)
    requires Covers(layout, mem)
    ensures Refines(regions, layout, mem)
  {
    assert forall k :: 0 <= k < |layout| ==> ImagePart(layout, k);
    seq(|layout|, k requires 0 <= k < |layout| && ImagePart(layout, k) =>
      MappedBytes(layout, mem, layout[k].start, layout[k].len, false);
      Region(layout[k].start, Peek(mem, layout[k].start, layout[k].len)))
  }

  predicate ImagePart(layout: seq<Mapping>, k: nat)
    requires k < |layout|
  {
    Mapped(layout, layout[k].start, layout[k].len, false)
  }

  /** The machine's memory before each instruction of a run. */
  ghost predicate Watched(layout: seq<Mapping>, run: seq<State>, memories: seq<seq<Region>>) {
    && |memories| == |run|
    && forall i :: 0 <= i < |run| ==> Covers(layout, run[i].mem) && memories[i] == Image(layout, run[i].mem)
  }

  // ---------------------------------------------------------------------------
  // A recorder that is shown the memory and keeps no copy
  // ---------------------------------------------------------------------------

  /** Its state after the first n snapshots. */
  function ObservedAfter(s: Session, memories: seq<seq<Region>>, n: nat): (st: TraceState)
    requires s.Defined() && |memories| == |s.t.snapshots| && n <= |memories|
    ensures FramesKnown(s.debug, st.stack)
    decreases n, 0
  {
    if n == 0 then TraceState([], None, []) else ObservedTurn(s, memories, n - 1)
  }

  function ObservedTurn(s: Session, memories: seq<seq<Region>>, i: nat): (st: TraceState)
    requires s.Defined() && |memories| == |s.t.snapshots| && i < |memories|
    ensures FramesKnown(s.debug, st.stack)
    decreases i, 1
  {
    var entered := Transition(s, i, memories[i], ObservedAfter(s, memories, i));
    var patched := PatchInlined(s, s.Addr(i), entered);
    EmitStep(s, i, memories[i], patched)
  }

  function ObservedLog(s: Session, memories: seq<seq<Region>>): seq<Event>
    requires s.Defined() && |memories| == |s.t.snapshots| && memories != []
  {
    var st := ObservedAfter(s, memories, |memories|);
    st.log + CloseAll(s, memories[|memories| - 1], st.stack)
  }

  /** The shadow memory is what is shown. */
  ghost predicate ShadowShows(s: Session, memories: seq<seq<Region>>)
    requires s.Defined()
  {
    && |memories| == |s.t.snapshots|
    && forall i :: 0 <= i < |memories| ==> memories[i] == MemAt(s.t, i).regions
  }

  lemma {:induction false} WalksAgree(s: Session, memories: seq<seq<Region>>, n: nat)
    requires s.Defined() && ShadowShows(s, memories) && n <= |memories|
    ensures TraceAfter(s, n) == ObservedAfter(s, memories, n)
  {
    if n > 0 {
      WalksAgree(s, memories, n - 1);
      TurnsAgree(s, memories, n - 1);
    }
  }

  lemma TurnsAgree(s: Session, memories: seq<seq<Region>>, i: nat)
    requires s.Defined() && ShadowShows(s, memories) && i < |memories|
    requires TraceAfter(s, i) == ObservedAfter(s, memories, i)
    ensures TraceAfter(s, i + 1) == ObservedAfter(s, memories, i + 1)
  {
    var memory := memories[i];
    var entered := EnteredAt(s, i);
    assert entered == Transition(s, i, memory, TraceAfter(s, i));
    var patched := PatchedAt(s, i);
    assert patched == PatchInlined(s, s.Addr(i), entered);
    assert AfterSnapshot(s, i) == SteppedAt(s, i) == EmitStep(s, i, memory, patched);
    assert ObservedTurn(s, memories, i) == EmitStep(s, i, memory, patched);
  }

  /** The last instruction's own effect on memory is not looked at: only an `exit` gives a value to
      the returns that close the trace. */
  lemma {:induction false} ClosingReadsLastMemory(s: Session, stack: seq<Frame>)
    requires s.Defined() && FramesKnown(s.debug, stack) && s.t.snapshots != []
    ensures
      var n := |s.t.snapshots|;
      CloseAll(s, MemAt(s.t, n).regions, stack) == CloseAll(s, MemAt(s.t, n - 1).regions, stack)
  {
    var n := |s.t.snapshots|;
    if EndedWithExit(s.t) {
      ExitKeepsMemory(s.t);
    } else if stack != [] {
      var left := |stack| - 1;
      ClosingReadsLastMemory(s, stack[..left]);
      var after, before := MemAt(s.t, n).regions, MemAt(s.t, n - 1).regions;
      assert CloseAll(s, after, stack) == CloseTop(s, after, stack);
      assert CloseAll(s, before, stack) == CloseTop(s, before, stack);
    }
  }

  lemma ExitKeepsMemory(t: ExecutionTrace)
    requires t.Valid() && EndedWithExit(t)
    ensures MemAt(t, |t.snapshots|).regions == MemAt(t, |t.snapshots| - 1).regions
  {
    var last := |t.snapshots| - 1;
    assert MemAt(t, |t.snapshots|) == MemAfter(t, last);
    assert StoreKind(t.moved, EXIT).None?;
  }

  lemma ShadowShowsTheMachine(
      s: Session, p: Program, run: seq<State>, memories: seq<seq<Region>>)
    requires s.Defined() && IsTraceOf(s.t, p, run) && CallsAreTold(s.t, run)
    requires Watched(p.layout, run, memories)
    ensures ShadowShows(s, memories)
  {
    forall i | 0 <= i < |run| ensures memories[i] == MemAt(s.t, i).regions {
      ShadowRefinesVm(s.t, p, run, i);
      RefinementIsUnique(memories[i], MemAt(s.t, i).regions, p.layout, run[i].mem);
    }
  }

  /** Replaying stores and journalled syscalls loses nothing: for every run whose calls can be told
      apart, the trace written (`Recorder.Run` writes `FullLog`) is the one an observer of the
      machine's own memory would write, values of all locals and results included. */
  lemma RecordingIsFaithful(s: Session, p: Program, run: seq<State>, memories: seq<seq<Region>>)
    requires s.Valid() && IsTraceOf(s.t, p, run) && CallsAreTold(s.t, run) && run != []
    requires Watched(p.layout, run, memories)
    ensures |memories| == |s.t.snapshots| && FullLog(s) == ObservedLog(s, memories)
  {
    ShadowShowsTheMachine(s, p, run, memories);
    LogsAgree(s, memories);
  }

  /** The returns that close the trace are the same with the last memory shown. */
  lemma ClosingsAgree(s: Session, memories: seq<seq<Region>>, stack: seq<Frame>)
    requires s.Defined() && ShadowShows(s, memories) && memories != [] && FramesKnown(s.debug, stack)
    ensures
      CloseAll(s, MemAt(s.t, |s.t.snapshots|).regions, stack) == CloseAll(s, memories[|memories| - 1], stack)
  {
    ClosingReadsLastMemory(s, stack);
  }

  lemma LogsAgree(s: Session, memories: seq<seq<Region>>)
    requires s.Defined() && ShadowShows(s, memories) && memories != []
    ensures FullLog(s) == ObservedLog(s, memories)
  {
    var st := TraceAfter(s, |s.t.snapshots|);
    WalksAgree(s, memories, |memories|);
    ClosingsAgree(s, memories, st.stack);
    assert st == ObservedAfter(s, memories, |memories|);
  }
}
