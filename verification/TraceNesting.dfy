/** The trace is well nested for every input: a reader that pushes on each call and pops on each
    return never underflows, ends empty, and at every snapshot has open exactly the frames of the
    recorded stack, each followed by its active inlined calls. */
module TraceNesting {
  import opened Words
  import opened Wrappers
  import opened SbfMemory
  import opened DebugModel
  import opened ShadowReplay
  import opened ValueDecoding
  import opened SourceRecorder

  type Open = Option<seq<FunctionKey>>

  /** What a reader of the trace has open after one more event; None after a return too many. */
  function Apply(open: Open, e: Event): Open {
    match open
    case None => None
    case Some(frames) =>
      match e
      case Call(key) => Some(frames + [key])
      case Return(_) => if frames == [] then None else Some(frames[..|frames| - 1])
      case _ => Some(frames)
  }

  function Read(open: Open, log: seq<Event>): Open
    decreases |log|
  {
    if log == [] then open else Read(Apply(open, log[0]), log[1..])
  }

  lemma {:induction false} ReadAppend(open: Open, a: seq<Event>, b: seq<Event>)
    ensures Read(open, a + b) == Read(Read(open, a), b)
    decreases |a|
  {
    if a == [] {
      assert a + b == b;
    } else {
      assert (a + b)[0] == a[0] && (a + b)[1..] == a[1..] + b;
      ReadAppend(Apply(open, a[0]), a[1..], b);
    }
  }

  lemma {:induction false} ReadReturns(frames: seq<FunctionKey>, n: nat)
    requires n <= |frames|
    ensures Read(Some(frames), Returns(n)) == Some(frames[..|frames| - n])
  {
    if n == 0 {
      assert frames[..|frames|] == frames;
    } else {
      assert Returns(n)[1..] == Returns(n - 1);
      ReadReturns(frames[..|frames| - 1], n - 1);
      assert frames[..|frames| - 1][..|frames| - n] == frames[..|frames| - n];
    }
  }

  function KeysOf(refs: seq<ScopeRef>): (r: seq<FunctionKey>)
    requires forall k :: 0 <= k < |refs| ==> refs[k].scope.inlined.Some?
    ensures |r| == |refs|
    ensures forall k :: 0 <= k < |refs| ==> r[k] == refs[k].scope.inlined.value
  {
    seq(|refs|, k requires 0 <= k < |refs| => refs[k].scope.inlined.value)
  }

  lemma {:induction false} ReadCalls(frames: seq<FunctionKey>, refs: seq<ScopeRef>)
    requires forall k :: 0 <= k < |refs| ==> refs[k].scope.inlined.Some?
    ensures Read(Some(frames), CallsOf(refs)) == Some(frames + KeysOf(refs))
    decreases |refs|
  {
    if refs == [] {
      assert frames + KeysOf(refs) == frames;
    } else {
      assert CallsOf(refs)[1..] == CallsOf(refs[1..]);
      ReadCalls(frames + [refs[0].scope.inlined.value], refs[1..]);
      assert frames + KeysOf(refs) == frames + [refs[0].scope.inlined.value] + KeysOf(refs[1..]);
    }
  }

  /** Steps and locals open and close nothing. */
  predicate Quiet(log: seq<Event>) {
    forall e :: e in log ==> e.Step? || e.Local?
  }

  lemma {:induction false} ReadQuiet(open: Open, log: seq<Event>)
    requires Quiet(log)
    ensures Read(open, log) == open
  {
    if log != [] {
      assert log[0] in log;
      ReadQuiet(open, log[1..]);
    }
  }

  // ---------------------------------------------------------------------------
  // The frames a recorded stack stands for
  // ---------------------------------------------------------------------------

  /** The key of the inlined call an identity names in `f`. */
  function InlinedKey(f: Function, id: ScopeId): Option<FunctionKey> {
    match ScopeAt(f.body, id.path)
    case None => None
    case Some(scope) => scope.inlined
  }

  predicate NamesInlined(f: Function, paths: seq<ScopeId>) {
    forall k :: 0 <= k < |paths| ==> InlinedKey(f, paths[k]).Some?
  }

  function KeysAt(f: Function, paths: seq<ScopeId>): (r: seq<FunctionKey>)
    requires NamesInlined(f, paths)
    ensures |r| == |paths|
    ensures forall k :: 0 <= k < |paths| ==> r[k] == InlinedKey(f, paths[k]).value
  {
    seq(|paths|, k requires 0 <= k < |paths| => InlinedKey(f, paths[k]).value)
  }

  ghost predicate StackNamed(debug: SourceDebugInfo, stack: seq<Frame>) {
    && FramesKnown(debug, stack)
    && forall k :: 0 <= k < |stack| ==> NamesInlined(debug.functions[stack[k].fn], stack[k].inlined)
  }

  /** Function, then its inlined calls, frame by frame from the outermost. */
  ghost function Flatten(debug: SourceDebugInfo, stack: seq<Frame>): seq<FunctionKey>
    requires StackNamed(debug, stack)
  {
    if stack == [] then []
    else
      var frame := stack[|stack| - 1];
      Flatten(debug, stack[..|stack| - 1]) + [debug.functions[frame.fn].key]
      + KeysAt(debug.functions[frame.fn], frame.inlined)
  }

  lemma {:induction false} InlinedRefsAreNamed(f: Function, chain: seq<ScopeRef>)
    requires forall k :: 0 <= k < |chain| ==> ScopeAt(f.body, chain[k].path) == Some(chain[k].scope)
    ensures NamesInlined(f, Paths(InlinedOnly(chain)))
    ensures KeysAt(f, Paths(InlinedOnly(chain))) == KeysOf(InlinedOnly(chain))
  {
    if chain != [] {
      InlinedRefsAreNamed(f, chain[1..]);
      var refs := InlinedOnly(chain);
      forall k | 0 <= k < |refs|
        ensures InlinedKey(f, ScopeId(refs[k].path)) == refs[k].scope.inlined
      {
        if refs != InlinedOnly(chain[1..]) {
          if k > 0 {
            assert refs[k] == InlinedOnly(chain[1..])[k - 1];
            assert Paths(InlinedOnly(chain[1..]))[k - 1] == ScopeId(refs[k].path);
            assert KeysAt(f, Paths(InlinedOnly(chain[1..])))[k - 1] == refs[k].scope.inlined.value;
          }
        } else {
          assert Paths(refs)[k] == ScopeId(refs[k].path);
          assert KeysAt(f, Paths(refs))[k] == refs[k].scope.inlined.value;
        }
      }
    }
  }

  lemma ChainIsNamed(f: Function, a: u64)
    ensures NamesInlined(f, Paths(InlinedOnly(ScopeChain(f, a))))
    ensures KeysAt(f, Paths(InlinedOnly(ScopeChain(f, a)))) == KeysOf(InlinedOnly(ScopeChain(f, a)))
  {
    ChainIsADescent(f.body, f.body, [], a);
    var chain := ScopeChain(f, a);
    assert forall k :: 0 <= k < |chain| ==> Encloses(f.body, chain[k], k + 1, a);
    InlinedRefsAreNamed(f, ScopeChain(f, a));
  }

  // ---------------------------------------------------------------------------
  // Each part of a turn keeps the reader in agreement
  // ---------------------------------------------------------------------------

  /** The reader has open exactly what the recorded stack stands for. */
  ghost predicate Agree(debug: SourceDebugInfo, st: TraceState) {
    StackNamed(debug, st.stack) && Read(Some([]), st.log) == Some(Flatten(debug, st.stack))
  }

  lemma FlattenPush(debug: SourceDebugInfo, rest: seq<Frame>, frame: Frame)
    requires StackNamed(debug, rest)
    requires frame.fn < |debug.functions| && NamesInlined(debug.functions[frame.fn], frame.inlined)
    ensures StackNamed(debug, rest + [frame])
    ensures Flatten(debug, rest + [frame])
         == Flatten(debug, rest) + [debug.functions[frame.fn].key] + KeysAt(debug.functions[frame.fn], frame.inlined)
  {
  }

  lemma ReadOneCall(frames: seq<FunctionKey>, key: FunctionKey)
    ensures Read(Some(frames), [Call(key)]) == Some(frames + [key])
  {
  }

  lemma PushAgrees(s: Session, f: nat, st: TraceState)
    requires f < |s.debug.functions| && Agree(s.debug, st)
    ensures Agree(s.debug, PushFrame(s, f, st))
  {
    var key := s.debug.functions[f].key;
    var open := Flatten(s.debug, st.stack);
    FlattenPush(s.debug, st.stack, Frame(f, []));
    ReadAppend(Some([]), st.log, [Call(key)]);
    ReadOneCall(open, key);
    assert open + [key] + [] == open + [key];
  }

  lemma ReadFrameEnd(open: seq<FunctionKey>, key: FunctionKey, inlined: seq<FunctionKey>, value: ValueRecord)
    ensures Read(Some(open + [key] + inlined), Returns(|inlined|) + [Return(value)]) == Some(open)
  {
    var all := open + [key] + inlined;
    ReadAppend(Some(all), Returns(|inlined|), [Return(value)]);
    ReadReturns(all, |inlined|);
    assert all[..|all| - |inlined|] == open + [key];
    assert [Return(value)][1..] == [];
    assert (open + [key])[..|open|] == open;
  }

  lemma PopAgrees(s: Session, regions: seq<Region>, r0: u64, st: TraceState)
    requires s.Valid() && st.stack != [] && Agree(s.debug, st)
    ensures Agree(s.debug, PopFrame(s, regions, r0, st))
  {
    var next := PopFrame(s, regions, r0, st);
    var frame := st.stack[|st.stack| - 1];
    var f := s.debug.functions[frame.fn];
    var value := ReturnValue(s.debug.types, regions, f.returnType, r0);
    ReadFrameEnd(Flatten(s.debug, next.stack), f.key, KeysAt(f, frame.inlined), value);
    ReadAppend(Some([]), st.log, Returns(|frame.inlined|) + [Return(value)]);
    assert next.log == st.log + (Returns(|frame.inlined|) + [Return(value)]);
  }

  /** Closing what is beyond the common prefix and opening the rest of the new chain. */
  lemma ReadPatch(f: Function, base: seq<FunctionKey>, inlined: seq<ScopeId>, chain: seq<ScopeRef>, common: nat)
    requires forall k :: 0 <= k < |chain| ==> chain[k].scope.inlined.Some?
    requires NamesInlined(f, inlined) && NamesInlined(f, Paths(chain)) && KeysAt(f, Paths(chain)) == KeysOf(chain)
    requires common <= |inlined| && common <= |chain| && inlined[..common] == Paths(chain)[..common]
    ensures Read(Some(base + KeysAt(f, inlined)), Returns(|inlined| - common) + CallsOf(chain[common..]))
         == Some(base + KeysAt(f, Paths(chain)))
  {
    var keys := KeysAt(f, inlined);
    var kept, added := keys[..common], KeysOf(chain[common..]);
    ReadAppend(Some(base + keys), Returns(|inlined| - common), CallsOf(chain[common..]));
    ReadReturns(base + keys, |inlined| - common);
    TakeFromAppend(base, keys, common);
    ReadCalls(base + kept, chain[common..]);
    KeptKeys(f, inlined, chain, common);
    AppendAssociates(base, kept, added);
  }

  lemma TakeFromAppend<T>(a: seq<T>, b: seq<T>, n: nat)
    requires n <= |b|
    ensures (a + b)[..|a + b| - (|b| - n)] == a + b[..n]
  {
  }

  lemma AppendAssociates<T>(a: seq<T>, b: seq<T>, c: seq<T>)
    ensures a + b + c == a + (b + c)
  {
  }

  /** What is kept of the inlined list and what is opened make up the new chain. */
  lemma PatchedList(inlined: seq<ScopeId>, chain: seq<ScopeRef>, common: nat)
    requires common <= |inlined| && common <= |chain| && inlined[..common] == Paths(chain)[..common]
    ensures inlined[..common] + Paths(chain[common..]) == Paths(chain)
    ensures common == |inlined| == |chain| ==> inlined == Paths(chain)
  {
  }

  /** A stack whose top frame gets the inlined list of `chain` stands for what the reader has open
      after the events that patch it. */
  lemma PatchedTopAgrees(debug: SourceDebugInfo, rest: seq<Frame>, frame: Frame, log: seq<Event>, chain: seq<ScopeRef>,
                         common: nat)
    requires Agree(debug, TraceState(rest + [frame], None, log))
    requires frame.fn < |debug.functions|
    requires forall k :: 0 <= k < |chain| ==> chain[k].scope.inlined.Some?
    requires common <= |frame.inlined| && common <= |chain| && frame.inlined[..common] == Paths(chain)[..common]
    requires NamesInlined(debug.functions[frame.fn], Paths(chain))
    requires KeysAt(debug.functions[frame.fn], Paths(chain)) == KeysOf(chain)
    ensures Agree(debug, TraceState(rest + [Frame(frame.fn, Paths(chain))], None,
                                    log + (Returns(|frame.inlined| - common) + CallsOf(chain[common..]))))
  {
    var f := debug.functions[frame.fn];
    var before := rest + [frame];
    assert before[..|before| - 1] == rest;
    assert forall k :: 0 <= k < |rest| ==> rest[k] == before[k];
    assert before[|rest|] == frame;
    FlattenPush(debug, rest, Frame(frame.fn, Paths(chain)));
    ReadAppend(Some([]), log, Returns(|frame.inlined| - common) + CallsOf(chain[common..]));
    ReadPatch(f, Flatten(debug, rest) + [f.key], frame.inlined, chain, common);
  }

  lemma PatchAgrees(s: Session, a: u64, st: TraceState)
    requires Agree(s.debug, st)
    ensures Agree(s.debug, PatchInlined(s, a, st))
  {
    if st.stack != [] {
      var top := |st.stack| - 1;
      PatchTopAgrees(s.debug, st.stack[..top], st.stack[top], st.log, InlinedAt(s.debug, st.stack[top].fn, a), a) by {
        assert st.stack[..top] + [st.stack[top]] == st.stack;
      }
    }
  }

  lemma PatchTopAgrees(debug: SourceDebugInfo, rest: seq<Frame>, frame: Frame, log: seq<Event>, chain: seq<ScopeRef>, a: u64)
    requires Agree(debug, TraceState(rest + [frame], None, log))
    requires frame.fn < |debug.functions| && chain == InlinedAt(debug, frame.fn, a)
    ensures Agree(debug, TraceState(rest + [Frame(frame.fn, PatchedTo(frame.inlined, chain))], None,
                                    log + PatchEvents(frame.inlined, chain)))
  {
    var common := Common(frame.inlined, Paths(chain));
    ChainIsNamed(debug.functions[frame.fn], a);
    PatchedList(frame.inlined, chain, common);
    PatchedTopAgrees(debug, rest, frame, log, chain, common);
  }

  /** The keys kept and the keys opened make up the keys of the new chain. */
  lemma KeptKeys(f: Function, inlined: seq<ScopeId>, chain: seq<ScopeRef>, common: nat)
    requires forall k :: 0 <= k < |chain| ==> chain[k].scope.inlined.Some?
    requires NamesInlined(f, inlined) && NamesInlined(f, Paths(chain)) && KeysAt(f, Paths(chain)) == KeysOf(chain)
    requires common <= |inlined| && common <= |chain| && inlined[..common] == Paths(chain)[..common]
    ensures KeysAt(f, inlined)[..common] + KeysOf(chain[common..]) == KeysAt(f, Paths(chain))
  {
  }

  lemma {:induction false} LocalsAreQuiet(s: Session, f: Function, scopes: seq<Scope>, a: u64, regs: Registers,
                                          regions: seq<Region>)
    requires s.Valid()
    ensures Quiet(LocalsOfScopes(s, f, scopes, a, regs, regions))
  {
    if scopes != [] {
      assert LocalsOfScopes(s, f, scopes, a, regs, regions) == LocalsFromScope(s, f, scopes, a, regs, regions);
      VariablesAreQuiet(s, f, scopes[0].variables, a, regs, regions);
      LocalsAreQuiet(s, f, scopes[1..], a, regs, regions);
    }
  }

  lemma {:induction false} VariablesAreQuiet(s: Session, f: Function, vars: seq<Variable>, a: u64, regs: Registers,
                                             regions: seq<Region>)
    requires s.Valid()
    ensures Quiet(LocalsOfVariables(s, f, vars, a, regs, regions))
  {
    if vars != [] {
      assert LocalsOfVariables(s, f, vars, a, regs, regions) == LocalsFrom(s, f, vars, a, regs, regions);
      VariablesAreQuiet(s, f, vars[1..], a, regs, regions);
    }
  }

  /** What a step adds to the log opens and closes nothing. */
  lemma StepIsQuiet(s: Session, i: nat, regions: seq<Region>, st: TraceState) returns (added: seq<Event>)
    requires s.Valid() && i < |s.t.snapshots| && FramesKnown(s.debug, st.stack)
    ensures EmitStep(s, i, regions, st).log == st.log + added && Quiet(added)
    ensures EmitStep(s, i, regions, st).stack == st.stack
  {
    added := [];
    assert s.debug.PositionKnown(s.Addr(i));
    var position := s.debug.PositionAt(s.Addr(i));
    if position.Some? && st.last != position {
      added := [Step(position.value, OfferedColumn(s.lineLengths, position.value))];
      if st.stack != [] {
        var f := s.debug.functions[st.stack[|st.stack| - 1].fn];
        LocalsAreQuiet(s, f, FrameScopes(f, s.Addr(i)), s.Addr(i), s.t.snapshots[i], regions);
        added := added + Locals(s, f, s.Addr(i), s.t.snapshots[i], regions);
        assert EmitStep(s, i, regions, st).log == st.log + added;
      }
    } else {
      assert st.log + added == st.log;
    }
  }

  lemma TransitionAgrees(s: Session, i: nat, regions: seq<Region>, st: TraceState)
    requires s.Valid() && i < |s.t.snapshots| && Agree(s.debug, st)
    ensures Agree(s.debug, Transition(s, i, regions, st))
  {
    var f := s.debug.FunctionAt(s.Addr(i));
    if i == 0 || EnteredByCall(s.t, i) {
      if f.Some? {
        PushAgrees(s, f.value, st);
      }
    } else if LeftByExit(s.t, i) && st.stack != [] {
      PopAgrees(s, regions, s.t.snapshots[i - 1][0], st);
    }
  }

  lemma EmitAgrees(s: Session, i: nat, regions: seq<Region>, st: TraceState)
    requires s.Valid() && i < |s.t.snapshots| && Agree(s.debug, st)
    ensures Agree(s.debug, EmitStep(s, i, regions, st))
  {
    var added := StepIsQuiet(s, i, regions, st);
    ReadAppend(Some([]), st.log, added);
    ReadQuiet(Some(Flatten(s.debug, st.stack)), added);
  }

  // ---------------------------------------------------------------------------
  // The whole trace
  // ---------------------------------------------------------------------------

  lemma AgreeInit(s: Session)
    requires s.Valid()
    ensures Agree(s.debug, TraceAfter(s, 0))
  {
    assert TraceAfter(s, 0) == TraceState([], None, []);
  }

  lemma EnteredAgrees(s: Session, i: nat)
    requires s.Valid() && i < |s.t.snapshots| && Agree(s.debug, TraceAfter(s, i))
    ensures Agree(s.debug, EnteredAt(s, i))
  {
    TransitionAgrees(s, i, MemAt(s.t, i).regions, TraceAfter(s, i));
  }

  lemma PatchedAgrees(s: Session, i: nat)
    requires s.Valid() && i < |s.t.snapshots| && Agree(s.debug, EnteredAt(s, i))
    ensures Agree(s.debug, PatchedAt(s, i))
  {
    PatchAgrees(s, s.Addr(i), EnteredAt(s, i));
  }

  lemma SteppedAgrees(s: Session, i: nat)
    requires s.Valid() && i < |s.t.snapshots| && Agree(s.debug, PatchedAt(s, i))
    ensures Agree(s.debug, TraceAfter(s, i + 1))
  {
    EmitAgrees(s, i, MemAt(s.t, i).regions, PatchedAt(s, i));
    assert TraceAfter(s, i + 1) == AfterSnapshot(s, i) == SteppedAt(s, i);
  }

  /** At every snapshot of every recording the open frames are the flattened stack. */
  lemma {:induction false} OpenFramesAreTheStack(s: Session, n: nat)
    requires s.Valid() && n <= |s.t.snapshots|
    ensures
      var st := TraceAfter(s, n);
      StackNamed(s.debug, st.stack) && Read(Some([]), st.log) == Some(Flatten(s.debug, st.stack))
  {
    if n == 0 {
      AgreeInit(s);
    } else {
      OpenFramesAreTheStack(s, n - 1);
      EnteredAgrees(s, n - 1);
      PatchedAgrees(s, n - 1);
      SteppedAgrees(s, n - 1);
    }
  }

  lemma {:induction false} ClosingAgrees(s: Session, regions: seq<Region>, stack: seq<Frame>)
    requires s.Valid() && StackNamed(s.debug, stack)
    ensures Read(Some(Flatten(s.debug, stack)), CloseAll(s, regions, stack)) == Some([])
  {
    if stack != [] {
      var rest := stack[..|stack| - 1];
      var frame := stack[|stack| - 1];
      var f := s.debug.functions[frame.fn];
      var value := FinalValue(s, regions, frame, |rest|);
      var first := Closing(s, regions, frame, |rest|);
      assert CloseAll(s, regions, stack) == CloseTop(s, regions, stack) == first + CloseAll(s, regions, rest);
      ReadAppend(Some(Flatten(s.debug, stack)), first, CloseAll(s, regions, rest));
      ReadFrameEnd(Flatten(s.debug, rest), f.key, KeysAt(f, frame.inlined), value);
      ClosingAgrees(s, regions, rest);
    }
  }

  lemma ClosedLogIsBalanced(s: Session, regions: seq<Region>, st: TraceState)
    requires s.Valid() && Agree(s.debug, st)
    ensures Read(Some([]), st.log + CloseAll(s, regions, st.stack)) == Some([])
  {
    ReadAppend(Some([]), st.log, CloseAll(s, regions, st.stack));
    ClosingAgrees(s, regions, st.stack);
  }

  /** Every recording is balanced: read from nothing, its trace ends with nothing open. */
  lemma TraceIsBalanced(s: Session)
    requires s.Valid()
    ensures Read(Some([]), FullLog(s)) == Some([])
  {
    OpenFramesAreTheStack(s, |s.t.snapshots|);
    ClosedLogIsBalanced(s, MemAt(s.t, |s.t.snapshots|).regions, TraceAfter(s, |s.t.snapshots|));
  }

  lemma {:induction false} UnderflowStays(log: seq<Event>)
    ensures Read(None, log) == None
  {
    if log != [] {
      UnderflowStays(log[1..]);
    }
  }

  /** No prefix of a recording returns from a frame that is not open. */
  lemma PrefixesNeverUnderflow(s: Session, n: nat)
    requires s.Valid() && n <= |FullLog(s)|
    ensures Read(Some([]), FullLog(s)[..n]).Some?
  {
    var log := FullLog(s);
    TraceIsBalanced(s);
    assert log == log[..n] + log[n..];
    ReadAppend(Some([]), log[..n], log[n..]);
    UnderflowStays(log[n..]);
  }

  /** After the inlined update, the top frame's list is the inlined scopes around the address. */
  lemma PatchFollowsScopes(s: Session, a: u64, st: TraceState)
    requires FramesKnown(s.debug, st.stack) && st.stack != []
    ensures
      var stack := PatchInlined(s, a, st).stack;
      |stack| == |st.stack| && stack[|stack| - 1].fn == st.stack[|stack| - 1].fn < |s.debug.functions|
      && stack[|stack| - 1].inlined == Paths(InlinedAt(s.debug, stack[|stack| - 1].fn, a))
  {
    var frame := st.stack[|st.stack| - 1];
    var chain := InlinedAt(s.debug, frame.fn, a);
    PatchedList(frame.inlined, chain, Common(frame.inlined, Paths(chain)));
  }

  /** The top frame's inlined list is the inlined scopes around `a`. */
  ghost predicate TopFollowsScopes(debug: SourceDebugInfo, stack: seq<Frame>, a: u64)
    requires FramesKnown(debug, stack)
  {
    stack != [] ==>
      var top := stack[|stack| - 1];
      top.inlined == Paths(InlinedAt(debug, top.fn, a))
  }

  lemma PatchedFollowsScopes(s: Session, i: nat)
    requires s.Valid() && i < |s.t.snapshots|
    ensures TopFollowsScopes(s.debug, PatchedAt(s, i).stack, s.Addr(i))
  {
    if EnteredAt(s, i).stack != [] {
      PatchFollowsScopes(s, s.Addr(i), EnteredAt(s, i));
    }
  }

  /** After every snapshot the top frame's inlined list is the inlined scopes around the address. */
  lemma TopFrameFollowsScopes(s: Session, i: nat)
    requires s.Valid() && i < |s.t.snapshots|
    ensures TopFollowsScopes(s.debug, TraceAfter(s, i + 1).stack, s.Addr(i))
  {
    PatchedFollowsScopes(s, i);
    var _ := StepIsQuiet(s, i, MemAt(s.t, i).regions, PatchedAt(s, i));
    assert TraceAfter(s, i + 1) == AfterSnapshot(s, i) == SteppedAt(s, i);
  }

  /** `c` is the length of the longest common prefix. */
  ghost predicate IsLongestCommonPrefix(a: seq<ScopeId>, b: seq<ScopeId>, c: nat) {
    && c <= |a| && c <= |b|
    && (forall n: nat :: n <= |a| && n <= |b| ==> (a[..n] == b[..n] <==> n <= c))
  }

  lemma CommonIsLongest(a: seq<ScopeId>, b: seq<ScopeId>, c: nat)
    requires IsLongestCommonPrefix(a, b, c)
    ensures Common(a, b) == c
  {
    var common := Common(a, b);
    assert a[..common] == b[..common];
    assert common + 1 <= |a| && common + 1 <= |b| ==> a[..common + 1][common] != b[..common + 1][common];
  }

  /** Only the inlined calls beyond the longest common prefix of old and new are closed and opened;
      when the lists are equal nothing is. */
  lemma OnlyTheDifferenceIsPatched(s: Session, a: u64, st: TraceState, c: nat)
    requires FramesKnown(s.debug, st.stack) && st.stack != []
    requires
      var frame := st.stack[|st.stack| - 1];
      IsLongestCommonPrefix(frame.inlined, Paths(InlinedAt(s.debug, frame.fn, a)), c)
    ensures
      var frame := st.stack[|st.stack| - 1];
      var chain := InlinedAt(s.debug, frame.fn, a);
      PatchInlined(s, a, st).log == st.log + (Returns(|frame.inlined| - c) + CallsOf(chain[c..]))
  {
    var frame := st.stack[|st.stack| - 1];
    var chain := InlinedAt(s.debug, frame.fn, a);
    CommonIsLongest(frame.inlined, Paths(chain), c);
    if !NeedsPatch(frame.inlined, chain) {
      assert chain[c..] == [];
    }
  }

  // ---------------------------------------------------------------------------
  // Whose locals are recorded
  // ---------------------------------------------------------------------------

  lemma {:induction false} NoneInlined(chain: seq<ScopeRef>)
    requires forall j :: 0 <= j < |chain| ==> chain[j].scope.inlined.None?
    ensures InlinedOnly(chain) == []
  {
    if chain != [] {
      NoneInlined(chain[1..]);
    }
  }

  lemma {:induction false} LastOfInlined(chain: seq<ScopeRef>, k: nat)
    requires k < |chain| && chain[k].scope.inlined.Some?
    requires forall j :: k < j < |chain| ==> chain[j].scope.inlined.None?
    ensures InlinedOnly(chain) != [] && InlinedOnly(chain)[|InlinedOnly(chain)| - 1] == chain[k]
  {
    if k == 0 {
      NoneInlined(chain[1..]);
    } else {
      LastOfInlined(chain[1..], k - 1);
    }
  }

  /** `scopes` is a chain, body first, from the innermost inlined call on, or from the body when
      there is none. */
  predicate StartAtTopFrame(scopes: seq<Scope>, body: Scope, chain: seq<ScopeRef>) {
    var inlined, all := InlinedOnly(chain), [body] + ScopesOf(chain);
    && scopes != [] && |scopes| <= |all| && scopes == all[|all| - |scopes|..]
    && scopes[0] == (if inlined == [] then body else inlined[|inlined| - 1].scope)
    && (forall j :: 1 <= j < |scopes| ==> scopes[j].inlined.None?)
  }

  lemma LastInlinedIsTop(body: Scope, chain: seq<ScopeRef>)
    ensures StartAtTopFrame(FromLastInlined(body, chain), body, chain)
  {
    var k := LastInlined(chain, |chain|);
    if k < |chain| {
      LastOfInlined(chain, k);
      assert ([body] + ScopesOf(chain))[k + 1..] == ScopesOf(chain[k..]);
    } else {
      NoneInlined(chain);
    }
  }

  /** The scopes whose variables are recorded are those of the frame on top of the trace. */
  lemma LocalsBelongToTopFrame(f: Function, a: u64)
    ensures StartAtTopFrame(FrameScopes(f, a), f.body, ScopeChain(f, a))
  {
    LastInlinedIsTop(f.body, ScopeChain(f, a));
  }

  /** The inlined scopes of a chain are all of them, once each and in order. */
  lemma {:induction false} InlinedAreFiltered(a: seq<ScopeRef>, b: seq<ScopeRef>)
    ensures InlinedOnly(a + b) == InlinedOnly(a) + InlinedOnly(b)
    ensures |a| == 1 ==> InlinedOnly(a) == if a[0].scope.inlined.Some? then a else []
  {
    if a == [] {
      assert a + b == b;
    } else {
      assert (a + b)[1..] == a[1..] + b;
      InlinedAreFiltered(a[1..], b);
      if |a| == 1 {
        assert a[1..] == [] && a == [a[0]];
      }
    }
  }
}
