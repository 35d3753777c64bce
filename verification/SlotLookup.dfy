/** From instruction slots to addresses and back (`address_of`, `function_at` and the slot arithmetic of
    `infer_stack_size` in `src/source_debug.rs`). */
module SlotLookup {
  import opened Words
  import opened Wrappers
  import opened DebugModel
  import opened FrameSize
  import opened SourceRecorder

  /** A range of the function, end excluded, holds the address. */
  predicate HoldsAddress(f: Function, a: u64) {
    exists i :: 0 <= i < |f.body.ranges| && f.body.ranges[i].lo <= a < f.body.ranges[i].hi
  }

  /** Slots are 8 bytes apart, from where the text is; the frame analysis finds the slot back. */
  lemma SlotRoundTrip(debug: SourceDebugInfo, pc: u64)
    ensures debug.AddressOfSlot(pc) == (debug.textVaddr + 8 * pc) % 0x1_0000_0000_0000_0000
    ensures debug.textVaddr + 8 * pc < 0x1_0000_0000_0000_0000 ==> SlotOf(debug.AddressOfSlot(pc), debug.textVaddr) == pc
  {
    var q := pc * 8 / TWO64;
    assert pc * 8 == TWO64 * q + Wrap(pc * 8);
    WrapsAway(debug.textVaddr + Wrap(pc * 8), q);
  }

  lemma WrapsAway(x: int, q: int)
    ensures Wrap(x + TWO64 * q) == Wrap(x)
  {
  }

  /** The slot of any address inside the text is the one whose eight bytes hold it. */
  lemma SlotHoldsAddress(textVaddr: u64, a: u64)
    ensures a >= textVaddr ==> textVaddr + 8 * SlotOf(a, textVaddr) <= a < textVaddr + 8 * SlotOf(a, textVaddr) + 8
    ensures a < textVaddr ==> SlotOf(a, textVaddr) == 0
  {
  }

  /** The function of a slot is the first one with a range that holds its address. */
  lemma FunctionOfSlotIff(debug: SourceDebugInfo, pc: u64, k: nat)
    requires debug.textVaddr + 8 * pc < 0x1_0000_0000_0000_0000
    ensures
      var a := debug.textVaddr + 8 * pc;
      debug.FunctionAt(debug.AddressOfSlot(pc)) == Some(k) <==>
        && k < |debug.functions| && HoldsAddress(debug.functions[k], a)
        && forall j :: 0 <= j < k ==> !HoldsAddress(debug.functions[j], a)
  {
    SlotRoundTrip(debug, pc);
    var a := debug.textVaddr + 8 * pc;
    forall j | 0 <= j < |debug.functions|
      ensures HoldsAddress(debug.functions[j], a) <==> InRanges(debug.functions[j].body.ranges, a)
    {
      RangesHold(debug.functions[j], a);
    }
    FirstIsFound(debug, a, 0, k);
  }

  lemma RangesHold(f: Function, a: u64)
    ensures HoldsAddress(f, a) <==> InRanges(f.body.ranges, a)
  {
    if HoldsAddress(f, a) {
      var i :| 0 <= i < |f.body.ranges| && f.body.ranges[i].lo <= a < f.body.ranges[i].hi;
      assert f.body.ranges[i].Contains(a);
    }
  }

  lemma {:induction false} FirstIsFound(debug: SourceDebugInfo, a: u64, from: nat, k: nat)
    requires from <= |debug.functions|
    ensures debug.FunctionFrom(a, from) == Some(k) <==>
      && from <= k < |debug.functions| && InRanges(debug.functions[k].body.ranges, a)
      && forall j :: from <= j < k ==> !InRanges(debug.functions[j].body.ranges, a)
    decreases |debug.functions| - from
  {
    if from < |debug.functions| && !InRanges(debug.functions[from].body.ranges, a) {
      FirstIsFound(debug, a, from + 1, k);
    }
  }
}
