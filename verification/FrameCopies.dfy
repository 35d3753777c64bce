/** What the copy flags of the frame analysis (`fp_copies` in `infer_stack_size`, `src/source_debug.rs`)
    say about executions: straight runs of a range that do not write r10, in either encoding of the
    memory instructions. */
module FrameCopies {
  import opened Words
  import opened Ebpf
  import opened SbfMemory
  import opened DebugModel
  import opened ShadowReplay
  import opened FrameSize
  import opened FrameReach

  /** Stores write no register: those of the program's encoding, and whatever is in the classic store
      classes, where the relocated encoding has nothing. */
  predicate WritesNoRegister(moved: bool, insn: Insn) {
    StoreKind(moved, insn.opc).Some? || IsStoreClass(insn)
  }

  /** Class 6 holds 32-bit jumps, or the product and quotient instructions of the programs with the
      relocated encoding. */
  predicate Jumps(moved: bool, insn: Insn) {
    Class(insn.opc) == BPF_JMP64 || (!moved && Class(insn.opc) == BPF_JMP32)
  }

  /** An instruction that is no jump and leaves r10 alone. */
  predicate Straight(moved: bool, insn: Insn) {
    !Jumps(moved, insn) && (insn.dst == FRAME_POINTER ==> WritesNoRegister(moved, insn))
  }

  /** The effect of one slot on the registers: stores change none, other instructions at most their
      destination; only register moves and immediate additions are pinned.  (Both slots of a
      two-slot load are covered: the second changes nothing.) */
  ghost predicate Executes(moved: bool, insn: Insn, before: Registers, after: Registers) {
    if WritesNoRegister(moved, insn) then after == before
    else
      && (forall r :: 0 <= r < TRACKED && r != insn.dst ==> after[r] == before[r])
      && (insn.dst < TRACKED ==>
            && (insn.opc == MOV64_REG && insn.src < TRACKED ==> after[insn.dst] == before[insn.src])
            && (insn.opc == ADD64_IMM ==> after[insn.dst] == Wrap(before[insn.dst] + insn.imm)))
  }

  /** Every flagged register equals r10. */
  ghost predicate CopiesHold(copies: Copies, regs: Registers) {
    forall r :: 0 <= r < TRACKED && copies[r] ==> regs[r] == regs[FRAME_POINTER]
  }

  /** A product or quotient written over a flagged copy, which stays flagged: the analysis takes all
      of class 6 for jumps. */
  predicate KeepsStale(insn: Insn, copies: Copies) {
    Class(insn.opc) == BPF_JMP32 && insn.dst < FRAME_POINTER && copies[insn.dst]
  }

  lemma InsnKeepsCopies(moved: bool, insn: Insn, a: Analysis, before: Registers, after: Registers)
    requires Straight(moved, insn) && !KeepsStale(insn, a.copies)
    requires Executes(moved, insn, before, after) && CopiesHold(a.copies, before)
    ensures CopiesHold(AnalyzeInsn(insn, a).copies, after)
  {
  }

  // ---------------------------------------------------------------------------
  // Runs
  // ---------------------------------------------------------------------------

  /** `regs` are the register files before each of the slots first .. first + |regs| - 1, executed in
      order without jumps and without a write to r10. */
  ghost predicate StraightRun(moved: bool, text: seq<byte>, first: u64, regs: seq<Registers>) {
    && regs != [] && first + |regs| < TWO64
    && forall k :: 0 <= k < |regs| - 1 ==> StraightStep(moved, text, first + k, regs[k], regs[k + 1])
  }

  ghost predicate StraightSlot(moved: bool, text: seq<byte>, pc: u64) {
    Decode(text, pc).Some? && Straight(moved, Decode(text, pc).value)
  }

  ghost predicate StraightStep(moved: bool, text: seq<byte>, pc: u64, before: Registers, after: Registers) {
    StraightSlot(moved, text, pc) && Executes(moved, Decode(text, pc).value, before, after)
  }

  /** Slot pc of the range writes a product over a register flagged before it. */
  ghost predicate StaleAt(text: seq<byte>, first: u64, pc: u64) {
    Decode(text, pc).Some? && KeepsStale(Decode(text, pc).value, CopiesAt(text, first, pc))
  }

  /** None of the first n slots does. */
  ghost predicate NoneStale(text: seq<byte>, first: u64, n: nat)
    requires first + n < TWO64
  {
    forall pc: u64 :: first <= pc < first + n ==> !StaleAt(text, first, pc)
  }

  lemma DecodesThroughout(moved: bool, text: seq<byte>, first: u64, regs: seq<Registers>)
    requires StraightRun(moved, text, first, regs)
    ensures forall q: u64 :: first <= q < first + |regs| - 1 ==> Decode(text, q).Some?
  {
    forall q: u64 | first <= q < first + |regs| - 1
      ensures Decode(text, q).Some?
    {
      var k := q - first;
      assert StraightStep(moved, text, first + k, regs[k], regs[k + 1]);
    }
  }

  /** The copy flags are sound: in any straight run from the start of a range, in either encoding, a
      flagged register equals r10, as long as no product has been written over one. */
  lemma {:induction false} FlaggedRegistersEqualR10(
      moved: bool, text: seq<byte>, first: u64, regs: seq<Registers>, k: nat)
    requires StraightRun(moved, text, first, regs) && k < |regs| && NoneStale(text, first, k)
    ensures CopiesHold(CopiesAt(text, first, first + k), regs[k])
  {
    if k > 0 {
      FlaggedRegistersEqualR10(moved, text, first, regs, k - 1);
      var pc: u64 := first + (k - 1);
      assert StraightStep(moved, text, pc, regs[k - 1], regs[k - 1 + 1]);
      DecodesThroughout(moved, text, first, regs);
      SlotKeepsCopies(moved, text, first, pc, regs[k - 1], regs[k]);
    }
  }

  lemma SlotKeepsCopies(moved: bool, text: seq<byte>, first: u64, pc: u64, before: Registers, after: Registers)
    requires first <= pc && pc + 1 < TWO64 && StraightStep(moved, text, pc, before, after) && !StaleAt(text, first, pc)
    requires forall q: u64 :: first <= q <= pc ==> Decode(text, q).Some?
    requires CopiesHold(CopiesAt(text, first, pc), before)
    ensures CopiesHold(CopiesAt(text, first, pc + 1), after)
  {
    var a := Analysis(0, FreshCopies());
    AnalyzeRangeSnoc(text, first, pc, a);
    InsnKeepsCopies(moved, Decode(text, pc).value, AnalyzeRange(text, first, pc, a), before, after);
  }

  /** In the classic encoding no straight slot writes a product. */
  lemma ClassicIsNeverStale(text: seq<byte>, first: u64, regs: seq<Registers>)
    requires StraightRun(false, text, first, regs)
    ensures NoneStale(text, first, |regs| - 1)
  {
    forall pc: u64 | first <= pc < first + (|regs| - 1)
      ensures !StaleAt(text, first, pc)
    {
      var k := pc - first;
      assert StraightStep(false, text, first + k, regs[k], regs[k + 1]);
    }
  }

  /** The flags hold at the end of every straight run of at most n slots. */
  ghost predicate FlagsAreSound(moved: bool, text: seq<byte>, first: u64, n: nat) {
    forall regs: seq<Registers> :: StraightRun(moved, text, first, regs) && |regs| <= n + 1 ==> EndsSound(text, first, regs)
  }

  ghost predicate EndsSound(text: seq<byte>, first: u64, regs: seq<Registers>)
    requires regs != [] && first + |regs| < TWO64
  {
    CopiesHold(CopiesAt(text, first, first + (|regs| - 1)), regs[|regs| - 1])
  }

  /** n straight slots from `first` have sound flags if and only if none of them writes a product
      over a flagged register. */
  lemma FlagsAreSoundIff(moved: bool, text: seq<byte>, first: u64, n: nat)
    requires first + n + 1 < TWO64
    requires forall pc: u64 :: first <= pc < first + n ==> StraightSlot(moved, text, pc)
    ensures FlagsAreSound(moved, text, first, n) <==> NoneStale(text, first, n)
  {
    if NoneStale(text, first, n) {
      forall regs: seq<Registers> | StraightRun(moved, text, first, regs) && |regs| <= n + 1
        ensures EndsSound(text, first, regs)
      {
        FlaggedRegistersEqualR10(moved, text, first, regs, |regs| - 1);
      }
    } else {
      var pc: u64 :| first <= pc < first + n && StaleAt(text, first, pc);
      var regs := RunExists(moved, text, first, pc - first);
      var wrong := StaleRun(moved, text, first, pc, regs);
      assert !EndsSound(text, first, wrong);
    }
  }

  /** A run up to a product over a flagged register goes on to one that ends with a wrong flag. */
  lemma StaleRun(moved: bool, text: seq<byte>, first: u64, pc: u64, regs: seq<Registers>)
    returns (wrong: seq<Registers>)
    requires first <= pc && pc + 2 < TWO64 && StraightSlot(moved, text, pc) && StaleAt(text, first, pc)
    requires forall q: u64 :: first <= q <= pc ==> Decode(text, q).Some?
    requires StraightRun(moved, text, first, regs) && |regs| == pc - first + 1
    ensures StraightRun(moved, text, first, wrong) && |wrong| == |regs| + 1 && !EndsSound(text, first, wrong)
  {
    var before, insn := regs[|regs| - 1], Decode(text, pc).value;
    var after: Registers := before[insn.dst := Wrap(before[FRAME_POINTER] as int + 1)];
    StaleFlagStays(text, first, pc);
    assert !CopiesHold(CopiesAt(text, first, pc + 1), after);
    ExtendRun(moved, text, first, regs, after);
    wrong := regs + [after];
  }

  lemma StaleFlagStays(text: seq<byte>, first: u64, pc: u64)
    requires first <= pc && pc + 1 < TWO64 && StaleAt(text, first, pc)
    requires forall q: u64 :: first <= q <= pc ==> Decode(text, q).Some?
    ensures CopiesAt(text, first, pc + 1)[Decode(text, pc).value.dst]
  {
    AnalyzeRangeSnoc(text, first, pc, Analysis(0, FreshCopies()));
  }

  lemma ExtendRun(moved: bool, text: seq<byte>, first: u64, regs: seq<Registers>, after: Registers)
    requires StraightRun(moved, text, first, regs) && first + |regs| + 1 < TWO64
    requires StraightStep(moved, text, first + (|regs| - 1), regs[|regs| - 1], after)
    ensures StraightRun(moved, text, first, regs + [after])
  {
    var longer := regs + [after];
    forall k | 0 <= k < |longer| - 1
      ensures StraightStep(moved, text, first + k, longer[k], longer[k + 1])
    {
      if k < |regs| - 1 {
        assert StraightStep(moved, text, first + k, regs[k], regs[k + 1]);
      }
    }
  }

  /** One possible effect of an instruction. */
  function SomeEffect(moved: bool, insn: Insn, before: Registers): (after: Registers)
    ensures Executes(moved, insn, before, after)
  {
    if WritesNoRegister(moved, insn) || insn.dst >= TRACKED then before
    else if insn.opc == MOV64_REG && insn.src < TRACKED then before[insn.dst := before[insn.src]]
    else if insn.opc == ADD64_IMM then before[insn.dst := Wrap(before[insn.dst] + insn.imm)]
    else before
  }

  lemma {:induction false} RunExists(moved: bool, text: seq<byte>, first: u64, n: nat) returns (regs: seq<Registers>)
    requires first + n + 1 < TWO64
    requires forall pc: u64 :: first <= pc < first + n ==> StraightSlot(moved, text, pc)
    ensures StraightRun(moved, text, first, regs) && |regs| == n + 1
  {
    if n == 0 {
      regs := [seq(12, _ => 0)];
    } else {
      regs := RunExists(moved, text, first, n - 1);
      var pc: u64 := first + (n - 1);
      assert StraightSlot(moved, text, pc);
      var after := SomeEffect(moved, Decode(text, pc).value, regs[n - 1]);
      ExtendRun(moved, text, first, regs, after);
      regs := regs + [after];
    }
  }

  // ---------------------------------------------------------------------------
  // Addresses
  // ---------------------------------------------------------------------------

  /** What a straight run computes off r10 stays within the inferred depth: in the classic encoding
      the address of every load and store below r10, and in both every pointer made by adding to a
      copy of r10. */
  lemma LocalAddressesWithinDepth(moved: bool, text: seq<byte>, textVaddr: u64, ranges: seq<Span>, i: nat,
                                  regs: seq<Registers>, k: nat, d: nat)
    requires i < |ranges|
    requires StraightRun(moved, text, SlotOf(ranges[i].lo, textVaddr), regs) && k < |regs| - 1
    requires SlotOf(ranges[i].lo, textVaddr) + k < SlotOf(ranges[i].hi, textVaddr)
    requires NoneStale(text, SlotOf(ranges[i].lo, textVaddr), k)
    ensures Decode(text, SlotOf(ranges[i].lo, textVaddr) + k).Some?
    ensures
      var first := SlotOf(ranges[i].lo, textVaddr);
      var insn := Decode(text, first + k).value;
      var depth, fp := DepthOfRanges(text, textVaddr, ranges, 0), regs[k][FRAME_POINTER];
      && (!moved && Accesses(moved, insn, d) ==>
            d <= depth && Wrap(regs[k][AccessBase(moved, insn).value] + insn.off) == Wrap(fp - d))
      && (PointsBelow(insn, CopiesAt(text, first, first + k), d) ==>
            d <= depth && regs[k + 1][insn.dst] == Wrap(fp - d))
  {
    var first := SlotOf(ranges[i].lo, textVaddr);
    PointerOffR10(moved, text, first, regs, k, d);
    CountedWithinDepth(moved, text, textVaddr, ranges, i, first + k, d);
  }

  /** A pointer made from a flagged register is that far below r10. */
  lemma PointerOffR10(moved: bool, text: seq<byte>, first: u64, regs: seq<Registers>, k: nat, d: nat)
    requires StraightRun(moved, text, first, regs) && k < |regs| - 1 && NoneStale(text, first, k)
    ensures forall q: u64 :: first <= q <= first + k ==> Decode(text, q).Some?
    ensures
      var insn := Decode(text, first + k).value;
      PointsBelow(insn, CopiesAt(text, first, first + k), d) ==>
      regs[k + 1][insn.dst] == Wrap(regs[k][FRAME_POINTER] - d)
  {
    DecodesThroughout(moved, text, first, regs);
    FlaggedRegistersEqualR10(moved, text, first, regs, k);
    assert StraightStep(moved, text, first + k, regs[k], regs[k + 1]);
  }

  lemma CountedWithinDepth(moved: bool, text: seq<byte>, textVaddr: u64, ranges: seq<Span>, i: nat, pc: u64, d: nat)
    requires i < |ranges|
    ensures
      var first, last := SlotOf(ranges[i].lo, textVaddr), SlotOf(ranges[i].hi, textVaddr);
      (!moved && SlotAccesses(moved, text, first, last, pc, d)) || SlotPoints(text, first, last, pc, d) ==>
      d <= DepthOfRanges(text, textVaddr, ranges, 0)
  {
    var first, last := SlotOf(ranges[i].lo, textVaddr), SlotOf(ranges[i].hi, textVaddr);
    SlotCountsWhat(moved, text, first, last, pc, d);
    FunctionDepthIsDeepest(text, textVaddr, ranges, 0);
    if SlotCounts(text, first, last, pc, d) {
      assert FunctionCounts(text, textVaddr, ranges, d);
    }
  }
}
