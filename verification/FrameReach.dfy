/** What the frame analysis (`infer_stack_size` in `src/source_debug.rs`) says about the program: that
    flagged registers hold r10, and that accesses below r10 are within the depth.  Accesses are told
    by the instruction encoding, not by the classes the analysis tests, so that both encodings of
    the SBF memory instructions are judged: `moved` says which one a program uses. */
module FrameReach {
  import opened Words
  import opened Wrappers
  import opened Ebpf
  import opened SbfMemory
  import opened DebugModel
  import opened FrameSize

  /** The width of a load. */
  function LoadWidth(moved: bool, opc: byte): Option<nat> {
    if moved then
      if opc == LD_1B_REG then Some(1)
      else if opc == LD_2B_REG then Some(2)
      else if opc == LD_4B_REG then Some(4)
      else if opc == LD_8B_REG then Some(8)
      else None
    else
      if opc == LD_B_REG then Some(1)
      else if opc == LD_H_REG then Some(2)
      else if opc == LD_W_REG then Some(4)
      else if opc == LD_DW_REG then Some(8)
      else None
  }

  /** Load width, read off the fields of the opcode.  Classic loads are the LDX class in MEM mode;
      relocated ones use the ALU32/LOAD class with a width nibble. */
  function LoadShape(moved: bool, opc: byte): Option<nat> {
    if moved then
      if opc % 16 != 0x0c then None
      else match opc / 16 case 2 => Some(1) case 3 => Some(2) case 8 => Some(4) case 9 => Some(8) case _ => None
    else
      if opc % 8 != 1 || opc / 32 != 3 then None
      else match (opc / 8) % 4 case 0 => Some(4) case 1 => Some(2) case 2 => Some(1) case _ => Some(8)
  }

  /** The table of loads is the encoding, for all 256 opcodes and both instruction sets. */
  lemma LoadWidthIsTheEncoding(moved: bool, opc: byte)
    ensures LoadWidth(moved, opc) == LoadShape(moved, opc)
  {
    var low, high := opc % 8, opc / 8;
    assert opc == 8 * high + low;
    assert high / 2 == opc / 16 && high / 4 == opc / 32;
  }

  /** The register a load or store is addressed off. */
  function AccessBase(moved: bool, insn: Insn): Option<nat> {
    if StoreKind(moved, insn.opc).Some? then Some(insn.dst)
    else if LoadWidth(moved, insn.opc).Some? then Some(insn.src)
    else None
  }

  /** The instruction accesses memory d bytes below r10. */
  predicate Accesses(moved: bool, insn: Insn, d: nat) {
    AccessBase(moved, insn) == Some(10) && insn.off < 0 && d == -insn.off
  }

  /** The instruction makes a pointer d bytes below r10 from a flagged copy of it. */
  predicate PointsBelow(insn: Insn, copies: Copies, d: nat) {
    insn.opc == ADD64_IMM && insn.dst < TRACKED && copies[insn.dst] && insn.imm < 0 && d == -insn.imm
  }

  /** Opcodes of the three memory classes are loads and stores: the VM's verifier admits no other
      there, and none at all in the relocated encoding. */
  predicate Admitted(moved: bool, insn: Insn) {
    MemBase(insn).Some? ==> AccessBase(moved, insn).Some?
  }

  // ---------------------------------------------------------------------------
  // Single instructions
  // ---------------------------------------------------------------------------

  /** For any instruction and any state of the analysis: an access below r10 is counted exactly in
      the classic encoding. */
  lemma AccessIsCountedIffClassic(moved: bool, insn: Insn, a: Analysis, d: nat)
    requires Accesses(moved, insn, d)
    ensures Counts(insn, a.copies, d) <==> !moved
    ensures AnalyzeInsn(insn, a).depth == if moved then a.depth else Max(a.depth, d)
  {
  }

  /** What is counted is an access in the classic encoding, or a pointer. */
  lemma CountedIsReached(moved: bool, insn: Insn, copies: Copies, d: nat)
    requires Admitted(moved, insn) && Counts(insn, copies, d)
    ensures PointsBelow(insn, copies, d) || (!moved && Accesses(moved, insn, d))
  {
  }

  // ---------------------------------------------------------------------------
  // Slots, ranges and functions
  // ---------------------------------------------------------------------------

  /** The analysis gets to slot pc of a range: every slot up to it decodes. */
  ghost predicate Visits(text: seq<byte>, first: u64, last: u64, pc: u64) {
    first <= pc < last && forall q: u64 :: first <= q <= pc ==> Decode(text, q).Some?
  }

  ghost predicate SlotAccesses(moved: bool, text: seq<byte>, first: u64, last: u64, pc: u64, d: nat) {
    Visits(text, first, last, pc) && Accesses(moved, Decode(text, pc).value, d)
  }

  ghost predicate SlotPoints(text: seq<byte>, first: u64, last: u64, pc: u64, d: nat) {
    Visits(text, first, last, pc) && PointsBelow(Decode(text, pc).value, CopiesAt(text, first, pc), d)
  }

  ghost predicate SlotAdmitted(moved: bool, text: seq<byte>, pc: u64) {
    Decode(text, pc).Some? ==> Admitted(moved, Decode(text, pc).value)
  }

  /** Every slot of the text is an instruction of its encoding. */
  ghost predicate TextAdmitted(moved: bool, text: seq<byte>) {
    forall pc: u64 :: SlotAdmitted(moved, text, pc)
  }

  /** Some slot of some range of a function accesses memory d bytes below r10. */
  ghost predicate FunctionAccesses(moved: bool, text: seq<byte>, textVaddr: u64, ranges: seq<Span>, d: nat) {
    exists i, pc: u64 :: 0 <= i < |ranges| &&
      SlotAccesses(moved, text, SlotOf(ranges[i].lo, textVaddr), SlotOf(ranges[i].hi, textVaddr), pc, d)
  }

  /** Some slot of some range of a function makes a pointer d bytes below r10. */
  ghost predicate FunctionPoints(text: seq<byte>, textVaddr: u64, ranges: seq<Span>, d: nat) {
    exists i, pc: u64 :: 0 <= i < |ranges| &&
      SlotPoints(text, SlotOf(ranges[i].lo, textVaddr), SlotOf(ranges[i].hi, textVaddr), pc, d)
  }

  lemma SlotCountsWhat(moved: bool, text: seq<byte>, first: u64, last: u64, pc: u64, d: nat)
    ensures SlotPoints(text, first, last, pc, d) ==> SlotCounts(text, first, last, pc, d)
    ensures SlotAccesses(moved, text, first, last, pc, d) && !moved ==> SlotCounts(text, first, last, pc, d)
    ensures SlotCounts(text, first, last, pc, d) && SlotAdmitted(moved, text, pc) ==>
      SlotPoints(text, first, last, pc, d) || (!moved && SlotAccesses(moved, text, first, last, pc, d))
  {
    if SlotCounts(text, first, last, pc, d) && SlotAdmitted(moved, text, pc) {
      CountedIsReached(moved, Decode(text, pc).value, CopiesAt(text, first, pc), d);
    }
  }

  lemma FunctionCountsWhat(moved: bool, text: seq<byte>, textVaddr: u64, ranges: seq<Span>, d: nat)
    ensures FunctionPoints(text, textVaddr, ranges, d) ==> FunctionCounts(text, textVaddr, ranges, d)
    ensures FunctionAccesses(moved, text, textVaddr, ranges, d) && !moved ==>
      FunctionCounts(text, textVaddr, ranges, d)
    ensures FunctionCounts(text, textVaddr, ranges, d) && TextAdmitted(moved, text) ==>
      FunctionPoints(text, textVaddr, ranges, d) || (!moved && FunctionAccesses(moved, text, textVaddr, ranges, d))
  {
    if FunctionPoints(text, textVaddr, ranges, d) {
      var i, pc: u64 :| 0 <= i < |ranges| &&
        SlotPoints(text, SlotOf(ranges[i].lo, textVaddr), SlotOf(ranges[i].hi, textVaddr), pc, d);
      SlotCountsWhat(moved, text, SlotOf(ranges[i].lo, textVaddr), SlotOf(ranges[i].hi, textVaddr), pc, d);
    }
    if FunctionAccesses(moved, text, textVaddr, ranges, d) {
      var i, pc: u64 :| 0 <= i < |ranges| &&
        SlotAccesses(moved, text, SlotOf(ranges[i].lo, textVaddr), SlotOf(ranges[i].hi, textVaddr), pc, d);
      SlotCountsWhat(moved, text, SlotOf(ranges[i].lo, textVaddr), SlotOf(ranges[i].hi, textVaddr), pc, d);
    }
    if FunctionCounts(text, textVaddr, ranges, d) && TextAdmitted(moved, text) {
      var i, pc: u64 :| 0 <= i < |ranges| &&
        SlotCounts(text, SlotOf(ranges[i].lo, textVaddr), SlotOf(ranges[i].hi, textVaddr), pc, d);
      assert SlotAdmitted(moved, text, pc);
      SlotCountsWhat(moved, text, SlotOf(ranges[i].lo, textVaddr), SlotOf(ranges[i].hi, textVaddr), pc, d);
    }
  }

  /** Classic encoding, one range: the depth bounds every access below r10 and every pointer made
      there and, unless it is 0, is one of them. */
  lemma ClassicRangeDepth(text: seq<byte>, first: u64, last: u64)
    requires first <= last
    ensures
      var depth := AnalyzeRange(text, first, last, Analysis(0, FreshCopies())).depth;
      && (forall pc: u64, d: nat :: SlotAccesses(false, text, first, last, pc, d) ==> d <= depth)
      && (forall pc: u64, d: nat :: SlotPoints(text, first, last, pc, d) ==> d <= depth)
      && (TextAdmitted(false, text) && depth != 0 ==>
            exists pc: u64 :: SlotAccesses(false, text, first, last, pc, depth) || SlotPoints(text, first, last, pc, depth))
  {
    var depth := AnalyzeRange(text, first, last, Analysis(0, FreshCopies())).depth;
    RangeDepthIsDeepest(text, first, first, last, Analysis(0, FreshCopies()));
    forall pc: u64, d: nat | SlotAccesses(false, text, first, last, pc, d) || SlotPoints(text, first, last, pc, d)
      ensures d <= depth
    {
      SlotCountsWhat(false, text, first, last, pc, d);
    }
    if TextAdmitted(false, text) && depth != 0 {
      var pc: u64 :| SlotCounts(text, first, last, pc, depth);
      assert SlotAdmitted(false, text, pc);
      SlotCountsWhat(false, text, first, last, pc, depth);
    }
  }

  /** Classic encoding, a function: the same over all its ranges. */
  lemma ClassicFunctionDepth(text: seq<byte>, textVaddr: u64, ranges: seq<Span>)
    ensures
      var depth := DepthOfRanges(text, textVaddr, ranges, 0);
      && (forall d: nat :: FunctionAccesses(false, text, textVaddr, ranges, d) ==> d <= depth)
      && (forall d: nat :: FunctionPoints(text, textVaddr, ranges, d) ==> d <= depth)
      && (TextAdmitted(false, text) && depth != 0 ==>
            FunctionAccesses(false, text, textVaddr, ranges, depth) || FunctionPoints(text, textVaddr, ranges, depth))
  {
    var depth := DepthOfRanges(text, textVaddr, ranges, 0);
    FunctionDepthIsDeepest(text, textVaddr, ranges, 0);
    FunctionCountsWhat(false, text, textVaddr, ranges, depth);
    forall d: nat | FunctionAccesses(false, text, textVaddr, ranges, d) || FunctionPoints(text, textVaddr, ranges, d)
      ensures d <= depth
    {
      FunctionCountsWhat(false, text, textVaddr, ranges, d);
    }
  }

  /** Relocated encoding: the depth is the deepest pointer made, so every access below r10 is within
      it exactly when some pointer made reaches at least as far. */
  lemma RelocatedAccessesWithinDepthIff(text: seq<byte>, textVaddr: u64, ranges: seq<Span>)
    requires TextAdmitted(true, text)
    ensures
      var depth := DepthOfRanges(text, textVaddr, ranges, 0);
      && (forall d: nat :: FunctionPoints(text, textVaddr, ranges, d) ==> d <= depth)
      && (depth != 0 ==> FunctionPoints(text, textVaddr, ranges, depth))
      && ((forall d: nat :: FunctionAccesses(true, text, textVaddr, ranges, d) ==> d <= depth)
          <==> (forall d: nat :: FunctionAccesses(true, text, textVaddr, ranges, d) ==>
                  PointsAtLeast(text, textVaddr, ranges, d)))
  {
    var depth := DepthOfRanges(text, textVaddr, ranges, 0);
    FunctionDepthIsDeepest(text, textVaddr, ranges, 0);
    FunctionCountsWhat(true, text, textVaddr, ranges, depth);
    forall d: nat | FunctionPoints(text, textVaddr, ranges, d)
      ensures d <= depth
    {
      FunctionCountsWhat(true, text, textVaddr, ranges, d);
    }
    forall d: nat | FunctionAccesses(true, text, textVaddr, ranges, d)
      ensures d <= depth <==> PointsAtLeast(text, textVaddr, ranges, d)
    {
      assert d > 0;
    }
  }

  ghost predicate PointsAtLeast(text: seq<byte>, textVaddr: u64, ranges: seq<Span>, d: nat) {
    exists e: nat :: e >= d && FunctionPoints(text, textVaddr, ranges, e)
  }
}
