/** The linear analysis of a function's code behind its frame size (the instruction loop of
    `infer_stack_size` in `src/source_debug.rs`).  What it says about the program is in `FrameReach`. */
module FrameSize {
  import opened Words
  import opened Wrappers
  import opened Ebpf
  import opened DebugModel

  const SBF_STACK_ALIGN := 64
  const TRACKED := 11

  type Copies = c: seq<bool> | |c| == TRACKED witness seq(TRACKED, _ => false)

  /** The deepest access below r10 seen, and which registers hold a copy of r10. */
  datatype Analysis = Analysis(depth: nat, copies: Copies)

  function FreshCopies(): Copies {
    seq(TRACKED, r => r == FRAME_POINTER)
  }

  /** The register a load or store (of the classic classes) is addressed off. */
  function MemBase(insn: Insn): Option<nat> {
    if Class(insn.opc) == BPF_LDX then Some(insn.src)
    else if Class(insn.opc) == BPF_ST || Class(insn.opc) == BPF_STX then Some(insn.dst)
    else None
  }

  predicate IsStoreClass(insn: Insn) {
    Class(insn.opc) == BPF_ST || Class(insn.opc) == BPF_STX
  }

  predicate IsJump(insn: Insn) {
    Class(insn.opc) == BPF_JMP64 || Class(insn.opc) == BPF_JMP32
  }

  function AnalyzeInsn(insn: Insn, a: Analysis): Analysis {
    var depth := if MemBase(insn) == Some(FRAME_POINTER) && insn.off < 0 then Max(a.depth, Abs(insn.off)) else a.depth;
    if insn.dst >= TRACKED || IsStoreClass(insn) then Analysis(depth, a.copies)
    else if insn.opc == MOV64_REG then
      Analysis(depth, a.copies[insn.dst := insn.src < TRACKED && a.copies[insn.src]])
    else if insn.opc == ADD64_IMM && a.copies[insn.dst] then
      Analysis(if insn.imm < 0 then Max(depth, Abs(insn.imm)) else depth,
               if insn.dst == FRAME_POINTER then a.copies else a.copies[insn.dst := false])
    else if !IsJump(insn) && insn.dst != FRAME_POINTER then Analysis(depth, a.copies[insn.dst := false])
    else Analysis(depth, a.copies)
  }

  /** The analysis of slots pc .. last, stopping at the first that does not decode. */
  function AnalyzeRange(text: seq<byte>, pc: u64, last: u64, a: Analysis): Analysis
    decreases last - pc
  {
    if pc >= last then a
    else
      match Decode(text, pc)
      case None => a
      case Some(insn) => AnalyzeRange(text, pc + 1, last, AnalyzeInsn(insn, a))
  }

  function SlotOf(a: u64, textVaddr: u64): u64 {
    (if a < textVaddr then 0 else a - textVaddr) / INSN_SIZE
  }

  /** The analysis of all ranges of a function, copies forgotten at the start of each. */
  function DepthOfRanges(text: seq<byte>, textVaddr: u64, ranges: seq<Span>, depth: nat): nat {
    if ranges == [] then depth
    else
      var first, last := SlotOf(ranges[0].lo, textVaddr), SlotOf(ranges[0].hi, textVaddr);
      DepthOfRanges(text, textVaddr, ranges[1..],
                    AnalyzeRange(text, first, last, Analysis(depth, FreshCopies())).depth)
  }

  /** The inner loop of `infer_stack_size`: the slots of one range. */
  method ScanRange(text: seq<byte>, first: u64, last: u64, start: nat) returns (depth: nat)
    ensures depth == AnalyzeRange(text, first, last, Analysis(start, FreshCopies())).depth
  {
    depth := start;
    var copies := FreshCopies();
    ghost var result := AnalyzeRange(text, first, last, Analysis(start, copies));
    var pc: u64 := first;
    while pc < last
      invariant result == AnalyzeRange(text, pc, last, Analysis(depth, copies))
    {
      var decoded := Decode(text, pc);
      if decoded.None? {
        break;
      }
      depth, copies := ScanInsn(decoded.value, depth, copies);
      pc := pc + 1;
    }
  }

  method ScanInsn(insn: Insn, depth0: nat, copies0: Copies) returns (depth: nat, copies: Copies)
    ensures Analysis(depth, copies) == AnalyzeInsn(insn, Analysis(depth0, copies0))
  {
    depth, copies := depth0, copies0;
    if MemBase(insn) == Some(FRAME_POINTER) && insn.off < 0 {
      depth := Max(depth, Abs(insn.off));
    }
    if insn.dst < TRACKED && !IsStoreClass(insn) {
      if insn.opc == MOV64_REG {
        copies := copies[insn.dst := insn.src < TRACKED && copies[insn.src]];
      } else if insn.opc == ADD64_IMM && copies[insn.dst] {
        if insn.imm < 0 {
          depth := Max(depth, Abs(insn.imm));
        }
        if insn.dst != FRAME_POINTER {
          copies := copies[insn.dst := false];
        }
      } else if !IsJump(insn) && insn.dst != FRAME_POINTER {
        copies := copies[insn.dst := false];
      }
    }
  }

  method InferDepth(text: seq<byte>, textVaddr: u64, ranges: seq<Span>) returns (depth: nat)
    ensures depth == DepthOfRanges(text, textVaddr, ranges, 0)
  {
    depth := 0;
    for i := 0 to |ranges|
      invariant DepthOfRanges(text, textVaddr, ranges, 0) == DepthOfRanges(text, textVaddr, ranges[i..], depth)
    {
      assert ranges[i..][0] == ranges[i] && ranges[i..][1..] == ranges[i + 1..];
      depth := ScanRange(text, SlotOf(ranges[i].lo, textVaddr), SlotOf(ranges[i].hi, textVaddr), depth);
    }
  }

  // ---------------------------------------------------------------------------
  // What the analysis counts
  // ---------------------------------------------------------------------------

  /** Slot by slot: a range is its prefix and then one more slot. */
  lemma {:induction false} AnalyzeRangeSnoc(text: seq<byte>, pc: u64, last: u64, a: Analysis)
    requires pc <= last && last + 1 < TWO64
    requires forall q: u64 :: pc <= q <= last ==> Decode(text, q).Some?
    ensures AnalyzeRange(text, pc, last + 1, a) == AnalyzeInsn(Decode(text, last).value, AnalyzeRange(text, pc, last, a))
    decreases last - pc
  {
    if pc < last {
      AnalyzeRangeSnoc(text, pc + 1, last, AnalyzeInsn(Decode(text, pc).value, a));
    }
  }

  function CopiesAt(text: seq<byte>, first: u64, pc: u64): Copies {
    AnalyzeRange(text, first, pc, Analysis(0, FreshCopies())).copies
  }

  /** The analysis counts `d` at an instruction, given the copy flags before it. */
  ghost predicate Counts(insn: Insn, copies: Copies, d: nat) {
    || (MemBase(insn) == Some(FRAME_POINTER) && insn.off < 0 && d == -insn.off)
    || (insn.opc == ADD64_IMM && insn.dst < TRACKED && copies[insn.dst] && insn.imm < 0 && d == -insn.imm)
  }

  /** The slots of a range that the analysis gets to. */
  ghost predicate SlotCounts(text: seq<byte>, first: u64, last: u64, pc: u64, d: nat) {
    && first <= pc < last
    && (forall q: u64 :: first <= q <= pc ==> Decode(text, q).Some?)
    && Counts(Decode(text, pc).value, CopiesAt(text, first, pc), d)
  }

  lemma InsnDepth(insn: Insn, a: Analysis)
    ensures AnalyzeInsn(insn, a).depth >= a.depth
    ensures forall d: nat :: Counts(insn, a.copies, d) ==> d <= AnalyzeInsn(insn, a).depth
    ensures AnalyzeInsn(insn, a).depth == a.depth || Counts(insn, a.copies, AnalyzeInsn(insn, a).depth)
    ensures forall d: nat :: AnalyzeInsn(insn, Analysis(d, a.copies)).copies == AnalyzeInsn(insn, a).copies
  {
  }

  /** The depth of a range is the most its slots count: it bounds every one and, unless it is
      what the analysis started from, one of them attains it. */
  lemma {:induction false} RangeDepthIsDeepest(text: seq<byte>, first: u64, pc: u64, last: u64, a: Analysis)
    requires first <= pc <= last && a.copies == CopiesAt(text, first, pc)
    requires forall q: u64 :: first <= q < pc ==> Decode(text, q).Some?
    ensures
      var depth := AnalyzeRange(text, pc, last, a).depth;
      && depth >= a.depth
      && (forall q: u64, d: nat :: q >= pc && SlotCounts(text, first, last, q, d) ==> d <= depth)
      && (depth == a.depth || exists q: u64 :: q >= pc && SlotCounts(text, first, last, q, depth))
    decreases last - pc
  {
    if pc < last && Decode(text, pc).Some? {
      var insn := Decode(text, pc).value;
      var next := AnalyzeInsn(insn, a);
      InsnDepth(insn, a);
      AnalyzeRangeSnoc(text, first, pc, Analysis(0, FreshCopies()));
      InsnDepth(insn, AnalyzeRange(text, first, pc, Analysis(0, FreshCopies())));
      RangeDepthIsDeepest(text, first, pc + 1, last, next);
      var depth := AnalyzeRange(text, pc, last, a).depth;
      assert next.depth != a.depth ==> SlotCounts(text, first, last, pc, next.depth);
      forall q: u64, d: nat | q >= pc && SlotCounts(text, first, last, q, d)
        ensures d <= depth
      {
        if q == pc {
          assert Counts(insn, a.copies, d);
        }
      }
    }
  }

  /** Some slot of the function counts `d`. */
  ghost predicate FunctionCounts(text: seq<byte>, textVaddr: u64, ranges: seq<Span>, d: nat) {
    exists i, pc: u64 :: 0 <= i < |ranges| &&
      SlotCounts(text, SlotOf(ranges[i].lo, textVaddr), SlotOf(ranges[i].hi, textVaddr), pc, d)
  }

  /** The depth found for a function bounds all that is counted in it and, unless 0, is one of them. */
  lemma {:induction false} FunctionDepthIsDeepest(text: seq<byte>, textVaddr: u64, ranges: seq<Span>, depth0: nat)
    ensures
      var depth := DepthOfRanges(text, textVaddr, ranges, depth0);
      && depth >= depth0
      && (forall d: nat :: FunctionCounts(text, textVaddr, ranges, d) ==> d <= depth)
      && (depth == depth0 || FunctionCounts(text, textVaddr, ranges, depth))
  {
    if ranges != [] {
      var first, last := SlotOf(ranges[0].lo, textVaddr), SlotOf(ranges[0].hi, textVaddr);
      var a := Analysis(depth0, FreshCopies());
      var depth1 := AnalyzeRange(text, first, last, a).depth;
      if first <= last {
        RangeDepthIsDeepest(text, first, first, last, a);
      }
      FunctionDepthIsDeepest(text, textVaddr, ranges[1..], depth1);
      forall d: nat | FunctionCounts(text, textVaddr, ranges[1..], d)
        ensures FunctionCounts(text, textVaddr, ranges, d)
      {
        var i, pc: u64 :| 0 <= i < |ranges[1..]| &&
          SlotCounts(text, SlotOf(ranges[1..][i].lo, textVaddr), SlotOf(ranges[1..][i].hi, textVaddr), pc, d);
        assert ranges[1..][i] == ranges[i + 1];
      }
      forall d: nat | FunctionCounts(text, textVaddr, ranges, d)
        ensures d <= depth1 || FunctionCounts(text, textVaddr, ranges[1..], d)
      {
        var i, pc: u64 :| 0 <= i < |ranges| &&
          SlotCounts(text, SlotOf(ranges[i].lo, textVaddr), SlotOf(ranges[i].hi, textVaddr), pc, d);
        if i > 0 {
          assert ranges[1..][i - 1] == ranges[i];
        }
      }
    }
  }
}
