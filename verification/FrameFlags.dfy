/** Which registers the frame analysis flags (the instruction loop of `infer_stack_size` in
    `src/source_debug.rs`): those whose last write was a move from a flagged register. */
module FrameFlags {
  import opened Words
  import opened Ebpf
  import opened FrameSize

  /** The instruction names no destination r, or is a store or a jump, or writes r10 other than by a move. */
  predicate Leaves(insn: Insn, r: nat) {
    insn.dst != r || insn.opc % 8 in {2, 3, 5, 6} || (r == 10 && insn.opc != 0xbf)
  }

  lemma FlagAfter(insn: Insn, a: Analysis, r: nat)
    requires r < 11
    ensures
      AnalyzeInsn(insn, a).copies[r] ==
        if insn.opc == 0xbf && insn.dst == r then insn.src < 11 && a.copies[insn.src]
        else Leaves(insn, r) && a.copies[r]
  {
  }

  /** Slots q .. pc - 1 leave register r alone. */
  ghost predicate LeftAlone(text: seq<byte>, q: u64, pc: u64, r: nat) {
    forall k: u64 :: q <= k < pc ==> SlotLeaves(text, k, r)
  }

  ghost predicate SlotLeaves(text: seq<byte>, k: u64, r: nat) {
    Decode(text, k).Some? ==> Leaves(Decode(text, k).value, r)
  }

  /** Slot q moves a flagged register to r, and no later slot before pc touches r. */
  ghost predicate MovedAt(text: seq<byte>, first: u64, q: u64, pc: u64, r: nat) {
    && first <= q < pc && Decode(text, q).Some?
    && var insn := Decode(text, q).value;
    && insn.opc == 0xbf && insn.dst == r && insn.src < 11 && CopiesAt(text, first, q)[insn.src]
    && LeftAlone(text, q + 1, pc, r)
  }

  ghost predicate Flagged(text: seq<byte>, first: u64, pc: u64, r: nat) {
    (r == 10 && LeftAlone(text, first, pc, r)) || exists q: u64 :: MovedAt(text, first, q, pc, r)
  }

  lemma CopiesStep(text: seq<byte>, first: u64, pc: u64, r: nat)
    requires r < 11 && first <= pc && pc + 1 < TWO64
    requires forall k: u64 :: first <= k <= pc ==> Decode(text, k).Some?
    ensures
      var insn := Decode(text, pc).value;
      CopiesAt(text, first, pc + 1)[r] ==
        if insn.opc == 0xbf && insn.dst == r then insn.src < 11 && CopiesAt(text, first, pc)[insn.src]
        else Leaves(insn, r) && CopiesAt(text, first, pc)[r]
  {
    var start := Analysis(0, FreshCopies());
    AnalyzeRangeSnoc(text, first, pc, start);
    FlagAfter(Decode(text, pc).value, AnalyzeRange(text, first, pc, start), r);
  }

  lemma LeftAloneStep(text: seq<byte>, q: u64, pc: u64, r: nat)
    requires q <= pc && pc + 1 < TWO64 && Decode(text, pc).Some?
    ensures LeftAlone(text, q, pc + 1, r) <==> LeftAlone(text, q, pc, r) && Leaves(Decode(text, pc).value, r)
  {
    if LeftAlone(text, q, pc + 1, r) {
      assert SlotLeaves(text, pc, r);
    }
  }

  lemma FlaggedStep(text: seq<byte>, first: u64, pc: u64, r: nat)
    requires r < 11 && first <= pc && pc + 1 < TWO64 && Decode(text, pc).Some?
    ensures
      var insn := Decode(text, pc).value;
      Flagged(text, first, pc + 1, r) <==>
        if insn.opc == 0xbf && insn.dst == r then insn.src < 11 && CopiesAt(text, first, pc)[insn.src]
        else Leaves(insn, r) && Flagged(text, first, pc, r)
  {
    var insn := Decode(text, pc).value;
    LeftAloneStep(text, first, pc, r);
    if Flagged(text, first, pc + 1, r) && !(r == 10 && LeftAlone(text, first, pc + 1, r)) {
      var q: u64 :| MovedAt(text, first, q, pc + 1, r);
      MovedStep(text, first, q, pc, r);
    }
    if insn.opc == 0xbf && insn.dst == r {
      MovedStep(text, first, pc, pc, r);
    } else if Leaves(insn, r) && (exists q: u64 :: MovedAt(text, first, q, pc, r)) {
      var q: u64 :| MovedAt(text, first, q, pc, r);
      MovedStep(text, first, q, pc, r);
    }
  }

  lemma MovedStep(text: seq<byte>, first: u64, q: u64, pc: u64, r: nat)
    requires first <= q <= pc && pc + 1 < TWO64 && Decode(text, pc).Some?
    ensures
      var insn := Decode(text, pc).value;
      MovedAt(text, first, q, pc + 1, r) <==>
        if q == pc then insn.opc == 0xbf && insn.dst == r && insn.src < 11 && CopiesAt(text, first, pc)[insn.src]
        else MovedAt(text, first, q, pc, r) && Leaves(insn, r)
  {
    if q < pc {
      LeftAloneStep(text, q + 1, pc, r);
    }
  }

  /** In a stretch of code that decodes, the analysis flags a register before slot pc if and only if it is
      r10, which nothing was moved to, or the last write to it was a move from a register flagged there. */
  lemma {:induction false} FlaggedIffMoved(text: seq<byte>, first: u64, pc: u64, r: nat)
    requires r < 11 && first <= pc
    requires forall k: u64 :: first <= k < pc ==> Decode(text, k).Some?
    ensures CopiesAt(text, first, pc)[r] <==> Flagged(text, first, pc, r)
    decreases pc - first
  {
    if pc > first {
      FlaggedIffMoved(text, first, pc - 1, r);
      CopiesStep(text, first, pc - 1, r);
      FlaggedStep(text, first, pc - 1, r);
    }
  }
}
