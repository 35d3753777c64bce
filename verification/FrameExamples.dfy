/** Code for which the frame analysis of `infer_stack_size` (`src/source_debug.rs`) is wrong. */
module FrameExamples {
  import opened Words
  import opened Wrappers
  import opened Ebpf
  import opened DebugModel
  import opened FrameSize
  import opened FrameReach
  import opened FrameCopies

  /** An 8-byte load from r10 - 8 and an 8-byte store to r10 - 16, relocated. */
  const RELOCATED_TEXT: seq<byte> := [
    0x9c, 0xa1, 0xf8, 0xff, 0, 0, 0, 0,
    0x9f, 0x1a, 0xf0, 0xff, 0, 0, 0, 0]

  /** Both are accesses below r10, and the depth inferred for a function of just them is 0. */
  lemma RelocatedAccessesAreMissed()
    ensures TextAdmitted(true, RELOCATED_TEXT)
    ensures FunctionAccesses(true, RELOCATED_TEXT, 0, [Span(0, 16)], 8)
    ensures FunctionAccesses(true, RELOCATED_TEXT, 0, [Span(0, 16)], 16)
    ensures DepthOfRanges(RELOCATED_TEXT, 0, [Span(0, 16)], 0) == 0
  {
    var text, ranges := RELOCATED_TEXT, [Span(0, 16)];
    RelocatedSlots();
    assert SlotAccesses(true, text, SlotOf(ranges[0].lo, 0), SlotOf(ranges[0].hi, 0), 0, 8);
    assert SlotAccesses(true, text, SlotOf(ranges[0].lo, 0), SlotOf(ranges[0].hi, 0), 1, 16);
    forall pc: u64 ensures SlotAdmitted(true, text, pc) {
      assert pc == 0 || pc == 1 || pc > 1;
    }
    RelocatedAccessesWithinDepthIff(text, 0, ranges);
    forall d: nat ensures !FunctionPoints(text, 0, ranges, d) {
      forall i: nat, pc: u64 | i < |ranges|
        ensures !SlotPoints(text, SlotOf(ranges[i].lo, 0), SlotOf(ranges[i].hi, 0), pc, d)
      {
        assert pc == 0 || pc == 1 || pc > 1;
      }
    }
  }

  lemma RelocatedSlots()
    ensures Decode(RELOCATED_TEXT, 0) == Some(Insn(LD_8B_REG, 1, 10, -8, 0))
    ensures Decode(RELOCATED_TEXT, 1) == Some(Insn(ST_8B_REG, 10, 1, -16, 0))
    ensures forall pc: u64 :: pc > 1 ==> Decode(RELOCATED_TEXT, pc) == None
  {
    assert RELOCATED_TEXT[0..8] == [0x9c, 0xa1, 0xf8, 0xff, 0, 0, 0, 0];
    assert RELOCATED_TEXT[8..16] == [0x9f, 0x1a, 0xf0, 0xff, 0, 0, 0, 0];
    assert RELOCATED_TEXT[0..8][2..4] == [0xf8, 0xff] && RELOCATED_TEXT[0..8][4..8] == [0, 0, 0, 0];
    assert RELOCATED_TEXT[8..16][2..4] == [0xf0, 0xff] && RELOCATED_TEXT[8..16][4..8] == [0, 0, 0, 0];
    SmallTwos();
  }

  lemma SmallTwos()
    ensures FromTwos([0xf8, 0xff]) == -8 && FromTwos([0xf0, 0xff]) == -16 && FromTwos([0, 0, 0, 0]) == 0
  {
    assert FromLe([0xff]) == 0xff by { assert [0xff][1..] == []; }
    assert [0xf8, 0xff][1..] == [0xff] && [0xf0, 0xff][1..] == [0xff];
    assert FromLe([0xf8, 0xff]) == 0xfff8 && FromLe([0xf0, 0xff]) == 0xfff0;
    assert Pow256(2) == 256 * Pow256(1);
    assert [0, 0, 0, 0][1..] == [0, 0, 0] && [0, 0, 0][1..] == [0, 0] && [0, 0][1..] == [0] && [0][1..] == [];
    assert FromLe([0]) == 0 && FromLe([0, 0]) == 0 && FromLe([0, 0, 0]) == 0;
  }

  /** `mov64 r1, r10` and `lmul64 r1, 2`. */
  const PRODUCT_TEXT: seq<byte> := [
    0xbf, 0xa1, 0, 0, 0, 0, 0, 0,
    0x96, 0x01, 0, 0, 2, 0, 0, 0]

  /** After it r1 is still flagged, and need not equal r10. */
  lemma ProductKeepsItsFlag()
    ensures forall pc: u64 :: 0 <= pc < 2 ==> StraightSlot(true, PRODUCT_TEXT, pc)
    ensures StaleAt(PRODUCT_TEXT, 0, 1)
    ensures !FlagsAreSound(true, PRODUCT_TEXT, 0, 2)
  {
    var text := PRODUCT_TEXT;
    assert text[0..8] == [0xbf, 0xa1, 0, 0, 0, 0, 0, 0];
    assert text[8..16] == [0x96, 0x01, 0, 0, 2, 0, 0, 0];
    AnalyzeRangeSnoc(text, 0, 0, Analysis(0, FreshCopies()));
    assert CopiesAt(text, 0, 1)[1];
    assert StaleAt(text, 0, 1);
    FlagsAreSoundIff(true, text, 0, 2);
  }
}
