/** Cross-program invocation boundaries (`CpiDetector` in `src/cpi.rs`): a stack of program contexts
    driven by the program counter alone.  Over every run its top agrees with a lookup that keeps no
    state. */
module Cpi {
  import opened Words
  import opened Wrappers

  /** `Range<u64>`: start included, end excluded; empty when start >= end. */
  datatype Range = Range(start: u64, end: u64) {
    predicate Contains(pc: u64) {
      start <= pc < end
    }
  }

  datatype Context = Context(program: string, range: Range)

  datatype Event = SameProgram | CpiCall(target: u64) | CpiReturn(returned: u64)

  function Decimal(n: nat): string {
    if n < 10 then ["0123456789"[n]] else Decimal(n / 10) + ["0123456789"[n % 10]]
  }

  /** The first known program whose range has pc. */
  function Find(known: seq<Context>, pc: u64): (r: Option<Context>)
    ensures r.Some? ==> r.value in known && r.value.range.Contains(pc)
    ensures r.None? ==> forall k :: 0 <= k < |known| ==> !known[k].range.Contains(pc)
  {
    if known == [] then None
    else if known[0].range.Contains(pc) then Some(known[0])
    else Find(known[1..], pc)
  }

  /** The context a foreign pc gets; its end wraps to 0 at the last address. */
  function Unknown(pc: u64): Context {
    Context("unknown_at_" + Decimal(pc), Range(pc, Wrap(pc + 1)))
  }

  /** The stateless lookup: which program pc belongs to. */
  function Resolve(known: seq<Context>, pc: u64): Context {
    Find(known, pc).GetOr(Unknown(pc))
  }

  /** The innermost of the contexts whose range has pc. */
  function Innermost(stack: seq<Context>, pc: u64): (r: Option<nat>)
    ensures r.Some? ==> r.value < |stack| && stack[r.value].range.Contains(pc)
    ensures r.Some? ==> forall k :: r.value < k < |stack| ==> !stack[k].range.Contains(pc)
    ensures r.None? ==> forall k :: 0 <= k < |stack| ==> !stack[k].range.Contains(pc)
  {
    if stack == [] then None
    else if stack[|stack| - 1].range.Contains(pc) then Some(|stack| - 1)
    else Innermost(stack[..|stack| - 1], pc)
  }

  /** Program k is the first whose range has pc. */
  predicate IsFirstWith(known: seq<Context>, pc: u64, k: nat) {
    && k < |known| && known[k].range.start <= pc < known[k].range.end
    && forall j :: 0 <= j < k ==> !(known[j].range.start <= pc < known[j].range.end)
  }

  /** Where ranges meet, the one registered first is found. */
  lemma {:induction false} FirstIsFound(known: seq<Context>, pc: u64, k: nat)
    requires IsFirstWith(known, pc, k)
    ensures Resolve(known, pc) == known[k]
  {
    if k > 0 {
      FirstIsFound(known[1..], pc, k - 1);
    }
  }

  /** The number decimal digits stand for. */
  function Number(text: string): nat {
    if text == "" then 0
    else
      var last := |text| - 1;
      10 * Number(text[..last]) + if '0' <= text[last] <= '9' then text[last] as int - '0' as int else 0
  }

  lemma {:induction false} DecimalIsTheNumber(n: nat)
    ensures Number(Decimal(n)) == n && (forall c :: c in Decimal(n) ==> '0' <= c <= '9')
    ensures Decimal(n) != "" && (Decimal(n)[0] == '0' ==> n == 0)
  {
    var last := "0123456789"[n % 10];
    assert last as int == '0' as int + n % 10;
    if n < 10 {
      assert Decimal(n)[..0] == "";
    } else {
      DecimalIsTheNumber(n / 10);
      assert Decimal(n)[..|Decimal(n)| - 1] == Decimal(n / 10);
    }
  }

  /** A foreign address is named by its decimal numeral, and its range is that address alone. */
  lemma ForeignContext(known: seq<Context>, pc: u64)
    requires forall k :: 0 <= k < |known| ==> !(known[k].range.start <= pc < known[k].range.end)
    ensures
      var c := Resolve(known, pc);
      && c.range.start == pc && (pc < 0xFFFF_FFFF_FFFF_FFFF ==> c.range.end == pc + 1)
      && |c.program| > 11 && c.program[..11] == "unknown_at_" && c.program[11] in "0123456789"
      && Number(c.program[11..]) == pc && (c.program[11] == '0' ==> pc == 0)
  {
    DecimalIsTheNumber(pc);
    var name := "unknown_at_" + Decimal(pc);
    assert name[..11] == "unknown_at_" && name[11..] == Decimal(pc) && name[11] == Decimal(pc)[0];
    assert Decimal(pc)[0] in Decimal(pc);
    DigitsAre(Decimal(pc)[0]);
  }

  lemma DigitsAre(c: char)
    requires '0' <= c <= '9'
    ensures c in "0123456789"
  {
    assert "0123456789"[c as int - '0' as int] == c;
  }

  datatype Turn = Turn(event: Event, stack: seq<Context>)

  /** `process_snapshot` on values. */
  function Step(known: seq<Context>, stack: seq<Context>, pc: u64): (t: Turn)
    requires stack != []
    ensures t.stack != []
  {
    match Innermost(stack, pc)
    case Some(i) =>
      if i == |stack| - 1 then Turn(SameProgram, stack) else Turn(CpiReturn(pc), stack[..i + 1])
    case None => Turn(CpiCall(pc), stack + [Resolve(known, pc)])
  }

  function Top(stack: seq<Context>): Context
    requires stack != []
  {
    stack[|stack| - 1]
  }

  /** The stack after a run of program counters, from a new detector. */
  function StackAfter(known: seq<Context>, pcs: seq<u64>): (stack: seq<Context>)
    requires known != []
    ensures stack != []
  {
    if pcs == [] then [known[0]]
    else Step(known, StackAfter(known, pcs[..|pcs| - 1]), pcs[|pcs| - 1]).stack
  }

  // ---------------------------------------------------------------------------
  // One snapshot
  // ---------------------------------------------------------------------------

  const LAST: u64 := 0xFFFF_FFFF_FFFF_FFFF

  ghost predicate Covered(contexts: seq<Context>, pc: u64) {
    exists k :: 0 <= k < |contexts| && contexts[k].range.Contains(pc)
  }

  /** A snapshot leaves its pc inside the top context, except at the last address of all when
      nothing covers it: the range made for it is then empty. */
  lemma TopHasPcIff(known: seq<Context>, stack: seq<Context>, pc: u64)
    requires stack != []
    ensures Top(Step(known, stack, pc).stack).range.Contains(pc) <==>
      pc < LAST || Covered(stack, pc) || Covered(known, pc)
  {
  }

  /** Staying at the last address is reported as one more call each time. */
  lemma LastAddressIsCalledAgain(known: seq<Context>, stack: seq<Context>)
    requires stack != [] && !Covered(stack, LAST) && !Covered(known, LAST)
    ensures
      var once := Step(known, stack, LAST);
      var twice := Step(known, once.stack, LAST);
      once.event == CpiCall(LAST) && twice.event == CpiCall(LAST) && |twice.stack| == |stack| + 2
  {
  }

  // ---------------------------------------------------------------------------
  // Whole runs
  // ---------------------------------------------------------------------------

  ghost predicate Meet(a: Range, b: Range) {
    exists pc: u64 :: a.Contains(pc) && b.Contains(pc)
  }

  ghost predicate Disjoint(contexts: seq<Context>) {
    forall i, j :: 0 <= i < j < |contexts| ==> !Meet(contexts[i].range, contexts[j].range)
  }

  /** Every address of the context resolves to it. */
  ghost predicate Owns(known: seq<Context>, c: Context) {
    forall pc: u64 :: c.range.Contains(pc) ==> Resolve(known, pc) == c
  }

  /** What every run keeps: the primary program at the bottom, contexts that own their ranges and do
      not meet. */
  ghost predicate Sound(known: seq<Context>, stack: seq<Context>) {
    && known != [] && stack != [] && stack[0] == known[0]
    && (forall k :: 0 <= k < |stack| ==> Owns(known, stack[k]))
    && Disjoint(stack)
  }

  lemma {:induction false} KnownOwn(known: seq<Context>, k: nat)
    requires Disjoint(known) && k < |known|
    ensures Owns(known, known[k])
  {
    forall pc: u64 | known[k].range.Contains(pc) ensures Resolve(known, pc) == known[k] {
      FindUnique(known, k, pc);
    }
  }

  lemma {:induction false} FindUnique(known: seq<Context>, k: nat, pc: u64)
    requires Disjoint(known) && k < |known| && known[k].range.Contains(pc)
    ensures Find(known, pc) == Some(known[k])
  {
    if k > 0 {
      assert !Meet(known[0].range, known[k].range);
      FindUnique(known[1..], k - 1, pc);
    }
  }

  lemma ResolvedOwns(known: seq<Context>, pc: u64)
    requires Disjoint(known) && (pc < LAST || Covered(known, pc))
    ensures Owns(known, Resolve(known, pc)) && Resolve(known, pc).range.Contains(pc)
  {
    match Find(known, pc)
    case Some(c) =>
      var k :| 0 <= k < |known| && known[k] == c;
      KnownOwn(known, k);
    case None =>
      assert Unknown(pc).range == Range(pc, pc + 1);
  }

  /** One snapshot keeps the stack sound. */
  lemma StepKeepsSound(known: seq<Context>, stack: seq<Context>, pc: u64)
    requires Sound(known, stack) && Disjoint(known) && (pc < LAST || Covered(known, pc))
    ensures Sound(known, Step(known, stack, pc).stack)
  {
    if Innermost(stack, pc).None? {
      var c := Resolve(known, pc);
      ResolvedOwns(known, pc);
      forall k, shared: u64 | 0 <= k < |stack| && stack[k].range.Contains(shared)
        ensures !c.range.Contains(shared)
      {
        assert Owns(known, stack[k]) && stack[k] != c;
      }
    }
  }

  /** Program counters the detector can place: all but an uncovered last address. */
  ghost predicate Placeable(known: seq<Context>, pcs: seq<u64>) {
    forall k :: 0 <= k < |pcs| ==> pcs[k] < LAST || Covered(known, pcs[k])
  }

  lemma {:induction false} RunsAreSound(known: seq<Context>, pcs: seq<u64>)
    requires known != [] && Disjoint(known) && Placeable(known, pcs)
    ensures Sound(known, StackAfter(known, pcs))
  {
    if pcs == [] {
      KnownOwn(known, 0);
    } else {
      RunsAreSound(known, pcs[..|pcs| - 1]);
      StepKeepsSound(known, StackAfter(known, pcs[..|pcs| - 1]), pcs[|pcs| - 1]);
    }
  }

  /** After every snapshot of every run the detector's current program is the one a stateless lookup
      of the pc gives. */
  lemma TopIsResolved(known: seq<Context>, pcs: seq<u64>)
    requires known != [] && Disjoint(known) && Placeable(known, pcs) && pcs != []
    ensures Top(StackAfter(known, pcs)) == Resolve(known, pcs[|pcs| - 1])
  {
    var front, pc := pcs[..|pcs| - 1], pcs[|pcs| - 1];
    RunsAreSound(known, pcs);
    TopHasPcIff(known, StackAfter(known, front), pc);
    var stack := StackAfter(known, pcs);
    assert Owns(known, stack[|stack| - 1]);
  }

  /** What each event means, without the stack's history: the program of the pc is the current one,
      is one that was left behind on the stack, or is on the stack nowhere. A return lands on that
      program's own context, the only one whose range has the pc. */
  lemma EventMeaning(known: seq<Context>, stack: seq<Context>, pc: u64)
    requires Sound(known, stack) && Disjoint(known) && (pc < LAST || Covered(known, pc))
    ensures
      var c := Resolve(known, pc);
      var turn := Step(known, stack, pc);
      && (turn.event == SameProgram <==> Top(stack) == c)
      && (turn.event == CpiReturn(pc) <==> c in stack && Top(stack) != c)
      && (turn.event == CpiCall(pc) <==> c !in stack)
      && (forall i :: 0 <= i < |stack| && stack[i] == c ==> turn.stack == stack[..i + 1])
      && (forall i :: 0 <= i < |stack| && stack[i].range.Contains(pc) ==> stack[i] == c)
  {
    var c := Resolve(known, pc);
    ResolvedOwns(known, pc);
    assert forall i :: 0 <= i < |stack| && stack[i].range.Contains(pc) ==> stack[i] == c by {
      forall i | 0 <= i < |stack| && stack[i].range.Contains(pc) ensures stack[i] == c {
        assert Owns(known, stack[i]);
      }
    }
    forall i, j | 0 <= i < j < |stack| && stack[i].range.Contains(pc) ensures !stack[j].range.Contains(pc) {
      assert !Meet(stack[i].range, stack[j].range);
    }
  }

  lemma {:induction false} FindAppend(known: seq<Context>, c: Context, pc: u64)
    ensures Find(known + [c], pc) ==
      if Find(known, pc).Some? then Find(known, pc) else if c.range.Contains(pc) then Some(c) else None
  {
    if known != [] {
      assert (known + [c])[1..] == known[1..] + [c];
      FindAppend(known[1..], c, pc);
    }
  }

  /** Ranges have to be registered up front: one added during a run keeps the stack in agreement with
      the lookup exactly when no context made for a foreign address already stands in it. */
  lemma LateRangeIff(known: seq<Context>, stack: seq<Context>, c: Context)
    requires Sound(known, stack) && Disjoint(known + [c])
    ensures Sound(known + [c], stack) <==>
      forall k :: 0 <= k < |stack| && stack[k] != c ==> !Meet(stack[k].range, c.range)
  {
    var all := known + [c];
    forall k, pc: u64 | 0 <= k < |stack| && stack[k].range.Contains(pc)
      ensures Resolve(all, pc) == if c.range.Contains(pc) then c else stack[k]
    {
      FindAppend(known, c, pc);
      assert Owns(known, stack[k]);
      if c.range.Contains(pc) {
        FindUnique(all, |known|, pc);
      }
    }
  }

  // ---------------------------------------------------------------------------
  // Depth
  // ---------------------------------------------------------------------------

  /** The program counters seen that no known range has. */
  function Strays(known: seq<Context>, pcs: seq<u64>): set<u64> {
    set pc | pc in pcs && Find(known, pc).None?
  }

  lemma {:induction false} ContextsOfRun(known: seq<Context>, pcs: seq<u64>, k: nat)
    requires known != [] && k < |StackAfter(known, pcs)|
    ensures
      var c := StackAfter(known, pcs)[k];
      c in known || exists pc :: pc in Strays(known, pcs) && c == Unknown(pc)
  {
    if pcs != [] {
      var front, pc := pcs[..|pcs| - 1], pcs[|pcs| - 1];
      var before := StackAfter(known, front);
      assert Strays(known, front) <= Strays(known, pcs);
      if k < |before| {
        ContextsOfRun(known, front, k);
        assert StackAfter(known, pcs)[k] == before[k];
      } else {
        assert StackAfter(known, pcs)[k] == Resolve(known, pc);
        assert Find(known, pc).None? ==> pc in Strays(known, pcs);
      }
    }
  }

  predicate Distinct<T(==)>(s: seq<T>) {
    forall i, j :: 0 <= i < j < |s| ==> s[i] != s[j]
  }

  function SetOf<T>(s: seq<T>): set<T> {
    set x | x in s
  }

  lemma {:induction false} SetOfSize<T>(s: seq<T>)
    ensures |SetOf(s)| <= |s|
    ensures Distinct(s) ==> |SetOf(s)| == |s|
  {
    if s != [] {
      SetOfSize(s[1..]);
      assert SetOf(s) == SetOf(s[1..]) + {s[0]};
    }
  }

  function Unknowns(pcs: set<u64>): set<Context> {
    set pc | pc in pcs :: Unknown(pc)
  }

  lemma {:induction false} UnknownsSize(pcs: set<u64>)
    ensures |Unknowns(pcs)| <= |pcs|
  {
    if pcs != {} {
      var pc :| pc in pcs;
      UnknownsSize(pcs - {pc});
      assert Unknowns(pcs) == Unknowns(pcs - {pc}) + {Unknown(pc)};
    }
  }

  lemma {:induction false} SubsetSize<T>(a: set<T>, b: set<T>)
    requires a <= b
    ensures |a| <= |b|
  {
    assert |b| == |a + (b - a)|;
  }

  /** No program is on the stack twice, so the depth never exceeds the known programs besides the
      primary plus the distinct foreign addresses seen. */
  lemma DepthIsBounded(known: seq<Context>, pcs: seq<u64>)
    requires known != [] && Disjoint(known) && Placeable(known, pcs)
    ensures
      var stack := StackAfter(known, pcs);
      && Distinct(stack)
      && |stack| - 1 <= |known| - 1 + |Strays(known, pcs)|
  {
    var stack := StackAfter(known, pcs);
    RunsAreDistinct(known, pcs);
    var all := SetOf(known) + Unknowns(Strays(known, pcs));
    forall c | c in SetOf(stack) ensures c in all {
      var k :| 0 <= k < |stack| && stack[k] == c;
      ContextsOfRun(known, pcs, k);
    }
    SetOfSize(stack);
    SetOfSize(known);
    UnknownsSize(Strays(known, pcs));
    SubsetSize(SetOf(stack), all);
  }

  /** A context is pushed only when no other on the stack is the same. */
  lemma {:induction false} RunsAreDistinct(known: seq<Context>, pcs: seq<u64>)
    requires known != [] && Disjoint(known) && Placeable(known, pcs)
    ensures Distinct(StackAfter(known, pcs))
  {
    if pcs != [] {
      RunsAreDistinct(known, pcs[..|pcs| - 1]);
      StepKeepsDistinct(known, StackAfter(known, pcs[..|pcs| - 1]), pcs[|pcs| - 1]);
    }
  }

  lemma StepKeepsDistinct(known: seq<Context>, stack: seq<Context>, pc: u64)
    requires stack != [] && Distinct(stack) && Disjoint(known) && (pc < LAST || Covered(known, pc))
    ensures Distinct(Step(known, stack, pc).stack)
  {
    ResolvedOwns(known, pc);
    forall k | 0 <= k < |stack| && stack[k] == Resolve(known, pc) ensures stack[k].range.Contains(pc) {
    }
  }

  // ---------------------------------------------------------------------------
  // The detector
  // ---------------------------------------------------------------------------

  class CpiDetector {
    var contextStack: seq<Context>
    var knownRanges: seq<Context>

    ghost predicate Valid()
      reads this
    {
      contextStack != []
    }

    constructor (primaryRange: Range)
      ensures Valid() && knownRanges == [Context("primary", primaryRange)]
      ensures contextStack == StackAfter(knownRanges, [])
    {
      contextStack := [Context("primary", primaryRange)];
      knownRanges := [Context("primary", primaryRange)];
    }

    method AddProgramRange(name: string, range: Range)
      modifies this`knownRanges
      ensures knownRanges == old(knownRanges) + [Context(name, range)]
    {
      knownRanges := knownRanges + [Context(name, range)];
    }

    method ProcessSnapshot(pc: u64) returns (event: Event)
      requires Valid()
      modifies this`contextStack
      ensures Valid()
      ensures Turn(event, contextStack) == Step(knownRanges, old(contextStack), pc)
    {
      var n := |contextStack|;
      if contextStack[n - 1].range.Contains(pc) {
        return SameProgram;
      }
      if n > 1 {
        var i := n - 1;
        while i > 0
          invariant 0 <= i <= n - 1 && contextStack == old(contextStack)
          invariant forall k :: i <= k < n ==> !contextStack[k].range.Contains(pc)
        {
          i := i - 1;
          if contextStack[i].range.Contains(pc) {
            contextStack := contextStack[..i + 1];
            return CpiReturn(pc);
          }
        }
      }
      var found := Find(knownRanges, pc);
      contextStack := contextStack + [found.GetOr(Unknown(pc))];
      return CpiCall(pc);
    }

    function CallDepth(): nat
      requires Valid()
      reads this
    {
      |contextStack| - 1
    }

    predicate IsInCpi()
      requires Valid()
      reads this
    {
      |contextStack| > 1
    }

    function CurrentProgram(): string
      requires Valid()
      reads this
    {
      Top(contextStack).program
    }

    /** After a run from a new detector its answers are those of the stateless lookup: the program of
        the last pc, and whether that is another than the primary one. */
    lemma AnswersAreResolved(pcs: seq<u64>)
      requires Valid() && knownRanges != [] && contextStack == StackAfter(knownRanges, pcs)
      requires Disjoint(knownRanges) && Placeable(knownRanges, pcs) && pcs != []
      ensures
        var c := Resolve(knownRanges, pcs[|pcs| - 1]);
        && CurrentProgram() == c.program
        && (IsInCpi() <==> c != knownRanges[0])
        && (CallDepth() > 0 <==> IsInCpi())
        && CallDepth() <= |knownRanges| - 1 + |Strays(knownRanges, pcs)|
    {
      TopIsResolved(knownRanges, pcs);
      RunsAreSound(knownRanges, pcs);
      DepthIsBounded(knownRanges, pcs);
    }
  }
}
