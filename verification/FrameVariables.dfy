/** The frame size with its DWARF variables, the frame base, and reading a variable through it
    (`infer_stack_size`, `visit_variables`, `frame_base`, `read_variable` in `src/source_debug.rs`). */
module FrameVariables {
  import opened Words
  import opened Wrappers
  import opened Ebpf
  import opened SbfMemory
  import opened DebugModel
  import opened ShadowReplay
  import opened FrameSize

  /** The variables of a scope and of the non-inlined scopes inside it. */
  function Visited(scope: Scope): seq<Variable>
    decreases scope, 0
  {
    scope.variables + VisitedIn(scope.children)
  }

  function VisitedIn(children: seq<Scope>): seq<Variable>
    decreases children, 1
  {
    if children == [] then []
    else (if children[0].inlined.None? then Visited(children[0]) else []) + VisitedIn(children[1..])
  }

  /** The offset of a variable located exactly by `DW_OP_fbreg`. */
  function FbregOffset(v: Variable): Option<int> {
    match v.location
    case Some(Expr(Fbreg(off))) => Some(off)
    case _ => None
  }

  /** Bytes a variable takes, as far as the frame size is concerned: at least one. */
  function Footprint(types: seq<TypeDesc>, v: Variable): nat {
    Max(VariableSize(types, v).GetOr(1), 1)
  }

  predicate InFrameArea(v: Variable) {
    FbregOffset(v).Some? && FbregOffset(v).value >= 0
  }

  /** The furthest end of the given variables, each computed in 64 bits. */
  function ExtentOf(types: seq<TypeDesc>, vars: seq<Variable>, extent: u64): u64 {
    if vars == [] then extent
    else
      var v := vars[0];
      var e: u64 := if InFrameArea(v) then Max(extent, Wrap(FbregOffset(v).value + Footprint(types, v))) else extent;
      ExtentOf(types, vars[1..], e)
  }

  /** `n.div_ceil(64) * 64`, in 64 bits. */
  function AlignUp(n: nat): u64 {
    Wrap((n + SBF_STACK_ALIGN - 1) / SBF_STACK_ALIGN * SBF_STACK_ALIGN)
  }

  function StackSizeOf(types: seq<TypeDesc>, f: Function, text: seq<byte>, textVaddr: u64): u64 {
    AlignUp(Max(DepthOfRanges(text, textVaddr, f.body.ranges, 0), ExtentOf(types, Visited(f.body), 0)))
  }

  method InferStackSize(types: seq<TypeDesc>, f: Function, text: seq<byte>, textVaddr: u64) returns (size: u64)
    ensures size == StackSizeOf(types, f, text, textVaddr)
  {
    var depth := InferDepth(text, textVaddr, f.body.ranges);
    var extent: u64 := 0;
    var vars := Visited(f.body);
    for i := 0 to |vars|
      invariant ExtentOf(types, vars, 0) == ExtentOf(types, vars[i..], extent)
    {
      assert vars[i..][0] == vars[i] && vars[i..][1..] == vars[i + 1..];
      if InFrameArea(vars[i]) {
        extent := Max(extent, Wrap(FbregOffset(vars[i]).value + Footprint(types, vars[i])));
      }
    }
    size := AlignUp(Max(depth, extent));
  }

  /** The value fbreg offsets are relative to. */
  function FrameBase(f: Function, regs: Registers, manual: bool): Option<u64> {
    if f.frameBase.None? || f.frameBase.value >= 12 then None
    else
      var value := regs[f.frameBase.value];
      if f.frameBase.value == FRAME_POINTER && !manual then Some(Wrap(value - f.stackSize)) else Some(value)
  }

  function ListedOp(entries: seq<Listed>, a: u64): Option<LocationOp> {
    if entries == [] then None
    else if entries[0].span.Contains(a) then Some(entries[0].op)
    else ListedOp(entries[1..], a)
  }

  function OpAt(location: Option<VarLocation>, a: u64): Option<LocationOp> {
    match location
    case None => None
    case Some(Expr(op)) => Some(op)
    case Some(List(entries)) => ListedOp(entries, a)
  }

  /** The address of a variable, when it lives in memory. */
  function AddressOf(f: Function, v: Variable, a: u64, regs: Registers, manual: bool): Option<u64> {
    match OpAt(v.location, a)
    case Some(Fbreg(off)) =>
      (match FrameBase(f, regs, manual)
       case None => None
       case Some(base) => Some(Wrap(base + off)))
    case _ => None
  }

  /** `isize::MAX`, the largest capacity of a `Vec` of bytes. */
  const MAX_CAPACITY: u64 := 0x7fff_ffff_ffff_ffff

  /** What reading a variable comes to: nothing, its bytes, or a panic of the source, which reserves
      room for the bytes before it reads any. */
  datatype Reading = NoReading | Bytes(bytes: seq<byte>) | CapacityOverflow

  function AsReading(bytes: Option<seq<byte>>): Reading {
    match bytes
    case None => NoReading
    case Some(value) => Bytes(value)
  }

  predicate HasFrameBase(f: Function) {
    f.frameBase.Some? && f.frameBase.value < 12
  }

  /** The variable has a location at `a`, and its expression evaluates. */
  predicate Located(f: Function, v: Variable, a: u64) {
    match OpAt(v.location, a)
    case None => false
    case Some(InRegister(_)) => true
    case Some(Fbreg(_)) => HasFrameBase(f)
  }

  /** The value of a variable at `a`. */
  function ReadVariable(types: seq<TypeDesc>, regions: seq<Region>, f: Function, v: Variable, a: u64,
                        regs: Registers, manual: bool): (r: Reading)
    ensures !r.NoReading? ==> VariableSize(types, v).Some?
    ensures r.Bytes? ==> |r.bytes| == VariableSize(types, v).value <= MAX_CAPACITY
  {
    var size := VariableSize(types, v);
    if size.None? || !Located(f, v, a) then NoReading
    else if size.value > MAX_CAPACITY then CapacityOverflow
    else
      match OpAt(v.location, a).value
      case Fbreg(_) => AsReading(ReadRegions(regions, AddressOf(f, v, a, regs, manual).value, size.value))
      case InRegister(r) =>
        if r >= 12 || size.value > 8 then NoReading else Bytes(ToLe(regs[r], 8)[..size.value])
  }

  /** Nothing is reserved for the variable at `a`, or the source can reserve it. */
  predicate Reservable(types: seq<TypeDesc>, f: Function, v: Variable, a: u64) {
    Located(f, v, a) && VariableSize(types, v).Some? ==> VariableSize(types, v).value < 0x8000_0000_0000_0000
  }

  // ---------------------------------------------------------------------------
  // Variables stay inside their frame
  // ---------------------------------------------------------------------------

  /** Fbreg offsets are signed 64-bit numbers. */
  predicate OffsetsAreI64(vars: seq<Variable>) {
    forall v :: v in vars && FbregOffset(v).Some? ==> FbregOffset(v).value < 0x8000_0000_0000_0000
  }

  /** Where the variable ends, above the bottom of the frame: a variable without a size, or of no bytes,
      counts as one byte. */
  function EndOf(types: seq<TypeDesc>, v: Variable): nat
    requires InFrameArea(v)
  {
    FbregOffset(v).value +
    match VariableSize(types, v)
    case Some(n) => (if n == 0 then 1 else n)
    case None => 1
  }

  /** Every requirement on the frame, rounded up to the alignment, is a 64-bit number. */
  ghost predicate FrameFits(types: seq<TypeDesc>, vars: seq<Variable>) {
    forall v :: v in vars && InFrameArea(v) ==> EndOf(types, v) <= TWO64 - 64
  }

  /** The variable, if its size is known, ends at or below the top of the frame. */
  predicate InsideFrame(types: seq<TypeDesc>, v: Variable, stackSize: u64) {
    InFrameArea(v) && VariableSize(types, v).Some? ==>
      FbregOffset(v).value + VariableSize(types, v).value <= stackSize
  }

  lemma {:induction false} ExtentIsFurthest(types: seq<TypeDesc>, vars: seq<Variable>, extent: u64)
    ensures
      var e := ExtentOf(types, vars, extent);
      && e >= extent
      && (forall v :: v in vars && InFrameArea(v) ==> Wrap(EndOf(types, v)) <= e)
      && (e == extent || exists v :: v in vars && InFrameArea(v) && Wrap(EndOf(types, v)) == e)
  {
    if vars != [] {
      var v := vars[0];
      var e: u64 := if InFrameArea(v) then Max(extent, Wrap(EndOf(types, v))) else extent;
      ExtentIsFurthest(types, vars[1..], e);
      assert vars == [v] + vars[1..];
    }
  }

  /** Offsets are 16-bit and immediates 32-bit, so no function reaches 2^32 below its frame pointer. */
  lemma DepthIsSmall(text: seq<byte>, textVaddr: u64, ranges: seq<Span>)
    ensures DepthOfRanges(text, textVaddr, ranges, 0) <= 0x1_0000_0000
  {
    FunctionDepthIsDeepest(text, textVaddr, ranges, 0);
    var depth := DepthOfRanges(text, textVaddr, ranges, 0);
    if depth != 0 {
      var i, pc: u64 :| 0 <= i < |ranges| &&
        SlotCounts(text, SlotOf(ranges[i].lo, textVaddr), SlotOf(ranges[i].hi, textVaddr), pc, depth);
      EncodingInvertsDecode(text, pc);
    }
  }

  lemma AlignUpIsLeast(n: nat)
    requires n <= TWO64 - SBF_STACK_ALIGN
    ensures AlignUp(n) % SBF_STACK_ALIGN == 0 && n <= AlignUp(n) < n + SBF_STACK_ALIGN
  {
  }

  lemma AlignUpIsAligned(n: nat)
    ensures AlignUp(n) <= TWO64 - SBF_STACK_ALIGN
  {
  }

  /** The frame size is the least multiple of 64 that covers the deepest access found and the end of
      every fbreg variable. */
  lemma StackSizeIsLeastCover(types: seq<TypeDesc>, f: Function, text: seq<byte>, textVaddr: u64)
    requires FrameFits(types, Visited(f.body))
    ensures
      var size := StackSizeOf(types, f, text, textVaddr);
      && size % 64 == 0
      && DepthOfRanges(text, textVaddr, f.body.ranges, 0) <= size
      && (forall v :: v in Visited(f.body) && InFrameArea(v) ==> EndOf(types, v) <= size)
      && (size == 0
          || size < DepthOfRanges(text, textVaddr, f.body.ranges, 0) + 64
          || exists v :: v in Visited(f.body) && InFrameArea(v) && size < EndOf(types, v) + 64)
  {
    var vars := Visited(f.body);
    var depth, extent := DepthOfRanges(text, textVaddr, f.body.ranges, 0), ExtentOf(types, vars, 0);
    ExtentWithoutWrap(types, vars);
    DepthIsSmall(text, textVaddr, f.body.ranges);
    AlignUpIsLeast(Max(depth, extent));
  }

  lemma ExtentWithoutWrap(types: seq<TypeDesc>, vars: seq<Variable>)
    requires FrameFits(types, vars)
    ensures
      var extent := ExtentOf(types, vars, 0);
      && extent <= TWO64 - SBF_STACK_ALIGN
      && (forall v :: v in vars && InFrameArea(v) ==> EndOf(types, v) <= extent)
      && (extent == 0 || exists v :: v in vars && InFrameArea(v) && EndOf(types, v) == extent)
  {
    ExtentIsFurthest(types, vars, 0);
    forall v | v in vars && InFrameArea(v)
      ensures Wrap(EndOf(types, v)) == EndOf(types, v)
    {
      assert EndOf(types, v) < TWO64;
    }
  }

  /** Every visited fbreg variable of known size stays inside the frame if and only if the frame the
      variables ask for is at most 2^64 - 64 bytes; beyond that the 64-bit sum wraps. */
  lemma VariablesInsideFrameIff(types: seq<TypeDesc>, f: Function, text: seq<byte>, textVaddr: u64)
    requires OffsetsAreI64(Visited(f.body))
    ensures (forall v :: v in Visited(f.body) ==> InsideFrame(types, v, StackSizeOf(types, f, text, textVaddr)))
       <==> FrameFits(types, Visited(f.body))
  {
    var vars, size := Visited(f.body), StackSizeOf(types, f, text, textVaddr);
    if FrameFits(types, vars) {
      StackSizeIsLeastCover(types, f, text, textVaddr);
    } else {
      var v :| v in vars && InFrameArea(v) && EndOf(types, v) > TWO64 - SBF_STACK_ALIGN;
      AlignUpIsAligned(Max(DepthOfRanges(text, textVaddr, f.body.ranges, 0), ExtentOf(types, vars, 0)));
      assert !InsideFrame(types, v, size);
    }
  }

  /** A structure of 2^64 - 1 bytes at offset 0 needs more than there is: rounding its end up to the
      alignment wraps to a frame of no bytes. */
  lemma HugeVariableIsOutside(name: string)
    ensures
      var v := Variable(name, Some(0), Some(Expr(Fbreg(0))));
      var types := [Struct(TWO64 - 1, [])];
      var f := Function(FunctionKey(name, None, 0), None, Scope([], [v], [], None), Some(FRAME_POINTER), 0);
      && v in Visited(f.body) && OffsetsAreI64(Visited(f.body))
      && StackSizeOf(types, f, [], 0) == 0 && !InsideFrame(types, v, 0)
  {
    var v := Variable(name, Some(0), Some(Expr(Fbreg(0))));
    var types := [Struct(TWO64 - 1, [])];
    var body := Scope([], [v], [], None);
    assert TypeSizeDepth(types, 0, 0) == Some(TWO64 - 1);
    assert Visited(body) == [v];
    assert [v][1..] == [];
    assert ExtentOf(types, [v], 0) == TWO64 - 1;
  }

  /** With fixed frames and the frame base in r10, a visited fbreg variable of n bytes is addressed
      d bytes below r10 with n <= d <= stack size, so it is read from [r10 - stack size, r10). */
  lemma FbregReadsBelowR10(types: seq<TypeDesc>, f: Function, text: seq<byte>, textVaddr: u64,
                           v: Variable, a: u64, regs: Registers, regions: seq<Region>)
    requires OffsetsAreI64(Visited(f.body)) && FrameFits(types, Visited(f.body))
    requires f.stackSize == StackSizeOf(types, f, text, textVaddr) && f.frameBase == Some(10)
    requires v in Visited(f.body) && InFrameArea(v) && VariableSize(types, v).Some?
    ensures
      var n := VariableSize(types, v).value;
      var d := f.stackSize - FbregOffset(v).value;
      && n <= d <= f.stackSize
      && AddressOf(f, v, a, regs, false) == Some(Wrap(regs[10] - d))
      && ReadVariable(types, regions, f, v, a, regs, false) ==
           (if n > MAX_CAPACITY then CapacityOverflow
            else AsReading(ReadRegions(regions, Wrap(regs[10] - d), n)))
      && (f.stackSize <= regs[10] ==>
            regs[10] - f.stackSize <= Wrap(regs[10] - d)
            && Wrap(regs[10] - d) + n <= regs[10])
  {
    VariablesInsideFrameIff(types, f, text, textVaddr);
    assert InsideFrame(types, v, f.stackSize);
    var fp, off := regs[FRAME_POINTER], FbregOffset(v).value;
    WrapTwice(fp - f.stackSize, off);
  }

  /** `path` leads from the scope to a scope inside it, entering no inlined call. */
  predicate ReachedOutsideCalls(scope: Scope, path: seq<nat>) {
    path != [] ==>
      && path[0] < |scope.children| && scope.children[path[0]].inlined.None?
      && ReachedOutsideCalls(scope.children[path[0]], path[1..])
  }

  /** A variable is declared in a scope that is reached that way. */
  ghost predicate DeclaredOutsideCalls(scope: Scope, v: Variable) {
    exists path :: ReachedOutsideCalls(scope, path) && ScopeAt(scope, path).Some? && v in ScopeAt(scope, path).value.variables
  }

  lemma {:induction false} InVisitedIn(children: seq<Scope>, v: Variable)
    requires v in VisitedIn(children)
    ensures exists k :: 0 <= k < |children| && children[k].inlined.None? && v in Visited(children[k])
  {
    if !(children[0].inlined.None? && v in Visited(children[0])) {
      InVisitedIn(children[1..], v);
      var k :| 0 <= k < |children[1..]| && children[1..][k].inlined.None? && v in Visited(children[1..][k]);
      assert children[k + 1] == children[1..][k];
    }
  }

  lemma {:induction false} VisitedIsDeclared(scope: Scope, v: Variable)
    requires v in Visited(scope)
    ensures DeclaredOutsideCalls(scope, v)
    decreases scope
  {
    if v in scope.variables {
      assert ReachedOutsideCalls(scope, []) && ScopeAt(scope, []) == Some(scope);
    } else {
      InVisitedIn(scope.children, v);
      var k :| 0 <= k < |scope.children| && scope.children[k].inlined.None? && v in Visited(scope.children[k]);
      VisitedIsDeclared(scope.children[k], v);
      var path :| ReachedOutsideCalls(scope.children[k], path) && ScopeAt(scope.children[k], path).Some?
        && v in ScopeAt(scope.children[k], path).value.variables;
      var longer := [k] + path;
      assert longer[0] == k && longer[1..] == path;
      assert ScopeAt(scope, longer) == ScopeAt(scope.children[k], path);
      assert ReachedOutsideCalls(scope, longer);
    }
  }

  lemma {:induction false} DeclaredIsVisited(scope: Scope, path: seq<nat>, v: Variable)
    requires ReachedOutsideCalls(scope, path) && ScopeAt(scope, path).Some?
    requires v in ScopeAt(scope, path).value.variables
    ensures v in Visited(scope)
    decreases |path|
  {
    if path != [] {
      DeclaredIsVisited(scope.children[path[0]], path[1..], v);
      ChildIsVisited(scope.children, path[0], v);
    }
  }

  /** The variables the frame size is made to cover are those declared in the body or in blocks inside it,
      but in no inlined call. */
  lemma VisitedIff(scope: Scope, v: Variable)
    ensures v in Visited(scope) <==> DeclaredOutsideCalls(scope, v)
  {
    if v in Visited(scope) {
      VisitedIsDeclared(scope, v);
    }
    if DeclaredOutsideCalls(scope, v) {
      var path :| ReachedOutsideCalls(scope, path) && ScopeAt(scope, path).Some?
        && v in ScopeAt(scope, path).value.variables;
      DeclaredIsVisited(scope, path, v);
    }
  }

  /** The expression of a variable at an address: its one expression, or that of the first listed range
      with the address. */
  lemma OpAtIff(location: Option<VarLocation>, a: u64, op: LocationOp)
    ensures OpAt(location, a) == Some(op) <==>
      && location.Some?
      && match location.value
         case Expr(only) => only == op
         case List(entries) => exists k :: FirstListed(entries, a, k) && entries[k].op == op
  {
    match location
    case Some(List(entries)) => ListedOpIff(entries, a, op);
    case _ =>
  }

  /** Entry k is the first whose range, end excluded, has the address. */
  predicate FirstListed(entries: seq<Listed>, a: u64, k: int) {
    && 0 <= k < |entries| && entries[k].span.lo <= a < entries[k].span.hi
    && forall j :: 0 <= j < k ==> !(entries[j].span.lo <= a < entries[j].span.hi)
  }

  lemma {:induction false} ListedOpIff(entries: seq<Listed>, a: u64, op: LocationOp)
    ensures ListedOp(entries, a) == Some(op) <==> exists k :: FirstListed(entries, a, k) && entries[k].op == op
  {
    if entries != [] {
      if entries[0].span.Contains(a) {
        assert FirstListed(entries, a, 0);
      } else {
        ListedOpIff(entries[1..], a, op);
        forall k ensures FirstListed(entries, a, k) <==> FirstListed(entries[1..], a, k - 1) {
          OneLess(entries, a, k);
        }
        if k :| FirstListed(entries[1..], a, k) && entries[1..][k].op == op {
          assert FirstListed(entries, a, k + 1);
        }
      }
    }
  }

  lemma OneLess(entries: seq<Listed>, a: u64, k: int)
    requires entries != [] && !(entries[0].span.lo <= a < entries[0].span.hi)
    ensures FirstListed(entries, a, k) <==> FirstListed(entries[1..], a, k - 1)
  {
    if FirstListed(entries[1..], a, k - 1) {
      assert forall j :: 1 <= j < |entries| ==> entries[j] == entries[1..][j - 1];
    }
  }

  lemma {:induction false} ChildIsVisited(children: seq<Scope>, k: nat, v: Variable)
    requires k < |children| && children[k].inlined.None? && v in Visited(children[k])
    ensures v in VisitedIn(children)
  {
    if k > 0 {
      ChildIsVisited(children[1..], k - 1, v);
    }
  }

  /** Every variable of the scopes around an address, down to the first inlined call, is among those
      the frame size was made to cover. */
  lemma {:induction false} ChainVariablesAreVisited(current: Scope, path: seq<nat>, a: u64, i: nat)
    requires i < |ChainFrom(current, path, a)|
    requires forall j :: 0 <= j <= i ==> ChainFrom(current, path, a)[j].scope.inlined.None?
    ensures forall v :: v in ChainFrom(current, path, a)[i].scope.variables ==> v in Visited(current)
    decreases i
  {
    var k := FirstChild(current.children, a, 0);
    var child := current.children[k];
    var chain, rest := ChainFrom(current, path, a), ChainFrom(child, path + [k], a);
    assert chain[0].scope == child && (forall j :: 1 <= j < |chain| ==> chain[j] == rest[j - 1]);
    if i > 0 {
      forall j | 0 <= j <= i - 1
        ensures rest[j].scope.inlined.None?
      {
        assert rest[j] == chain[j + 1];
      }
      ChainVariablesAreVisited(child, path + [k], a, i - 1);
    }
    forall v | v in chain[i].scope.variables
      ensures v in Visited(current)
    {
      assert v in Visited(child);
      ChildIsVisited(current.children, k, v);
    }
  }

  lemma WrapTwice(x: int, y: int)
    ensures Wrap(Wrap(x) + y) == Wrap(x + y)
  {
    var q := x / TWO64;
    assert x == TWO64 * q + Wrap(x);
    ModShift(Wrap(x) + y, q);
  }

  lemma ModShift(x: int, q: int)
    ensures Wrap(x + TWO64 * q) == Wrap(x)
  {
  }
}
