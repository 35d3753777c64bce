/** The debug model of a program (`src/source_debug.rs`): functions with their scope trees, types,
    variable locations, and the questions the recorder asks of them by address. */
module DebugModel {
  import opened Words
  import opened Wrappers

  type TypeRef = nat

  /** A half-open address range. */
  datatype Span = Span(lo: u64, hi: u64) {
    predicate Contains(a: u64) {
      lo <= a < hi
    }
  }

  datatype SourcePosition = SourcePosition(file: nat, line: nat, column: Option<nat>)

  datatype Encoding = Boolean | FloatingPoint | Utf | UnsignedChar | SignedChar | Signed | Unsigned

  datatype Member = Member(name: string, offset: u64, ty: Option<TypeRef>)

  datatype TypeDesc =
    | Base(encoding: Encoding, size: u64)
    | Pointer(target: Option<TypeRef>)
    | Struct(size: u64, members: seq<Member>)
    | Array(element: Option<TypeRef>, count: Option<u64>)
    | Alias(target: Option<TypeRef>)
    | Opaque(osize: Option<u64>)

  /** A location expression: exactly `DW_OP_fbreg offset`, or a register. */
  datatype LocationOp = Fbreg(offset: int) | InRegister(register: nat)

  datatype Listed = Listed(span: Span, op: LocationOp)

  datatype VarLocation = Expr(op: LocationOp) | List(entries: seq<Listed>)

  datatype Variable = Variable(name: string, typeRef: Option<TypeRef>, location: Option<VarLocation>)

  /** What a call is recorded under: the key functions are interned by. */
  datatype FunctionKey = FunctionKey(name: string, declFile: Option<nat>, declLine: nat)

  /** A function body, a lexical block, or (when `inlined` is set) an inlined call. */
  datatype Scope = Scope(
    ranges: seq<Span>, variables: seq<Variable>, children: seq<Scope>, inlined: Option<FunctionKey>)

  /** `frameBase` is the register of a one-register DW_AT_frame_base. */
  datatype Function = Function(
    key: FunctionKey, returnType: Option<TypeRef>, body: Scope, frameBase: Option<nat>, stackSize: u64)

  predicate InRanges(ranges: seq<Span>, a: u64) {
    exists i :: 0 <= i < |ranges| && ranges[i].Contains(a)
  }

  // ---------------------------------------------------------------------------
  // Scope chains
  // ---------------------------------------------------------------------------

  /** A scope below a function body, named by the child indices that lead to it.  Two references
      into one body name the same scope object exactly when their paths agree. */
  datatype ScopeRef = ScopeRef(path: seq<nat>, scope: Scope)

  /** The identity of a scope inside its function, where the source compares scope addresses. */
  datatype ScopeId = ScopeId(path: seq<nat>)

  /** The first child containing `a`; |children| if none. */
  function FirstChild(children: seq<Scope>, a: u64, from: nat): (k: nat)
    requires from <= |children|
    ensures from <= k <= |children|
    ensures k < |children| ==> InRanges(children[k].ranges, a)
    ensures forall j :: from <= j < k ==> !InRanges(children[j].ranges, a)
    decreases |children| - from
  {
    if from == |children| || InRanges(children[from].ranges, a) then from
    else FirstChild(children, a, from + 1)
  }

  /** The scopes enclosing `a` below `current`, outermost first. */
  function ChainFrom(current: Scope, path: seq<nat>, a: u64): seq<ScopeRef> {
    var k := FirstChild(current.children, a, 0);
    if k == |current.children| then []
    else
      var child := current.children[k];
      [ScopeRef(path + [k], child)] + ChainFrom(child, path + [k], a)
  }

  function ScopeChain(f: Function, a: u64): seq<ScopeRef> {
    ChainFrom(f.body, [], a)
  }

  method ComputeScopeChain(f: Function, a: u64) returns (chain: seq<ScopeRef>)
    ensures chain == ScopeChain(f, a)
  {
    chain := [];
    var current := f.body;
    var path: seq<nat> := [];
    var k := FirstChild(current.children, a, 0);
    while k < |current.children|
      invariant k == FirstChild(current.children, a, 0)
      invariant ScopeChain(f, a) == chain + ChainFrom(current, path, a)
      decreases current
    {
      current := current.children[k];
      path := path + [k];
      chain := chain + [ScopeRef(path, current)];
      k := FirstChild(current.children, a, 0);
    }
  }

  /** The scope the child indices `path` lead to, if they lead anywhere. */
  function ScopeAt(root: Scope, path: seq<nat>): Option<Scope> {
    if path == [] then Some(root)
    else if path[0] >= |root.children| then None
    else ScopeAt(root.children[path[0]], path[1..])
  }

  lemma {:induction false} ScopeAtStep(root: Scope, path: seq<nat>, k: nat)
    requires ScopeAt(root, path).Some? && k < |ScopeAt(root, path).value.children|
    ensures ScopeAt(root, path + [k]) == Some(ScopeAt(root, path).value.children[k])
  {
    if path == [] {
      assert (path + [k])[1..] == [];
    } else {
      assert (path + [k])[1..] == path[1..] + [k];
      ScopeAtStep(root.children[path[0]], path[1..], k);
    }
  }

  /** `r` is a scope of `root`, `level` levels below it, that contains the address. */
  ghost predicate Encloses(root: Scope, r: ScopeRef, level: nat, a: u64) {
    |r.path| == level && ScopeAt(root, r.path) == Some(r.scope) && InRanges(r.scope.ranges, a)
  }

  ghost predicate NoChildContains(scope: Scope, a: u64) {
    forall k :: 0 <= k < |scope.children| ==> !InRanges(scope.children[k].ranges, a)
  }

  /** Entry i of a chain is the scope i + 1 levels down that its path names, and contains the
      address; below the last one no child does. */
  lemma {:induction false} ChainIsADescent(root: Scope, current: Scope, path: seq<nat>, a: u64)
    requires ScopeAt(root, path) == Some(current)
    ensures
      var chain := ChainFrom(current, path, a);
      && (forall i :: 0 <= i < |chain| ==> Encloses(root, chain[i], |path| + i + 1, a))
      && NoChildContains(if chain == [] then current else chain[|chain| - 1].scope, a)
    decreases current
  {
    var k := FirstChild(current.children, a, 0);
    if k < |current.children| {
      var child := current.children[k];
      ScopeAtStep(root, path, k);
      ChainIsADescent(root, child, path + [k], a);
      var chain, rest := ChainFrom(current, path, a), ChainFrom(child, path + [k], a);
      assert chain == [ScopeRef(path + [k], child)] + rest;
      forall i | 0 <= i < |chain|
        ensures Encloses(root, chain[i], |path| + i + 1, a)
      {
        if i > 0 {
          assert chain[i] == rest[i - 1];
        }
      }
    }
  }

  // ---------------------------------------------------------------------------
  // Type sizes
  // ---------------------------------------------------------------------------

  const MAX_SIZE_DEPTH := 32

  function TypeSizeDepth(types: seq<TypeDesc>, t: TypeRef, depth: nat): Option<u64>
    decreases MAX_SIZE_DEPTH + 1 - depth
  {
    if depth > MAX_SIZE_DEPTH || t >= |types| then None
    else
      match types[t]
      case Base(_, size) => Some(size)
      case Pointer(_) => Some(8)
      case Struct(size, _) => Some(size)
      case Array(element, count) =>
        if element.None? then None
        else
          var e := TypeSizeDepth(types, element.value, depth + 1);
          if e.None? || count.None? then None else Some(Wrap(e.value * count.value))
      case Alias(target) =>
        if target.None? then None else TypeSizeDepth(types, target.value, depth + 1)
      case Opaque(size) => size
  }

  /** Size in bytes of a value of type `t`. */
  function TypeSize(types: seq<TypeDesc>, t: TypeRef): Option<u64> {
    TypeSizeDepth(types, t, 0)
  }

  function VariableSize(types: seq<TypeDesc>, v: Variable): Option<u64> {
    if v.typeRef.None? then None else TypeSize(types, v.typeRef.value)
  }
}
