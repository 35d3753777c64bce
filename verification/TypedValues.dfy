/** Values behind typedefs, members and elements (`decode_value` with `type_size_depth`, in
    `src/source_recorder.rs` and `src/source_debug.rs`): when an integer is recorded as the number
    its bytes hold, and when the decoder panics on a float. */
module TypedValues {
  import opened Words
  import opened Wrappers
  import opened SbfMemory
  import opened DebugModel
  import opened ValueDecoding

  /** The type at the end of a chain of aliases. */
  function Resolve(types: seq<TypeDesc>, t: TypeRef): TypeRef
    requires AliasesEnd(types)
    decreases AliasRank(types, t)
  {
    if t < |types| && types[t].Alias? && types[t].target.Some? then
      AliasStepDecreases(types, t);
      Resolve(types, types[t].target.value)
    else t
  }

  /** Each alias costs one level of the size computation. */
  lemma {:induction false} AliasSizeDepth(types: seq<TypeDesc>, t: TypeRef, depth: nat)
    requires AliasesEnd(types)
    ensures TypeSizeDepth(types, t, depth) == TypeSizeDepth(types, Resolve(types, t), depth + AliasRank(types, t))
    decreases AliasRank(types, t)
  {
    if t < |types| && types[t].Alias? && types[t].target.Some? {
      AliasStepDecreases(types, t);
      AliasSizeDepth(types, types[t].target.value, depth + 1);
    }
  }

  lemma {:induction false} ResolvedIsNoAlias(types: seq<TypeDesc>, t: TypeRef)
    requires AliasesEnd(types)
    ensures Resolve(types, t) < |types| && types[Resolve(types, t)].Alias? ==> types[Resolve(types, t)].target.None?
    decreases AliasRank(types, t)
  {
    if t < |types| && types[t].Alias? && types[t].target.Some? {
      AliasStepDecreases(types, t);
      ResolvedIsNoAlias(types, types[t].target.value);
    }
  }

  /** A value is decoded as one of the type its aliases lead to. */
  lemma {:induction false} ThroughAliases(
      types: seq<TypeDesc>, regions: seq<Region>, t: TypeRef, bytes: seq<byte>, depth: nat)
    requires AliasesEnd(types)
    ensures DecodeValue(types, regions, t, bytes, depth) == DecodeValue(types, regions, Resolve(types, t), bytes, depth)
    decreases AliasRank(types, t)
  {
    if t < |types| && types[t].Alias? && types[t].target.Some? {
      AliasStepDecreases(types, t);
      ThroughAliases(types, regions, types[t].target.value, bytes, depth);
      assert DecodeValue(types, regions, t, bytes, depth) == DecodeKind(types, regions, t, bytes, depth);
    }
  }

  /** The base type a type leads to. */
  predicate IsBase(types: seq<TypeDesc>, t: TypeRef, encoding: Encoding, size: u64)
    requires AliasesEnd(types)
  {
    Resolve(types, t) < |types| && types[Resolve(types, t)] == Base(encoding, size)
  }

  /** A base type's size is known behind at most 32 aliases. */
  lemma BaseSizeKnownIff(types: seq<TypeDesc>, t: TypeRef, encoding: Encoding, size: u64)
    requires AliasesEnd(types) && IsBase(types, t, encoding, size)
    ensures TypeSize(types, t) == if AliasRank(types, t) <= 32 then Some(size) else None
  {
    AliasSizeDepth(types, t, 0);
  }

  lemma BaseIsDecoded(types: seq<TypeDesc>, regions: seq<Region>, t: TypeRef, encoding: Encoding, size: u64,
                      bytes: seq<byte>, depth: nat)
    requires AliasesEnd(types) && IsBase(types, t, encoding, size) && size >= 1
    ensures
      var v := DecodeValue(types, regions, t, bytes, depth);
      if encoding == FloatingPoint && size in {4, 8} && |bytes| < size then v == Panicked(Resolve(types, t))
      else v == DecodeBase(encoding, size, bytes, Resolve(types, t))
  {
    ThroughAliases(types, regions, t, bytes, depth);
    var r := Resolve(types, t);
    assert DecodeValue(types, regions, r, bytes, depth) == DecodeKind(types, regions, r, bytes, depth);
  }

  // ---------------------------------------------------------------------------
  // Integers
  // ---------------------------------------------------------------------------

  /** The type leads to an integer of `size` bytes. */
  predicate IsIntegerType(types: seq<TypeDesc>, t: TypeRef, encoding: Encoding, size: u64)
    requires AliasesEnd(types)
  {
    IsInteger(encoding) && size >= 1 && IsBase(types, t, encoding, size)
  }

  /** A whole value, as variables, pointees and results are: its bytes are as many as the size of its
      type, so it is recorded right if and only if `decode_base` records such bytes right. */
  lemma WholeValueIff(types: seq<TypeDesc>, regions: seq<Region>, t: TypeRef, encoding: Encoding, size: u64,
                      bytes: seq<byte>, depth: nat)
    requires AliasesEnd(types) && IsIntegerType(types, t, encoding, size) && TypeSize(types, t) == Some(|bytes|)
    ensures AliasRank(types, t) <= MAX_SIZE_DEPTH && |bytes| == size
    ensures Denotes(DecodeValue(types, regions, t, bytes, depth)) == Some(BaseValue(encoding, bytes))
       <==> RecordedRight(encoding, bytes)
  {
    BaseSizeKnownIff(types, t, encoding, size);
    BaseIsDecoded(types, regions, t, encoding, size, bytes, depth);
    BaseDenotesIff(encoding, bytes, Resolve(types, t));
  }

  /** Part of a value: a member or an element at `start`, cut to the size its type is known to have. */
  function PartValue(types: seq<TypeDesc>, regions: seq<Region>, t: TypeRef, bytes: seq<byte>, start: nat, depth: nat):
    ValueRecord
    requires AliasesEnd(types)
  {
    SizedPart(types, regions, t, bytes, start, TypeSize(types, t).GetOr(0), depth)
  }

  function SizedPart(types: seq<TypeDesc>, regions: seq<Region>, t: TypeRef, bytes: seq<byte>, start: nat, size: nat,
                     depth: nat): ValueRecord
    requires AliasesEnd(types)
  {
    match Part(bytes, start, size)
    case None => NoValue
    case Some(part) => DecodeValue(types, regions, t, part, depth)
  }

  lemma EmptyIsZero(encoding: Encoding, n: nat)
    ensures BaseValue(encoding, Padded([], n)) == 0
  {
    ZerosAddNothing(n);
    assert Padded([], n) == seq(n, _ => 0 as byte);
  }

  /** A part is recorded right if and only if it is zero, or its type is behind at most 32 aliases and
      `decode_base` records such bytes right: behind more it is given no bytes and recorded as 0. */
  lemma PartIff(types: seq<TypeDesc>, regions: seq<Region>, t: TypeRef, encoding: Encoding, size: u64,
                bytes: seq<byte>, start: nat, depth: nat)
    requires AliasesEnd(types) && IsIntegerType(types, t, encoding, size) && start + size <= |bytes|
    ensures
      var part := bytes[start..start + size];
      Denotes(PartValue(types, regions, t, bytes, start, depth)) == Some(BaseValue(encoding, part))
      <==> BaseValue(encoding, part) == 0 || (AliasRank(types, t) <= MAX_SIZE_DEPTH && RecordedRight(encoding, part))
  {
    BaseSizeKnownIff(types, t, encoding, size);
    if AliasRank(types, t) <= MAX_SIZE_DEPTH {
      WholeValueIff(types, regions, t, encoding, size, bytes[start..start + size], depth);
    } else {
      BaseIsDecoded(types, regions, t, encoding, size, [], depth);
      AnyBaseDenotes(encoding, size, [], Resolve(types, t));
      EmptyIsZero(encoding, Taken(encoding, size));
      assert bytes[start..start + 0] == [];
    }
  }

  lemma {:induction false} MemberAt(types: seq<TypeDesc>, regions: seq<Region>, members: seq<Member>, bytes: seq<byte>,
                                    depth: nat, k: nat)
    requires AliasesEnd(types) && depth < MAX_VALUE_DEPTH && k < |members| && members[k].ty.Some?
    ensures DecodeMembers(types, regions, members, bytes, depth)[k]
         == PartValue(types, regions, members[k].ty.value, bytes, members[k].offset, depth + 1)
    decreases |members|
  {
    if k > 0 {
      MemberAt(types, regions, members[1..], bytes, depth, k - 1);
    }
  }

  lemma {:induction false} ElementAt(types: seq<TypeDesc>, regions: seq<Region>, element: TypeRef, size: nat, i: nat,
                                     count: nat, bytes: seq<byte>, depth: nat, k: nat)
    requires AliasesEnd(types) && depth < MAX_VALUE_DEPTH && i <= k < count
    ensures DecodeElements(types, regions, element, size, i, count, bytes, depth)[k - i]
         == SizedPart(types, regions, element, bytes, k * size, size, depth + 1)
    decreases k - i
  {
    var elements := DecodeElements(types, regions, element, size, i, count, bytes, depth);
    var rest := DecodeElements(types, regions, element, size, i + 1, count, bytes, depth);
    assert elements == [SizedPart(types, regions, element, bytes, i * size, size, depth + 1)] + rest;
    if i < k {
      ElementAt(types, regions, element, size, i + 1, count, bytes, depth, k);
      assert elements[k - i] == rest[k - (i + 1)];
    }
  }

  /** Members of a structure: each is decoded from its own bytes, and an integer one is recorded right
      under exactly the condition of `PartIff`. */
  lemma MemberDenotesIff(types: seq<TypeDesc>, regions: seq<Region>, ty: TypeRef, bytes: seq<byte>, depth: nat, k: nat,
                         encoding: Encoding, size: u64)
    requires AliasesEnd(types) && depth < MAX_VALUE_DEPTH
    requires ty < |types| && types[ty].Struct? && k < |types[ty].members| && types[ty].members[k].ty.Some?
    requires IsIntegerType(types, types[ty].members[k].ty.value, encoding, size)
    requires types[ty].members[k].offset + size <= |bytes|
    ensures
      var v, m := DecodeValue(types, regions, ty, bytes, depth), types[ty].members[k];
      var part := bytes[m.offset..m.offset + size];
      && v.StructValue? && |v.fields| == |types[ty].members|
      && (Denotes(v.fields[k]) == Some(BaseValue(encoding, part))
          <==> BaseValue(encoding, part) == 0
               || (AliasRank(types, m.ty.value) <= MAX_SIZE_DEPTH && RecordedRight(encoding, part)))
  {
    var m := types[ty].members[k];
    assert DecodeValue(types, regions, ty, bytes, depth) == DecodeKind(types, regions, ty, bytes, depth);
    MemberAt(types, regions, types[ty].members, bytes, depth, k);
    PartIff(types, regions, m.ty.value, encoding, size, bytes, m.offset, depth + 1);
  }

  /** Elements of an array: the same, element k standing k sizes from the start. */
  lemma ElementDenotesIff(types: seq<TypeDesc>, regions: seq<Region>, ty: TypeRef, bytes: seq<byte>, depth: nat, k: nat,
                          encoding: Encoding, size: u64)
    requires AliasesEnd(types) && depth < MAX_VALUE_DEPTH
    requires ty < |types| && types[ty].Array? && types[ty].element.Some? && types[ty].count.Some?
    requires k < types[ty].count.value <= MAX_ARRAY_ELEMENTS
    requires IsIntegerType(types, types[ty].element.value, encoding, size) && k * size + size <= |bytes|
    ensures
      var v, e := DecodeValue(types, regions, ty, bytes, depth), types[ty].element.value;
      var part := bytes[k * size..k * size + size];
      && v.Sequence? && |v.elements| == types[ty].count.value
      && (Denotes(v.elements[k]) == Some(BaseValue(encoding, part))
          <==> BaseValue(encoding, part) == 0
               || (AliasRank(types, e) <= MAX_SIZE_DEPTH && RecordedRight(encoding, part)))
  {
    var start := k * size;
    ElementIsPart(types, regions, ty, bytes, depth, k, encoding, size, start);
    PartIff(types, regions, types[ty].element.value, encoding, size, bytes, start, depth + 1);
  }

  lemma ElementIsPart(types: seq<TypeDesc>, regions: seq<Region>, ty: TypeRef, bytes: seq<byte>, depth: nat, k: nat,
                      encoding: Encoding, size: u64, start: nat)
    requires AliasesEnd(types) && depth < MAX_VALUE_DEPTH
    requires ty < |types| && types[ty].Array? && types[ty].element.Some? && types[ty].count.Some?
    requires k < types[ty].count.value <= MAX_ARRAY_ELEMENTS
    requires IsIntegerType(types, types[ty].element.value, encoding, size) && start == k * size && start + size <= |bytes|
    ensures
      var v, e := DecodeValue(types, regions, ty, bytes, depth), types[ty].element.value;
      && v.Sequence? && |v.elements| == types[ty].count.value
      && v.elements[k] == PartValue(types, regions, e, bytes, start, depth + 1)
  {
    var e, count := types[ty].element.value, types[ty].count.value;
    assert DecodeValue(types, regions, ty, bytes, depth) == DecodeKind(types, regions, ty, bytes, depth);
    ElementAt(types, regions, e, TypeSize(types, e).GetOr(0), 0, count, bytes, depth, k);
    BaseSizeKnownIff(types, e, encoding, size);
    if AliasRank(types, e) > MAX_SIZE_DEPTH {
      EmptyParts(types, regions, e, bytes, start, depth + 1);
    }
  }

  /** A part of unknown size is decoded from no bytes wherever it stands. */
  lemma EmptyParts(types: seq<TypeDesc>, regions: seq<Region>, t: TypeRef, bytes: seq<byte>, start: nat, depth: nat)
    requires AliasesEnd(types) && TypeSize(types, t).None? && start <= |bytes|
    ensures PartValue(types, regions, t, bytes, start, depth) == PartValue(types, regions, t, bytes, 0, depth)
  {
    assert bytes[start..start + 0] == [] == bytes[0..0];
  }

  // ---------------------------------------------------------------------------
  // A member that is lost
  // ---------------------------------------------------------------------------

  /** A type, 33 typedefs that lead to it, a structure whose only member is behind all of them, and a
      4-byte unsigned integer. */
  function DeepTypes(base: TypeDesc): (types: seq<TypeDesc>)
    ensures |types| == 36
  {
    [base] + seq(33, (k: nat) => Alias(Some(k))) + [Struct(4, [Member("m", 0, Some(33))]), Base(Unsigned, 4)]
  }

  lemma {:induction false} TypedefHops(base: TypeDesc, t: nat, fuel: nat)
    requires t <= 33 && !base.Alias?
    ensures AliasHops(DeepTypes(base), t, fuel) == if t <= fuel then t else fuel
    decreases t
  {
    if t > 0 && fuel > 0 {
      assert DeepTypes(base)[t] == Alias(Some(t - 1));
      TypedefHops(base, t - 1, fuel - 1);
    }
  }

  lemma DeepAliasesEnd(base: TypeDesc)
    requires !base.Alias?
    ensures AliasesEnd(DeepTypes(base)) && AliasRank(DeepTypes(base), 33) == 33
  {
    forall t: nat ensures ChainEnds(DeepTypes(base), t) {
      if t <= 33 {
        TypedefHops(base, t, 37);
      }
    }
    TypedefHops(base, 33, 37);
  }

  lemma {:induction false} TypedefsLeadHome(base: TypeDesc, t: nat)
    requires t <= 33 && !base.Alias? && AliasesEnd(DeepTypes(base))
    ensures Resolve(DeepTypes(base), t) == 0
  {
    if t > 0 {
      assert DeepTypes(base)[t] == Alias(Some(t - 1));
      TypedefsLeadHome(base, t - 1);
    }
  }

  /** A type behind 33 typedefs has no known size, so a member of it is decoded from no bytes. */
  lemma DeepMember(base: TypeDesc, regions: seq<Region>, bytes: seq<byte>, depth: nat)
    requires !base.Alias? && AliasesEnd(DeepTypes(base)) && depth < MAX_VALUE_DEPTH
    ensures
      var types := DeepTypes(base);
      DecodeValue(types, regions, 34, bytes, depth) == StructValue([DecodeValue(types, regions, 0, [], depth + 1)], 34)
  {
    var types := DeepTypes(base);
    DeepAliasesEnd(base);
    TypedefsLeadHome(base, 33);
    AliasSizeDepth(types, 33, 0);
    assert TypeSize(types, 33).None?;
    ThroughAliases(types, regions, 33, [], depth + 1);
    assert DecodeValue(types, regions, 34, bytes, depth) == DecodeKind(types, regions, 34, bytes, depth);
    MemberAt(types, regions, types[34].members, bytes, depth, 0);
    assert bytes[0..0 + 0] == [];
  }

  /** A structure whose only member is behind 33 typedefs: whatever its four bytes, the member is
      recorded as 0. */
  lemma DeepMemberIsLost(regions: seq<Region>, bytes: seq<byte>)
    requires |bytes| == 4
    ensures
      var types := DeepTypes(Base(Unsigned, 4));
      AliasesEnd(types) && DecodeValue(types, regions, 34, bytes, 0) == StructValue([Int(0, 0)], 34)
  {
    var base := Base(Unsigned, 4);
    var types := DeepTypes(base);
    DeepAliasesEnd(base);
    DeepMember(base, regions, bytes, 0);
    BaseIsDecoded(types, regions, 0, Unsigned, 4, [], 1);
    EmptyIsZero(Unsigned, 8);
  }

  // ---------------------------------------------------------------------------
  // Floats
  // ---------------------------------------------------------------------------

  /** The type leads to a float whose bytes are sliced. */
  predicate IsSlicedFloat(types: seq<TypeDesc>, t: TypeRef)
    requires AliasesEnd(types)
  {
    IsBase(types, t, FloatingPoint, 4) || IsBase(types, t, FloatingPoint, 8)
  }

  /** The bytes a value of the type is given are enough to slice. */
  predicate Sliceable(types: seq<TypeDesc>, t: TypeRef, bytes: seq<byte>)
    requires AliasesEnd(types)
  {
    && (IsBase(types, t, FloatingPoint, 4) ==> |bytes| >= 4)
    && (IsBase(types, t, FloatingPoint, 8) ==> |bytes| >= 8)
  }

  /** A float is behind at most 32 aliases. */
  predicate FloatSized(types: seq<TypeDesc>, t: TypeRef)
    requires AliasesEnd(types)
  {
    IsSlicedFloat(types, t) ==> AliasRank(types, t) <= MAX_SIZE_DEPTH
  }

  /** The types of parts a value of the type is decoded into. */
  predicate IsPartOf(desc: TypeDesc, t: TypeRef) {
    match desc
    case Struct(_, members) => exists k :: 0 <= k < |members| && members[k].ty == Some(t)
    case Array(element, count) => element == Some(t) && count.Some? && 1 <= count.value <= MAX_ARRAY_ELEMENTS
    case _ => false
  }

  /** No float member or element is behind more than 32 aliases. */
  ghost predicate FloatPartsSized(types: seq<TypeDesc>)
    requires AliasesEnd(types)
  {
    forall ty, t :: 0 <= ty < |types| && IsPartOf(types[ty], t) ==> FloatSized(types, t)
  }

  /** The source panics somewhere while it makes this record. */
  predicate HasPanic(v: ValueRecord) {
    match v
    case Panicked(_) => true
    case Reference(inner, _, _) => HasPanic(inner)
    case StructValue(fields, _) => HasPanicIn(fields)
    case Sequence(elements, _) => HasPanicIn(elements)
    case _ => false
  }

  predicate HasPanicIn(vs: seq<ValueRecord>) {
    exists k :: 0 <= k < |vs| && HasPanic(vs[k])
  }

  lemma SizedIsSliceable(types: seq<TypeDesc>, t: TypeRef, bytes: seq<byte>)
    requires AliasesEnd(types) && FloatSized(types, t)
    requires TypeSize(types, t).GetOr(0) == |bytes|
    ensures Sliceable(types, t, bytes)
  {
    if IsBase(types, t, FloatingPoint, 4) {
      BaseSizeKnownIff(types, t, FloatingPoint, 4);
    }
    if IsBase(types, t, FloatingPoint, 8) {
      BaseSizeKnownIff(types, t, FloatingPoint, 8);
    }
  }

  lemma KnownIsSized(types: seq<TypeDesc>, t: TypeRef)
    requires AliasesEnd(types) && TypeSize(types, t).Some?
    ensures FloatSized(types, t)
  {
    if IsBase(types, t, FloatingPoint, 4) {
      BaseSizeKnownIff(types, t, FloatingPoint, 4);
    }
    if IsBase(types, t, FloatingPoint, 8) {
      BaseSizeKnownIff(types, t, FloatingPoint, 8);
    }
  }

  lemma {:induction false} NoPanic(
      types: seq<TypeDesc>, regions: seq<Region>, ty: TypeRef, bytes: seq<byte>, depth: nat)
    requires AliasesEnd(types) && FloatPartsSized(types) && Sliceable(types, ty, bytes)
    ensures !HasPanic(DecodeValue(types, regions, ty, bytes, depth))
    decreases DepthLeft(depth), 2 + AliasRank(types, ty)
  {
    if ty < |types| {
      assert DecodeValue(types, regions, ty, bytes, depth) == DecodeKind(types, regions, ty, bytes, depth);
      match types[ty]
      case Alias(Some(target)) =>
        AliasStepDecreases(types, ty);
        NoPanic(types, regions, target, bytes, depth);
      case Pointer(Some(target)) =>
        if depth < MAX_VALUE_DEPTH && TypeSize(types, target).Some? {
          var data := ReadRegions(regions, LeU64(bytes), TypeSize(types, target).value);
          if data.Some? {
            PointeeDoesNotPanic(types, regions, target, data.value, depth);
          }
        }
      case Struct(_, members) =>
        if depth < MAX_VALUE_DEPTH {
          MembersDoNotPanic(types, regions, ty, bytes, depth);
        }
      case Array(Some(element), Some(count)) =>
        if depth < MAX_VALUE_DEPTH && count <= MAX_ARRAY_ELEMENTS {
          ElementsDoNotPanic(types, regions, ty, bytes, depth);
        }
      case _ =>
    }
  }

  lemma {:induction false} PointeeDoesNotPanic(types: seq<TypeDesc>, regions: seq<Region>, target: TypeRef, data: seq<byte>,
                                               depth: nat)
    requires AliasesEnd(types) && FloatPartsSized(types) && depth < MAX_VALUE_DEPTH
    requires TypeSize(types, target) == Some(|data|)
    ensures !HasPanic(DecodeValue(types, regions, target, data, depth + 1))
    decreases DepthLeft(depth), 0
  {
    KnownIsSized(types, target);
    SizedIsSliceable(types, target, data);
    NoPanic(types, regions, target, data, depth + 1);
  }

  lemma {:induction false} PartDoesNotPanic(types: seq<TypeDesc>, regions: seq<Region>, ty: TypeRef, t: TypeRef,
                                            bytes: seq<byte>, start: nat, depth: nat)
    requires AliasesEnd(types) && FloatPartsSized(types) && depth < MAX_VALUE_DEPTH
    requires ty < |types| && IsPartOf(types[ty], t)
    ensures !HasPanic(PartValue(types, regions, t, bytes, start, depth + 1))
    decreases DepthLeft(depth), 0
  {
    var part := Part(bytes, start, TypeSize(types, t).GetOr(0));
    if part.Some? {
      SizedIsSliceable(types, t, part.value);
      NoPanic(types, regions, t, part.value, depth + 1);
    }
  }

  lemma {:induction false} MembersDoNotPanic(
      types: seq<TypeDesc>, regions: seq<Region>, ty: TypeRef, bytes: seq<byte>, depth: nat)
    requires AliasesEnd(types) && FloatPartsSized(types) && depth < MAX_VALUE_DEPTH
    requires ty < |types| && types[ty].Struct?
    ensures !HasPanicIn(DecodeMembers(types, regions, types[ty].members, bytes, depth))
    decreases DepthLeft(depth), 1
  {
    var members := types[ty].members;
    var fields := DecodeMembers(types, regions, members, bytes, depth);
    forall k | 0 <= k < |fields| ensures !HasPanic(fields[k]) {
      if members[k].ty.Some? {
        MemberAt(types, regions, members, bytes, depth, k);
        PartDoesNotPanic(types, regions, ty, members[k].ty.value, bytes, members[k].offset, depth);
      } else {
        UntypedMember(types, regions, members, bytes, depth, k);
      }
    }
  }

  lemma {:induction false} UntypedMember(types: seq<TypeDesc>, regions: seq<Region>, members: seq<Member>,
                                         bytes: seq<byte>, depth: nat, k: nat)
    requires AliasesEnd(types) && depth < MAX_VALUE_DEPTH && k < |members| && members[k].ty.None?
    ensures DecodeMembers(types, regions, members, bytes, depth)[k] == NoValue
    decreases |members|
  {
    if k > 0 {
      UntypedMember(types, regions, members[1..], bytes, depth, k - 1);
    }
  }

  lemma {:induction false} ElementsDoNotPanic(
      types: seq<TypeDesc>, regions: seq<Region>, ty: TypeRef, bytes: seq<byte>, depth: nat)
    requires AliasesEnd(types) && FloatPartsSized(types) && depth < MAX_VALUE_DEPTH
    requires ty < |types| && types[ty].Array? && types[ty].element.Some? && types[ty].count.Some?
    requires types[ty].count.value <= MAX_ARRAY_ELEMENTS
    ensures
      var e := types[ty].element.value;
      !HasPanicIn(DecodeElements(types, regions, e, TypeSize(types, e).GetOr(0), 0, types[ty].count.value, bytes, depth))
    decreases DepthLeft(depth), 1
  {
    var e, count := types[ty].element.value, types[ty].count.value;
    var size := TypeSize(types, e).GetOr(0);
    var elements := DecodeElements(types, regions, e, size, 0, count, bytes, depth);
    forall k | 0 <= k < |elements| ensures !HasPanic(elements[k]) {
      ElementAt(types, regions, e, TypeSize(types, e).GetOr(0), 0, count, bytes, depth, k);
      PartDoesNotPanic(types, regions, ty, e, bytes, k * size, depth);
    }
  }

  /** A float part that is not sized is decoded from no bytes, and panics. */
  lemma LostFloatPart(types: seq<TypeDesc>, t: TypeRef, bytes: seq<byte>, start: nat)
    requires AliasesEnd(types) && !FloatSized(types, t) && start <= |bytes|
    ensures TypeSize(types, t).None? && HasPanic(SizedPart(types, [], t, bytes, start, 0, 1))
  {
    var size: u64 := if IsBase(types, t, FloatingPoint, 4) then 4 else 8;
    BaseSizeKnownIff(types, t, FloatingPoint, size);
    BaseIsDecoded(types, [], t, FloatingPoint, size, [], 1);
    assert bytes[start..start + 0] == [];
  }

  lemma LostFloatMember(types: seq<TypeDesc>, ty: TypeRef, k: nat, bytes: seq<byte>)
    requires AliasesEnd(types) && ty < |types| && types[ty].Struct? && k < |types[ty].members|
    requires types[ty].members[k].ty.Some? && !FloatSized(types, types[ty].members[k].ty.value)
    requires types[ty].members[k].offset <= |bytes|
    ensures HasPanic(DecodeValue(types, [], ty, bytes, 0))
  {
    var m := types[ty].members[k];
    LostFloatPart(types, m.ty.value, bytes, m.offset);
    MemberAt(types, [], types[ty].members, bytes, 0, k);
    assert DecodeValue(types, [], ty, bytes, 0) == DecodeKind(types, [], ty, bytes, 0);
  }

  lemma LostFloatElement(types: seq<TypeDesc>, ty: TypeRef, bytes: seq<byte>)
    requires AliasesEnd(types) && ty < |types| && types[ty].Array?
    requires types[ty].element.Some? && !FloatSized(types, types[ty].element.value)
    requires types[ty].count.Some? && 1 <= types[ty].count.value <= MAX_ARRAY_ELEMENTS
    ensures HasPanic(DecodeValue(types, [], ty, bytes, 0))
  {
    LostFloatPart(types, types[ty].element.value, bytes, 0);
    ElementAt(types, [], types[ty].element.value, 0, 0, types[ty].count.value, bytes, 0, 0);
    assert DecodeValue(types, [], ty, bytes, 0) == DecodeKind(types, [], ty, bytes, 0);
  }

  /** A float part behind more than 32 aliases panics as soon as its place is inside the value. */
  lemma LostFloatPanics(types: seq<TypeDesc>, ty: TypeRef, t: TypeRef) returns (bytes: seq<byte>)
    requires AliasesEnd(types) && ty < |types| && IsPartOf(types[ty], t) && !FloatSized(types, t)
    ensures Sliceable(types, ty, bytes) && HasPanic(DecodeValue(types, [], ty, bytes, 0))
  {
    bytes := [];
    match types[ty]
    case Struct(_, members) =>
      var k :| 0 <= k < |members| && members[k].ty == Some(t);
      bytes := seq(members[k].offset, _ => 0);
      LostFloatMember(types, ty, k, bytes);
    case Array(_, Some(count)) =>
      LostFloatElement(types, ty, bytes);
  }

  /** A structure whose only member is a float behind 33 typedefs: decoding it panics, whatever its
      four bytes. */
  lemma DeepFloatPanics(regions: seq<Region>, bytes: seq<byte>)
    requires |bytes| == 4
    ensures
      var types := DeepTypes(Base(FloatingPoint, 4));
      AliasesEnd(types) && DecodeValue(types, regions, 34, bytes, 0) == StructValue([Panicked(0)], 34)
  {
    var base := Base(FloatingPoint, 4);
    DeepAliasesEnd(base);
    DeepMember(base, regions, bytes, 0);
    BaseIsDecoded(DeepTypes(base), regions, 0, FloatingPoint, 4, [], 1);
  }

  /** Decoding never panics, on any value given enough bytes, if and only if no float member or element
      is behind more than 32 aliases. */
  lemma NoPanicIff(types: seq<TypeDesc>)
    requires AliasesEnd(types)
    ensures (forall regions, ty, bytes, depth: nat :: PanicFree(types, regions, ty, bytes, depth))
       <==> FloatPartsSized(types)
  {
    if FloatPartsSized(types) {
      forall regions, ty, bytes, depth: nat ensures PanicFree(types, regions, ty, bytes, depth) {
        if Sliceable(types, ty, bytes) {
          NoPanic(types, regions, ty, bytes, depth);
        }
      }
    } else {
      var ty, t :| 0 <= ty < |types| && IsPartOf(types[ty], t) && !FloatSized(types, t);
      var bytes := LostFloatPanics(types, ty, t);
      assert !PanicFree(types, [], ty, bytes, 0);
    }
  }

  predicate PanicFree(types: seq<TypeDesc>, regions: seq<Region>, ty: TypeRef, bytes: seq<byte>, depth: nat)
    requires AliasesEnd(types)
  {
    Sliceable(types, ty, bytes) ==> !HasPanic(DecodeValue(types, regions, ty, bytes, depth))
  }
}
