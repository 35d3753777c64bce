/** Integers at any depth inside a value (`decode_value` in `src/source_recorder.rs`): which parts of
    parts are recorded as the number their bytes hold. */
module PartPaths {
  import opened Words
  import opened Wrappers
  import opened SbfMemory
  import opened DebugModel
  import opened ValueDecoding
  import opened TypedValues

  /** The size a type's description gives it, behind however many aliases.  No chain of array types
      that ends is longer than the table. */
  function FullSize(types: seq<TypeDesc>, t: TypeRef): Option<nat>
    requires AliasesEnd(types)
  {
    SizeWithin(types, t, |types|)
  }

  function SizeWithin(types: seq<TypeDesc>, t: TypeRef, arrays: nat): Option<nat>
    requires AliasesEnd(types)
    decreases arrays
  {
    var r := Resolve(types, t);
    if r >= |types| then None
    else
      match types[r]
      case Base(_, size) => Some(size)
      case Pointer(_) => Some(8)
      case Struct(size, _) => Some(size)
      case Opaque(Some(size)) => Some(size)
      case Array(Some(element), Some(count)) =>
        if arrays == 0 then None
        else
          (match SizeWithin(types, element, arrays - 1)
           case None => None
           case Some(size) => Some(size * count))
      case _ => None
  }

  /** Where the recorder knows a size, it is that one, unless that is beyond 64 bits. */
  lemma {:induction false} KnownSizeIsFull(types: seq<TypeDesc>, t: TypeRef, depth: nat, arrays: nat)
    requires AliasesEnd(types) && TypeSizeDepth(types, t, depth).Some? && SizeWithin(types, t, arrays).Some?
    requires SizeWithin(types, t, arrays).value < TWO64
    ensures TypeSizeDepth(types, t, depth).value == SizeWithin(types, t, arrays).value
    decreases MAX_SIZE_DEPTH + 1 - depth
  {
    var r, below := Resolve(types, t), depth + AliasRank(types, t);
    AliasSizeDepth(types, t, depth);
    if types[r].Array? {
      var element, count := types[r].element.value, types[r].count.value;
      var size, known := SizeWithin(types, element, arrays - 1).value, TypeSizeDepth(types, element, below + 1).value;
      if count > 0 {
        NoLessThanOne(size, count);
        KnownSizeIsFull(types, element, below + 1, arrays - 1);
      }
      ProductFits(size, known, count);
    }
  }

  lemma ProductFits(size: nat, known: nat, count: nat)
    requires size * count < TWO64 && (count > 0 ==> known == size)
    ensures Wrap(known * count) == size * count
  {
    if count == 0 {
      assert known * count == 0 == size * count;
    }
  }

  /** The aliases and arrays on the way to where the size of a type stands. */
  function SizeHops(types: seq<TypeDesc>, t: TypeRef, arrays: nat): nat
    requires AliasesEnd(types)
    decreases arrays
  {
    var r := Resolve(types, t);
    AliasRank(types, t) +
    if r < |types| && types[r].Array? && types[r].element.Some? && arrays > 0 then
      1 + SizeHops(types, types[r].element.value, arrays - 1)
    else 0
  }

  lemma {:induction false} SizeKnownWithin(types: seq<TypeDesc>, t: TypeRef, depth: nat, arrays: nat)
    requires AliasesEnd(types) && depth + arrays > 32
    ensures TypeSizeDepth(types, t, depth).Some? <==>
      SizeWithin(types, t, arrays).Some? && depth + SizeHops(types, t, arrays) <= 32
    decreases arrays
  {
    var r, below := Resolve(types, t), depth + AliasRank(types, t);
    AliasSizeDepth(types, t, depth);
    ResolvedIsNoAlias(types, t);
    if below <= 32 && r < |types| && types[r].Array? && types[r].element.Some? && arrays > 0 {
      SizeKnownWithin(types, types[r].element.value, below + 1, arrays - 1);
    }
  }

  /** A size is known if and only if the description gives one behind at most 32 aliases and arrays. */
  lemma SizeKnownIff(types: seq<TypeDesc>, t: TypeRef)
    requires AliasesEnd(types)
    ensures TypeSize(types, t).Some? <==> SizeWithin(types, t, 33).Some? && SizeHops(types, t, 33) <= 32
  {
    SizeKnownWithin(types, t, 0, 33);
  }

  lemma NoLessThanOne(size: nat, count: nat)
    requires count > 0
    ensures size <= size * count
  {
  }

  // ---------------------------------------------------------------------------
  // Paths of parts
  // ---------------------------------------------------------------------------

  /** A part of a value: its type, and where it starts in the value's bytes. */
  datatype Place = Place(t: TypeRef, start: nat)

  /** Member or element k of a value of type `t`. */
  function PartAt(types: seq<TypeDesc>, t: TypeRef, k: nat): Option<Place>
    requires AliasesEnd(types)
  {
    var r := Resolve(types, t);
    if r >= |types| then None
    else
      match types[r]
      case Struct(_, members) =>
        if k < |members| && members[k].ty.Some? then Some(Place(members[k].ty.value, members[k].offset)) else None
      case Array(Some(element), Some(count)) =>
        if k < count && FullSize(types, element).Some? then
          Some(Place(element, k * FullSize(types, element).value))
        else None
      case _ => None
  }

  /** The part a path of member and element numbers leads to. */
  function LeafAt(types: seq<TypeDesc>, t: TypeRef, path: seq<nat>): Option<Place>
    requires AliasesEnd(types)
    decreases |path|
  {
    if path == [] then Some(Place(t, 0))
    else
      match PartAt(types, t, path[0])
      case None => None
      case Some(p) =>
        match LeafAt(types, p.t, path[1..])
        case None => None
        case Some(leaf) => Some(Place(leaf.t, p.start + leaf.start))
  }

  /** Each part on the path lies inside the one around it. */
  predicate WellNested(types: seq<TypeDesc>, t: TypeRef, path: seq<nat>)
    requires AliasesEnd(types)
    decreases |path|
  {
    FullSize(types, t).Some? &&
    (path == [] ||
     match PartAt(types, t, path[0])
     case None => false
     case Some(p) =>
       && WellNested(types, p.t, path[1..])
       && p.start + FullSize(types, p.t).value <= FullSize(types, t).value)
  }

  /** Each part on the path is within the limits on nesting and on the length of arrays. */
  predicate WithinLimits(types: seq<TypeDesc>, t: TypeRef, path: seq<nat>, depth: nat)
    requires AliasesEnd(types) && WellNested(types, t, path)
    decreases |path|
  {
    path != [] ==>
    && depth < 6 && IsShown(types, t)
    && WithinLimits(types, PartAt(types, t, path[0]).value.t, path[1..], depth + 1)
  }

  /** The type does not lead to an array that is too long to show. */
  predicate IsShown(types: seq<TypeDesc>, t: TypeRef)
    requires AliasesEnd(types)
  {
    var r := Resolve(types, t);
    r < |types| && types[r].Array? && types[r].count.Some? ==> types[r].count.value <= 64
  }

  /** The recorder knows the size of each part on the path. */
  predicate AllKnown(types: seq<TypeDesc>, t: TypeRef, path: seq<nat>)
    requires AliasesEnd(types) && WellNested(types, t, path)
    decreases |path|
  {
    path == [] ||
    var p := PartAt(types, t, path[0]).value;
    TypeSize(types, p.t).Some? && AllKnown(types, p.t, path[1..])
  }

  /** Of a value decoded from no bytes, each part on the path is decoded from no bytes again: its size
      is not known, and it is an element or a member at offset 0. */
  predicate AllAtFront(types: seq<TypeDesc>, t: TypeRef, path: seq<nat>)
    requires AliasesEnd(types) && WellNested(types, t, path)
    decreases |path|
  {
    path == [] ||
    var p := PartAt(types, t, path[0]).value;
    && TypeSize(types, p.t).None?
    && (types[Resolve(types, t)].Array? || p.start == 0)
    && AllAtFront(types, p.t, path[1..])
  }

  /** The path has a first part of unknown size, and from there on all parts are decoded from no bytes. */
  predicate LostFromFront(types: seq<TypeDesc>, t: TypeRef, path: seq<nat>)
    requires AliasesEnd(types) && WellNested(types, t, path)
    decreases |path|
  {
    path != [] &&
    var p := PartAt(types, t, path[0]).value;
    if TypeSize(types, p.t).Some? then LostFromFront(types, p.t, path[1..]) else AllAtFront(types, p.t, path[1..])
  }

  /** The integer recorded at the end of a path, if there is one. */
  function IntAt(v: ValueRecord, path: seq<nat>): Option<int>
    decreases |path|
  {
    if path == [] then Denotes(v)
    else
      match v
      case StructValue(fields, _) => if path[0] < |fields| then IntAt(fields[path[0]], path[1..]) else None
      case Sequence(elements, _) => if path[0] < |elements| then IntAt(elements[path[0]], path[1..]) else None
      case _ => None
  }

  // ---------------------------------------------------------------------------
  // One part
  // ---------------------------------------------------------------------------

  /** The record of member or element k, cut from the value's bytes. */
  function GivenPart(types: seq<TypeDesc>, regions: seq<Region>, t: TypeRef, k: nat, bytes: seq<byte>, depth: nat):
    ValueRecord
    requires AliasesEnd(types) && PartAt(types, t, k).Some?
  {
    var p := PartAt(types, t, k).value;
    var size := TypeSize(types, p.t).GetOr(0);
    SizedPart(types, regions, p.t, bytes, if types[Resolve(types, t)].Array? then k * size else p.start, size, depth + 1)
  }

  lemma PartIsGiven(types: seq<TypeDesc>, regions: seq<Region>, t: TypeRef, bytes: seq<byte>, depth: nat, path: seq<nat>)
    requires AliasesEnd(types) && path != [] && PartAt(types, t, path[0]).Some?
    ensures
      IntAt(DecodeValue(types, regions, t, bytes, depth), path) ==
        if depth < MAX_VALUE_DEPTH && IsShown(types, t) then
          IntAt(GivenPart(types, regions, t, path[0], bytes, depth), path[1..])
        else None
  {
    ThroughAliases(types, regions, t, bytes, depth);
    var r, k := Resolve(types, t), path[0];
    assert DecodeValue(types, regions, r, bytes, depth) == DecodeKind(types, regions, r, bytes, depth);
    if depth < MAX_VALUE_DEPTH && IsShown(types, t) {
      match types[r]
      case Struct(_, members) =>
        MemberAt(types, regions, members, bytes, depth, k);
      case Array(Some(element), Some(count)) =>
        ElementAt(types, regions, element, TypeSize(types, element).GetOr(0), 0, count, bytes, depth, k);
    }
  }

  /** A part of known size is given its own bytes, one of unknown size none. */
  lemma GivenBytes(types: seq<TypeDesc>, regions: seq<Region>, t: TypeRef, k: nat, bytes: seq<byte>, depth: nat)
    requires AliasesEnd(types) && |bytes| < TWO64 && PartAt(types, t, k).Some?
    requires
      var p := PartAt(types, t, k).value;
      FullSize(types, p.t).Some? && p.start + FullSize(types, p.t).value <= |bytes|
    ensures
      var p := PartAt(types, t, k).value;
      var size := FullSize(types, p.t).value;
      && GivenPart(types, regions, t, k, bytes, depth) ==
           DecodeValue(types, regions, p.t,
                       if TypeSize(types, p.t).Some? then bytes[p.start..p.start + size] else [], depth + 1)
      && (TypeSize(types, p.t).Some? ==> TypeSize(types, p.t).value == size)
  {
    var p := PartAt(types, t, k).value;
    if TypeSize(types, p.t).Some? {
      KnownSizeIsFull(types, p.t, 0, |types|);
    } else {
      assert bytes[p.start..p.start + 0] == [] == bytes[k * 0..k * 0 + 0];
    }
  }

  /** An integer at the end of a path lies inside the value, and all parts around it have bytes. */
  lemma {:induction false} LeafIsInside(types: seq<TypeDesc>, t: TypeRef, path: seq<nat>, encoding: Encoding, size: u64)
    requires AliasesEnd(types) && WellNested(types, t, path)
    requires LeafAt(types, t, path).Some? && IsIntegerType(types, LeafAt(types, t, path).value.t, encoding, size)
    ensures LeafAt(types, t, path).value.start + size <= FullSize(types, t).value
    decreases |path|
  {
    if path != [] {
      LeafIsInside(types, PartAt(types, t, path[0]).value.t, path[1..], encoding, size);
    }
  }

  // ---------------------------------------------------------------------------
  // Whole paths
  // ---------------------------------------------------------------------------

  /** Of a value decoded from no bytes, an integer inside is 0 or not there. */
  lemma {:induction false} LostValue(types: seq<TypeDesc>, regions: seq<Region>, t: TypeRef, depth: nat, path: seq<nat>,
                                     encoding: Encoding, size: u64)
    requires AliasesEnd(types) && WellNested(types, t, path) && FullSize(types, t).value < TWO64
    requires LeafAt(types, t, path).Some? && IsIntegerType(types, LeafAt(types, t, path).value.t, encoding, size)
    ensures
      IntAt(DecodeValue(types, regions, t, [], depth), path) ==
        if WithinLimits(types, t, path, depth) && AllAtFront(types, t, path) then Some(0) else None
    decreases |path|
  {
    if path == [] {
      BaseIsDecoded(types, regions, t, encoding, size, [], depth);
      AnyBaseDenotes(encoding, size, [], Resolve(types, t));
      EmptyIsZero(encoding, Taken(encoding, size));
    } else {
      PartIsGiven(types, regions, t, [], depth, path);
      if depth < MAX_VALUE_DEPTH && IsShown(types, t) {
        LostPart(types, regions, t, depth, path, encoding, size);
      }
    }
  }

  lemma {:induction false} LostPart(types: seq<TypeDesc>, regions: seq<Region>, t: TypeRef, depth: nat, path: seq<nat>,
                                    encoding: Encoding, size: u64)
    requires AliasesEnd(types) && depth < MAX_VALUE_DEPTH && IsShown(types, t) && path != []
    requires WellNested(types, t, path) && FullSize(types, t).value < TWO64
    requires LeafAt(types, t, path).Some? && IsIntegerType(types, LeafAt(types, t, path).value.t, encoding, size)
    ensures
      IntAt(GivenPart(types, regions, t, path[0], [], depth), path[1..]) ==
        if WithinLimits(types, t, path, depth) && AllAtFront(types, t, path) then Some(0) else None
    decreases |path|, 0
  {
    var p, rest := PartAt(types, t, path[0]).value, path[1..];
    if TypeSize(types, p.t).Some? {
      KnownSizeIsFull(types, p.t, 0, |types|);
      LeafIsInside(types, p.t, rest, encoding, size);
    } else {
      LostValue(types, regions, p.t, depth + 1, rest, encoding, size);
      var none: seq<byte> := [];
      assert none[0..0 + 0] == none;
    }
  }

  /** An integer anywhere in a value, at the end of any path of members and elements, is recorded as the
      number its own bytes hold if and only if the path is within the limits of the decoder, and either the
      size of each part on it is known and `decode_base` records such bytes right, or the number is 0 and from
      the first part of unknown size on all parts of the path are decoded from no bytes. */
  lemma {:induction false} IntegerDenotesIff(
      types: seq<TypeDesc>, regions: seq<Region>, t: TypeRef, bytes: seq<byte>, depth: nat, path: seq<nat>,
      encoding: Encoding, size: u64)
    requires AliasesEnd(types) && WellNested(types, t, path)
    requires TypeSize(types, t) == Some(|bytes|) && FullSize(types, t).value == |bytes|
    requires LeafAt(types, t, path).Some? && IsIntegerType(types, LeafAt(types, t, path).value.t, encoding, size)
    ensures LeafAt(types, t, path).value.start + size <= |bytes|
    ensures
      var leaf := LeafAt(types, t, path).value;
      var own := bytes[leaf.start..leaf.start + size];
      IntAt(DecodeValue(types, regions, t, bytes, depth), path) == Some(BaseValue(encoding, own))
      <==> && WithinLimits(types, t, path, depth)
           && ((AllKnown(types, t, path) && RecordedRight(encoding, own))
               || (LostFromFront(types, t, path) && BaseValue(encoding, own) == 0))
    decreases |path|
  {
    LeafIsInside(types, t, path, encoding, size);
    if path == [] {
      WholeValueIff(types, regions, t, encoding, size, bytes, depth);
      assert bytes[0..size] == bytes;
    } else {
      PartIsGiven(types, regions, t, bytes, depth, path);
      if depth < MAX_VALUE_DEPTH && IsShown(types, t) {
        PathStep(types, regions, t, bytes, depth, path, encoding, size);
      }
    }
  }

  lemma {:induction false} PathStep(
      types: seq<TypeDesc>, regions: seq<Region>, t: TypeRef, bytes: seq<byte>, depth: nat, path: seq<nat>,
      encoding: Encoding, size: u64)
    requires AliasesEnd(types) && depth < MAX_VALUE_DEPTH && IsShown(types, t)
    requires path != [] && WellNested(types, t, path)
    requires TypeSize(types, t) == Some(|bytes|) && FullSize(types, t).value == |bytes|
    requires LeafAt(types, t, path).Some? && IsIntegerType(types, LeafAt(types, t, path).value.t, encoding, size)
    requires LeafAt(types, t, path).value.start + size <= |bytes|
    ensures
      var leaf := LeafAt(types, t, path).value;
      var own := bytes[leaf.start..leaf.start + size];
      IntAt(GivenPart(types, regions, t, path[0], bytes, depth), path[1..]) == Some(BaseValue(encoding, own))
      <==> && WithinLimits(types, t, path, depth)
           && ((AllKnown(types, t, path) && RecordedRight(encoding, own))
               || (LostFromFront(types, t, path) && BaseValue(encoding, own) == 0))
    decreases |path|, 0
  {
    var p, rest := PartAt(types, t, path[0]).value, path[1..];
    GivenBytes(types, regions, t, path[0], bytes, depth);
    if TypeSize(types, p.t).Some? {
      var part := bytes[p.start..p.start + FullSize(types, p.t).value];
      IntegerDenotesIff(types, regions, p.t, part, depth + 1, rest, encoding, size);
      var leaf := LeafAt(types, p.t, rest).value;
      SliceOfSlice(bytes, p.start, p.start + |part|, leaf.start, leaf.start + size);
    } else {
      LostValue(types, regions, p.t, depth + 1, rest, encoding, size);
    }
  }

  lemma SliceOfSlice(bytes: seq<byte>, lo: nat, hi: nat, from: nat, to: nat)
    requires lo <= hi <= |bytes| && from <= to <= hi - lo
    ensures bytes[lo..hi][from..to] == bytes[lo + from..lo + to]
  {
    var a, b := bytes[lo..hi][from..to], bytes[lo + from..lo + to];
    assert |a| == |b| && forall k :: 0 <= k < |a| ==> a[k] == bytes[lo..hi][from + k] == bytes[lo + from + k] == b[k];
  }

  /** A structure in a structure, behind 33 typedefs: its member is an integer behind none, and is not
      recorded at all, whatever the four bytes. */
  lemma NestedMemberIsLost(regions: seq<Region>, bytes: seq<byte>)
    requires |bytes| == 4
    ensures
      var types := DeepTypes(Struct(4, [Member("x", 0, Some(35))]));
      AliasesEnd(types) && DecodeValue(types, regions, 34, bytes, 0) == StructValue([StructValue([NoValue], 0)], 34)
  {
    var base := Struct(4, [Member("x", 0, Some(35))]);
    var types := DeepTypes(base);
    DeepAliasesEnd(base);
    DeepMember(base, regions, bytes, 0);
    assert types[0] == base && types[35] == Base(Unsigned, 4);
    assert TypeSizeDepth(types, 35, 0) == Some(4);
    MemberAt(types, regions, base.members, [], 1, 0);
    assert DecodeMembers(types, regions, base.members, [], 1) == [NoValue];
    assert DecodeValue(types, regions, 0, [], 1) == DecodeKind(types, regions, 0, [], 1);
  }
}
