/** Values that are not plain integers (`decode_value` and `decode_base` in `src/source_recorder.rs`):
    what bools, characters, floats and pointers are recorded as, and which values are left as bytes. */
module ValueKinds {
  import opened Words
  import opened Wrappers
  import opened SbfMemory
  import opened FlatMemory
  import opened DebugModel
  import opened ValueDecoding
  import opened TypedValues

  // ---------------------------------------------------------------------------
  // Base types
  // ---------------------------------------------------------------------------

  lemma {:induction false} ZeroIff(bytes: seq<byte>)
    ensures FromLe(bytes) == 0 <==> forall k :: 0 <= k < |bytes| ==> bytes[k] == 0
  {
    if bytes != [] {
      ZeroIff(bytes[1..]);
      if FromLe(bytes) == 0 {
        assert forall k :: 1 <= k < |bytes| ==> bytes[k] == bytes[1..][k - 1];
      }
    }
  }

  /** A bool of any size is true if and only if the number its bytes hold is not 0. */
  lemma BoolIs(types: seq<TypeDesc>, regions: seq<Region>, t: TypeRef, size: u64, bytes: seq<byte>, depth: nat)
    requires AliasesEnd(types) && IsBase(types, t, Boolean, size) && size >= 1
    ensures DecodeValue(types, regions, t, bytes, depth) == Bool(FromLe(bytes) != 0, Resolve(types, t))
  {
    BaseIsDecoded(types, regions, t, Boolean, size, bytes, depth);
    ZeroIff(bytes);
  }

  predicate IsCharacter(encoding: Encoding) {
    encoding in {Utf, UnsignedChar, SignedChar}
  }

  /** A character of up to 4 bytes is the one with the number its bytes hold, and that number itself when
      no Unicode scalar value has it. */
  lemma CharacterIs(types: seq<TypeDesc>, regions: seq<Region>, t: TypeRef, encoding: Encoding, size: u64,
                    bytes: seq<byte>, depth: nat)
    requires AliasesEnd(types) && IsBase(types, t, encoding, size)
    requires IsCharacter(encoding) && 1 <= size <= 4 && |bytes| <= 4
    ensures
      var v, c := DecodeValue(types, regions, t, bytes, depth), FromLe(bytes);
      v == if c < 0xD800 || 0xDFFF < c <= 0x10FFFF then Char(c, Resolve(types, t)) else Int(c, Resolve(types, t))
  {
    BaseIsDecoded(types, regions, t, encoding, size, bytes, depth);
    PaddingKeepsValue(bytes, 8);
    FromLeBound(bytes);
    PowMonotone(|bytes|, 4);
    Powers();
  }

  /** A float of 4 or 8 bytes is its bytes. */
  lemma FloatIs(types: seq<TypeDesc>, regions: seq<Region>, t: TypeRef, size: u64, bytes: seq<byte>, depth: nat)
    requires AliasesEnd(types) && IsBase(types, t, FloatingPoint, size) && size in {4, 8} && |bytes| == size
    ensures DecodeValue(types, regions, t, bytes, depth) == Float(bytes, Resolve(types, t))
  {
    BaseIsDecoded(types, regions, t, FloatingPoint, size, bytes, depth);
    assert bytes[..size] == bytes;
  }

  /** Characters of more than 4 bytes and floats of other sizes are recorded as unsigned integers. */
  lemma OddSizesAreUnsigned(types: seq<TypeDesc>, regions: seq<Region>, t: TypeRef, encoding: Encoding, size: u64,
                            bytes: seq<byte>, depth: nat)
    requires AliasesEnd(types) && IsBase(types, t, encoding, size) && size >= 1 && |bytes| == size
    requires (IsCharacter(encoding) && size > 4) || (encoding == FloatingPoint && size !in {4, 8})
    ensures Denotes(DecodeValue(types, regions, t, bytes, depth)) == Some(FromLe(bytes)) <==> RecordedRight(Unsigned, bytes)
  {
    BaseIsDecoded(types, regions, t, encoding, size, bytes, depth);
    assert DecodeBase(encoding, size, bytes, Resolve(types, t)) == DecodeBase(Unsigned, size, bytes, Resolve(types, t));
    BaseDenotesIff(Unsigned, bytes, Resolve(types, t));
  }

  /** A value of no bytes has nothing to show. */
  lemma EmptyBaseIs(types: seq<TypeDesc>, regions: seq<Region>, t: TypeRef, encoding: Encoding, bytes: seq<byte>, depth: nat)
    requires AliasesEnd(types) && IsBase(types, t, encoding, 0)
    ensures DecodeValue(types, regions, t, bytes, depth) == ZeroSized(Resolve(types, t))
  {
    ThroughAliases(types, regions, t, bytes, depth);
    var r := Resolve(types, t);
    assert DecodeValue(types, regions, r, bytes, depth) == DecodeKind(types, regions, r, bytes, depth);
  }

  /** An integer is a plain one when its number fits 64 bits with a sign, and else its sign and the bytes of
      its magnitude, highest first: 8 of them, or 16 for a type of more than 8 bytes. */
  lemma IntegerShape(encoding: Encoding, bytes: seq<byte>, ty: TypeRef)
    requires IsInteger(encoding) && 1 <= |bytes| < TWO64
    ensures
      var v := DecodeBase(encoding, |bytes|, bytes, ty);
      && Denotes(v).Some?
      && var n := Denotes(v).value;
      if -0x8000_0000_0000_0000 <= n < 0x8000_0000_0000_0000 then v == Int(n, ty)
      else v.BigInt? && v.ty == ty && v.negative == (n < 0) && |v.magnitude| == if |bytes| <= 8 then 8 else 16
  {
    AnyBaseDenotes(encoding, |bytes|, bytes, ty);
    Powers();
    if encoding == Signed && |bytes| <= 8 {
      ShiftPairFits(LeU64(bytes), |bytes|);
    } else if |bytes| <= 8 {
      BigOrIntDenotes(LeU64(bytes), 8, ty);
    } else {
      var padded := Padded(bytes, 16);
      FromLeBound(padded);
      BigOrIntDenotes(BaseValue(encoding, padded), 16, ty);
    }
  }

  lemma ShiftPairFits(word: u64, size: nat)
    requires 1 <= size <= 8
    ensures -0x8000_0000_0000_0000 <= ShiftPair(word, size) < 0x8000_0000_0000_0000
  {
    var shift := Pow256(8 - size);
    DividedFits(AsI64(Wrap(word * shift)), shift);
  }

  lemma DividedFits(x: int, d: nat)
    requires d > 0 && -0x8000_0000_0000_0000 <= x < 0x8000_0000_0000_0000
    ensures -0x8000_0000_0000_0000 <= x / d < 0x8000_0000_0000_0000
  {
    var q := x / d;
    assert x == d * q + x % d;
    Multiples(d, q);
    if q >= 0 {
      SameSigns(d - 1, q);
    } else {
      SameSigns(d - 1, -(q + 1));
      assert (d - 1) * -(q + 1) == -(d * q) - d + q + 1;
    }
  }

  lemma SameSigns(a: nat, b: nat)
    ensures a * b >= 0
  {
  }

  // ---------------------------------------------------------------------------
  // Pointers
  // ---------------------------------------------------------------------------

  /** A pointer is recorded with the address its eight bytes hold.  Within the nesting limit, if the
      pointee's size is known and its bytes are mapped, it is a reference to the value they make in the
      memory; else a raw address. */
  lemma PointerIs(types: seq<TypeDesc>, regions: seq<Region>, layout: seq<Mapping>, mem: Memory, t: TypeRef,
                  target: TypeRef, bytes: seq<byte>, depth: nat)
    requires AliasesEnd(types) && WellLaidOut(layout) && Refines(regions, layout, mem) && |bytes| == 8
    requires Resolve(types, t) < |types| && types[Resolve(types, t)] == Pointer(Some(target))
    requires TypeSize(types, target) != Some(0)
    ensures FromLe(bytes) < 0x1_0000_0000_0000_0000
    ensures
      var v, r := DecodeValue(types, regions, t, bytes, depth), Resolve(types, t);
      var address, size := FromLe(bytes), TypeSize(types, target);
      if depth < 6 && size.Some? && Mapped(layout, address, size.value, false) then
        && (forall a :: address <= a < address + size.value ==> a in mem)
        && v == Reference(DecodeValue(types, regions, target, Peek(mem, address, size.value), depth + 1), address, r)
      else v == RawAddress(address, r)
  {
    ThroughAliases(types, regions, t, bytes, depth);
    var r := Resolve(types, t);
    assert DecodeValue(types, regions, r, bytes, depth) == DecodeKind(types, regions, r, bytes, depth);
    PaddingKeepsValue(bytes, 8);
    EightBytes(bytes);
    if TypeSize(types, target).Some? {
      ReadRefines(regions, layout, mem, LeU64(bytes), TypeSize(types, target).value);
    }
  }

  /** So a pointer to an integer shows the number the machine's memory holds there. */
  lemma PointedIntegerIff(types: seq<TypeDesc>, regions: seq<Region>, layout: seq<Mapping>, mem: Memory, t: TypeRef,
                          target: TypeRef, bytes: seq<byte>, depth: nat, encoding: Encoding, size: u64)
    requires AliasesEnd(types) && WellLaidOut(layout) && Refines(regions, layout, mem) && |bytes| == 8 && depth < 6
    requires Resolve(types, t) < |types| && types[Resolve(types, t)] == Pointer(Some(target))
    requires IsIntegerType(types, target, encoding, size) && AliasRank(types, target) <= 32
    requires Mapped(layout, FromLe(bytes), size, false)
    ensures forall a :: FromLe(bytes) <= a < FromLe(bytes) + size ==> a in mem
    ensures
      var v, data := DecodeValue(types, regions, t, bytes, depth), Peek(mem, FromLe(bytes), size);
      && v.Reference? && v.address == FromLe(bytes)
      && (Denotes(v.dereferenced) == Some(BaseValue(encoding, data)) <==> RecordedRight(encoding, data))
  {
    BaseSizeKnownIff(types, target, encoding, size);
    PointerIs(types, regions, layout, mem, t, target, bytes, depth);
    WholeValueIff(types, regions, target, encoding, size, Peek(mem, FromLe(bytes), size), depth + 1);
  }

  // ---------------------------------------------------------------------------
  // Records
  // ---------------------------------------------------------------------------

  function TypeOf(v: ValueRecord): Option<TypeRef> {
    match v
    case NoValue => None
    case ZeroSized(ty) => Some(ty)
    case Bool(_, ty) => Some(ty)
    case Float(_, ty) => Some(ty)
    case Char(_, ty) => Some(ty)
    case Int(_, ty) => Some(ty)
    case BigInt(_, _, ty) => Some(ty)
    case Reference(_, _, ty) => Some(ty)
    case StructValue(_, ty) => Some(ty)
    case Sequence(_, ty) => Some(ty)
    case RawAddress(_, ty) => Some(ty)
    case RawBytes(_, ty) => Some(ty)
    case Panicked(ty) => Some(ty)
  }

  /** The type is shown as bytes: it is unknown or opaque, or an aggregate the decoder does not go into. */
  predicate ShownAsBytes(types: seq<TypeDesc>, r: TypeRef, depth: nat) {
    r >= |types| ||
    match types[r]
    case Alias(_) => true
    case Opaque(_) => true
    case Struct(_, _) => depth >= 6
    case Array(element, count) => element.None? || count.None? || count.value > 64 || depth >= 6
    case _ => false
  }

  /** Every record is of the type its aliases lead to; it is raw bytes, all of them, exactly for those types. */
  lemma RecordIsOfItsType(types: seq<TypeDesc>, regions: seq<Region>, t: TypeRef, bytes: seq<byte>, depth: nat)
    requires AliasesEnd(types)
    ensures
      var v, r := DecodeValue(types, regions, t, bytes, depth), Resolve(types, t);
      && TypeOf(v) == Some(r)
      && (v == RawBytes(bytes, r) <==> ShownAsBytes(types, r, depth))
      && (v.RawBytes? ==> ShownAsBytes(types, r, depth))
  {
    ThroughAliases(types, regions, t, bytes, depth);
    var r := Resolve(types, t);
    if r < |types| {
      assert DecodeValue(types, regions, r, bytes, depth) == DecodeKind(types, regions, r, bytes, depth);
      ResolvedIsNoAlias(types, t);
    }
  }

  // ---------------------------------------------------------------------------
  // The nesting limit
  // ---------------------------------------------------------------------------

  const SELF_POINTER: seq<TypeDesc> := [Pointer(Some(0))]
  const SELF_ADDRESS: seq<byte> := [0, 16, 0, 0, 0, 0, 0, 0]

  /** A pointer to itself. */
  const SELF_REGIONS: seq<Region> := [Region(0x1000, SELF_ADDRESS)]

  lemma SelfPointerIsRead()
    ensures LeU64(SELF_ADDRESS) == 0x1000 && ReadRegions(SELF_REGIONS, 0x1000, 8) == Some(SELF_ADDRESS)
    ensures AliasesEnd(SELF_POINTER) && TypeSize(SELF_POINTER, 0) == Some(8)
  {
    SelfAddressIs();
    PaddingKeepsValue(SELF_ADDRESS, 8);
    assert Fits(SELF_REGIONS[0], 0x1000, 8) && SELF_ADDRESS[0..8] == SELF_ADDRESS;
    forall t: nat ensures ChainEnds(SELF_POINTER, t) {
    }
  }

  lemma SelfAddressIs()
    ensures FromLe(SELF_ADDRESS) == 0x1000
  {
    var zeros := seq(6, _ => 0 as byte);
    assert SELF_ADDRESS == [0, 16] + zeros;
    ZerosAddNothing(6);
    FromLeAppend([0, 16], zeros);
    assert [0, 16][1..] == [16 as byte] && [16 as byte][1..] == [];
    assert FromLe([16]) == 16 && FromLe([0, 16]) == 0x1000;
  }

  lemma SelfPointerStep(depth: nat)
    requires AliasesEnd(SELF_POINTER)
    ensures
      var v := DecodeValue(SELF_POINTER, SELF_REGIONS, 0, SELF_ADDRESS, depth);
      v == if depth < 6 then Reference(DecodeValue(SELF_POINTER, SELF_REGIONS, 0, SELF_ADDRESS, depth + 1), 0x1000, 0)
           else RawAddress(0x1000, 0)
  {
    SelfPointerIsRead();
    PointerStep(SELF_POINTER, SELF_REGIONS, 0, 0, SELF_ADDRESS, 0x1000, 8, SELF_ADDRESS, depth);
  }

  lemma PointerStep(types: seq<TypeDesc>, regions: seq<Region>, t: TypeRef, target: TypeRef, bytes: seq<byte>,
                    address: u64, size: u64, data: seq<byte>, depth: nat)
    requires AliasesEnd(types) && t < |types| && types[t] == Pointer(Some(target)) && TypeSize(types, target) == Some(size)
    requires LeU64(bytes) == address && ReadRegions(regions, address, size) == Some(data)
    ensures DecodeValue(types, regions, t, bytes, depth) ==
      if depth < 6 then Reference(DecodeValue(types, regions, target, data, depth + 1), address, t)
      else RawAddress(address, t)
  {
    assert DecodeValue(types, regions, t, bytes, depth) == DecodeKind(types, regions, t, bytes, depth);
  }

  lemma {:induction false} SelfPointerNests(depth: nat)
    requires depth <= 6 && AliasesEnd(SELF_POINTER)
    ensures Nesting(DecodeValue(SELF_POINTER, SELF_REGIONS, 0, SELF_ADDRESS, depth)) == 6 - depth
    decreases 6 - depth
  {
    SelfPointerStep(depth);
    if depth < 6 {
      SelfPointerNests(depth + 1);
    }
  }

  /** No record nests more than six levels, and a pointer to itself nests as many. */
  lemma NestingIsAttained(types: seq<TypeDesc>, regions: seq<Region>, t: TypeRef, bytes: seq<byte>)
    requires AliasesEnd(types)
    ensures Nesting(DecodeValue(types, regions, t, bytes, 0)) <= 6
    ensures AliasesEnd(SELF_POINTER) && Nesting(DecodeValue(SELF_POINTER, SELF_REGIONS, 0, SELF_ADDRESS, 0)) == 6
  {
    NestingIsBounded(types, regions, t, bytes, 0);
    SelfPointerIsRead();
    SelfPointerNests(0);
  }
}
