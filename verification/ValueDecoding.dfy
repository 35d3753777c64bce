/** Decoding the bytes of a value by its DWARF type (`decode_value`, `decode_base` and their helpers
    in `src/source_recorder.rs`). */
module ValueDecoding {
  import opened Words
  import opened Wrappers
  import opened SbfMemory
  import opened DebugModel
  import opened Utf8

  const MAX_VALUE_DEPTH := 6
  const MAX_ARRAY_ELEMENTS := 64

  /** A recorded value.  `ty` stands for the type id the trace writer interned the type under. */
  datatype ValueRecord =
    | NoValue
    | ZeroSized(ty: TypeRef)
    | Bool(b: bool, ty: TypeRef)
    | Float(bits: seq<byte>, ty: TypeRef)
    | Char(c: nat, ty: TypeRef)
    | Int(i: int, ty: TypeRef)
    | BigInt(magnitude: seq<byte>, negative: bool, ty: TypeRef)
    | Reference(dereferenced: ValueRecord, address: u64, ty: TypeRef)
    | StructValue(fields: seq<ValueRecord>, ty: TypeRef)
    | Sequence(elements: seq<ValueRecord>, ty: TypeRef)
    | RawAddress(address: u64, ty: TypeRef)
    | RawBytes(bytes: seq<byte>, ty: TypeRef)
    | Panicked(ty: TypeRef) // no record: the source panics, slicing a float or reserving a variable

  const TWO63: int := 0x8000_0000_0000_0000
  const TWO127: int := 0x8000_0000_0000_0000_0000_0000_0000_0000
  const TWO128: int := 0x1_0000_0000_0000_0000_0000_0000_0000_0000

  /** `bytes` cut or zero-padded to n bytes, as the fixed arrays of `le_u64` and `pad16` hold it. */
  function Padded(bytes: seq<byte>, n: nat): (r: seq<byte>)
    ensures |r| == n
  {
    if |bytes| >= n then bytes[..n] else bytes + seq(n - |bytes|, _ => 0 as byte)
  }

  function LeU64(bytes: seq<byte>): u64 {
    var r := FromLe(Padded(bytes, 8));
    EightBytes(Padded(bytes, 8));
    r
  }

  lemma EightBytes(bytes: seq<byte>)
    requires |bytes| == 8
    ensures FromLe(bytes) < TWO64
  {
    FromLeBound(bytes);
    Powers();
  }

  lemma Powers()
    ensures Pow256(1) == 0x100 && Pow256(2) == 0x1_0000 && Pow256(3) == 0x100_0000
    ensures Pow256(4) == 0x1_0000_0000 && Pow256(5) == 0x100_0000_0000 && Pow256(6) == 0x1_0000_0000_0000
    ensures Pow256(7) == 0x100_0000_0000_0000 && Pow256(8) == TWO64 && Pow256(16) == TWO128
  {
  }

  /** A 64-bit word read as a signed number (`as i64`). */
  function AsI64(x: u64): int {
    if x >= TWO63 then x - TWO64 else x
  }

  function FitsI64(v: int): bool {
    -TWO63 <= v < TWO63
  }

  /** The shift pair of the source: left by 8 * (8 - size) bits, then arithmetically right.  Shifting
      right by whole bytes is floor division. */
  function ShiftPair(word: u64, size: nat): int
    requires 1 <= size <= 8
  {
    var shift := Pow256(8 - size);
    AsI64(Wrap(word * shift)) / shift
  }

  function BigOrInt(v: int, width: nat, ty: TypeRef): ValueRecord {
    if FitsI64(v) then Int(v, ty) else BigInt(Reverse(ToLe(Abs(v), width)), v < 0, ty)
  }

  function DecodeBase(encoding: Encoding, size: u64, bytes: seq<byte>, ty: TypeRef): ValueRecord
    requires encoding == FloatingPoint && size in {4, 8} ==> |bytes| >= size
  {
    if encoding == Boolean then
      Bool(exists i :: 0 <= i < |bytes| && bytes[i] != 0, ty)
    else if encoding == FloatingPoint && size == 4 then Float(bytes[..4], ty)
    else if encoding == FloatingPoint && size == 8 then Float(bytes[..8], ty)
    else if encoding in {Utf, UnsignedChar, SignedChar} && size <= 4 then
      var low := LeU64(bytes) % 0x1_0000_0000;
      if IsScalar(low) then Char(low, ty) else Int(AsI64(LeU64(bytes)), ty)
    else if encoding == Signed && size <= 8 then
      Int(ShiftPair(LeU64(bytes), Max(size, 1)), ty)
    else if size <= 8 then
      BigOrInt(LeU64(bytes), 8, ty)
    else if encoding == Signed then
      var u := FromLe(Padded(bytes, 16));
      BigOrInt(if u >= TWO127 then u - TWO128 else u, 16, ty)
    else
      BigOrInt(FromLe(Padded(bytes, 16)), 16, ty)
  }

  // ---------------------------------------------------------------------------
  // What a decoded base value denotes
  // ---------------------------------------------------------------------------

  /** The integer a recorded value denotes; None for the records that are not integers. */
  function Denotes(v: ValueRecord): Option<int> {
    match v
    case Int(i, _) => Some(i)
    case BigInt(magnitude, negative, _) =>
      var m: int := FromBe(magnitude);
      Some(if negative then -m else m)
    case _ => None
  }

  lemma {:induction false} ZerosAddNothing(n: nat)
    ensures FromLe(seq(n, _ => 0 as byte)) == 0
  {
    if n > 0 {
      assert seq(n, _ => 0 as byte)[1..] == seq(n - 1, _ => 0 as byte);
      ZerosAddNothing(n - 1);
    }
  }

  /** Padding with zero bytes keeps the number. */
  lemma PaddingKeepsValue(bytes: seq<byte>, n: nat)
    requires |bytes| <= n
    ensures FromLe(Padded(bytes, n)) == FromLe(bytes)
  {
    if |bytes| == n {
      assert bytes[..n] == bytes;
    } else {
      var zeros := seq(n - |bytes|, _ => 0 as byte);
      assert Padded(bytes, n) == bytes + zeros;
      ZerosAddNothing(n - |bytes|);
      AppendNothing(bytes, zeros);
    }
  }

  lemma AppendNothing(bytes: seq<byte>, zeros: seq<byte>)
    requires FromLe(zeros) == 0
    ensures FromLe(bytes + zeros) == FromLe(bytes)
  {
    FromLeAppend(bytes, zeros);
  }

  lemma BigOrIntDenotes(v: int, width: nat, ty: TypeRef)
    requires Abs(v) < Pow256(width)
    ensures Denotes(BigOrInt(v, width, ty)) == Some(v)
  {
    if !FitsI64(v) {
      FromBeReverse(ToLe(Abs(v), width));
      FromLeToLe(Abs(v), width);
    }
  }

  /** The arithmetic of the shift pair: v scaled to the top of a word and back is v, or v - p when
      its top bit was set. */
  lemma ScaledAndBack(v: nat, p: nat, shift: nat)
    requires v < p && shift > 0 && p * shift == TWO64
    ensures AsI64(Wrap(v * shift)) / shift == if 2 * v >= p then v - p else v
  {
    ScaledBelow(v, p, shift);
    assert Wrap(v * shift) == v * shift;
    if 2 * v >= p {
      ScaledTop(v, p, shift);
      FloorOfMultiple(v - p, shift);
      assert v * shift - TWO64 == (v - p) * shift;
    } else {
      ScaledBelow(2 * v, p, shift);
      assert 2 * (v * shift) == (2 * v) * shift;
      FloorOfMultiple(v, shift);
    }
  }

  /** The shift pair sign-extends: it reads the low `size` bytes in two's complement. */
  lemma ShiftPairIsSignExtension(bytes: seq<byte>)
    requires 1 <= |bytes| <= 8
    ensures ShiftPair(LeU64(bytes), |bytes|) == FromTwos(bytes)
  {
    PaddingKeepsValue(bytes, 8);
    FromLeBound(bytes);
    PowersComplement(|bytes|);
    ScaledAndBack(FromLe(bytes), Pow256(|bytes|), Pow256(8 - |bytes|));
  }

  lemma PowersComplement(n: nat)
    requires 1 <= n <= 8
    ensures Pow256(n) * Pow256(8 - n) == TWO64
  {
    Powers();
    match n { case 1 => case 2 => case 3 => case 4 => case 5 => case 6 => case 7 => case _ => }
  }

  lemma ScaledBelow(v: nat, p: nat, shift: nat)
    requires v < p && shift > 0
    ensures v * shift < p * shift
  {
  }

  lemma ScaledTop(v: nat, p: nat, shift: nat)
    requires 2 * v >= p && shift > 0
    ensures 2 * (v * shift) >= p * shift
  {
  }

  lemma FloorOfMultiple(k: int, d: int)
    requires d > 0
    ensures (k * d) / d == k
  {
    var q, r := (k * d) / d, (k * d) % d;
    assert k * d == d * q + r;
    assert r == d * (k - q);
    assert k - q >= 1 ==> d * (k - q) >= d * 1;
    assert k - q <= -1 ==> d * (k - q) <= d * -1;
  }

  /** What the bytes of a base type are worth: two's complement for signed encodings. */
  function BaseValue(encoding: Encoding, bytes: seq<byte>): int {
    if encoding == Signed then FromTwos(bytes) else FromLe(bytes)
  }

  /** Encodings that are integers whatever their size. */
  predicate IsInteger(encoding: Encoding) {
    encoding in {Signed, Unsigned}
  }

  /** What an integer base type records, whatever bytes it is given: the number they hold once cut or
      zero-padded to the declared size (signed), to 8 bytes (unsigned), or to 16. */
  lemma AnyBaseDenotes(encoding: Encoding, size: u64, bytes: seq<byte>, ty: TypeRef)
    requires IsInteger(encoding) && size >= 1
    ensures Denotes(DecodeBase(encoding, size, bytes, ty)) == Some(BaseValue(encoding, Padded(bytes, Taken(encoding, size))))
  {
    Powers();
    if size > 8 {
      var padded := Padded(bytes, 16);
      FromLeBound(padded);
      BigOrIntDenotes(BaseValue(encoding, padded), 16, ty);
    } else if encoding == Signed {
      ShiftPairOfPadded(bytes, size);
    } else {
      BigOrIntDenotes(LeU64(bytes), 8, ty);
    }
  }

  /** The bytes an integer of the given size is read from. */
  function Taken(encoding: Encoding, size: u64): nat {
    if size > 8 then 16 else if encoding == Signed then size else 8
  }

  lemma ShiftPairOfPadded(bytes: seq<byte>, size: nat)
    requires 1 <= size <= 8
    ensures ShiftPair(LeU64(bytes), size) == FromTwos(Padded(bytes, size))
  {
    var word, low := Padded(bytes, 8), Padded(bytes, size);
    assert word[..size] == low;
    var high := FromLe(word[size..]);
    assert word == low + word[size..];
    FromLeAppend(low, word[size..]);
    FromLeBound(low);
    PowersComplement(size);
    var v, p, shift := FromLe(low), Pow256(size), Pow256(8 - size);
    assert FromLe(word) * shift == v * shift + TWO64 * high by {
      Rescale(v, p, shift, high);
    }
    WrapAddsNothing(v * shift, high);
    ScaledAndBack(v, p, shift);
  }

  lemma Rescale(v: nat, p: nat, shift: nat, high: nat)
    requires p * shift == TWO64
    ensures (v + p * high) * shift == v * shift + TWO64 * high
  {
    assert (p * high) * shift == (p * shift) * high;
  }

  lemma WrapAddsNothing(x: nat, q: nat)
    ensures Wrap(x + TWO64 * q) == Wrap(x)
  {
  }

  lemma SmallBaseDenotes(encoding: Encoding, bytes: seq<byte>, ty: TypeRef)
    requires IsInteger(encoding) && 1 <= |bytes| <= 8
    ensures Denotes(DecodeBase(encoding, |bytes|, bytes, ty)) == Some(BaseValue(encoding, bytes))
  {
    AnyBaseDenotes(encoding, |bytes|, bytes, ty);
    assert bytes[..|bytes|] == bytes;
    PaddingKeepsValue(bytes, 8);
  }

  /** The number is recorded right: sizes up to 8 always; from 9 to 15 unsigned or non-negative ones,
      because the 16-byte path zero-pads; from 16 on those that fit in 16 bytes. */
  predicate RecordedRight(encoding: Encoding, bytes: seq<byte>) {
    var v := BaseValue(encoding, bytes);
    if |bytes| <= 8 then true
    else if encoding == Signed then (if |bytes| < 16 then 0 <= v else -TWO127 <= v < TWO127)
    else v < TWO128
  }

  /** Given as many bytes as its size, an integer is recorded as the value of its bytes if and only
      if it is one of those. */
  lemma BaseDenotesIff(encoding: Encoding, bytes: seq<byte>, ty: TypeRef)
    requires IsInteger(encoding) && 1 <= |bytes| < TWO64
    ensures Denotes(DecodeBase(encoding, |bytes|, bytes, ty)) == Some(BaseValue(encoding, bytes))
       <==> RecordedRight(encoding, bytes)
  {
    AnyBaseDenotes(encoding, |bytes|, bytes, ty);
    if |bytes| <= 8 {
      SmallBaseDenotes(encoding, bytes, ty);
    } else if |bytes| < 16 {
      ZeroPadded(encoding, bytes);
    } else {
      LowSixteen(encoding, bytes);
    }
  }

  lemma ZeroPadded(encoding: Encoding, bytes: seq<byte>)
    requires IsInteger(encoding) && 8 < |bytes| < 16
    ensures BaseValue(encoding, Padded(bytes, 16)) == BaseValue(encoding, bytes) <==> RecordedRight(encoding, bytes)
  {
    PaddingKeepsValue(bytes, 16);
    FromLeBound(bytes);
    Powers();
    assert 2 * Pow256(15) <= TWO128;
    PowMonotone(|bytes|, 15);
  }

  lemma LowSixteen(encoding: Encoding, bytes: seq<byte>)
    requires IsInteger(encoding) && |bytes| >= 16
    ensures BaseValue(encoding, Padded(bytes, 16)) == BaseValue(encoding, bytes) <==> RecordedRight(encoding, bytes)
  {
    LongNumber(bytes[..16], bytes[16..]);
    assert bytes == bytes[..16] + bytes[16..];
    Powers();
  }

  /** A number of 16 bytes and more: the low 16 bytes and the rest. */
  lemma LongNumber(low: seq<byte>, high: seq<byte>)
    requires |low| == 16
    ensures FromLe(low + high) == FromLe(low) + TWO128 * FromLe(high) && FromLe(low) < TWO128
    ensures
      FromTwos(low + high) == if high == [] then FromTwos(low) else FromLe(low) + TWO128 * FromTwos(high)
  {
    Powers();
    FromLeAppend(low, high);
    FromLeBound(low);
    if high == [] {
      assert low + high == low;
    } else {
      PowerOfLong(|high|);
      var p, h := Pow256(|high|), FromLe(high);
      assert p == 256 * Pow256(|high| - 1);
      if 2 * h >= p {
        assert 2 * (FromLe(low) + TWO128 * h) >= TWO128 * p;
      } else {
        assert 2 * h <= p - 2;
        assert 2 * (FromLe(low) + TWO128 * h) < TWO128 * p;
      }
    }
  }

  lemma {:induction false} PowerOfLong(n: nat)
    ensures Pow256(16 + n) == TWO128 * Pow256(n)
  {
    if n == 0 {
      Powers();
    } else {
      PowerOfLong(n - 1);
      assert Pow256(16 + n) == 256 * Pow256(16 + (n - 1));
    }
  }

  /** Nine bytes of a negative number are recorded as a positive one. */
  lemma NineBytesLoseTheSign(ty: TypeRef)
    ensures
      var bytes := seq(9, _ => 0xff as byte);
      && BaseValue(Signed, bytes) == -1
      && Denotes(DecodeBase(Signed, 9, bytes, ty)) == Some(Pow256(9) - 1)
  {
    var bytes := seq(9, _ => 0xff as byte);
    AllOnes(9);
    AnyBaseDenotes(Signed, 9, bytes, ty);
    PaddingKeepsValue(bytes, 16);
    Powers();
    PowMonotone(9, 15);
    assert Pow256(9) == 256 * Pow256(8);
  }

  lemma {:induction false} AllOnes(n: nat)
    ensures FromLe(seq(n, _ => 0xff as byte)) == Pow256(n) - 1
  {
    if n > 0 {
      assert seq(n, _ => 0xff as byte)[1..] == seq(n - 1, _ => 0xff as byte);
      AllOnes(n - 1);
    }
  }

  lemma {:induction false} PowMonotone(a: nat, b: nat)
    requires a <= b
    ensures Pow256(a) <= Pow256(b)
    decreases b
  {
    if a < b {
      PowMonotone(a, b - 1);
    }
  }

  // ---------------------------------------------------------------------------
  // Values of any type
  // ---------------------------------------------------------------------------

  /** Alias steps from `t`, counted up to `fuel`. */
  function AliasHops(types: seq<TypeDesc>, t: TypeRef, fuel: nat): (n: nat)
    ensures n <= fuel
    decreases fuel
  {
    if fuel == 0 || t >= |types| then 0
    else
      match types[t]
      case Alias(Some(target)) => 1 + AliasHops(types, target, fuel - 1)
      case _ => 0
  }

  function AliasRank(types: seq<TypeDesc>, t: TypeRef): nat {
    AliasHops(types, t, |types| + 1)
  }

  /** Every chain of typedefs and qualifiers ends: none takes more steps than there are types.  On a
      cyclic chain the source recurses for ever. */
  ghost predicate AliasesEnd(types: seq<TypeDesc>) {
    forall t: nat :: ChainEnds(types, t)
  }

  ghost predicate ChainEnds(types: seq<TypeDesc>, t: TypeRef) {
    AliasRank(types, t) <= |types|
  }

  lemma {:induction false} MoreFuel(types: seq<TypeDesc>, t: TypeRef, fuel: nat)
    requires AliasHops(types, t, fuel) < fuel
    ensures AliasHops(types, t, fuel + 1) == AliasHops(types, t, fuel)
    decreases fuel
  {
    if t < |types| && types[t].Alias? && types[t].target.Some? {
      MoreFuel(types, types[t].target.value, fuel - 1);
    }
  }

  lemma AliasStepDecreases(types: seq<TypeDesc>, t: TypeRef)
    requires AliasesEnd(types) && t < |types| && types[t].Alias? && types[t].target.Some?
    ensures AliasRank(types, types[t].target.value) + 1 == AliasRank(types, t)
  {
    assert ChainEnds(types, t);
    assert AliasRank(types, t) == 1 + AliasHops(types, types[t].target.value, |types|) <= |types|;
    MoreFuel(types, types[t].target.value, |types|);
  }

  function DepthLeft(depth: nat): nat {
    if depth < MAX_VALUE_DEPTH then MAX_VALUE_DEPTH - depth else 0
  }

  /** The bytes of a member or element, when they lie inside the value's bytes. */
  function Part(bytes: seq<byte>, start: nat, size: nat): Option<seq<byte>> {
    if start + size <= |bytes| then Some(bytes[start..start + size]) else None
  }

  /** The record of a value of type `ty` with the given bytes.  Pointers are followed in `regions`,
      aggregates and pointees to MAX_VALUE_DEPTH levels. */
  function DecodeValue(types: seq<TypeDesc>, regions: seq<Region>, ty: TypeRef, bytes: seq<byte>, depth: nat): ValueRecord
    requires AliasesEnd(types)
    decreases DepthLeft(depth), 1 + AliasRank(types, ty), 1
  {
    if ty >= |types| then RawBytes(bytes, ty) else DecodeKind(types, regions, ty, bytes, depth)
  }

  /** By the kind of the type.  The bytes can be fewer than the type's: a member or element whose size
      is not known gets none. */
  function DecodeKind(types: seq<TypeDesc>, regions: seq<Region>, ty: TypeRef, bytes: seq<byte>, depth: nat): ValueRecord
    requires AliasesEnd(types) && ty < |types|
    decreases DepthLeft(depth), 1 + AliasRank(types, ty), 0
  {
    match types[ty]
    case Alias(Some(target)) =>
      AliasStepDecreases(types, ty);
      DecodeValue(types, regions, target, bytes, depth)
    case Base(encoding, size) =>
      if size == 0 then ZeroSized(ty)
      else if encoding == FloatingPoint && size in {4, 8} && |bytes| < size then Panicked(ty)
      else DecodeBase(encoding, size, bytes, ty)
    case Pointer(target) =>
      var address := LeU64(bytes);
      if target.None? || depth >= MAX_VALUE_DEPTH || TypeSize(types, target.value).None? then RawAddress(address, ty)
      else
        var data := ReadRegions(regions, address, TypeSize(types, target.value).value);
        if data.None? then RawAddress(address, ty)
        else Reference(DecodeValue(types, regions, target.value, data.value, depth + 1), address, ty)
    case Struct(_, members) =>
      if depth < MAX_VALUE_DEPTH then StructValue(DecodeMembers(types, regions, members, bytes, depth), ty)
      else RawBytes(bytes, ty)
    case Array(Some(element), Some(count)) =>
      if depth < MAX_VALUE_DEPTH && count <= MAX_ARRAY_ELEMENTS then
        Sequence(DecodeElements(types, regions, element, TypeSize(types, element).GetOr(0), 0, count, bytes, depth), ty)
      else RawBytes(bytes, ty)
    case _ => RawBytes(bytes, ty)
  }

  function DecodeMembers(types: seq<TypeDesc>, regions: seq<Region>, members: seq<Member>, bytes: seq<byte>, depth: nat):
    (r: seq<ValueRecord>)
    requires AliasesEnd(types) && depth < MAX_VALUE_DEPTH
    ensures |r| == |members|
    decreases DepthLeft(depth), 0, |members|
  {
    if members == [] then []
    else
      var m := members[0];
      var first :=
        if m.ty.None? then NoValue
        else
          match Part(bytes, m.offset, TypeSize(types, m.ty.value).GetOr(0))
          case None => NoValue
          case Some(field) => DecodeValue(types, regions, m.ty.value, field, depth + 1);
      [first] + DecodeMembers(types, regions, members[1..], bytes, depth)
  }

  /** Elements i, i + 1, ..., count - 1. */
  function DecodeElements(types: seq<TypeDesc>, regions: seq<Region>, element: TypeRef, size: nat, i: nat, count: nat,
                          bytes: seq<byte>, depth: nat): (r: seq<ValueRecord>)
    requires AliasesEnd(types) && depth < MAX_VALUE_DEPTH && i <= count
    ensures |r| == count - i
    decreases DepthLeft(depth), 0, count - i
  {
    if i == count then []
    else
      var first := match Part(bytes, i * size, size)
                   case None => NoValue
                   case Some(e) => DecodeValue(types, regions, element, e, depth + 1);
      [first] + DecodeElements(types, regions, element, size, i + 1, count, bytes, depth)
  }

  /** Levels of references, structs and arrays nested in a record. */
  function Nesting(v: ValueRecord): nat {
    match v
    case Reference(inner, _, _) => 1 + Nesting(inner)
    case StructValue(fields, _) => 1 + MaxNesting(fields)
    case Sequence(elements, _) => 1 + MaxNesting(elements)
    case _ => 0
  }

  function MaxNesting(vs: seq<ValueRecord>): nat {
    if vs == [] then 0 else Max(Nesting(vs[0]), MaxNesting(vs[1..]))
  }

  /** Even on cyclic pointer graphs a record nests at most MAX_VALUE_DEPTH levels. */
  lemma {:induction false} NestingIsBounded(types: seq<TypeDesc>, regions: seq<Region>, ty: TypeRef, bytes: seq<byte>, depth: nat)
    requires AliasesEnd(types)
    ensures Nesting(DecodeValue(types, regions, ty, bytes, depth)) <= DepthLeft(depth)
    decreases DepthLeft(depth), 1 + AliasRank(types, ty), 0
  {
    if ty < |types| {
      assert DecodeValue(types, regions, ty, bytes, depth) == DecodeKind(types, regions, ty, bytes, depth);
      match types[ty]
      case Alias(Some(target)) =>
        AliasStepDecreases(types, ty);
        NestingIsBounded(types, regions, target, bytes, depth);
      case Pointer(Some(target)) =>
        if depth < MAX_VALUE_DEPTH && TypeSize(types, target).Some? {
          var data := ReadRegions(regions, LeU64(bytes), TypeSize(types, target).value);
          if data.Some? {
            NestingIsBounded(types, regions, target, data.value, depth + 1);
          }
        }
      case Struct(_, members) =>
        if depth < MAX_VALUE_DEPTH {
          MembersNestingIsBounded(types, regions, members, bytes, depth);
        }
      case Array(Some(element), Some(count)) =>
        if depth < MAX_VALUE_DEPTH && count <= MAX_ARRAY_ELEMENTS {
          ElementsNestingIsBounded(types, regions, element, TypeSize(types, element).GetOr(0), 0, count, bytes, depth);
        }
      case _ =>
    }
  }

  lemma {:induction false} MembersNestingIsBounded(types: seq<TypeDesc>, regions: seq<Region>, members: seq<Member>,
                                                   bytes: seq<byte>, depth: nat)
    requires AliasesEnd(types) && depth < MAX_VALUE_DEPTH
    ensures MaxNesting(DecodeMembers(types, regions, members, bytes, depth)) <= DepthLeft(depth + 1)
    decreases DepthLeft(depth), 0, |members|
  {
    if members != [] {
      var m := members[0];
      if m.ty.Some? {
        var part := Part(bytes, m.offset, TypeSize(types, m.ty.value).GetOr(0));
        if part.Some? {
          NestingIsBounded(types, regions, m.ty.value, part.value, depth + 1);
        }
      }
      MembersNestingIsBounded(types, regions, members[1..], bytes, depth);
    }
  }

  lemma {:induction false} ElementsNestingIsBounded(types: seq<TypeDesc>, regions: seq<Region>, element: TypeRef, size: nat,
                                                    i: nat, count: nat, bytes: seq<byte>, depth: nat)
    requires AliasesEnd(types) && depth < MAX_VALUE_DEPTH && i <= count
    ensures MaxNesting(DecodeElements(types, regions, element, size, i, count, bytes, depth)) <= DepthLeft(depth + 1)
    decreases DepthLeft(depth), 0, count - i
  {
    if i < count {
      var part := Part(bytes, i * size, size);
      if part.Some? {
        NestingIsBounded(types, regions, element, part.value, depth + 1);
      }
      ElementsNestingIsBounded(types, regions, element, size, i + 1, count, bytes, depth);
    }
  }
}
