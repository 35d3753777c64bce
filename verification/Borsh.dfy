/** Borsh account decoding (`BorshDecoder` and `AnchorIdl::decode_account` in
    `src/account_decoder.rs`).  The decoder is a cursor over the account's bytes; it accepts exactly
    the encodings of well-typed values, apart from a `true` spelled with any non-zero byte. */
module Borsh {
  import opened Words
  import opened Wrappers
  import opened Utf8

  type u16 = x: int | 0 <= x < 0x1_0000
  type u32 = x: int | 0 <= x < 0x1_0000_0000
  type i64 = x: int | -0x8000_0000_0000_0000 <= x < 0x8000_0000_0000_0000

  /** `IdlType`: a name, or a one-level map such as { "vec": inner }. */
  datatype IdlType = Simple(name: string) | Compound(entries: map<string, IdlType>)

  /** The names a simple type can have. */
  datatype Scalar = U8Type | U16Type | U32Type | U64Type | I64Type | BoolType | StringType | PubkeyType

  const SCALARS: seq<(string, Scalar)> := [
    ("u8", U8Type), ("u16", U16Type), ("u32", U32Type), ("u64", U64Type), ("i64", I64Type),
    ("bool", BoolType), ("string", StringType), ("publicKey", PubkeyType)]

  function ScalarNamed(name: string): Option<Scalar> {
    ScalarAmong(SCALARS, name)
  }

  function ScalarAmong(table: seq<(string, Scalar)>, name: string): Option<Scalar> {
    if table == [] then None
    else if table[0].0 == name then Some(table[0].1)
    else ScalarAmong(table[1..], name)
  }

  /** `DecodedValue`; a string is the bytes of its UTF-8 form. */
  datatype DecodedValue =
    | U8(u8: byte)
    | U16(u16: u16)
    | U32(u32: u32)
    | U64(u64: u64)
    | I64(i64: i64)
    | Bool(flag: bool)
    | Text(utf8: seq<byte>)
    | Pubkey(key: seq<byte>)
    | Vec(elements: seq<DecodedValue>)

  datatype Error = NotEnoughData | NotUtf8 | Unsupported | AccountNotFound | NotAStruct

  /** What a read returns, and where it leaves the cursor. */
  datatype Read<+T> = Read(result: Result<T, Error>, pos: nat)

  // ---------------------------------------------------------------------------
  // The format
  // ---------------------------------------------------------------------------

  /** Borsh: little-endian integers, one byte per bool, length-prefixed strings and vectors. */
  function Encode(v: DecodedValue): seq<byte> {
    match v
    case U8(x) => ToLe(x, 1)
    case U16(x) => ToLe(x, 2)
    case U32(x) => ToLe(x, 4)
    case U64(x) => ToLe(x, 8)
    case I64(x) => ToLe(Wrap(x), 8)
    case Bool(b) => [if b then 1 else 0]
    case Text(s) => ToLe(|s|, 4) + s
    case Pubkey(k) => k
    case Vec(elements) => ToLe(|elements|, 4) + EncodeAll(elements)
  }

  function EncodeAll(vs: seq<DecodedValue>): seq<byte> {
    if vs == [] then [] else EncodeAll(vs[..|vs| - 1]) + Encode(vs[|vs| - 1])
  }

  /** Where an encoding has the byte of a `true`: any non-zero byte reads the same there. */
  function Trues(v: DecodedValue): (mask: seq<bool>)
    ensures |mask| == |Encode(v)|
  {
    match v
    case Bool(b) => [b]
    case Vec(elements) => Falses(4) + TruesAll(elements)
    case _ => Falses(|Encode(v)|)
  }

  function TruesAll(vs: seq<DecodedValue>): (mask: seq<bool>)
    ensures |mask| == |EncodeAll(vs)|
  {
    if vs == [] then [] else TruesAll(vs[..|vs| - 1]) + Trues(vs[|vs| - 1])
  }

  function Falses(n: nat): (mask: seq<bool>)
    ensures |mask| == n
  {
    seq(n, _ => false)
  }

  /** The bytes are the encoding, up to the byte that spells `true`. */
  predicate Spells(bytes: seq<byte>, encoding: seq<byte>, mask: seq<bool>)
    requires |encoding| == |mask|
  {
    && |bytes| == |encoding|
    && forall k :: 0 <= k < |bytes| ==> bytes[k] == encoding[k] || (mask[k] && bytes[k] != 0)
  }

  predicate WellTyped(v: DecodedValue, ty: IdlType) {
    match ty
    case Simple(name) =>
      (match ScalarNamed(name)
       case None => false
       case Some(scalar) => HasScalar(v, scalar))
    case Compound(entries) =>
      "vec" in entries && v.Vec? && |v.elements| < 0x1_0000_0000 && AllTyped(v.elements, entries["vec"])
  }

  predicate AllTyped(vs: seq<DecodedValue>, inner: IdlType) {
    forall k :: 0 <= k < |vs| ==> WellTyped(vs[k], inner)
  }

  predicate HasScalar(v: DecodedValue, scalar: Scalar) {
    match scalar
    case U8Type => v.U8?
    case U16Type => v.U16?
    case U32Type => v.U32?
    case U64Type => v.U64?
    case I64Type => v.I64?
    case BoolType => v.Bool?
    case StringType => v.Text? && |v.utf8| < 0x1_0000_0000 && IsUtf8(v.utf8)
    case PubkeyType => v.Pubkey? && |v.key| == 32
  }

  // ---------------------------------------------------------------------------
  // The reader, as a function of the data and the cursor
  // ---------------------------------------------------------------------------

  /** n bytes, if they are there; the cursor moves only then. */
  function ReadBytes(data: seq<byte>, pos: nat, n: nat): (r: Read<seq<byte>>)
    requires pos <= |data|
    ensures pos <= r.pos <= |data|
    ensures r.result.Ok? ==> |r.result.value| == n
  {
    if pos + n <= |data| then Read(Ok(data[pos..pos + n]), pos + n) else Read(Err(NotEnoughData), pos)
  }

  function Uint32(bytes: seq<byte>): u32
    requires |bytes| == 4
  {
    FromLeBound(bytes);
    PowersOf256();
    FromLe(bytes)
  }

  lemma PowersOf256()
    ensures Pow256(1) == 0x100 && Pow256(2) == 0x1_0000 && Pow256(4) == 0x1_0000_0000 && Pow256(8) == TWO64
  {
  }

  /** The bytes a fixed-size scalar takes; 0 for strings. */
  function Width(scalar: Scalar): nat {
    match scalar
    case U8Type => 1
    case U16Type => 2
    case U32Type => 4
    case U64Type => 8
    case I64Type => 8
    case BoolType => 1
    case StringType => 0
    case PubkeyType => 32
  }

  function FixedValue(scalar: Scalar, bytes: seq<byte>): (v: DecodedValue)
    requires scalar != StringType && |bytes| == Width(scalar)
  {
    FromLeBound(bytes);
    PowersOf256();
    match scalar
    case U8Type => U8(FromLe(bytes))
    case U16Type => U16(FromLe(bytes))
    case U32Type => U32(FromLe(bytes))
    case U64Type => U64(FromLe(bytes))
    case I64Type => I64(FromTwos(bytes))
    case BoolType => Bool(bytes[0] != 0)
    case PubkeyType => Pubkey(bytes)
  }

  /** `read_string`: the length is consumed even when the string then fails. */
  function ReadText(data: seq<byte>, pos: nat): (r: Read<seq<byte>>)
    requires pos <= |data|
    ensures pos <= r.pos <= |data|
  {
    var header := ReadBytes(data, pos, 4);
    match header.result
    case Err(e) => Read(Err(e), header.pos)
    case Ok(bytes) =>
      var text := ReadBytes(data, header.pos, Uint32(bytes));
      if text.result.Ok? && !IsUtf8(text.result.value) then Read(Err(NotUtf8), header.pos) else text
  }

  function DecodeScalar(data: seq<byte>, pos: nat, scalar: Scalar): (r: Read<DecodedValue>)
    requires pos <= |data|
    ensures pos <= r.pos <= |data|
  {
    if scalar == StringType then
      var text := ReadText(data, pos);
      match text.result
      case Err(e) => Read(Err(e), text.pos)
      case Ok(s) => Read(Ok(Text(s)), text.pos)
    else
      var bytes := ReadBytes(data, pos, Width(scalar));
      match bytes.result
      case Err(e) => Read(Err(e), bytes.pos)
      case Ok(b) => Read(Ok(FixedValue(scalar, b)), bytes.pos)
  }

  // `Decode` and `DecodeFields` take one more call to their bodies, so that the verifier unfolds
  // these only in the proofs that name them.

  /** `decode_type` */
  function Decode(data: seq<byte>, pos: nat, ty: IdlType): (r: Read<DecodedValue>)
    requires pos <= |data|
    ensures pos <= r.pos <= |data|
    decreases ty, 1
  {
    DecodeByType(data, pos, ty)
  }

  function DecodeByType(data: seq<byte>, pos: nat, ty: IdlType): (r: Read<DecodedValue>)
    requires pos <= |data|
    ensures pos <= r.pos <= |data|
    decreases ty, 0
  {
    match ty
    case Simple(name) =>
      (match ScalarNamed(name)
       case None => Read(Err(Unsupported), pos)
       case Some(scalar) => DecodeScalar(data, pos, scalar))
    case Compound(entries) =>
      if "vec" !in entries then Read(Err(Unsupported), pos)
      else
        var header := ReadBytes(data, pos, 4);
        match header.result
        case Err(e) => Read(Err(e), header.pos)
        case Ok(bytes) =>
          var elements := DecodeAll(data, header.pos, entries["vec"], Uint32(bytes));
          match elements.result
          case Err(e) => Read(Err(e), elements.pos)
          case Ok(vs) => Read(Ok(Vec(vs)), elements.pos)
  }

  /** The loop of `read_vec`: count elements, stopping at the first that fails. */
  function DecodeAll(data: seq<byte>, pos: nat, inner: IdlType, count: nat): (r: Read<seq<DecodedValue>>)
    requires pos <= |data|
    ensures pos <= r.pos <= |data|
    ensures r.result.Ok? ==> |r.result.value| == count
    decreases inner, count + 2
  {
    if count == 0 then Read(Ok([]), pos)
    else
      var front := DecodeAll(data, pos, inner, count - 1);
      match front.result
      case Err(e) => front
      case Ok(vs) =>
        var last := Decode(data, front.pos, inner);
        match last.result
        case Err(e) => Read(Err(e), last.pos)
        case Ok(v) => Read(Ok(vs + [v]), last.pos)
  }

  /** Once an element fails, the failure is the result. */
  lemma {:induction false} FailureSticks(data: seq<byte>, pos: nat, inner: IdlType, i: nat, count: nat)
    requires pos <= |data| && i <= count
    requires DecodeAll(data, pos, inner, i).result.Err?
    ensures DecodeAll(data, pos, inner, count) == DecodeAll(data, pos, inner, i)
  {
    if i < count {
      FailureSticks(data, pos, inner, i, count - 1);
    }
  }

  // ---------------------------------------------------------------------------
  // What is accepted
  // ---------------------------------------------------------------------------

  lemma SpellsPlain(bytes: seq<byte>, encoding: seq<byte>)
    ensures Spells(bytes, encoding, Falses(|encoding|)) <==> bytes == encoding
  {
  }

  /** Spelling a concatenation is spelling its parts. */
  lemma SpellsBoth(bytes: seq<byte>, a: seq<byte>, b: seq<byte>, m: seq<bool>, n: seq<bool>)
    requires |a| == |m| && |b| == |n| && |bytes| == |a| + |b|
    ensures Spells(bytes, a + b, m + n) <==> Spells(bytes[..|a|], a, m) && Spells(bytes[|a|..], b, n)
  {
  }

  lemma IntegerIff(bytes: seq<byte>, x: nat)
    ensures FromLe(bytes) == x <==> x < Pow256(|bytes|) && bytes == ToLe(x, |bytes|)
  {
    ToLeFromLe(bytes);
    FromLeBound(bytes);
    if x < Pow256(|bytes|) {
      FromLeToLe(x, |bytes|);
    }
  }

  lemma SignedIff(bytes: seq<byte>, x: i64)
    requires |bytes| == 8
    ensures FromTwos(bytes) == x <==> bytes == ToLe(Wrap(x), 8)
  {
    PowersOf256();
    FromLeBound(bytes);
    WrapOfSigned(x);
    IntegerIff(bytes, Wrap(x));
  }

  lemma WrapOfSigned(x: i64)
    ensures Wrap(x) == if x < 0 then x + TWO64 else x
  {
  }

  /** A fixed-size value and its bytes determine each other. */
  lemma FixedIff(scalar: Scalar, bytes: seq<byte>, v: DecodedValue)
    requires scalar != StringType && |bytes| == Width(scalar)
    ensures FixedValue(scalar, bytes) == v <==> HasScalar(v, scalar) && Spells(bytes, Encode(v), Trues(v))
  {
    if HasScalar(v, scalar) {
      SpellsPlain(bytes, Encode(v));
      PowersOf256();
      match v
      case U8(x) => IntegerIff(bytes, x);
      case U16(x) => IntegerIff(bytes, x);
      case U32(x) => IntegerIff(bytes, x);
      case U64(x) => IntegerIff(bytes, x);
      case I64(x) => SignedIff(bytes, x);
      case _ =>
    }
  }

  lemma FixedLength(scalar: Scalar, v: DecodedValue)
    requires scalar != StringType && HasScalar(v, scalar)
    ensures |Encode(v)| == Width(scalar)
  {
  }

  lemma HeaderIff(bytes: seq<byte>, n: nat)
    requires |bytes| == 4
    ensures Uint32(bytes) == n <==> n < 0x1_0000_0000 && bytes == ToLe(n, 4)
  {
    PowersOf256();
    ToLeFromLe(bytes);
    if n < 0x1_0000_0000 {
      FromLeToLe(n, 4);
    }
  }

  /** The bytes from pos to end are a spelling of v. */
  predicate SpelledAt(data: seq<byte>, pos: nat, end: nat, v: DecodedValue) {
    pos <= end <= |data| && Spells(data[pos..end], Encode(v), Trues(v))
  }

  predicate AllSpelledAt(data: seq<byte>, pos: nat, end: nat, vs: seq<DecodedValue>) {
    pos <= end <= |data| && Spells(data[pos..end], EncodeAll(vs), TruesAll(vs))
  }

  /** Well-typed values, spelled from pos to end. */
  predicate AllRead(data: seq<byte>, pos: nat, inner: IdlType, vs: seq<DecodedValue>, end: nat) {
    AllTyped(vs, inner) && AllSpelledAt(data, pos, end, vs)
  }

  lemma TextIff(data: seq<byte>, pos: nat, s: seq<byte>, end: nat)
    requires pos <= |data|
    ensures ReadText(data, pos) == Read(Ok(s), end) <==>
      |s| < 0x1_0000_0000 && IsUtf8(s) && pos <= end <= |data| && data[pos..end] == ToLe(|s|, 4) + s
  {
    if pos + 4 <= |data| {
      HeaderIff(data[pos..pos + 4], |s|);
      CutHeader(data, pos, end, ToLe(|s|, 4), s);
      assert ReadText(data, pos) == TextAfter(data, pos + 4, Uint32(data[pos..pos + 4]));
    }
  }

  /** What `read_string` returns once the length is known. */
  function TextAfter(data: seq<byte>, pos: nat, n: nat): (r: Read<seq<byte>>)
    requires pos <= |data|
    ensures forall s: seq<byte>, end: nat ::
      r == Read(Ok(s), end) <==> |s| == n && IsUtf8(s) && end == pos + n <= |data| && data[pos..end] == s
  {
    if pos + n > |data| then Read(Err(NotEnoughData), pos)
    else if !IsUtf8(data[pos..pos + n]) then Read(Err(NotUtf8), pos)
    else Read(Ok(data[pos..pos + n]), pos + n)
  }

  lemma CutHeader(data: seq<byte>, pos: nat, end: nat, header: seq<byte>, rest: seq<byte>)
    requires |header| == 4 && pos + 4 <= |data|
    ensures
      (pos <= end <= |data| && data[pos..end] == header + rest) <==>
      (end == pos + 4 + |rest| <= |data| && data[pos..pos + 4] == header && data[pos + 4..end] == rest)
  {
    if pos <= end <= |data| && data[pos..end] == header + rest {
      assert |data[pos..end]| == 4 + |rest|;
      assert data[pos..pos + 4] == data[pos..end][..4];
      assert data[pos + 4..end] == data[pos..end][4..];
    } else if end == pos + 4 + |rest| <= |data| {
      assert data[pos..end] == data[pos..pos + 4] + data[pos + 4..end];
    }
  }

  lemma ScalarIff(data: seq<byte>, pos: nat, scalar: Scalar, v: DecodedValue, end: nat)
    requires pos <= |data|
    ensures DecodeScalar(data, pos, scalar) == Read(Ok(v), end) <==>
      HasScalar(v, scalar) && SpelledAt(data, pos, end, v)
  {
    if scalar == StringType {
      if v.Text? {
        TextIff(data, pos, v.utf8, end);
        if pos <= end <= |data| {
          SpellsPlain(data[pos..end], Encode(v));
        }
      }
    } else {
      if HasScalar(v, scalar) {
        FixedLength(scalar, v);
      }
      if pos + Width(scalar) <= |data| {
        FixedIff(scalar, data[pos..pos + Width(scalar)], v);
      }
    }
  }

  /** Decoding succeeds with v at `end` exactly when v has the type and the bytes up to `end` spell
      it, at every nesting depth. */
  lemma {:induction false} DecodeIff(data: seq<byte>, pos: nat, ty: IdlType, v: DecodedValue, end: nat)
    requires pos <= |data|
    ensures Decode(data, pos, ty) == Read(Ok(v), end) <==> WellTyped(v, ty) && SpelledAt(data, pos, end, v)
    decreases ty, 0
  {
    assert Decode(data, pos, ty) == DecodeByType(data, pos, ty);
    match ty
    case Simple(name) =>
      if ScalarNamed(name).Some? {
        ScalarIff(data, pos, ScalarNamed(name).value, v, end);
      }
    case Compound(entries) =>
      if "vec" in entries && v.Vec? {
        VecIff(data, pos, entries["vec"], v.elements, end);
      }
  }

  lemma {:induction false} VecIff(
      data: seq<byte>, pos: nat, inner: IdlType, vs: seq<DecodedValue>, end: nat)
    requires pos <= |data|
    ensures
      var header := ReadBytes(data, pos, 4);
      (header.result.Ok? && DecodeAll(data, header.pos, inner, Uint32(header.result.value)) == Read(Ok(vs), end))
      <==> |vs| < 0x1_0000_0000 && AllTyped(vs, inner) && SpelledAt(data, pos, end, Vec(vs))
    decreases inner, |vs| + 1
  {
    if pos + 4 <= |data| {
      var header := data[pos..pos + 4];
      HeaderIff(header, |vs|);
      if DecodeAll(data, pos + 4, inner, |vs|) == Read(Ok(vs), end) {
        AllSound(data, pos + 4, inner, vs, end);
      }
      if AllRead(data, pos + 4, inner, vs, end) {
        AllComplete(data, pos + 4, inner, vs, end);
      }
      SpellsPlain(header, ToLe(|vs|, 4));
      SplitBytes(data, pos, end, ToLe(|vs|, 4), EncodeAll(vs), Falses(4), TruesAll(vs));
    }
  }

  lemma {:induction false} AllSound(
      data: seq<byte>, pos: nat, inner: IdlType, vs: seq<DecodedValue>, end: nat)
    requires pos <= |data|
    requires DecodeAll(data, pos, inner, |vs|) == Read(Ok(vs), end)
    ensures AllRead(data, pos, inner, vs, end)
    decreases inner, |vs|
  {
    if vs != [] {
      var last := |vs| - 1;
      var front, v := vs[..last], vs[last];
      assert vs == front + [v];
      AllStep(data, pos, inner, front, v, end);
      var mid := DecodeAll(data, pos, inner, last).pos;
      AllSound(data, pos, inner, front, mid);
      DecodeIff(data, mid, inner, v, end);
      AllJoin(data, pos, inner, vs, end, mid);
    }
  }

  lemma {:induction false} AllComplete(
      data: seq<byte>, pos: nat, inner: IdlType, vs: seq<DecodedValue>, end: nat)
    requires pos <= |data|
    requires AllRead(data, pos, inner, vs, end)
    ensures DecodeAll(data, pos, inner, |vs|) == Read(Ok(vs), end)
    decreases inner, |vs|
  {
    if vs != [] {
      var last := |vs| - 1;
      var front, v := vs[..last], vs[last];
      assert vs == front + [v];
      var mid := pos + |EncodeAll(front)|;
      AllCut(data, pos, inner, vs, end);
      AllComplete(data, pos, inner, front, mid);
      DecodeIff(data, mid, inner, v, end);
      AllStep(data, pos, inner, front, v, end);
    }
  }

  /** A list that is read is its front, read up to where the front's encoding ends, and its last
      value read from there on. */
  lemma AllCut(data: seq<byte>, pos: nat, inner: IdlType, vs: seq<DecodedValue>, end: nat)
    requires vs != [] && AllRead(data, pos, inner, vs, end)
    ensures
      var last := |vs| - 1;
      var mid := pos + |EncodeAll(vs[..last])|;
      AllRead(data, pos, inner, vs[..last], mid) && WellTyped(vs[last], inner) && SpelledAt(data, mid, end, vs[last])
  {
    TypedLast(vs, inner);
    SplitLast(data, pos, vs, end);
  }

  lemma AllJoin(data: seq<byte>, pos: nat, inner: IdlType, vs: seq<DecodedValue>, end: nat, mid: nat)
    requires vs != [] && AllRead(data, pos, inner, vs[..|vs| - 1], mid)
    requires WellTyped(vs[|vs| - 1], inner) && SpelledAt(data, mid, end, vs[|vs| - 1])
    ensures AllRead(data, pos, inner, vs, end)
  {
    TypedLast(vs, inner);
    SplitLast(data, pos, vs, end);
  }

  lemma TypedLast(vs: seq<DecodedValue>, inner: IdlType)
    requires vs != []
    ensures AllTyped(vs, inner) <==> AllTyped(vs[..|vs| - 1], inner) && WellTyped(vs[|vs| - 1], inner)
  {
  }

  lemma AllStep(
      data: seq<byte>, pos: nat, inner: IdlType, front: seq<DecodedValue>, v: DecodedValue, end: nat)
    requires pos <= |data|
    ensures
      var before := DecodeAll(data, pos, inner, |front|);
      DecodeAll(data, pos, inner, |front| + 1) == Read(Ok(front + [v]), end) <==>
      before.result == Ok(front) && Decode(data, before.pos, inner) == Read(Ok(v), end)
  {
    var before := DecodeAll(data, pos, inner, |front|);
    if before.result.Ok? {
      var vs := before.result.value;
      var last := Decode(data, before.pos, inner);
      if last.result.Ok? {
        assert vs + [last.result.value] == front + [v] <==> vs == front && last.result.value == v by {
          if vs + [last.result.value] == front + [v] {
            assert (vs + [last.result.value])[..|front|] == (front + [v])[..|front|];
            assert (vs + [last.result.value])[|front|] == (front + [v])[|front|];
          }
        }
      }
    }
  }

  /** The bytes of a list, cut before its last value. */
  lemma SplitLast(data: seq<byte>, pos: nat, vs: seq<DecodedValue>, end: nat)
    requires vs != []
    ensures
      var last := |vs| - 1;
      var mid := pos + |EncodeAll(vs[..last])|;
      AllSpelledAt(data, pos, end, vs) <==>
      AllSpelledAt(data, pos, mid, vs[..last]) && SpelledAt(data, mid, end, vs[last])
  {
    var last := |vs| - 1;
    SplitBytes(data, pos, end, EncodeAll(vs[..last]), Encode(vs[last]), TruesAll(vs[..last]), Trues(vs[last]));
  }

  lemma SplitBytes(
      data: seq<byte>, pos: nat, end: nat, a: seq<byte>, b: seq<byte>, m: seq<bool>, n: seq<bool>)
    requires |a| == |m| && |b| == |n|
    ensures
      (pos <= end <= |data| && Spells(data[pos..end], a + b, m + n)) <==>
      && pos + |a| <= end <= |data|
      && Spells(data[pos..pos + |a|], a, m) && Spells(data[pos + |a|..end], b, n)
  {
    if pos <= end <= |data| && end - pos == |a| + |b| {
      var bytes := data[pos..end];
      SpellsBoth(bytes, a, b, m, n);
      assert bytes[..|a|] == data[pos..pos + |a|] && bytes[|a|..] == data[pos + |a|..end];
    }
  }

  /** Decoding inverts encoding, wherever the encoding stands in a larger buffer. */
  lemma DecodeEncode(v: DecodedValue, ty: IdlType, before: seq<byte>, after: seq<byte>)
    requires WellTyped(v, ty)
    ensures Decode(before + Encode(v) + after, |before|, ty) == Read(Ok(v), |before| + |Encode(v)|)
  {
    var data := before + Encode(v) + after;
    assert data[|before|..|before| + |Encode(v)|] == Encode(v);
    DecodeIff(data, |before|, ty, v, |before| + |Encode(v)|);
  }

  /** The format is prefix-free: an encoding cut short decodes to an error, never to another value. */
  lemma TruncatedFails(v: DecodedValue, ty: IdlType, n: nat)
    requires WellTyped(v, ty) && n < |Encode(v)|
    ensures Decode(Encode(v)[..n], 0, ty).result.Err?
  {
    var cut := Encode(v)[..n];
    var r := Decode(cut, 0, ty);
    assert [] + Encode(v) + [] == Encode(v);
    DecodeEncode(v, ty, [], []);
    if r.result.Ok? {
      DecodeIff(cut, 0, ty, r.result.value, r.pos);
      assert cut[0..r.pos] == Encode(v)[0..r.pos];
      DecodeIff(Encode(v), 0, ty, r.result.value, r.pos);
    }
  }

  // ---------------------------------------------------------------------------
  // Accounts
  // ---------------------------------------------------------------------------

  datatype IdlField = IdlField(name: string, fieldType: IdlType)
  datatype IdlAccount = IdlAccount(name: string, kind: string, fields: seq<IdlField>)
  datatype DecodedField = DecodedField(name: string, typeName: string, value: DecodedValue)

  function TypeName(ty: IdlType): string {
    match ty
    case Simple(name) => name
    case Compound(entries) =>
      if "vec" in entries then "Vec<" + TypeName(entries["vec"]) + ">"
      else if "defined" in entries && entries["defined"].Simple? then entries["defined"].name
      else "unknown"
  }

  /** The first account of that name. */
  function FindAccount(accounts: seq<IdlAccount>, name: string): (r: Option<IdlAccount>)
    ensures r.None? <==> forall k :: 0 <= k < |accounts| ==> accounts[k].name != name
    ensures r.Some? ==> r.value in accounts && r.value.name == name
  {
    if accounts == [] then None
    else if accounts[0].name == name then Some(accounts[0])
    else FindAccount(accounts[1..], name)
  }

  function DecodeFields(data: seq<byte>, pos: nat, fields: seq<IdlField>): (r: Read<seq<DecodedField>>)
    requires pos <= |data|
    ensures pos <= r.pos <= |data|
    ensures r.result.Ok? ==> |r.result.value| == |fields|
    decreases |fields|, 1
  {
    if fields == [] then Read(Ok([]), pos) else DecodeLastField(data, pos, fields)
  }

  function DecodeLastField(data: seq<byte>, pos: nat, fields: seq<IdlField>): (r: Read<seq<DecodedField>>)
    requires pos <= |data| && fields != []
    ensures pos <= r.pos <= |data|
    ensures r.result.Ok? ==> |r.result.value| == |fields|
    decreases |fields|, 0
  {
    var front := DecodeFields(data, pos, fields[..|fields| - 1]);
    match front.result
    case Err(e) => front
    case Ok(decoded) =>
      var field := fields[|fields| - 1];
      var last := Decode(data, front.pos, field.fieldType);
      match last.result
      case Err(e) => Read(Err(e), last.pos)
      case Ok(v) => Read(Ok(decoded + [DecodedField(field.name, TypeName(field.fieldType), v)]), last.pos)
  }

  /** `decode_account`: bytes after the last field are not looked at. */
  function DecodeAccount(accounts: seq<IdlAccount>, name: string, data: seq<byte>): Result<seq<DecodedField>, Error> {
    match FindAccount(accounts, name)
    case None => Err(AccountNotFound)
    case Some(account) =>
      if account.kind != "struct" then Err(NotAStruct)
      else if 8 > |data| then Err(NotEnoughData)
      else DecodeFields(data, 8, account.fields).result
  }

  /** The fields of the definition, in order, each with a value of its type. */
  predicate Describes(decoded: seq<DecodedField>, fields: seq<IdlField>) {
    |decoded| == |fields| && forall k :: 0 <= k < |fields| ==> IsField(decoded[k], fields[k])
  }

  predicate IsField(decoded: DecodedField, field: IdlField) {
    && decoded.name == field.name && decoded.typeName == TypeName(field.fieldType)
    && WellTyped(decoded.value, field.fieldType)
  }

  function Values(decoded: seq<DecodedField>): (vs: seq<DecodedValue>)
    ensures |vs| == |decoded|
  {
    if decoded == [] then [] else Values(decoded[..|decoded| - 1]) + [decoded[|decoded| - 1].value]
  }

  /** The fields' values, spelled from pos to end. */
  predicate FieldsRead(data: seq<byte>, pos: nat, fields: seq<IdlField>, decoded: seq<DecodedField>, end: nat) {
    Describes(decoded, fields) && AllSpelledAt(data, pos, end, Values(decoded))
  }

  lemma {:induction false} FieldsSound(
      data: seq<byte>, pos: nat, fields: seq<IdlField>, decoded: seq<DecodedField>, end: nat)
    requires pos <= |data|
    requires DecodeFields(data, pos, fields) == Read(Ok(decoded), end)
    ensures FieldsRead(data, pos, fields, decoded, end)
  {
    if fields != [] {
      var last := |fields| - 1;
      FieldsUnfold(data, pos, fields, decoded, end);
      var mid := DecodeFields(data, pos, fields[..last]).pos;
      FieldsSound(data, pos, fields[..last], decoded[..last], mid);
      DecodeIff(data, mid, fields[last].fieldType, decoded[last].value, end);
      FieldsJoin(data, pos, fields, decoded, end, mid);
    }
  }

  lemma {:induction false} FieldsComplete(
      data: seq<byte>, pos: nat, fields: seq<IdlField>, decoded: seq<DecodedField>, end: nat)
    requires pos <= |data|
    requires FieldsRead(data, pos, fields, decoded, end)
    ensures DecodeFields(data, pos, fields) == Read(Ok(decoded), end)
  {
    if fields != [] {
      var last := |fields| - 1;
      var mid := pos + |EncodeAll(Values(decoded[..last]))|;
      FieldsCut(data, pos, fields, decoded, end);
      FieldsComplete(data, pos, fields[..last], decoded[..last], mid);
      DecodeIff(data, mid, fields[last].fieldType, decoded[last].value, end);
      FieldsFold(data, pos, fields, decoded, mid, end);
    }
  }

  lemma ValuesLast(decoded: seq<DecodedField>)
    requires decoded != []
    ensures
      var last := |decoded| - 1;
      Values(decoded)[..last] == Values(decoded[..last]) && Values(decoded)[last] == decoded[last].value
  {
  }

  lemma FieldsCut(data: seq<byte>, pos: nat, fields: seq<IdlField>, decoded: seq<DecodedField>, end: nat)
    requires fields != [] && FieldsRead(data, pos, fields, decoded, end)
    ensures
      var last := |fields| - 1;
      var mid := pos + |EncodeAll(Values(decoded[..last]))|;
      && FieldsRead(data, pos, fields[..last], decoded[..last], mid)
      && IsField(decoded[last], fields[last]) && SpelledAt(data, mid, end, decoded[last].value)
  {
    DescribesLast(decoded, fields);
    ValuesLast(decoded);
    SplitLast(data, pos, Values(decoded), end);
  }

  lemma FieldsJoin(
      data: seq<byte>, pos: nat, fields: seq<IdlField>, decoded: seq<DecodedField>, end: nat, mid: nat)
    requires |decoded| == |fields| > 0
    requires FieldsRead(data, pos, fields[..|fields| - 1], decoded[..|fields| - 1], mid)
    requires IsField(decoded[|fields| - 1], fields[|fields| - 1])
    requires SpelledAt(data, mid, end, decoded[|fields| - 1].value)
    ensures FieldsRead(data, pos, fields, decoded, end)
  {
    DescribesLast(decoded, fields);
    ValuesLast(decoded);
    SplitLast(data, pos, Values(decoded), end);
  }

  lemma SpelledLength(data: seq<byte>, pos: nat, end: nat, vs: seq<DecodedValue>)
    requires AllSpelledAt(data, pos, end, vs)
    ensures end == pos + |EncodeAll(vs)|
  {
  }

  lemma FieldsDecoded(data: seq<byte>, pos: nat, fields: seq<IdlField>)
    requires pos <= |data| && DecodeFields(data, pos, fields).result.Ok?
    ensures
      var decoded := DecodeFields(data, pos, fields).result.value;
      FieldsRead(data, pos, fields, decoded, pos + |EncodeAll(Values(decoded))|)
  {
    var r := DecodeFields(data, pos, fields);
    FieldsSound(data, pos, fields, r.result.value, r.pos);
    SpelledLength(data, pos, r.pos, Values(r.result.value));
  }

  lemma DescribesLast(decoded: seq<DecodedField>, fields: seq<IdlField>)
    requires |decoded| == |fields| > 0
    ensures
      var last := |fields| - 1;
      Describes(decoded, fields) <==> Describes(decoded[..last], fields[..last]) && IsField(decoded[last], fields[last])
  {
  }

  lemma FieldsUnfold(
      data: seq<byte>, pos: nat, fields: seq<IdlField>, decoded: seq<DecodedField>, end: nat)
    requires pos <= |data| && fields != [] && DecodeFields(data, pos, fields) == Read(Ok(decoded), end)
    ensures
      var last := |fields| - 1;
      var front := DecodeFields(data, pos, fields[..last]);
      && |decoded| == |fields| && front.result == Ok(decoded[..last])
      && decoded[last].name == fields[last].name
      && decoded[last].typeName == TypeName(fields[last].fieldType)
      && Decode(data, front.pos, fields[last].fieldType) == Read(Ok(decoded[last].value), end)
  {
    assert DecodeFields(data, pos, fields) == DecodeLastField(data, pos, fields);
    var last := |fields| - 1;
    var front := DecodeFields(data, pos, fields[..last]);
    var v := Decode(data, front.pos, fields[last].fieldType).result.value;
    assert decoded == front.result.value + [DecodedField(fields[last].name, TypeName(fields[last].fieldType), v)];
  }

  lemma FieldsFold(
      data: seq<byte>, pos: nat, fields: seq<IdlField>, decoded: seq<DecodedField>, mid: nat, end: nat)
    requires pos <= |data| && |decoded| == |fields| > 0 && mid <= |data|
    requires DecodeFields(data, pos, fields[..|fields| - 1]) == Read(Ok(decoded[..|fields| - 1]), mid)
    requires decoded[|fields| - 1].name == fields[|fields| - 1].name
    requires decoded[|fields| - 1].typeName == TypeName(fields[|fields| - 1].fieldType)
    requires Decode(data, mid, fields[|fields| - 1].fieldType) == Read(Ok(decoded[|fields| - 1].value), end)
    ensures DecodeFields(data, pos, fields) == Read(Ok(decoded), end)
  {
    assert DecodeFields(data, pos, fields) == DecodeLastField(data, pos, fields);
    var last := |fields| - 1;
    assert decoded == decoded[..last] + [decoded[last]];
  }

  /** An account decodes to `decoded` exactly when the first account of the name is a struct with
      those fields and, after the 8-byte discriminator, the data starts with a spelling of the
      field values in order. */
  lemma AccountIff(accounts: seq<IdlAccount>, name: string, data: seq<byte>, decoded: seq<DecodedField>)
    ensures DecodeAccount(accounts, name, data) == Ok(decoded) <==>
      && FindAccount(accounts, name).Some?
      && var account := FindAccount(accounts, name).value;
      && account.kind == "struct"
      && FieldsRead(data, 8, account.fields, decoded, 8 + |EncodeAll(Values(decoded))|)
  {
    if FindAccount(accounts, name).Some? && |data| >= 8 {
      var fields := FindAccount(accounts, name).value.fields;
      var end := 8 + |EncodeAll(Values(decoded))|;
      if DecodeFields(data, 8, fields).result.Ok? {
        FieldsDecoded(data, 8, fields);
      }
      if FieldsRead(data, 8, fields, decoded, end) {
        FieldsComplete(data, 8, fields, decoded, end);
      }
    }
  }

  /** Eight bytes of any discriminator and the fields in order decode to those fields. */
  lemma AccountRoundTrip(
      accounts: seq<IdlAccount>, name: string, discriminator: seq<byte>, decoded: seq<DecodedField>, after: seq<byte>)
    requires FindAccount(accounts, name).Some? && |discriminator| == 8
    requires FindAccount(accounts, name).value.kind == "struct"
    requires Describes(decoded, FindAccount(accounts, name).value.fields)
    ensures DecodeAccount(accounts, name, discriminator + EncodeAll(Values(decoded)) + after) == Ok(decoded)
  {
    var body := EncodeAll(Values(decoded));
    var data := discriminator + body + after;
    assert data[8..8 + |body|] == body;
    AccountIff(accounts, name, data, decoded);
  }

  // ---------------------------------------------------------------------------
  // The decoder
  // ---------------------------------------------------------------------------

  /** Reads sequentially from a byte slice. */
  class BorshDecoder {
    const data: seq<byte>
    var pos: nat

    ghost predicate Valid()
      reads this
    {
      pos <= |data|
    }

    constructor (data: seq<byte>)
      ensures Valid() && this.data == data && pos == 0
    {
      this.data := data;
      pos := 0;
    }

    function Remaining(): (rest: seq<byte>)
      requires Valid()
      reads this
      ensures data[..pos] + rest == data
    {
      data[pos..]
    }

    method ReadU8() returns (r: Result<byte, Error>)
      requires Valid()
      modifies this`pos
      ensures Valid()
      ensures r == if old(pos) < |data| then Ok(data[old(pos)]) else Err(NotEnoughData)
      ensures pos == if r.Ok? then old(pos) + 1 else old(pos)
    {
      if pos >= |data| {
        return Err(NotEnoughData);
      }
      r := Ok(data[pos]);
      pos := pos + 1;
    }

    method ReadU16() returns (r: Result<u16, Error>)
      requires Valid()
      modifies this`pos
      ensures Valid()
      ensures r.Ok? <==> old(pos) + 2 <= |data|
      ensures r.Ok? ==> pos == old(pos) + 2 && r.value == FromLe(data[old(pos)..pos])
      ensures r.Err? ==> pos == old(pos) && r.error == NotEnoughData
    {
      if pos + 2 > |data| {
        return Err(NotEnoughData);
      }
      var bytes := data[pos..pos + 2];
      IsUint(bytes);
      r := Ok(FromLe(bytes));
      pos := pos + 2;
    }

    method ReadU32() returns (r: Result<u32, Error>)
      requires Valid()
      modifies this`pos
      ensures Valid()
      ensures r.Ok? <==> old(pos) + 4 <= |data|
      ensures r.Ok? ==> pos == old(pos) + 4 && r.value == FromLe(data[old(pos)..pos])
      ensures r.Err? ==> pos == old(pos) && r.error == NotEnoughData
    {
      if pos + 4 > |data| {
        return Err(NotEnoughData);
      }
      var bytes := data[pos..pos + 4];
      IsUint(bytes);
      r := Ok(FromLe(bytes));
      pos := pos + 4;
    }

    method ReadU64() returns (r: Result<u64, Error>)
      requires Valid()
      modifies this`pos
      ensures Valid()
      ensures r.Ok? <==> old(pos) + 8 <= |data|
      ensures r.Ok? ==> pos == old(pos) + 8 && r.value == FromLe(data[old(pos)..pos])
      ensures r.Err? ==> pos == old(pos) && r.error == NotEnoughData
    {
      if pos + 8 > |data| {
        return Err(NotEnoughData);
      }
      var bytes := data[pos..pos + 8];
      IsUint(bytes);
      r := Ok(FromLe(bytes));
      pos := pos + 8;
    }

    method ReadI64() returns (r: Result<i64, Error>)
      requires Valid()
      modifies this`pos
      ensures Valid()
      ensures r.Ok? <==> old(pos) + 8 <= |data|
      ensures r.Ok? ==> pos == old(pos) + 8 && r.value == FromTwos(data[old(pos)..pos])
      ensures r.Err? ==> pos == old(pos) && r.error == NotEnoughData
    {
      if pos + 8 > |data| {
        return Err(NotEnoughData);
      }
      var bytes := data[pos..pos + 8];
      IsUint(bytes);
      r := Ok(FromTwos(bytes));
      pos := pos + 8;
    }

    method ReadBool() returns (r: Result<bool, Error>)
      requires Valid()
      modifies this`pos
      ensures Valid()
      ensures r == if old(pos) < |data| then Ok(data[old(pos)] != 0) else Err(NotEnoughData)
      ensures pos == if r.Ok? then old(pos) + 1 else old(pos)
    {
      var v := ReadU8();
      match v
      case Err(e) => return Err(e);
      case Ok(b) => return Ok(b != 0);
    }

    method ReadString() returns (r: Result<seq<byte>, Error>)
      requires Valid()
      modifies this`pos
      ensures Valid() && Read(r, pos) == ReadText(data, old(pos))
    {
      var header := ReadU32();
      match header
      case Err(e) => return Err(e);
      case Ok(len) =>
        if pos + len > |data| {
          return Err(NotEnoughData);
        }
        var s := data[pos..pos + len];
        if !IsUtf8(s) {
          return Err(NotUtf8);
        }
        pos := pos + len;
        return Ok(s);
    }

    method ReadPubkey() returns (r: Result<seq<byte>, Error>)
      requires Valid()
      modifies this`pos
      ensures Valid() && Read(r, pos) == ReadBytes(data, old(pos), 32)
    {
      if pos + 32 > |data| {
        return Err(NotEnoughData);
      }
      r := Ok(data[pos..pos + 32]);
      pos := pos + 32;
    }

    method ReadVec(inner: IdlType) returns (r: Result<seq<DecodedValue>, Error>)
      requires Valid()
      modifies this`pos
      ensures Valid()
      ensures
        var header := ReadBytes(data, old(pos), 4);
        match header.result
        case Err(e) => Read(r, pos) == Read(Err(e), header.pos)
        case Ok(bytes) => Read(r, pos) == DecodeAll(data, header.pos, inner, Uint32(bytes))
      decreases inner, 1
    {
      var header := ReadU32();
      if header.Err? {
        return Err(header.error);
      }
      var elements := [];
      ghost var start := pos;
      for i := 0 to header.value
        invariant Valid()
        invariant Read(Ok(elements), pos) == DecodeAll(data, start, inner, i)
      {
        var v := DecodeType(inner);
        if v.Err? {
          FailureSticks(data, start, inner, i + 1, header.value);
          return Err(v.error);
        }
        elements := elements + [v.value];
      }
      return Ok(elements);
    }

    method Skip(n: nat) returns (r: Result<(), Error>)
      requires Valid()
      modifies this`pos
      ensures Valid()
      ensures r == if old(pos) + n <= |data| then Ok(()) else Err(NotEnoughData)
      ensures pos == if r.Ok? then old(pos) + n else old(pos)
    {
      if pos + n > |data| {
        return Err(NotEnoughData);
      }
      pos := pos + n;
      return Ok(());
    }

    method DecodeType(ty: IdlType) returns (r: Result<DecodedValue, Error>)
      requires Valid()
      modifies this`pos
      ensures Valid() && Read(r, pos) == Decode(data, old(pos), ty)
      decreases ty, 0
    {
      match ty
      case Simple(name) =>
        if ScalarNamed(name).None? {
          return Err(Unsupported);
        }
        r := DecodeSimple(ScalarNamed(name).value);
      case Compound(entries) =>
        if "vec" !in entries {
          return Err(Unsupported);
        }
        var elements := ReadVec(entries["vec"]);
        if elements.Err? {
          return Err(elements.error);
        }
        return Ok(Vec(elements.value));
    }

    /** The arms of `decode_type` for the simple types. */
    method DecodeSimple(scalar: Scalar) returns (r: Result<DecodedValue, Error>)
      requires Valid()
      modifies this`pos
      ensures Valid() && Read(r, pos) == DecodeScalar(data, old(pos), scalar)
    {
      match scalar
      case U8Type =>
        var x := ReadU8();
        if x.Ok? {
          OneByte(data[old(pos)..pos]);
        }
        r := if x.Ok? then Ok(U8(x.value)) else Err(x.error);
      case U16Type =>
        var x := ReadU16();
        r := if x.Ok? then Ok(U16(x.value)) else Err(x.error);
      case U32Type =>
        var x := ReadU32();
        r := if x.Ok? then Ok(U32(x.value)) else Err(x.error);
      case U64Type =>
        var x := ReadU64();
        r := if x.Ok? then Ok(U64(x.value)) else Err(x.error);
      case I64Type =>
        var x := ReadI64();
        r := if x.Ok? then Ok(I64(x.value)) else Err(x.error);
      case BoolType =>
        var x := ReadBool();
        r := if x.Ok? then Ok(Bool(x.value)) else Err(x.error);
      case StringType =>
        var x := ReadString();
        r := if x.Ok? then Ok(Text(x.value)) else Err(x.error);
      case PubkeyType =>
        var x := ReadPubkey();
        r := if x.Ok? then Ok(Pubkey(x.value)) else Err(x.error);
    }
  }

  lemma IsUint(bytes: seq<byte>)
    ensures |bytes| == 2 ==> FromLe(bytes) < 0x1_0000
    ensures |bytes| == 4 ==> FromLe(bytes) < 0x1_0000_0000
    ensures |bytes| == 8 ==> FromLe(bytes) < TWO64 && -0x8000_0000_0000_0000 <= FromTwos(bytes) < 0x8000_0000_0000_0000
  {
    PowersOf256();
    FromLeBound(bytes);
  }

  lemma OneByte(bytes: seq<byte>)
    requires |bytes| == 1
    ensures FromLe(bytes) == bytes[0]
  {
  }

  /** `AnchorIdl::decode_account` */
  method DecodeAccountData(accounts: seq<IdlAccount>, name: string, data: seq<byte>)
    returns (r: Result<seq<DecodedField>, Error>)
    ensures r == DecodeAccount(accounts, name, data)
  {
    var found := FindAccount(accounts, name);
    if found.None? {
      return Err(AccountNotFound);
    }
    var account := found.value;
    if account.kind != "struct" {
      return Err(NotAStruct);
    }
    var decoder := new BorshDecoder(data);
    var skipped := decoder.Skip(8);
    if skipped.Err? {
      return Err(skipped.error);
    }
    var fields := [];
    for i := 0 to |account.fields|
      invariant decoder.Valid() && decoder.data == data
      invariant Read(Ok(fields), decoder.pos) == DecodeFields(data, 8, account.fields[..i])
    {
      var field := account.fields[i];
      assert account.fields[..i + 1][..i] == account.fields[..i];
      var value := decoder.DecodeType(field.fieldType);
      if value.Err? {
        FieldFailureSticks(data, 8, account.fields, i + 1);
        return Err(value.error);
      }
      fields := fields + [DecodedField(field.name, TypeName(field.fieldType), value.value)];
    }
    assert account.fields[..|account.fields|] == account.fields;
    return Ok(fields);
  }

  lemma {:induction false} FieldFailureSticks(data: seq<byte>, pos: nat, fields: seq<IdlField>, i: nat)
    requires pos <= |data| && i <= |fields| && DecodeFields(data, pos, fields[..i]).result.Err?
    ensures DecodeFields(data, pos, fields) == DecodeFields(data, pos, fields[..i])
  {
    if i < |fields| {
      assert DecodeFields(data, pos, fields) == DecodeLastField(data, pos, fields);
      var front := fields[..|fields| - 1];
      assert front[..i] == fields[..i];
      FieldFailureSticks(data, pos, front, i);
    } else {
      assert fields[..i] == fields;
    }
  }
}
