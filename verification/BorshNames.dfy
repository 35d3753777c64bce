/** What each IDL type name reads, byte by byte, and how reading fails (`decode_type` and the readers
    under it in `src/account_decoder.rs`). */
module BorshNames {
  import opened Words
  import opened Wrappers
  import opened Utf8
  import opened Borsh

  /** n bytes at the cursor make `value`, or there are too few and the cursor stays. */
  predicate TakesBytes(data: seq<byte>, pos: nat, n: nat, r: Read<DecodedValue>, value: DecodedValue) {
    r == if pos + n <= |data| then Read(Ok(value), pos + n) else Read(Err(NotEnoughData), pos)
  }

  lemma {:induction false} NamedAmong(table: seq<(string, Scalar)>, name: string, k: nat)
    requires k < |table| && table[k].0 == name && forall j :: 0 <= j < k ==> table[j].0 != name
    ensures ScalarAmong(table, name) == Some(table[k].1)
  {
    if k > 0 {
      NamedAmong(table[1..], name, k - 1);
    }
  }

  lemma {:induction false} NotAmong(table: seq<(string, Scalar)>, name: string)
    requires forall j :: 0 <= j < |table| ==> table[j].0 != name
    ensures ScalarAmong(table, name) == None
  {
    if table != [] {
      NotAmong(table[1..], name);
    }
  }

  function Byte(b: seq<byte>, k: nat): nat
    requires k < |b|
  {
    b[k]
  }

  /** Two, four and eight bytes from k on, the first the lowest. */
  function Half(b: seq<byte>, k: nat): (x: u16)
    requires k + 2 <= |b|
  {
    Byte(b, k) + 0x100 * Byte(b, k + 1)
  }

  function Word(b: seq<byte>, k: nat): (x: u32)
    requires k + 4 <= |b|
  {
    Half(b, k) as int + 0x1_0000 * Half(b, k + 2) as int
  }

  function Double(b: seq<byte>, k: nat): (x: u64)
    requires k + 8 <= |b|
  {
    Word(b, k) as int + 0x1_0000_0000 * Word(b, k + 4) as int
  }

  lemma HalfIsLittle(b: seq<byte>, k: nat)
    requires k + 2 <= |b|
    ensures FromLe(b[k..k + 2]) == Half(b, k)
  {
    var c := b[k..k + 2];
    assert c[1..] == [b[k + 1]] && [b[k + 1]][1..] == [];
    assert FromLe(c[1..]) == b[k + 1];
  }

  lemma WordIsLittle(b: seq<byte>, k: nat)
    requires k + 4 <= |b|
    ensures FromLe(b[k..k + 4]) == Word(b, k)
  {
    HalfIsLittle(b, k);
    HalfIsLittle(b, k + 2);
    FromLeAppend(b[k..k + 2], b[k + 2..k + 4]);
    assert b[k..k + 4] == b[k..k + 2] + b[k + 2..k + 4];
    PowersOf256();
  }

  lemma DoubleIsLittle(b: seq<byte>, k: nat)
    requires k + 8 <= |b|
    ensures FromLe(b[k..k + 8]) == Double(b, k)
  {
    WordIsLittle(b, k);
    WordIsLittle(b, k + 4);
    FromLeAppend(b[k..k + 4], b[k + 4..k + 8]);
    assert b[k..k + 8] == b[k..k + 4] + b[k + 4..k + 8];
    PowersOf256();
  }

  lemma OneByteNames(data: seq<byte>, pos: nat)
    requires pos <= |data|
    ensures
      var b := if pos < |data| then data[pos] else 0;
      && TakesBytes(data, pos, 1, Decode(data, pos, Simple("u8")), U8(b))
      && TakesBytes(data, pos, 1, Decode(data, pos, Simple("bool")), Bool(b != 0))
  {
    NamedAmong(SCALARS, "u8", 0);
    NamedAmong(SCALARS, "bool", 5);
    if pos < |data| {
      assert data[pos..pos + 1] == [data[pos]];
      assert [data[pos]][1..] == [];
    }
  }

  lemma TwoByteName(data: seq<byte>, pos: nat)
    requires pos <= |data|
    ensures
      var x := if pos + 2 <= |data| then Half(data, pos) else 0;
      TakesBytes(data, pos, 2, Decode(data, pos, Simple("u16")), U16(x))
  {
    NamedAmong(SCALARS, "u16", 1);
    if pos + 2 <= |data| {
      HalfIsLittle(data, pos);
    }
  }

  lemma FourByteName(data: seq<byte>, pos: nat)
    requires pos <= |data|
    ensures
      var x := if pos + 4 <= |data| then Word(data, pos) else 0;
      TakesBytes(data, pos, 4, Decode(data, pos, Simple("u32")), U32(x))
  {
    NamedAmong(SCALARS, "u32", 2);
    if pos + 4 <= |data| {
      WordIsLittle(data, pos);
    }
  }

  lemma EightByteNames(data: seq<byte>, pos: nat)
    requires pos <= |data|
    ensures
      var x := if pos + 8 <= |data| then Double(data, pos) else 0;
      && TakesBytes(data, pos, 8, Decode(data, pos, Simple("u64")), U64(x))
      && TakesBytes(data, pos, 8, Decode(data, pos, Simple("i64")),
                    I64(if x < 0x8000_0000_0000_0000 then x else x - 0x1_0000_0000_0000_0000))
  {
    NamedAmong(SCALARS, "u64", 3);
    NamedAmong(SCALARS, "i64", 4);
    if pos + 8 <= |data| {
      DoubleIsLittle(data, pos);
      PowersOf256();
    }
  }

  lemma KeyName(data: seq<byte>, pos: nat)
    requires pos <= |data|
    ensures
      var key := if pos + 32 <= |data| then data[pos..pos + 32] else [];
      TakesBytes(data, pos, 32, Decode(data, pos, Simple("publicKey")), Pubkey(key))
  {
    NamedAmong(SCALARS, "publicKey", 7);
  }

  /** A string: four bytes of length, which stay read when the string fails, and UTF-8 text. */
  lemma TextName(data: seq<byte>, pos: nat)
    requires pos <= |data|
    ensures
      Decode(data, pos, Simple("string")) ==
        if pos + 4 > |data| then Read(Err(NotEnoughData), pos)
        else
          var end := pos + 4 + Word(data, pos);
          if end > |data| then Read(Err(NotEnoughData), pos + 4)
          else if !IsUtf8(data[pos + 4..end]) then Read(Err(NotUtf8), pos + 4)
          else Read(Ok(Text(data[pos + 4..end])), end)
  {
    NamedAmong(SCALARS, "string", 6);
    if pos + 4 <= |data| {
      WordIsLittle(data, pos);
    }
  }

  /** No other name is read, and reading none moves nothing. */
  lemma OtherNames(data: seq<byte>, pos: nat, name: string)
    requires pos <= |data|
    requires name !in {"u8", "u16", "u32", "u64", "i64", "bool", "string", "publicKey"}
    ensures Decode(data, pos, Simple(name)) == Read(Err(Unsupported), pos)
  {
    NotAmong(SCALARS, name);
  }

  // ---------------------------------------------------------------------------
  // Vectors and accounts
  // ---------------------------------------------------------------------------

  /** Element k is the first that fails, with this error and the cursor left there. */
  ghost predicate FailsAt(data: seq<byte>, pos: nat, inner: IdlType, k: nat, failure: Read<DecodedValue>)
    requires pos <= |data|
  {
    var front := DecodeAll(data, pos, inner, k);
    front.result.Ok? && failure.result.Err? && Decode(data, front.pos, inner) == failure
  }

  ghost predicate OneFails(data: seq<byte>, pos: nat, inner: IdlType, count: nat, failure: Read<DecodedValue>)
    requires pos <= |data|
  {
    exists k: nat :: k < count && FailsAt(data, pos, inner, k, failure)
  }

  lemma {:induction false} FirstFailure(data: seq<byte>, pos: nat, inner: IdlType, count: nat) returns (k: nat)
    requires pos <= |data| && DecodeAll(data, pos, inner, count).result.Err?
    ensures k < count
    ensures
      var r := DecodeAll(data, pos, inner, count);
      FailsAt(data, pos, inner, k, Read(Err(r.result.error), r.pos))
    decreases count
  {
    k := count - 1;
    if DecodeAll(data, pos, inner, count - 1).result.Err? {
      k := FirstFailure(data, pos, inner, count - 1);
    }
  }

  /** A vector that fails does so for want of its count, or with the error and cursor of its first element
      that fails.  Any other map than of a "vec" is not read. */
  lemma VectorFailure(data: seq<byte>, pos: nat, entries: map<string, IdlType>)
    requires pos <= |data|
    ensures
      var r := Decode(data, pos, Compound(entries));
      if "vec" !in entries then r == Read(Err(Unsupported), pos)
      else if pos + 4 > |data| then r == Read(Err(NotEnoughData), pos)
      else r.result.Err? ==>
        OneFails(data, pos + 4, entries["vec"], Word(data, pos), Read(Err(r.result.error), r.pos))
  {
    assert Decode(data, pos, Compound(entries)) == DecodeByType(data, pos, Compound(entries));
    if "vec" in entries && pos + 4 <= |data| {
      WordIsLittle(data, pos);
      if Decode(data, pos, Compound(entries)).result.Err? {
        var k := FirstFailure(data, pos + 4, entries["vec"], Word(data, pos));
      }
    }
  }

  /** Account k is the first of that name. */
  predicate IsFirstNamed(accounts: seq<IdlAccount>, name: string, k: nat) {
    k < |accounts| && accounts[k].name == name && forall j :: 0 <= j < k ==> accounts[j].name != name
  }

  lemma {:induction false} FirstNamed(accounts: seq<IdlAccount>, name: string, k: nat)
    requires IsFirstNamed(accounts, name, k)
    ensures FindAccount(accounts, name) == Some(accounts[k])
  {
    if k > 0 {
      FirstNamed(accounts[1..], name, k - 1);
    }
  }

  /** The errors of an account, in the order they are looked for: no account of the name, the first one not
      a struct, no discriminator, and then those of the fields. */
  lemma AccountErrors(accounts: seq<IdlAccount>, name: string, data: seq<byte>, k: nat)
    ensures (forall j :: 0 <= j < |accounts| ==> accounts[j].name != name) ==>
      DecodeAccount(accounts, name, data) == Err(AccountNotFound)
    ensures IsFirstNamed(accounts, name, k) ==>
      DecodeAccount(accounts, name, data) ==
        if accounts[k].kind != "struct" then Err(NotAStruct)
        else if |data| < 8 then Err(NotEnoughData)
        else DecodeFields(data, 8, accounts[k].fields).result
  {
    if IsFirstNamed(accounts, name, k) {
      FirstNamed(accounts, name, k);
    }
  }

  /** Field k is the first that fails, with this error. */
  ghost predicate FieldFailsAt(data: seq<byte>, pos: nat, fields: seq<IdlField>, k: nat, error: Error)
    requires pos <= |data| && k < |fields|
  {
    var front := DecodeFields(data, pos, fields[..k]);
    front.result.Ok? && Decode(data, front.pos, fields[k].fieldType).result == Err(error)
  }

  /** An account that fails in its fields does so with the error of the first that fails. */
  lemma {:induction false} FirstFieldFailure(data: seq<byte>, pos: nat, fields: seq<IdlField>) returns (k: nat)
    requires pos <= |data| && DecodeFields(data, pos, fields).result.Err?
    ensures k < |fields| && FieldFailsAt(data, pos, fields, k, DecodeFields(data, pos, fields).result.error)
    decreases |fields|
  {
    assert DecodeFields(data, pos, fields) == DecodeLastField(data, pos, fields);
    k := |fields| - 1;
    var front := fields[..k];
    if DecodeFields(data, pos, front).result.Err? {
      k := FirstFieldFailure(data, pos, front);
      assert front[..k] == fields[..k];
    }
  }

  /** The names decoded fields are shown with: a scalar its own, a vector that of its elements in angle
      brackets, a defined type its own. */
  lemma TypeNames(name: string, inner: IdlType, entries: map<string, IdlType>)
    ensures TypeName(Simple(name)) == name
    ensures "vec" in entries && entries["vec"] == inner ==> TypeName(Compound(entries)) == "Vec<" + TypeName(inner) + ">"
    ensures "vec" !in entries && "defined" in entries && entries["defined"] == Simple(name) ==>
      TypeName(Compound(entries)) == name
    ensures "vec" !in entries && !("defined" in entries && entries["defined"].Simple?) ==>
      TypeName(Compound(entries)) == "unknown"
  {
  }
}
