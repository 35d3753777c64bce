/** Base58 text of byte strings (`bs58_encode` in `src/account_decoder.rs`): in-place conversion of a
    base-256 number to base-58 digits.  It is exact: a decoder inverts it. */
module Base58 {
  import opened Words
  import opened Wrappers

  /** The alphabet: 1-9, A-Z without I and O, a-z without l, in that order. */
  function Letter(d: nat): char
    requires d < 58
  {
    if d < 9 then Nth('1', d)
    else if d < 17 then Nth('A', d - 9)
    else if d < 22 then Nth('J', d - 17)
    else if d < 33 then Nth('P', d - 22)
    else if d < 44 then Nth('a', d - 33)
    else Nth('m', d - 44)
  }

  function Nth(first: char, k: nat): char
    requires k < 14 && first < 'n'
  {
    (first as int + k) as char
  }

  /** The number base-58 digits denote, least significant first. */
  function Value58(digits: seq<nat>): nat {
    if digits == [] then 0 else digits[0] + 58 * Value58(digits[1..])
  }

  /** Digits below 58 with a non-zero top digit: the one numeral of its value. */
  ghost predicate Canonical(digits: seq<nat>) {
    && (forall k :: 0 <= k < |digits| ==> digits[k] < 58)
    && (digits != [] ==> digits[|digits| - 1] != 0)
  }

  function Pow58(n: nat): (p: nat)
    ensures p > 0
  {
    if n == 0 then 1 else 58 * Pow58(n - 1)
  }

  /** Bytes of value 0 at the front. */
  function LeadingZeros(bytes: seq<byte>): (n: nat)
    ensures n <= |bytes|
    ensures forall k :: 0 <= k < n ==> bytes[k] == 0
    ensures n < |bytes| ==> bytes[n] != 0
  {
    if bytes == [] || bytes[0] != 0 then 0 else 1 + LeadingZeros(bytes[1..])
  }

  /** The digits as text, most significant first. */
  function Render(digits: seq<nat>): (s: string)
    requires forall k :: 0 <= k < |digits| ==> digits[k] < 58
    ensures |s| == |digits|
  {
    seq(|digits|, k requires 0 <= k < |digits| => Letter(digits[|digits| - 1 - k]))
  }

  function Ones(n: nat): (s: string)
    ensures |s| == n
  {
    seq(n, _ => '1')
  }

  // ---------------------------------------------------------------------------
  // Arithmetic of the digit loops
  // ---------------------------------------------------------------------------

  lemma {:induction false} Value58Append(a: seq<nat>, b: seq<nat>)
    ensures Value58(a + b) == Value58(a) + Pow58(|a|) * Value58(b)
  {
    if a == [] {
      assert a + b == b;
    } else {
      assert (a + b)[1..] == a[1..] + b;
      Value58Append(a[1..], b);
      Spread(Value58(a[1..]), Pow58(|a| - 1), Value58(b));
    }
  }

  lemma Spread(v: nat, p: nat, w: nat)
    ensures 58 * (v + p * w) == 58 * v + (58 * p) * w
  {
  }

  lemma Value58Snoc(a: seq<nat>, d: nat)
    ensures Value58(a + [d]) == Value58(a) + Pow58(|a|) * d
  {
    Value58Append(a, [d]);
    assert [d][1..] == [];
    assert Value58([d]) == d;
  }

  /** One digit of the inner loop: no carry between digits exceeds a byte, and what is left in the
      digit and carried on is what came in. */
  lemma CarryStep(carry: nat, d: nat)
    requires carry <= 255 && d < 58
    ensures
      var sum := carry + d * 256;
      && sum / 58 <= 255 && sum % 58 < 58
      && sum % 58 + 58 * (sum / 58) == carry + 256 * d
  {
  }

  /** Writing the low part of a number as the next digit and carrying the rest keeps the value. */
  lemma PushStep(left: seq<nat>, sum: nat)
    ensures Value58(left + [sum % 58]) + Pow58(|left| + 1) * (sum / 58) == Value58(left) + Pow58(|left|) * sum
  {
    var low, high, p := sum % 58, sum / 58, Pow58(|left|);
    Value58Snoc(left, low);
    calc {
      p * low + Pow58(|left| + 1) * high;
      p * low + (58 * p) * high;
      { Regroup(p, low, high); }
      p * (low + 58 * high);
      p * sum;
    }
  }

  lemma Regroup(p: nat, low: nat, high: nat)
    ensures p * low + (58 * p) * high == p * (low + 58 * high)
  {
  }

  /** One digit of the inner loop keeps the part already passed equal to 256 times what it was,
      plus the byte, with the carry waiting above it. */
  lemma PassStep(left: seq<nat>, left0: seq<nat>, d: nat, carry: nat, next: nat)
    requires |left| == |left0|
    requires Value58(left) + Pow58(|left|) * carry == 256 * Value58(left0) + next
    ensures
      var sum := carry + d * 256;
      Value58(left + [sum % 58]) + Pow58(|left| + 1) * (sum / 58) == 256 * Value58(left0 + [d]) + next
  {
    var p, sum := Pow58(|left|), carry + d * 256;
    PushStep(left, sum);
    Value58Snoc(left0, d);
    Scale(p, carry, d);
  }

  lemma Scale(p: nat, carry: nat, d: nat)
    ensures p * (carry + d * 256) == p * carry + 256 * (p * d)
  {
  }

  /** A canonical numeral multiplied by 256 overflows its digits: the last carry is not zero, so the
      next top digit is pushed and is not zero either. */
  lemma {:induction false} CanonicalIsLarge(digits: seq<nat>)
    requires Canonical(digits) && digits != []
    ensures Value58(digits) >= Pow58(|digits| - 1)
  {
    if |digits| > 1 {
      CanonicalIsLarge(digits[1..]);
    }
  }

  lemma {:induction false} DigitsAreSmall(digits: seq<nat>)
    requires forall k :: 0 <= k < |digits| ==> digits[k] < 58
    ensures Value58(digits) < Pow58(|digits|)
  {
    if digits != [] {
      DigitsAreSmall(digits[1..]);
    }
  }

  /** A value has one canonical numeral. */
  lemma {:induction false} CanonicalIsUnique(a: seq<nat>, b: seq<nat>)
    requires Canonical(a) && Canonical(b) && Value58(a) == Value58(b)
    ensures a == b
  {
    if a == [] {
      if b != [] {
        CanonicalIsLarge(b);
      }
    } else if b == [] {
      CanonicalIsLarge(a);
    } else {
      assert a[0] == Value58(a) % 58 && b[0] == Value58(b) % 58;
      assert Value58(a[1..]) == Value58(b[1..]);
      CanonicalIsUnique(a[1..], b[1..]);
      assert a == [a[0]] + a[1..] && b == [b[0]] + b[1..];
    }
  }

  // ---------------------------------------------------------------------------
  // What is encoded, and its inverse
  // ---------------------------------------------------------------------------

  /** The canonical numeral of n. */
  function Numeral58(n: nat): (digits: seq<nat>)
    ensures forall k :: 0 <= k < |digits| ==> digits[k] < 58
  {
    if n == 0 then [] else [n % 58] + Numeral58(n / 58)
  }

  lemma {:induction false} Numeral58IsCanonical(n: nat)
    ensures Canonical(Numeral58(n)) && Value58(Numeral58(n)) == n
  {
    if n > 0 {
      Numeral58IsCanonical(n / 58);
      assert Numeral58(n)[1..] == Numeral58(n / 58);
      if n / 58 == 0 {
        assert Numeral58(n) == [n];
      }
    }
  }

  /** Base58 as the draft standard defines it (draft-msporny-base58, section 3): zero bytes become
      ones, the rest is the numeral of the number. */
  function EncodeSpec(bytes: seq<byte>): string {
    Ones(LeadingZeros(bytes)) + Render(Numeral58(FromBe(bytes)))
  }

  lemma EncodeIs(bytes: seq<byte>, digits: seq<nat>)
    ensures Canonical(digits) && Value58(digits) == FromBe(bytes) ==>
      Ones(LeadingZeros(bytes)) + Render(digits) == EncodeSpec(bytes)
  {
    if Canonical(digits) && Value58(digits) == FromBe(bytes) {
      Numeral58IsCanonical(FromBe(bytes));
      CanonicalIsUnique(digits, Numeral58(FromBe(bytes)));
    }
  }

  /** The digit a character stands for. */
  function DigitFrom(c: char, from: nat): (r: Option<nat>)
    requires from <= 58
    ensures r.Some? ==> from <= r.value < 58 && Letter(r.value) == c
    ensures r.None? ==> forall k :: from <= k < 58 ==> Letter(k) != c
    decreases 58 - from
  {
    if from == 58 then None
    else if Letter(from) == c then Some(from)
    else DigitFrom(c, from + 1)
  }

  /** The digits of a text, least significant first; None at a character outside the alphabet. */
  function Parse(text: string): (r: Option<seq<nat>>)
    ensures r.Some? ==> |r.value| == |text|
  {
    if text == "" then Some([])
    else
      var last := |text| - 1;
      match (DigitFrom(text[last], 0), Parse(text[..last]))
      case (Some(d), Some(rest)) => Some([d] + rest)
      case _ => None
  }

  function LeadingOnes(text: string): (n: nat)
    ensures n <= |text|
    ensures forall k :: 0 <= k < n ==> text[k] == '1'
    ensures n < |text| ==> text[n] != '1'
  {
    if text == "" || text[0] != '1' then 0 else 1 + LeadingOnes(text[1..])
  }

  function Zeros(n: nat): (r: seq<byte>)
    ensures |r| == n
  {
    seq(n, _ => 0 as byte)
  }

  /** The shortest big-endian bytes of n. */
  function MinimalBe(n: nat): seq<byte> {
    if n == 0 then [] else MinimalBe(n / 256) + [n % 256]
  }

  /** The inverse (draft-msporny-base58, section 4). */
  function Decode(text: string): Option<seq<byte>> {
    var ones := LeadingOnes(text);
    match Parse(text[ones..])
    case None => None
    case Some(digits) => Some(Zeros(ones) + MinimalBe(Value58(digits)))
  }

  lemma AlphabetIncreases(i: nat, j: nat)
    requires i < j < 58
    ensures Letter(i) < Letter(j)
  {
  }

  /** The alphabet is the ASCII digits and letters but '0', 'O', 'I' and 'l'; with their order above,
      this fixes every letter. */
  lemma AlphabetIff(c: char)
    ensures (exists d: nat :: IsLetter(c, d)) <==>
      && ('0' <= c <= '9' || 'A' <= c <= 'Z' || 'a' <= c <= 'z')
      && c != '0' && c != 'O' && c != 'I' && c != 'l'
  {
    var code := c as int;
    if '1' <= c <= '9' {
      assert IsLetter(c, code - '1' as int);
    } else if 'A' <= c <= 'H' {
      assert IsLetter(c, code - 'A' as int + 9);
    } else if 'J' <= c <= 'N' {
      assert IsLetter(c, code - 'J' as int + 17);
    } else if 'P' <= c <= 'Z' {
      assert IsLetter(c, code - 'P' as int + 22);
    } else if 'a' <= c <= 'k' {
      assert IsLetter(c, code - 'a' as int + 33);
    } else if 'm' <= c <= 'z' {
      assert IsLetter(c, code - 'm' as int + 44);
    }
  }

  predicate IsLetter(c: char, d: nat) {
    d < 58 && Letter(d) == c
  }

  /** A text of the standard: one zero byte and "bbb". */
  lemma KnownText()
    ensures EncodeSpec([0, 98, 98, 98]) == "1a3gV"
  {
    var bytes: seq<byte> := [0, 98, 98, 98];
    OneByteMore([], 0);
    OneByteMore([0], 98);
    OneByteMore([0, 98], 98);
    OneByteMore([0, 98, 98], 98);
    assert [] + [0] == [0] && [0] + [98] == [0, 98] && [0, 98] + [98] == [0, 98, 98] && [0, 98, 98] + [98] == bytes;
    assert FromBe(bytes) == 6447714 && LeadingZeros(bytes) == 1;
    KnownDigits();
    EncodeIs(bytes, [28, 39, 2, 33]);
    assert Ones(1) == "1";
  }

  lemma OneByteMore(bytes: seq<byte>, b: byte)
    ensures FromBe(bytes + [b]) == 256 * FromBe(bytes) + b
  {
    assert (bytes + [b])[..|bytes|] == bytes;
  }

  lemma KnownDigits()
    ensures Value58([28, 39, 2, 33]) == 6447714 && Render([28, 39, 2, 33]) == "a3gV"
  {
    Value58Snoc([], 28);
    Value58Snoc([28], 39);
    Value58Snoc([28, 39], 2);
    Value58Snoc([28, 39, 2], 33);
    assert [] + [28] == [28] && [28] + [39] == [28, 39] && [28, 39] + [2] == [28, 39, 2];
    assert [28, 39, 2] + [33] == [28, 39, 2, 33];
    assert Pow58(1) == 58 && Pow58(2) == 3364 && Pow58(3) == 195112;
    assert Letter(33) == 'a' && Letter(2) == '3' && Letter(39) == 'g' && Letter(28) == 'V';
    assert Render([28, 39, 2, 33]) == [Letter(33), Letter(2), Letter(39), Letter(28)];
  }

  lemma DigitOfAlphabet(k: nat)
    requires k < 58
    ensures DigitFrom(Letter(k), 0) == Some(k)
  {
    var d := DigitFrom(Letter(k), 0).value;
    if d < k {
      AlphabetIncreases(d, k);
    } else if k < d {
      AlphabetIncreases(k, d);
    }
  }

  lemma {:induction false} ParseRender(digits: seq<nat>)
    requires forall k :: 0 <= k < |digits| ==> digits[k] < 58
    ensures Parse(Render(digits)) == Some(digits)
  {
    if digits != [] {
      var text := Render(digits);
      var last := |text| - 1;
      assert text[..last] == Render(digits[1..]);
      assert text[last] == Letter(digits[0]);
      DigitOfAlphabet(digits[0]);
      ParseRender(digits[1..]);
      assert digits == [digits[0]] + digits[1..];
    }
  }

  lemma {:induction false} RenderParse(text: string)
    requires Parse(text).Some?
    ensures
      var digits := Parse(text).value;
      (forall k :: 0 <= k < |digits| ==> digits[k] < 58) && Render(digits) == text
  {
    if text != "" {
      var last := |text| - 1;
      RenderParse(text[..last]);
      var digits, rest := Parse(text).value, Parse(text[..last]).value;
      assert digits == [DigitFrom(text[last], 0).value] + rest;
      assert forall k :: 0 <= k < last ==> Render(digits)[k] == Render(rest)[k];
    }
  }

  lemma {:induction false} LeadingOnesOf(n: nat, rest: string)
    requires rest != "" ==> rest[0] != '1'
    ensures LeadingOnes(Ones(n) + rest) == n
  {
    if n == 0 {
      assert Ones(0) + rest == rest;
    } else {
      assert (Ones(n) + rest)[1..] == Ones(n - 1) + rest;
      LeadingOnesOf(n - 1, rest);
    }
  }

  lemma {:induction false} LeadingZerosOf(n: nat, rest: seq<byte>)
    requires rest != [] ==> rest[0] != 0
    ensures LeadingZeros(Zeros(n) + rest) == n
  {
    if n == 0 {
      assert Zeros(0) + rest == rest;
    } else {
      assert (Zeros(n) + rest)[1..] == Zeros(n - 1) + rest;
      LeadingZerosOf(n - 1, rest);
    }
  }

  lemma {:induction false} ZerosAreWorthless(n: nat, rest: seq<byte>)
    ensures FromBe(Zeros(n) + rest) == FromBe(rest)
    decreases n + |rest|
  {
    var whole := Zeros(n) + rest;
    if rest != [] {
      assert whole[..|whole| - 1] == Zeros(n) + rest[..|rest| - 1];
      ZerosAreWorthless(n, rest[..|rest| - 1]);
    } else if n > 0 {
      assert whole[..|whole| - 1] == Zeros(n - 1) + [];
      ZerosAreWorthless(n - 1, []);
    }
  }

  lemma {:induction false} MinimalBeOfBytes(bytes: seq<byte>)
    requires bytes != [] ==> bytes[0] != 0
    ensures MinimalBe(FromBe(bytes)) == bytes
    ensures bytes != [] ==> FromBe(bytes) > 0
  {
    if bytes != [] {
      var front := bytes[..|bytes| - 1];
      MinimalBeOfBytes(front);
      assert bytes == front + [bytes[|bytes| - 1]];
      assert FromBe(bytes) / 256 == FromBe(front) && FromBe(bytes) % 256 == bytes[|bytes| - 1];
    }
  }

  lemma {:induction false} MinimalBeIsMinimal(n: nat)
    ensures FromBe(MinimalBe(n)) == n
    ensures MinimalBe(n) != [] ==> MinimalBe(n)[0] != 0
  {
    if n > 0 {
      MinimalBeIsMinimal(n / 256);
      var bytes := MinimalBe(n);
      assert bytes[..|bytes| - 1] == MinimalBe(n / 256);
    }
  }

  /** Decoding inverts encoding: for every byte string. */
  lemma DecodeEncode(bytes: seq<byte>)
    ensures Decode(EncodeSpec(bytes)) == Some(bytes)
  {
    var n := LeadingZeros(bytes);
    var digits := Numeral58(FromBe(bytes));
    Numeral58IsCanonical(FromBe(bytes));
    var rest := Render(digits);
    if digits != [] {
      AlphabetIncreases(0, digits[|digits| - 1]);
    }
    LeadingOnesOf(n, rest);
    assert EncodeSpec(bytes)[n..] == rest;
    ParseRender(digits);
    assert bytes == Zeros(n) + bytes[n..];
    ZerosAreWorthless(n, bytes[n..]);
    MinimalBeOfBytes(bytes[n..]);
  }

  /** No two byte strings share a text. */
  lemma EncodeIsInjective(a: seq<byte>, b: seq<byte>)
    requires EncodeSpec(a) == EncodeSpec(b)
    ensures a == b
  {
    DecodeEncode(a);
    DecodeEncode(b);
  }

  /** Every text over the alphabet is the encoding of its decoding. */
  lemma EncodeDecode(text: string)
    requires Decode(text).Some?
    ensures EncodeSpec(Decode(text).value) == text
  {
    var n := LeadingOnes(text);
    var rest := text[n..];
    var digits := Parse(rest).value;
    RenderParse(rest);
    var bytes := MinimalBe(Value58(digits));
    MinimalBeIsMinimal(Value58(digits));
    LeadingZerosOf(n, bytes);
    ZerosAreWorthless(n, bytes);
    TopDigit(rest, digits);
    Numeral58IsCanonical(Value58(digits));
    CanonicalIsUnique(digits, Numeral58(Value58(digits)));
    assert text == Ones(n) + rest;
  }

  lemma TopDigit(rest: string, digits: seq<nat>)
    requires (forall k :: 0 <= k < |digits| ==> digits[k] < 58) && Render(digits) == rest
    requires rest != "" ==> rest[0] != '1'
    ensures Canonical(digits)
  {
    if digits != [] {
      assert Letter(0) == '1';
      assert rest[0] == Letter(digits[|digits| - 1]);
    }
  }

  // ---------------------------------------------------------------------------
  // The encoder
  // ---------------------------------------------------------------------------

  /** Multiply the numeral by 256 and add `next`, digit by digit in place. */
  method AddByte(digits0: seq<nat>, next: byte) returns (digits: seq<nat>)
    requires Canonical(digits0)
    ensures Canonical(digits)
    ensures Value58(digits) == 256 * Value58(digits0) + next
  {
    var carry: nat;
    digits, carry := PassDigits(digits0, next);
    LastCarry(digits0, digits, carry, next);
    ghost var total := 256 * Value58(digits0) + next;
    while carry > 0
      invariant forall k :: 0 <= k < |digits| ==> digits[k] < 58
      invariant Value58(digits) + Pow58(|digits|) * carry == total
      invariant carry == 0 ==> Canonical(digits)
      decreases carry
    {
      PushStep(digits, carry);
      digits := digits + [carry % 58];
      carry := carry / 58;
    }
  }

  /** The inner loop over the digits that are there. */
  method PassDigits(digits0: seq<nat>, next: byte) returns (digits: seq<nat>, carry: nat)
    requires forall k :: 0 <= k < |digits0| ==> digits0[k] < 58
    ensures |digits| == |digits0| && (forall k :: 0 <= k < |digits| ==> digits[k] < 58) && carry <= 255
    ensures Value58(digits) + Pow58(|digits|) * carry == 256 * Value58(digits0) + next
  {
    digits := digits0;
    carry := next;
    var i := 0;
    while i < |digits|
      invariant i <= |digits| == |digits0| && carry <= 255
      invariant forall k :: 0 <= k < i ==> digits[k] < 58
      invariant forall k :: i <= k < |digits| ==> digits[k] == digits0[k]
      invariant Value58(digits[..i]) + Pow58(i) * carry == 256 * Value58(digits0[..i]) + next
    {
      ghost var left := digits[..i];
      var d := digits[i];
      PassStep(left, digits0[..i], d, carry, next);
      CarryStep(carry, d);
      assert digits0[..i] + [d] == digits0[..i + 1];
      carry := carry + d * 256;
      digits := digits[i := carry % 58];
      assert digits[..i + 1] == left + [carry % 58];
      carry := carry / 58;
      i := i + 1;
    }
    assert digits[..i] == digits && digits0[..i] == digits0;
  }

  /** After the pass over non-empty digits something is carried out of the top, so the digits pushed
      next end in one that is not zero. */
  lemma LastCarry(digits0: seq<nat>, digits: seq<nat>, carry: nat, next: byte)
    requires Canonical(digits0) && |digits| == |digits0|
    requires forall k :: 0 <= k < |digits| ==> digits[k] < 58
    requires Value58(digits) + Pow58(|digits|) * carry == 256 * Value58(digits0) + next
    ensures carry == 0 ==> digits == []
  {
    if digits != [] {
      CanonicalIsLarge(digits0);
      DigitsAreSmall(digits);
      assert Pow58(|digits|) == 58 * Pow58(|digits| - 1);
      assert Value58(digits) < 256 * Value58(digits0);
    }
  }

  /** The outer loop: the digits of the number, one byte at a time. */
  method Digits(bytes: seq<byte>) returns (digits: seq<nat>)
    ensures Canonical(digits) && Value58(digits) == FromBe(bytes)
  {
    digits := [];
    for i := 0 to |bytes|
      invariant Canonical(digits) && Value58(digits) == FromBe(bytes[..i])
    {
      FromBeTake(bytes, i);
      digits := AddByte(digits, bytes[i]);
    }
    assert bytes[..|bytes|] == bytes;
  }

  lemma FromBeTake(bytes: seq<byte>, i: nat)
    requires i < |bytes|
    ensures FromBe(bytes[..i + 1]) == 256 * FromBe(bytes[..i]) + bytes[i]
  {
    assert bytes[..i + 1][..i] == bytes[..i];
  }

  /** The text of `bytes`, and what pins it down: one '1' per leading zero byte, then the canonical
      base-58 numeral of the big-endian number. */
  method Encode(bytes: seq<byte>) returns (text: string)
    ensures text == EncodeSpec(bytes)
    ensures Decode(text) == Some(bytes)
  {
    DecodeEncode(bytes);
    if bytes == [] {
      assert EncodeSpec([]) == "";
      return "";
    }
    var leadingZeros := LeadingZeros(bytes);
    var digits := Digits(bytes);
    EncodeIs(bytes, digits);
    text := Text(leadingZeros, digits);
  }

  method Text(leadingZeros: nat, digits: seq<nat>) returns (text: string)
    requires forall k :: 0 <= k < |digits| ==> digits[k] < 58
    ensures text == Ones(leadingZeros) + Render(digits)
  {
    text := "";
    for k := 0 to leadingZeros
      invariant text == Ones(k)
    {
      text := text + [Letter(0)];
    }
    for k := 0 to |digits|
      invariant text == Ones(leadingZeros) + Render(digits)[..k]
    {
      text := text + [Letter(digits[|digits| - 1 - k])];
    }
  }
}
