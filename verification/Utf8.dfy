/** UTF-8 validation, as `std::str::from_utf8` performs it for `read_string`
    (`src/account_decoder.rs`): what passes is exactly the encodings of Unicode text. */
module Utf8 {
  import opened Words

  /** Well-formed UTF-8 (section 4 of RFC 3629), as `std::str::from_utf8` checks it. */
  predicate IsUtf8(s: seq<byte>) {
    s == [] ||
    var n := ScalarLength(s);
    n > 0 && IsUtf8(s[n..])
  }

  /** The number of bytes of the first character; 0 when the bytes start no character. */
  function ScalarLength(s: seq<byte>): (n: nat)
    requires s != []
    ensures n <= |s|
  {
    if s[0] <= 0x7F then 1
    else if 0xC2 <= s[0] <= 0xDF && Tails(s, 1, 0x80, 0xBF) then 2
    else if s[0] == 0xE0 && Tails(s, 2, 0xA0, 0xBF) then 3
    else if (0xE1 <= s[0] <= 0xEC || 0xEE <= s[0] <= 0xEF) && Tails(s, 2, 0x80, 0xBF) then 3
    else if s[0] == 0xED && Tails(s, 2, 0x80, 0x9F) then 3
    else if s[0] == 0xF0 && Tails(s, 3, 0x90, 0xBF) then 4
    else if 0xF1 <= s[0] <= 0xF3 && Tails(s, 3, 0x80, 0xBF) then 4
    else if s[0] == 0xF4 && Tails(s, 3, 0x80, 0x8F) then 4
    else 0
  }

  /** n continuation bytes follow, the first of them between lo and hi. */
  predicate Tails(s: seq<byte>, n: nat, lo: byte, hi: byte)
    requires n > 0
  {
    n < |s| && lo <= s[1] <= hi && forall k :: 2 <= k <= n ==> 0x80 <= s[k] <= 0xBF
  }

  // ---------------------------------------------------------------------------
  // What passes
  // ---------------------------------------------------------------------------

  /** Unicode scalar values: all code points but the surrogates. */
  predicate IsScalar(c: nat) {
    c < 0xD800 || 0xE000 <= c < 0x11_0000
  }

  /** Section 3 of RFC 3629. */
  function EncodeScalar(c: nat): (s: seq<byte>)
    requires IsScalar(c)
    ensures 1 <= |s| <= 4
  {
    if c < 0x80 then [c]
    else if c < 0x800 then [0xC0 + c / 64, 0x80 + c % 64]
    else if c < 0x1_0000 then [0xE0 + c / 4096, 0x80 + c / 64 % 64, 0x80 + c % 64]
    else [0xF0 + c / 0x4_0000, 0x80 + c / 4096 % 64, 0x80 + c / 64 % 64, 0x80 + c % 64]
  }

  /** The scalar value n bytes spell. */
  function ScalarOf(s: seq<byte>, n: nat): int
    requires 1 <= n <= 4 && n <= |s|
  {
    if n == 1 then s[0]
    else if n == 2 then (s[0] as int - 0xC0) * 64 + Low(s[1])
    else if n == 3 then (s[0] as int - 0xE0) * 4096 + Low(s[1]) * 64 + Low(s[2])
    else (s[0] as int - 0xF0) * 0x4_0000 + Low(s[1]) * 4096 + Low(s[2]) * 64 + Low(s[3])
  }

  function Low(b: int): int {
    b - 0x80
  }

  predicate IsText(text: seq<nat>) {
    forall k :: 0 <= k < |text| ==> IsScalar(text[k])
  }

  function EncodeText(text: seq<nat>): seq<byte>
    requires IsText(text)
  {
    if text == [] then [] else EncodeScalar(text[0]) + EncodeText(text[1..])
  }

  /** A number is made of its base-64 digits. */
  lemma DigitsOf(c: nat)
    ensures c == c / 64 * 64 + c % 64
    ensures c == c / 4096 * 4096 + c / 64 % 64 * 64 + c % 64
    ensures c == c / 0x4_0000 * 0x4_0000 + c / 4096 % 64 * 4096 + c / 64 % 64 * 64 + c % 64
  {
    assert c / 64 / 64 == c / 4096 && c / 4096 / 64 == c / 0x4_0000;
    assert c / 64 == c / 4096 * 64 + c / 64 % 64;
  }

  lemma EncodedScalarIsOne(c: nat, rest: seq<byte>)
    requires IsScalar(c)
    ensures ScalarLength(EncodeScalar(c) + rest) == |EncodeScalar(c)|
  {
    var s := EncodeScalar(c) + rest;
    DigitsOf(c);
    if c < 0x80 {
      assert s[0] == c;
    } else if c < 0x800 {
      TwoBytes(s);
    } else if c < 0x1_0000 {
      ThreeBytes(s);
    } else {
      FourBytes(s);
    }
  }

  lemma TwoBytes(s: seq<byte>)
    requires |s| >= 2 && 0xC2 <= s[0] <= 0xDF && 0 <= Low(s[1]) < 64
    ensures ScalarLength(s) == 2
  {
  }

  lemma ThreeBytes(s: seq<byte>)
    requires |s| >= 3 && 0xE0 <= s[0] <= 0xEF && 0 <= Low(s[1]) < 64 && 0 <= Low(s[2]) < 64
    requires IsScalar(ScalarOf(s, 3)) && ScalarOf(s, 3) >= 0x800
    ensures ScalarLength(s) == 3
  {
  }

  lemma FourBytes(s: seq<byte>)
    requires |s| >= 4 && 0xF0 <= s[0] <= 0xF4
    requires 0 <= Low(s[1]) < 64 && 0 <= Low(s[2]) < 64 && 0 <= Low(s[3]) < 64
    requires 0x1_0000 <= ScalarOf(s, 4) < 0x11_0000
    ensures ScalarLength(s) == 4
  {
  }

  /** Base-64 digits are recovered by division. */
  lemma DigitsBack(high: nat, x: nat, y: nat, z: nat)
    requires x < 64 && y < 64 && z < 64
    ensures (high * 64 + z) / 64 == high && (high * 64 + z) % 64 == z
    ensures
      var c := high * 4096 + y * 64 + z;
      c / 4096 == high && c / 64 % 64 == y && c % 64 == z
    ensures
      var c := high * 0x4_0000 + x * 4096 + y * 64 + z;
      c / 0x4_0000 == high && c / 4096 % 64 == x && c / 64 % 64 == y && c % 64 == z
  {
    var c := high * 4096 + y * 64 + z;
    assert c / 64 == high * 64 + y;
    var d := high * 0x4_0000 + x * 4096 + y * 64 + z;
    assert d / 64 == high * 4096 + x * 64 + y && d / 4096 == high * 64 + x;
  }

  /** The first n bytes encode a scalar value. */
  predicate SpellsScalar(s: seq<byte>, n: nat)
    requires 1 <= n <= 4 && n <= |s|
  {
    var c := ScalarOf(s, n);
    c >= 0 && IsScalar(c) && s[..n] == EncodeScalar(c)
  }

  lemma OneIsAnEncodedScalar(s: seq<byte>)
    requires s != [] && ScalarLength(s) > 0
    ensures ScalarLength(s) <= 4 && SpellsScalar(s, ScalarLength(s))
  {
    var n := ScalarLength(s);
    if n == 2 {
      SpelledByTwo(s);
    } else if n == 3 {
      SpelledByThree(s);
    } else if n == 4 {
      SpelledByFour(s);
    }
  }

  lemma SpelledByTwo(s: seq<byte>)
    requires s != [] && ScalarLength(s) == 2
    ensures SpellsScalar(s, 2)
  {
    DigitsBack(s[0] as int - 0xC0, 0, 0, Low(s[1]));
  }

  lemma SpelledByThree(s: seq<byte>)
    requires s != [] && ScalarLength(s) == 3
    ensures SpellsScalar(s, 3)
  {
    DigitsBack(s[0] as int - 0xE0, 0, Low(s[1]), Low(s[2]));
  }

  lemma SpelledByFour(s: seq<byte>)
    requires s != [] && ScalarLength(s) == 4
    ensures SpellsScalar(s, 4)
  {
    DigitsBack(s[0] as int - 0xF0, Low(s[1]), Low(s[2]), Low(s[3]));
  }

  lemma {:induction false} EncodedTextPasses(text: seq<nat>)
    requires IsText(text)
    ensures IsUtf8(EncodeText(text))
  {
    if text != [] {
      EncodedScalarIsOne(text[0], EncodeText(text[1..]));
      EncodedTextPasses(text[1..]);
      assert EncodeText(text)[|EncodeScalar(text[0])|..] == EncodeText(text[1..]);
    }
  }

  lemma {:induction false} WhatPassesIsText(s: seq<byte>) returns (text: seq<nat>)
    requires IsUtf8(s)
    ensures IsText(text) && EncodeText(text) == s
  {
    if s == [] {
      text := [];
    } else {
      OneIsAnEncodedScalar(s);
      var n := ScalarLength(s);
      var rest := WhatPassesIsText(s[n..]);
      text := [ScalarOf(s, n)] + rest;
      assert text[1..] == rest && s == s[..n] + s[n..];
    }
  }

  /** The byte strings accepted are exactly the encodings of Unicode text. */
  lemma Utf8Iff(s: seq<byte>)
    ensures IsUtf8(s) <==> exists text: seq<nat> :: IsText(text) && EncodeText(text) == s
  {
    if IsUtf8(s) {
      var text := WhatPassesIsText(s);
      assert EncodeText(text) == s;
    }
    forall text: seq<nat> | IsText(text) && EncodeText(text) == s ensures IsUtf8(s) {
      EncodedTextPasses(text);
    }
  }
}
