/** Machine words: bytes, 64-bit registers, and the little-endian and two's-complement
    readings of byte strings that the recorder relies on. */
module Words {

  const TWO64: int := 0x1_0000_0000_0000_0000

  type byte = b: int | 0 <= b < 256
  type u64 = x: int | 0 <= x < 0x1_0000_0000_0000_0000

  /** 64-bit wrap-around, as `wrapping_add` and `as u64` compute it. */
  function Wrap(x: int): u64 {
    x % TWO64
  }

  function Min(a: int, b: int): int {
    if a <= b then a else b
  }

  function Max(a: int, b: int): int {
    if a >= b then a else b
  }

  function Abs(x: int): nat {
    if x < 0 then -x else x
  }

  /** 256 to the power n: one more than the largest n-byte number. */
  function Pow256(n: nat): (p: nat)
    ensures p > 0
  {
    if n == 0 then 1 else 256 * Pow256(n - 1)
  }

  /** The low n bytes of x, least significant first (`to_le_bytes()[..n]`). */
  function ToLe(x: nat, n: nat): (bytes: seq<byte>)
    ensures |bytes| == n
  {
    if n == 0 then [] else [x % 256] + ToLe(x / 256, n - 1)
  }

  /** The number little-endian bytes denote (`from_le_bytes`). */
  function FromLe(bytes: seq<byte>): nat {
    if bytes == [] then 0 else bytes[0] + 256 * FromLe(bytes[1..])
  }

  /** The number big-endian bytes denote. */
  function FromBe(bytes: seq<byte>): nat {
    if bytes == [] then 0 else 256 * FromBe(bytes[..|bytes| - 1]) + bytes[|bytes| - 1]
  }

  function Reverse<T>(s: seq<T>): (r: seq<T>)
    ensures |r| == |s|
    ensures forall k :: 0 <= k < |s| ==> r[k] == s[|s| - 1 - k]
  {
    if s == [] then [] else Reverse(s[1..]) + [s[0]]
  }

  /** The signed number n little-endian bytes hold in two's complement. */
  function FromTwos(bytes: seq<byte>): int {
    var v := FromLe(bytes);
    if bytes != [] && 2 * v >= Pow256(|bytes|) then v - Pow256(|bytes|) else v
  }

  lemma {:induction false} FromLeBound(bytes: seq<byte>)
    ensures FromLe(bytes) < Pow256(|bytes|)
  {
    if bytes != [] {
      FromLeBound(bytes[1..]);
    }
  }

  lemma {:induction false} FromLeToLe(x: nat, n: nat)
    requires x < Pow256(n)
    ensures FromLe(ToLe(x, n)) == x
  {
    if n > 0 {
      assert ToLe(x, n)[1..] == ToLe(x / 256, n - 1);
      FromLeToLe(x / 256, n - 1);
    }
  }

  lemma {:induction false} ToLeFromLe(bytes: seq<byte>)
    ensures ToLe(FromLe(bytes), |bytes|) == bytes
  {
    if bytes != [] {
      ToLeFromLe(bytes[1..]);
      assert [bytes[0]] + bytes[1..] == bytes;
    }
  }

  /** Reading a byte string backwards swaps the two byte orders. */
  lemma {:induction false} FromBeReverse(bytes: seq<byte>)
    ensures FromBe(Reverse(bytes)) == FromLe(bytes)
  {
    if bytes != [] {
      var r := Reverse(bytes);
      assert r[..|r| - 1] == Reverse(bytes[1..]);
      FromBeReverse(bytes[1..]);
    }
  }

  lemma {:induction false} FromLeAppend(a: seq<byte>, b: seq<byte>)
    ensures FromLe(a + b) == FromLe(a) + Pow256(|a|) * FromLe(b)
  {
    if a == [] {
      assert a + b == b;
    } else {
      assert (a + b)[1..] == a[1..] + b;
      FromLeAppend(a[1..], b);
      Spread(FromLe(a[1..]), Pow256(|a| - 1), FromLe(b));
    }
  }

  lemma Spread(v: nat, p: nat, w: nat)
    ensures 256 * (v + p * w) == 256 * v + (256 * p) * w
  {
  }

  /** Byte k of a word is its k-th base-256 digit. */
  lemma {:induction false} ToLeDigit(x: nat, n: nat, k: nat)
    requires k < n
    ensures ToLe(x, n)[k] == x / Pow256(k) % 256
  {
    if k > 0 {
      ToLeDigit(x / 256, n - 1, k - 1);
      DivDiv(x, 256, Pow256(k - 1));
    }
  }

  lemma DivDiv(x: nat, a: nat, b: nat)
    requires a > 0 && b > 0
    ensures x / a / b == x / (a * b)
  {
    var q, r := x / a / b, x / a % b;
    var rest := a * r + x % a;
    assert x == a * (b * q + r) + x % a == (a * b) * q + rest;
    assert a * r <= a * (b - 1);
    QuotientIs(x, a * b, q, rest);
  }

  lemma QuotientIs(x: int, d: nat, q: int, rest: nat)
    requires d > 0 && x == d * q + rest && rest < d
    ensures x / d == q && x % d == rest
  {
    assert d * (x / d - q) == rest - x % d;
    Multiples(d, x / d - q);
  }

  lemma Multiples(d: nat, k: int)
    ensures k >= 1 ==> d * k >= d
    ensures k <= -1 ==> d * k <= -(d as int)
  {
  }

  /** A signed number that fits n bytes is what its bytes hold in two's complement. */
  lemma TwosOfToLe(x: int, n: nat)
    requires n > 0 && 0 <= 2 * x + Pow256(n) && 2 * x < Pow256(n)
    ensures FromTwos(ToLe(x % Pow256(n), n)) == x
  {
    var p := Pow256(n);
    RemainderOf(x, p);
    FromLeToLe(x % p, n);
  }

  lemma RemainderOf(x: int, p: nat)
    requires 0 <= x + p && x < p
    ensures x % p == if x < 0 then x + p else x
  {
    if x < 0 {
      QuotientIs(x, p, -1, x + p);
    }
  }
}
