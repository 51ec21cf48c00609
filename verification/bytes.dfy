/** Byte-level arithmetic used by the NextPM driver: the `uint8_t` type, the
    C++ remainder operator, storing an int into a `uint8_t`, the byte sum
    behind both checksums, and the bitwise `&`, `|` and `<< 8` the driver
    applies to bytes promoted to int, and two facts about concatenation
    that proofs elsewhere cite by name. */
module Bytes {

  /** The C++ `uint8_t`. */
  type Byte = b: int | 0 <= b < 256

  /** `2^k`, the value of a byte with only bit `k` set (for `k < 8`). */
  function Pow2(k: nat): (p: nat)
    ensures p >= 1
  {
    if k == 0 then 1 else 2 * Pow2(k - 1)
  }

  /** C++'s `x % 0x100` on int: the remainder truncated toward zero, which
      takes the sign of the dividend (unlike Dafny's `%`, which is never
      negative). */
  function CRem256(a: int): (r: int)
    ensures (a - r) % 256 == 0
    ensures a >= 0 ==> 0 <= r < 256
    ensures a < 0 ==> -256 < r <= 0
  {
    if a >= 0 then a % 256 else -((-a) % 256)
  }

  /** Storing an int into a `uint8_t`: the value is kept modulo 256. */
  function ToUint8(x: int): (b: Byte)
    ensures (x - b) % 256 == 0
  {
    x % 256
  }

  /** Sum of the bytes of `s` in an int accumulator, as both checksum
      computations of the driver form it. */
  function Sum(s: seq<Byte>): (r: nat)
    ensures r <= 255 * |s|
  {
    if s == [] then 0 else Sum(s[..|s| - 1]) + s[|s| - 1]
  }

  lemma {:induction false} SumAppend(a: seq<Byte>, b: seq<Byte>)
    ensures Sum(a + b) == Sum(a) + Sum(b)
    decreases |b|
  {
    if b == [] {
      assert a + b == a;
    } else {
      assert (a + b)[..|a + b| - 1] == a + b[..|b| - 1];
      SumAppend(a, b[..|b| - 1]);
    }
  }

  /** Concatenation regrouped, stated once so that proofs can cite it
      instead of leaving the solver to rediscover it. */
  lemma ConcatAssoc<T>(a: seq<T>, b: seq<T>, c: seq<T>)
    ensures a + (b + c) == (a + b) + c
  {
  }

  /** Equal sequences with a common head have equal tails. */
  lemma SameHeadSameTail<T>(head: seq<T>, a: seq<T>, b: seq<T>)
    requires head + a == head + b
    ensures a == b
  {
    assert a == (head + a)[|head|..];
    assert b == (head + b)[|head|..];
  }

  /** Bitwise AND of two naturals, bit by bit from the least significant. */
  function BitAnd(a: nat, b: nat): (r: nat)
    ensures r <= a && r <= b
    decreases a
  {
    if a == 0 || b == 0 then 0
    else 2 * BitAnd(a / 2, b / 2) + (if a % 2 == 1 && b % 2 == 1 then 1 else 0)
  }

  /** Bitwise OR of two naturals, bit by bit from the least significant. */
  function BitOr(a: nat, b: nat): (r: nat)
    ensures r <= a + b
    ensures r >= a && r >= b
    decreases a + b
  {
    if a == 0 then b
    else if b == 0 then a
    else 2 * BitOr(a / 2, b / 2) + (if a % 2 == 1 || b % 2 == 1 then 1 else 0)
  }

  /** OR of `a` shifted left by `k` bits with a value that fits in `k` bits
      adds them: the two have no bit in common. */
  lemma {:induction false} BitOrDisjoint(a: nat, b: nat, k: nat)
    requires b < Pow2(k)
    ensures BitOr(a * Pow2(k), b) == a * Pow2(k) + b
    decreases k
  {
    if k == 0 {
      assert b == 0;
    } else if a == 0 || b == 0 {
    } else {
      var p := Pow2(k - 1);
      assert a * Pow2(k) == 2 * (a * p);
      assert (a * Pow2(k)) / 2 == a * p && (a * Pow2(k)) % 2 == 0;
      assert b / 2 < p;
      BitOrDisjoint(a, b / 2, k - 1);
    }
  }

  /** `hi << 8 | lo` for two bytes promoted to int: a big-endian 16-bit word. */
  function BigEndian16(hi: Byte, lo: Byte): (r: nat)
    ensures r < 0x1_0000
    ensures r / 256 == hi && r % 256 == lo
  {
    assert Pow2(8) == 256;
    BitOrDisjoint(hi, lo, 8);
    BitOr(hi * 256, lo)
  }
}
