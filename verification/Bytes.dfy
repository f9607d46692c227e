/** Bytes, fixed-width integers and big-endian encodings.

    A Go `string` and a Go `[]byte` are both modelled as `bytes`, and a Go
    integer as an `int` confined to its width by a subset type.  `U32`, `U64`
    and `I64` are Go's conversions: the value modulo two to the width, read
    back in two's complement for the signed type.
 */
module Bytes {
  type byte = x: int | 0 <= x < 256
  type bytes = seq<byte>

  const TWO32: int := 0x1_0000_0000
  const TWO64: int := 0x1_0000_0000_0000_0000

  type uint32 = x: int | 0 <= x < TWO32
  type uint64 = x: int | 0 <= x < TWO64
  type int64 = x: int | -(TWO64 / 2) <= x < TWO64 / 2

  function U32(x: int): uint32 { x % TWO32 }

  function U64(x: int): uint64 { x % TWO64 }

  function I64(x: uint64): int64 { if x < TWO64 / 2 then x else x - TWO64 }

  lemma NoWrap(x: int)
    requires 0 <= x < TWO64
    ensures U64(x) == x
  {
  }

  lemma WrapTwice(x: int)
    ensures U64(U64(x)) == U64(x)
  {
  }

  /** The bytes of a literal; `?` stands for a character outside Latin-1,
      which no literal of the model contains. */
  function Ascii(s: string): (b: bytes)
    ensures |b| == |s|
  {
    seq(|s|, i requires 0 <= i < |s| => if s[i] < 256 as char then s[i] as int else 63)
  }

  function Pow2(n: nat): nat
    ensures Pow2(n) > 0
  {
    if n == 0 then 1 else 2 * Pow2(n - 1)
  }

  function Pow256(n: nat): nat
    ensures Pow256(n) > 0
  {
    if n == 0 then 1 else 256 * Pow256(n - 1)
  }

  /** The low `n` bytes of `x`, most significant byte first. */
  function BE(x: nat, n: nat): (b: bytes)
    ensures |b| == n
    decreases n
  {
    if n == 0 then [] else BE(x / 256, n - 1) + [x % 256]
  }

  function FromBE(b: bytes): nat
    decreases |b|
  {
    if |b| == 0 then 0 else FromBE(b[..|b| - 1]) * 256 + b[|b| - 1]
  }

  function BE32(x: uint32): (b: bytes) { BE(x, 4) }

  function BE64(x: uint64): (b: bytes) { BE(x, 8) }

  lemma PowerValues()
    ensures Pow256(4) == TWO32 && Pow256(8) == TWO64
  {
    assert Pow256(2) == 256 * Pow256(1) && Pow256(4) == 256 * Pow256(3);
    assert Pow256(6) == 256 * Pow256(5) && Pow256(8) == 256 * Pow256(7);
  }

  lemma {:induction false} FromBEOfBE(x: nat, n: nat)
    requires x < Pow256(n)
    ensures FromBE(BE(x, n)) == x
    decreases n
  {
    if n > 0 {
      FromBEOfBE(x / 256, n - 1);
      assert BE(x, n)[..n - 1] == BE(x / 256, n - 1);
    }
  }

  lemma {:induction false} FromBEBound(b: bytes)
    ensures FromBE(b) < Pow256(|b|)
    decreases |b|
  {
    if |b| > 0 { FromBEBound(b[..|b| - 1]); }
  }

  lemma {:induction false} BEOfFromBE(b: bytes)
    ensures BE(FromBE(b), |b|) == b
    decreases |b|
  {
    if |b| > 0 {
      var front, last := b[..|b| - 1], b[|b| - 1];
      BEOfFromBE(front);
      assert FromBE(b) / 256 == FromBE(front) && FromBE(b) % 256 == last;
      assert b == front + [last];
    }
  }

  /** Most significant byte first. */
  lemma FourBytes(w: nat)
    ensures BE(w, 4) == [(w / 0x100_0000) % 256, (w / 0x1_0000) % 256, (w / 0x100) % 256, w % 256]
  {
    var a, b, c := w / 0x100, w / 0x1_0000, w / 0x100_0000;
    assert BE(c, 1) == BE(c / 256, 0) + [c % 256] == [c % 256];
    assert b / 256 == c && BE(b, 2) == BE(c, 1) + [b % 256] == [c % 256, b % 256];
    assert a / 256 == b && BE(a, 3) == BE(b, 2) + [a % 256] == [c % 256, b % 256, a % 256];
    assert w / 256 == a && BE(w, 4) == BE(a, 3) + [w % 256];
  }

  lemma {:induction false} FromBEConcat(a: bytes, b: bytes)
    ensures FromBE(a + b) == FromBE(a) * Pow256(|b|) + FromBE(b)
    decreases |b|
  {
    if b == [] {
      assert a + b == a;
    } else {
      var n := |b| - 1;
      assert (a + b)[..|a + b| - 1] == a + b[..n];
      FromBEConcat(a, b[..n]);
      Regroup(FromBE(a), Pow256(n), FromBE(b[..n]));
    }
  }

  lemma Regroup(x: nat, p: nat, y: nat)
    ensures (x * p + y) * 256 == x * (256 * p) + y * 256
  {
  }

  /** The two halves of a word, the upper one first. */
  lemma EightBytes(x: uint64)
    ensures BE64(x) == BE32(x / TWO32) + BE32(x % TWO32)
  {
    hide BE, FromBE, Pow256;
    var high: uint32, low: uint32 := x / TWO32, x % TWO32;
    var b := BE32(high) + BE32(low);
    RoundTrip32(high);
    RoundTrip32(low);
    FromBEConcat(BE32(high), BE32(low));
    PowerValues();
    assert x == high * TWO32 + low;
    BEOfFromBE(b);
  }

  lemma RoundTrip32(x: uint32)
    ensures FromBE(BE32(x)) == x && |BE32(x)| == 4
  {
    PowerValues();
    FromBEOfBE(x, 4);
  }

  lemma RoundTrip64(x: uint64)
    ensures FromBE(BE64(x)) == x && |BE64(x)| == 8
  {
    PowerValues();
    FromBEOfBE(x, 8);
  }

  /** Reading back a 64-bit two's complement value. */
  lemma RoundTripI64(x: int64)
    ensures I64(U64(x)) == x
  {
  }

  predicate HasPrefix(b: bytes, prefix: bytes) {
    |prefix| <= |b| && b[..|prefix|] == prefix
  }

  /** Concatenations of pieces of equal length agree piece by piece. */
  lemma SplitEqual<T>(a: seq<T>, b: seq<T>, c: seq<T>, d: seq<T>)
    requires a + b == c + d && |a| == |c|
    ensures a == c && b == d
  {
    assert a == (a + b)[..|a|] && c == (c + d)[..|a|];
    assert b == (a + b)[|a|..] && d == (c + d)[|a|..];
  }
}
