/**
 * Integer models of the byte and bit arithmetic that both codec versions do with
 * Python's shift, mask and `int.to_bytes`/`int.from_bytes` operations.
 */
module Bits {
  /** One uint8 channel value, or one element of a Python `bytes`/`bytearray`. */
  type byte = x: int | 0 <= x < 256

  /** A single bit, as produced by `v & 1` or `(v >> i) & 1`. */
  type bit = x: int | 0 <= x < 2

  function Pow2(n: nat): (r: nat)
    ensures r >= 1
  {
    if n == 0 then 1 else 2 * Pow2(n - 1)
  }

  /** Bit i of v: Python's `(v >> i) & 1` (a right shift is a floor division by 2^i). */
  function BitOf(v: nat, i: nat): (b: bit)
    ensures v < Pow2(i) ==> b == 0
  {
    (v / Pow2(i)) % 2
  }

  /** `v & 0xFE`: v with its least-significant bit cleared, its other seven bits kept. */
  function ClearLsb(v: byte): (r: byte)
    ensures r % 2 == 0 && r / 2 == v / 2
  {
    v - v % 2
  }

  /** `v | b` for a value whose least-significant bit is clear. */
  function OrLsb(v: byte, b: bit): (r: byte)
    requires v % 2 == 0
    ensures r % 2 == b && r / 2 == v / 2
  {
    v + b
  }

  /** `(v & 0xFE) | b`: the least-significant bit becomes b, bits 1 to 7 stay those of v. */
  function SetLsb(v: byte, b: bit): (r: byte)
    ensures r % 2 == b && r / 2 == v / 2
  {
    OrLsb(ClearLsb(v), b)
  }

  /**
   * Bits packed most-significant first: the value built by `acc = (acc << 1) | b`
   * over the bits in order, starting from 0.
   */
  function PackMsb(bits: seq<bit>): (r: nat)
    ensures r < Pow2(|bits|)
  {
    if bits == [] then 0 else PackMsb(bits[..|bits| - 1]) * 2 + bits[|bits| - 1]
  }

  /**
   * Bits packed least-significant first: the value built by `acc |= b << i` for
   * i = 0, 1, ... (the bits occupy distinct positions, so `|` is `+`).
   */
  function PackLsb(bits: seq<bit>): (r: nat)
    ensures r < Pow2(|bits|)
  {
    if bits == [] then 0 else PackLsb(bits[..|bits| - 1]) + bits[|bits| - 1] * Pow2(|bits| - 1)
  }

  /** The n low bits of v, most-significant first. */
  function MsbBits(v: nat, n: nat): seq<bit>
  {
    seq(n, k requires 0 <= k < n => BitOf(v, n - 1 - k))
  }

  /** The n low bits of v, least-significant first: `[(v >> i) & 1 for i in range(n)]`. */
  function LsbBits(v: nat, n: nat): seq<bit>
  {
    seq(n, i requires 0 <= i < n => BitOf(v, i))
  }

  /** `int.from_bytes(s, byteorder='big')`. */
  function BigEndian(s: seq<byte>): (r: nat)
    ensures r < Pow2(8 * |s|)
  {
    if s == [] then 0
    else
      var front := BigEndian(s[..|s| - 1]);
      Pow2Add(8 * (|s| - 1), 8);
      Pow2Byte();
      PlaceBound(front, Pow2(8 * (|s| - 1)), 256, s[|s| - 1]);
      front * 256 + s[|s| - 1]
  }

  /** `n.to_bytes(2, byteorder='big')`, which Python only accepts for n < 65536. */
  function ToBytes2(n: nat): (r: seq<byte>)
    requires n < 65536
    ensures |r| == 2 && BigEndian(r) == n
  {
    var r := [n / 256, n % 256];
    assert r[..1] == [n / 256] && [n / 256][..0] == [];
    assert BigEndian([n / 256]) == n / 256;
    r
  }

  /** One more bit of a slice, most-significant first: shift left and add it. */
  lemma PackMsbStep(s: seq<bit>, lo: nat, n: nat)
    requires lo + n < |s|
    ensures PackMsb(s[lo..lo + n + 1]) == PackMsb(s[lo..lo + n]) * 2 + s[lo + n]
  {
    assert s[lo..lo + n + 1][..n] == s[lo..lo + n];
  }

  /** One more bit of a slice, least-significant first: add it at the next power of two. */
  lemma PackLsbStep(s: seq<bit>, lo: nat, n: nat)
    requires lo + n < |s|
    ensures PackLsb(s[lo..lo + n + 1]) == PackLsb(s[lo..lo + n]) + s[lo + n] * Pow2(n)
  {
    var t := s[lo..lo + n + 1];
    assert |t| - 1 == n;
    assert t[..n] == s[lo..lo + n] && t[n] == s[lo + n];
  }

  /** A two-byte big-endian value: the high byte times 256 plus the low byte. */
  lemma BigEndianPair(hi: byte, lo: byte)
    ensures BigEndian([hi, lo]) == hi * 256 + lo
  {
    assert [hi, lo][..1] == [hi];
    assert [hi][..0] == [];
    assert BigEndian([hi]) == BigEndian([]) * 256 + hi;
  }

  /** Division with remainder is unique. */
  lemma DivModUnique(v: int, d: int, q: int, m: int)
    requires d > 0 && 0 <= m < d && v == d * q + m
    ensures v / d == q && v % d == m
  {
    var q', m' := v / d, v % d;
    assert d * (q - q') == m' - m;
    if q - q' >= 1 {
      MulAtLeast(d, q - q');
    } else if q' - q >= 1 {
      MulAtLeast(d, q' - q);
    }
  }

  lemma MulAtLeast(d: int, k: int)
    requires d > 0 && k >= 1
    ensures d * k >= d
  {
  }

  /** Taking one more low bit of v adds bit n of v at weight 2^n. */
  lemma ModNextPow2(v: nat, n: nat)
    ensures v % Pow2(n + 1) == v % Pow2(n) + BitOf(v, n) * Pow2(n)
  {
    var p := Pow2(n);
    var q, m := v / p, v % p;
    var a, b := q / 2, q % 2;
    assert v == p * q + m;
    assert q == 2 * a + b;
    assert p * q == (2 * p) * a + b * p;
    DivModUnique(v, 2 * p, a, b * p + m);
  }

  /** Packing the low n bits most-significant first gives back v modulo 2^n. */
  lemma {:induction false} PackMsbOfMsbBits(v: nat, n: nat)
    ensures PackMsb(MsbBits(v, n)) == v % Pow2(n)
  {
    if n > 0 {
      assert MsbBits(v, n) == [BitOf(v, n - 1)] + MsbBits(v, n - 1);
      PackMsbCons(BitOf(v, n - 1), MsbBits(v, n - 1));
      PackMsbOfMsbBits(v, n - 1);
      ModNextPow2(v, n - 1);
    }
  }

  /** The first bit of a most-significant-first group carries weight 2^(|rest|). */
  lemma {:induction false} PackMsbCons(b: bit, rest: seq<bit>)
    ensures PackMsb([b] + rest) == b * Pow2(|rest|) + PackMsb(rest)
  {
    if rest != [] {
      var n := |rest|;
      assert ([b] + rest)[..n] == [b] + rest[..n - 1];
      PackMsbCons(b, rest[..n - 1]);
    }
  }

  /** Packing the low n bits least-significant first gives back v modulo 2^n. */
  lemma {:induction false} PackLsbOfLsbBits(v: nat, n: nat)
    ensures PackLsb(LsbBits(v, n)) == v % Pow2(n)
  {
    if n > 0 {
      assert LsbBits(v, n)[..n - 1] == LsbBits(v, n - 1);
      PackLsbOfLsbBits(v, n - 1);
      ModNextPow2(v, n - 1);
    }
  }

  /** Bits packed most-significant first: a group followed by another shifts the first left. */
  lemma {:induction false} PackMsbAppend(a: seq<bit>, b: seq<bit>)
    ensures PackMsb(a + b) == PackMsb(a) * Pow2(|b|) + PackMsb(b)
  {
    if b == [] {
      assert a + b == a;
    } else {
      var n := |b|;
      var front := b[..n - 1];
      var ab := a + b;
      assert ab[..|ab| - 1] == a + front;
      assert ab[|ab| - 1] == b[n - 1];
      PackMsbAppend(a, front);
      var x, p, f := PackMsb(a), Pow2(n - 1), PackMsb(front);
      assert PackMsb(ab) == PackMsb(a + front) * 2 + b[n - 1];
      assert PackMsb(b) == f * 2 + b[n - 1];
      assert Pow2(n) == 2 * p;
      MulShift(x, p, f);
    }
  }

  lemma MulShift(x: int, p: int, f: int)
    ensures (x * p + f) * 2 == x * (2 * p) + f * 2
  {
  }

  lemma {:induction false} Pow2Add(a: nat, b: nat)
    ensures Pow2(a + b) == Pow2(a) * Pow2(b)
  {
    if b > 0 {
      Pow2Add(a, b - 1);
      assert Pow2(a + b) == 2 * Pow2(a + b - 1);
      assert Pow2(a) * Pow2(b) == Pow2(a) * (2 * Pow2(b - 1));
    }
  }

  /** A number below P, shifted one place in base `base` and given a digit, stays below P·base. */
  lemma PlaceBound(x: nat, P: nat, base: nat, d: nat)
    requires x < P && d < base
    ensures x * base + d < P * base
  {
    MulAtLeast(base, P - x);
    assert P * base - x * base == base * (P - x);
  }

  lemma Pow2Byte()
    ensures Pow2(8) == 256 && Pow2(16) == 65536
  {
    assert Pow2(4) == 16;
    assert Pow2(8) == 256;
  }
}
