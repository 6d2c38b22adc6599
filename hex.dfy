/**
 * Lower-case hexadecimal text: `hashlib`'s `hexdigest()` and `f'{b:02x}'` on the
 * encoding side, `int(s, 16)` on the parsing side.
 */
module Hex {
  import opened Bits

  predicate IsHexDigit(c: char)
  {
    '0' <= c <= '9' || 'a' <= c <= 'f' || 'A' <= c <= 'F'
  }

  /** A string `int(s, 16)` accepts without raising: non-empty, hex digits only. */
  predicate IsHexString(s: string)
  {
    |s| > 0 && forall i | 0 <= i < |s| :: IsHexDigit(s[i])
  }

  /** The lower-case digit of d, as `format` writes it. */
  function Digit(d: nat): (c: char)
    requires d < 16
    ensures IsHexDigit(c) && DigitValue(c) == d
  {
    if d < 10 then ('0' as int + d) as char else ('a' as int + d - 10) as char
  }

  function DigitValue(c: char): (d: nat)
    requires IsHexDigit(c)
    ensures d < 16
  {
    if '0' <= c <= '9' then c as int - '0' as int
    else if 'a' <= c <= 'f' then c as int - 'a' as int + 10
    else c as int - 'A' as int + 10
  }

  /** `''.join(f'{b:02x}' for b in data)`: two lower-case digits per byte, high nibble first. */
  function HexEncode(data: seq<byte>): (s: string)
    ensures |s| == 2 * |data|
    ensures forall i | 0 <= i < |s| :: '0' <= s[i] <= '9' || 'a' <= s[i] <= 'f'
  {
    if data == [] then ""
    else
      var b := data[|data| - 1];
      HexEncode(data[..|data| - 1]) + [Digit(b / 16), Digit(b % 16)]
  }

  /** `int(s, 16)`, read most-significant digit first. */
  function HexValue(s: string): (r: nat)
    requires forall i | 0 <= i < |s| :: IsHexDigit(s[i])
    ensures r < Pow2(4 * |s|)
  {
    if s == [] then 0
    else
      var front := HexValue(s[..|s| - 1]);
      Pow2Add(4 * (|s| - 1), 4);
      assert Pow2(4) == 16;
      PlaceBound(front, Pow2(4 * (|s| - 1)), 16, DigitValue(s[|s| - 1]));
      front * 16 + DigitValue(s[|s| - 1])
  }

  /** The hex text and the bytes it encodes denote the same big-endian number. */
  lemma {:induction false} HexValueOfHexEncode(data: seq<byte>)
    ensures HexValue(HexEncode(data)) == BigEndian(data)
  {
    if data != [] {
      var n := |data|;
      var b := data[n - 1];
      HexValueOfHexEncode(data[..n - 1]);
      HexAppend(HexEncode(data[..n - 1]), b);
    }
  }

  /** Two more digits for a byte b add b as one more base-256 place. */
  lemma HexAppend(front: string, b: byte)
    requires forall i | 0 <= i < |front| :: IsHexDigit(front[i])
    ensures HexValue(front + [Digit(b / 16), Digit(b % 16)]) == HexValue(front) * 256 + b
  {
    var hi, lo := Digit(b / 16), Digit(b % 16);
    var s := front + [hi, lo];
    assert s[..|s| - 1] == front + [hi];
    assert (front + [hi])[..|front|] == front;
    var x := HexValue(front);
    assert HexValue(front + [hi]) == x * 16 + b / 16;
    NibbleSum(x, b);
  }

  lemma NibbleSum(x: int, b: byte)
    ensures (x * 16 + b / 16) * 16 + b % 16 == x * 256 + b
  {
  }

  /** The first 2k hex digits are the encoding of the first k bytes. */
  lemma {:induction false} HexEncodePrefix(data: seq<byte>, k: nat)
    requires k <= |data|
    ensures HexEncode(data)[..2 * k] == HexEncode(data[..k])
  {
    if k < |data| {
      var n := |data|;
      assert data[..n - 1][..k] == data[..k];
      HexEncodePrefix(data[..n - 1], k);
    } else {
      assert data[..k] == data;
    }
  }
}
