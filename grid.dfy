/**
 * The H×W×C pixel buffer (`image[y, x, c]`, channel 0 blue), its interior, and
 * the least-significant-bit writes and reads that carry the hidden bits.
 */
module Grid {
  import opened Bits

  /** A pixel coordinate `(y, x)`: row, then column. */
  datatype Pos = Pos(y: nat, x: nat)

  /** A pixel buffer as values: rows of pixels, each pixel a list of channel bytes. */
  type Pixels = seq<seq<seq<byte>>>

  /** A watermarked buffer and the bit count `embed_message` reports for it. */
  datatype Stamped = Stamped(pixels: Pixels, bits: nat)

  /** A non-empty rectangular buffer whose pixels all have the same, non-zero number of channels. */
  predicate Valid(p: Pixels)
  {
    && |p| > 0 && |p[0]| > 0 && |p[0][0]| > 0
    && forall y | 0 <= y < |p| ::
         |p[y]| == |p[0]| && forall x | 0 <= x < |p[y]| :: |p[y][x]| == |p[0][0]|
  }

  predicate SameShape(p: Pixels, q: Pixels)
    requires Valid(p) && Valid(q)
  {
    |p| == |q| && |p[0]| == |q[0]| && |p[0][0]| == |q[0][0]|
  }

  predicate InBounds(p: Pixels, q: Pos)
    requires Valid(p)
  {
    q.y < |p| && q.x < |p[0]|
  }

  predicate AllInBounds(p: Pixels, at: seq<Pos>)
    requires Valid(p)
  {
    forall i | 0 <= i < |at| :: InBounds(p, at[i])
  }

  /** `len(range(1, n - 1))`: the number of rows (or columns) strictly inside the border. */
  function Inner(n: nat): nat
  {
    if n >= 2 then n - 2 else 0
  }

  /** `1 <= y <= h - 2 and 1 <= x <= w - 2`: q lies strictly inside the one-pixel border ring. */
  predicate IsInterior(q: Pos, h: nat, w: nat)
  {
    1 <= q.y && q.y + 2 <= h && 1 <= q.x && q.x + 2 <= w
  }

  predicate Distinct<T(==)>(s: seq<T>)
  {
    forall i, j | 0 <= i < j < |s| :: s[i] != s[j]
  }

  /**
   * The buffer after `image[y, x, 0] = image[y, x, 0] & 0xFE` and then
   * `image[y, x, 0] = image[y, x, 0] | b` at q = (y, x).
   */
  function StoreLsb(p: Pixels, q: Pos, b: bit): (r: Pixels)
    requires Valid(p) && InBounds(p, q)
    ensures Valid(r) && SameShape(r, p)
  {
    p[q.y := p[q.y][q.x := p[q.y][q.x][0 := SetLsb(p[q.y][q.x][0], b)]]]
  }

  /** One cell after a store: the blue channel of q is the new value, every other cell is as before. */
  lemma StoreLsbCell(p: Pixels, q: Pos, b: bit, y: nat, x: nat, c: nat)
    requires Valid(p) && InBounds(p, q) && y < |p| && x < |p[0]| && c < |p[0][0]|
    ensures StoreLsb(p, q, b)[y][x][c] ==
      if y == q.y && x == q.x && c == 0 then SetLsb(p[y][x][0], b) else p[y][x][c]
  {
  }

  /** The buffer after storing bits[i] into the blue LSB at at[i], for i = 0, 1, ... in order. */
  function WriteLsbs(p: Pixels, at: seq<Pos>, bits: seq<bit>): (r: Pixels)
    requires Valid(p) && AllInBounds(p, at) && |bits| <= |at|
    ensures Valid(r) && SameShape(r, p)
    decreases |bits|
  {
    if bits == [] then p
    else
      var before := WriteLsbs(p, at, bits[..|bits| - 1]);
      StoreLsb(before, at[|bits| - 1], bits[|bits| - 1])
  }

  /** Writing one more bit is one more store on top of the earlier writes. */
  lemma WriteLsbsNext(p: Pixels, at: seq<Pos>, bits: seq<bit>, n: nat)
    requires Valid(p) && AllInBounds(p, at) && n < |bits| <= |at|
    ensures WriteLsbs(p, at, bits[..n + 1]) == StoreLsb(WriteLsbs(p, at, bits[..n]), at[n], bits[n])
  {
    assert bits[..n + 1][..n] == bits[..n];
  }

  /** `[image[y, x, 0] & 1 for (y, x) in at]`. */
  function ReadLsbs(p: Pixels, at: seq<Pos>): (bits: seq<bit>)
    requires Valid(p) && AllInBounds(p, at)
    ensures |bits| == |at|
  {
    seq(|at|, i requires 0 <= i < |at| => p[at[i].y][at[i].x][0] % 2)
  }

  /** The values held by a three-dimensional array, `img[y, x, c]` at `[y][x][c]`. */
  function Snapshot(img: array3<byte>): (p: Pixels)
    reads img
    ensures |p| == img.Length0
    ensures img.Length0 > 0 && img.Length1 > 0 && img.Length2 > 0 ==> Valid(p)
    ensures forall y | 0 <= y < img.Length0 :: |p[y]| == img.Length1
    ensures forall y, x | 0 <= y < img.Length0 && 0 <= x < img.Length1 :: |p[y][x]| == img.Length2
    ensures forall y, x, c | 0 <= y < img.Length0 && 0 <= x < img.Length1 && 0 <= c < img.Length2 ::
      p[y][x][c] == img[y, x, c]
  {
    seq(img.Length0, y requires 0 <= y < img.Length0 reads img =>
      seq(img.Length1, x requires 0 <= x < img.Length1 reads img =>
        seq(img.Length2, c requires 0 <= c < img.Length2 reads img => img[y, x, c])))
  }

  /** The array holds exactly the buffer q: same shape, every cell equal. */
  ghost predicate Shows(img: array3<byte>, q: Pixels)
    reads img
  {
    && Valid(q) && |q| == img.Length0 && |q[0]| == img.Length1 && |q[0][0]| == img.Length2
    && forall y, x, c | 0 <= y < img.Length0 && 0 <= x < img.Length1 && 0 <= c < img.Length2 ::
         img[y, x, c] == q[y][x][c]
  }

  /** An array shows its own snapshot, and no other buffer. */
  lemma SnapshotIs(img: array3<byte>, q: Pixels)
    requires img.Length0 > 0 && img.Length1 > 0 && img.Length2 > 0
    ensures Shows(img, Snapshot(img))
    ensures Shows(img, q) ==> Snapshot(img) == q
  {
    var p := Snapshot(img);
    if Shows(img, q) {
      forall y | 0 <= y < |q|
        ensures p[y] == q[y]
      {
        forall x | 0 <= x < |q[y]|
          ensures p[y][x] == q[y][x]
        {
        }
      }
    }
  }

  /** Writing bit i lands at at[i]; with distinct positions no later write disturbs it. */
  lemma {:induction false} WriteLsbsAt(p: Pixels, at: seq<Pos>, bits: seq<bit>, i: nat)
    requires Valid(p) && AllInBounds(p, at) && |bits| <= |at| && Distinct(at[..|bits|])
    requires i < |bits|
    ensures var q := at[i];
      WriteLsbs(p, at, bits)[q.y][q.x] == p[q.y][q.x][0 := SetLsb(p[q.y][q.x][0], bits[i])]
  {
    var n := |bits| - 1;
    var front := bits[..n];
    assert at[..|front|] == at[..|bits|][..n];
    if i < n {
      WriteLsbsAt(p, at, front, i);
      assert at[i] != at[n] by {
        assert at[..|bits|][i] == at[i] && at[..|bits|][n] == at[n];
      }
    } else {
      WriteLsbsElsewhere(p, at, front, at[i].y, at[i].x);
      assert Pos(at[i].y, at[i].x) !in at[..|front|] by {
        forall j | 0 <= j < |front|
          ensures at[..|front|][j] != at[i]
        {
          assert at[..|bits|][j] == at[j] && at[..|bits|][n] == at[n];
        }
      }
    }
  }

  /** A pixel no write targets is left exactly as it was, in every channel. */
  lemma {:induction false} WriteLsbsElsewhere(p: Pixels, at: seq<Pos>, bits: seq<bit>, y: nat, x: nat)
    requires Valid(p) && AllInBounds(p, at) && |bits| <= |at|
    requires y < |p| && x < |p[0]| && Pos(y, x) !in at[..|bits|]
    ensures WriteLsbs(p, at, bits)[y][x] == p[y][x]
  {
    if bits != [] {
      var n := |bits| - 1;
      assert at[..|bits|][n] == at[n];
      assert at[..n] == at[..|bits|][..n];
      WriteLsbsElsewhere(p, at, bits[..n], y, x);
    }
  }

  /** Reading at the first n positions, then skipping `skip`, reads the same bits as skipping `skip` of a full read. */
  lemma ReadLsbsSlice(p: Pixels, at: seq<Pos>, skip: nat, n: nat, length: nat)
    requires Valid(p) && AllInBounds(p, at) && skip + length <= n <= |at|
    ensures AllInBounds(p, at[..n])
    ensures ReadLsbs(p, at[..n])[skip..skip + length] == ReadLsbs(p, at)[skip..skip + length]
  {
    assert forall i | 0 <= i < n :: at[..n][i] == at[i];
  }

  /** Reading the blue LSBs back at the written positions yields the written bits. */
  lemma ReadBack(p: Pixels, at: seq<Pos>, bits: seq<bit>)
    requires Valid(p) && AllInBounds(p, at) && |bits| <= |at| && Distinct(at[..|bits|])
    ensures var q := WriteLsbs(p, at, bits);
      AllInBounds(q, at[..|bits|]) && ReadLsbs(q, at[..|bits|]) == bits
  {
    var q := WriteLsbs(p, at, bits);
    forall i | 0 <= i < |bits|
      ensures ReadLsbs(q, at[..|bits|])[i] == bits[i]
    {
      WriteLsbsAt(p, at, bits, i);
    }
  }

  /** `image[y, x, 0] = image[y, x, 0] & 0xFE`, then `image[y, x, 0] = image[y, x, 0] | bit`. */
  method StoreBit(img: array3<byte>, y: nat, x: nat, bit: bit, ghost cur: Pixels)
    requires Shows(img, cur) && y < img.Length0 && x < img.Length1
    modifies img
    ensures Shows(img, StoreLsb(cur, Pos(y, x), bit))
  {
    img[y, x, 0] := ClearLsb(img[y, x, 0]);
    img[y, x, 0] := OrLsb(img[y, x, 0], bit);
    ghost var next := StoreLsb(cur, Pos(y, x), bit);
    forall y', x', c' | 0 <= y' < img.Length0 && 0 <= x' < img.Length1 && 0 <= c' < img.Length2
      ensures img[y', x', c'] == next[y'][x'][c']
    {
      StoreLsbCell(cur, Pos(y, x), bit, y', x', c');
    }
  }

  /** `[image[y, x, 0] & 1 for (y, x) in positions[lo:hi]]`, built by appending. */
  method ReadBits(img: array3<byte>, at: seq<Pos>, lo: nat, hi: nat) returns (bits: seq<bit>)
    requires img.Length0 > 0 && img.Length1 > 0 && img.Length2 > 0
    requires AllInBounds(Snapshot(img), at) && lo <= hi <= |at|
    ensures bits == ReadLsbs(Snapshot(img), at)[lo..hi]
  {
    ghost var all := ReadLsbs(Snapshot(img), at);
    bits := [];
    for i := lo to hi
      invariant bits == all[lo..i]
    {
      var y, x := at[i].y, at[i].x;
      var bit := img[y, x, 0] % 2;
      assert all[lo..i + 1] == all[lo..i] + [all[i]];
      bits := bits + [bit];
    }
  }
}
