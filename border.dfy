/**
 * `compute_border_hash`: the bytes of the one-pixel border ring, in a fixed
 * order, and the hex SHA-256 digest of them.
 */
module Border {
  import opened Bits
  import opened Hex
  import opened Grid
  import opened Runtime

  /** numpy's `flatten()` of a row of pixels: their channel bytes, pixel after pixel. */
  function Flatten(cells: seq<seq<byte>>): (r: seq<byte>)
    ensures forall c | AllOfSize(cells, c) :: |r| == |cells| * c
  {
    if cells == [] then []
    else
      assert forall c | AllOfSize(cells, c) :: AllOfSize(cells[1..], c);
      cells[0] + Flatten(cells[1..])
  }

  /** Every pixel of the list has c channels. */
  predicate AllOfSize(cells: seq<seq<byte>>, c: nat)
  {
    forall i | 0 <= i < |cells| :: |cells[i]| == c
  }

  /** `image[1:h-1, x, :]` as a list of pixels: column x without its first and last row. */
  function ColumnInside(p: Pixels, x: nat): (col: seq<seq<byte>>)
    requires Valid(p) && x < |p[0]|
    ensures |col| == Inner(|p|)
  {
    seq(Inner(|p|), i requires 0 <= i < Inner(|p|) => p[i + 1][x])
  }

  /**
   * The bytes hashed: the top row, the bottom row, the left column between them
   * and the right column between them, each flattened, concatenated in that order.
   */
  function BorderBytes(p: Pixels): (bytes: seq<byte>)
    requires Valid(p)
    ensures |bytes| == (2 * |p[0]| + 2 * Inner(|p|)) * |p[0][0]|
  {
    var h, w := |p|, |p[0]|;
    PartLengths(p);
    Distribute(w, Inner(h), |p[0][0]|);
    Flatten(p[0]) + Flatten(p[h - 1]) + Flatten(ColumnInside(p, 0)) + Flatten(ColumnInside(p, w - 1))
  }

  /** `hashlib.sha256(border_pixels.tobytes()).hexdigest()`. */
  function BorderHash(lib: Lib, p: Pixels): (hash: string)
    requires Valid(p)
    ensures |hash| == 64 && IsHexString(hash)
  {
    HexEncode(lib.sha256(BorderBytes(p)))
  }

  /** Pixel (y, x) of an h×w buffer agrees in p and q whenever it lies on the border ring. */
  predicate SameRing(p: Pixels, q: Pixels)
    requires Valid(p) && Valid(q) && SameShape(p, q)
  {
    forall y, x | 0 <= y < |p| && 0 <= x < |p[0]| && !IsInterior(Pos(y, x), |p|, |p[0]|) ::
      p[y][x] == q[y][x]
  }

  /** Each of the four parts flattens to C bytes per pixel. */
  lemma PartLengths(p: Pixels)
    requires Valid(p)
    ensures |Flatten(p[0])| == |Flatten(p[|p| - 1])| == |p[0]| * |p[0][0]|
    ensures |Flatten(ColumnInside(p, 0))| == |Flatten(ColumnInside(p, |p[0]| - 1))| == Inner(|p|) * |p[0][0]|
  {
    var h, w, c := |p|, |p[0]|, |p[0][0]|;
    assert AllOfSize(p[0], c) && AllOfSize(p[h - 1], c);
    ColumnCells(p, 0);
    ColumnCells(p, w - 1);
    assert AllOfSize(ColumnInside(p, 0), c) && AllOfSize(ColumnInside(p, w - 1), c);
  }

  lemma ColumnCells(p: Pixels, x: nat)
    requires Valid(p) && x < |p[0]|
    ensures forall i | 0 <= i < Inner(|p|) :: |ColumnInside(p, x)[i]| == |p[0][0]|
  {
  }

  lemma Distribute(w: nat, i: nat, c: nat)
    ensures w * c + w * c + i * c + i * c == (2 * w + 2 * i) * c
  {
  }

  /**
   * The hashed bytes are exactly the border: two buffers of one shape serialise
   * to the same bytes iff they agree on every border pixel. Interior pixels are
   * never hashed, and every channel of every border pixel is.
   */
  lemma BorderBytesExactlyRing(p: Pixels, q: Pixels)
    requires Valid(p) && Valid(q) && SameShape(p, q)
    ensures BorderBytes(p) == BorderBytes(q) <==> SameRing(p, q)
  {
    if SameRing(p, q) {
      RingGivesBytes(p, q);
    }
    if BorderBytes(p) == BorderBytes(q) {
      BytesGiveRing(p, q);
    }
  }

  lemma RingGivesBytes(p: Pixels, q: Pixels)
    requires Valid(p) && Valid(q) && SameShape(p, q) && SameRing(p, q)
    ensures BorderBytes(p) == BorderBytes(q)
  {
    var h, w := |p|, |p[0]|;
    var a1, a2, a3, a4 := p[0], p[h - 1], ColumnInside(p, 0), ColumnInside(p, w - 1);
    var b1, b2, b3, b4 := q[0], q[h - 1], ColumnInside(q, 0), ColumnInside(q, w - 1);
    assert a1 == b1 by {
      forall x | 0 <= x < w ensures a1[x] == b1[x] { assert !IsInterior(Pos(0, x), h, w); }
    }
    assert a2 == b2 by {
      forall x | 0 <= x < w ensures a2[x] == b2[x] { assert !IsInterior(Pos(h - 1, x), h, w); }
    }
    assert a3 == b3 by {
      forall i | 0 <= i < Inner(h) ensures a3[i] == b3[i] { assert !IsInterior(Pos(i + 1, 0), h, w); }
    }
    assert a4 == b4 by {
      forall i | 0 <= i < Inner(h) ensures a4[i] == b4[i] { assert !IsInterior(Pos(i + 1, w - 1), h, w); }
    }
  }

  lemma BytesGiveRing(p: Pixels, q: Pixels)
    requires Valid(p) && Valid(q) && SameShape(p, q) && BorderBytes(p) == BorderBytes(q)
    ensures SameRing(p, q)
  {
    var h, w, c := |p|, |p[0]|, |p[0][0]|;
    var a1, a2, a3, a4 := p[0], p[h - 1], ColumnInside(p, 0), ColumnInside(p, w - 1);
    var b1, b2, b3, b4 := q[0], q[h - 1], ColumnInside(q, 0), ColumnInside(q, w - 1);
    PartLengths(p);
    PartLengths(q);
    SplitConcat(Flatten(a1), Flatten(a2), Flatten(a3), Flatten(a4),
                Flatten(b1), Flatten(b2), Flatten(b3), Flatten(b4));
    ColumnCells(p, 0);
    ColumnCells(p, w - 1);
    ColumnCells(q, 0);
    ColumnCells(q, w - 1);
    FlattenInjective(a1, b1, c);
    FlattenInjective(a2, b2, c);
    FlattenInjective(a3, b3, c);
    FlattenInjective(a4, b4, c);
    forall y, x | 0 <= y < h && 0 <= x < w && !IsInterior(Pos(y, x), h, w)
      ensures p[y][x] == q[y][x]
    {
      if y == 0 {
        assert a1[x] == b1[x];
      } else if y == h - 1 {
        assert a2[x] == b2[x];
      } else if x == 0 {
        assert a3[y - 1] == b3[y - 1];
      } else {
        assert a4[y - 1] == b4[y - 1];
      }
    }
  }

  /** Embedding never touches the ring, so the fingerprint of a watermarked image is the original's. */
  lemma BorderHashOfSameRing(lib: Lib, p: Pixels, q: Pixels)
    requires Valid(p) && Valid(q) && SameShape(p, q) && SameRing(p, q)
    ensures BorderHash(lib, p) == BorderHash(lib, q)
  {
    BorderBytesExactlyRing(p, q);
  }

  lemma {:induction false} FlattenInjective(cs: seq<seq<byte>>, ds: seq<seq<byte>>, c: nat)
    requires |cs| == |ds|
    requires forall i | 0 <= i < |cs| :: |cs[i]| == c && |ds[i]| == c
    requires Flatten(cs) == Flatten(ds)
    ensures cs == ds
  {
    if cs != [] {
      var u, v := Flatten(cs[1..]), Flatten(ds[1..]);
      assert cs[0] + u == ds[0] + v;
      assert cs[0] == (cs[0] + u)[..c];
      assert ds[0] == (ds[0] + v)[..c];
      assert u == (cs[0] + u)[c..];
      assert v == (ds[0] + v)[c..];
      FlattenInjective(cs[1..], ds[1..], c);
      assert cs == [cs[0]] + cs[1..];
      assert ds == [ds[0]] + ds[1..];
    }
  }

  lemma SplitConcat(a1: seq<byte>, a2: seq<byte>, a3: seq<byte>, a4: seq<byte>,
                    b1: seq<byte>, b2: seq<byte>, b3: seq<byte>, b4: seq<byte>)
    requires |a1| == |b1| && |a2| == |b2| && |a3| == |b3| && |a4| == |b4|
    requires a1 + a2 + a3 + a4 == b1 + b2 + b3 + b4
    ensures a1 == b1 && a2 == b2 && a3 == b3 && a4 == b4
  {
    var s, t := a1 + a2 + a3 + a4, b1 + b2 + b3 + b4;
    var n1, n2, n3 := |a1|, |a1| + |a2|, |a1| + |a2| + |a3|;
    assert a1 == s[..n1] && b1 == t[..n1];
    assert a2 == s[n1..n2] && b2 == t[n1..n2];
    assert a3 == s[n2..n3] && b3 == t[n2..n3];
    assert a4 == s[n3..] && b4 == t[n3..];
  }
}
