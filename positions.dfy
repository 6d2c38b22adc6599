/**
 * `generate_pseudo_random_positions`: the seed taken from the border hash, the
 * row-major list of interior pixels, `random.shuffle` on it, and the prefix that
 * is returned.
 */
module Placement {
  import opened Bits
  import opened Hex
  import opened Grid
  import opened Runtime

  /** `int(hash_value, 16) % (2**32)`: the value passed to `random.seed`. */
  function Seed(hash: string): (seed: nat)
    requires IsHexString(hash)
    ensures seed < 0x1_0000_0000
  {
    HexValue(hash) % 0x1_0000_0000
  }

  /** The hex digest read as a number is the digest's big-endian value, so the seed is that value mod 2^32. */
  lemma SeedOfDigest(d: Digest)
    ensures IsHexString(HexEncode(d))
    ensures Seed(HexEncode(d)) == BigEndian(d) % 0x1_0000_0000
    ensures Seed(HexEncode(d)) < 0x1_0000_0000
  {
    HexValueOfHexEncode(d);
  }

  /** `[(y, x) for x in range(1, w - 1)]` for one row y. */
  function InteriorRow(y: nat, w: nat): (row: seq<Pos>)
    ensures |row| == Inner(w)
  {
    seq(Inner(w), i requires 0 <= i < Inner(w) => Pos(y, i + 1))
  }

  /** The rows y, y + 1, ..., h - 2 of the interior, concatenated. */
  function InteriorFrom(y: nat, h: nat, w: nat): seq<Pos>
    decreases h - y
  {
    if y + 2 > h then [] else InteriorRow(y, w) + InteriorFrom(y + 1, h, w)
  }

  /** `[(y, x) for y in range(1, h - 1) for x in range(1, w - 1)]`. */
  function Interior(h: nat, w: nat): (all: seq<Pos>)
    ensures |all| == Inner(h) * Inner(w)
  {
    InteriorFromExact(1, h, w);
    InteriorFrom(1, h, w)
  }

  /** Row-major order: by row, then by column. */
  predicate Before(a: Pos, b: Pos)
  {
    a.y < b.y || (a.y == b.y && a.x < b.x)
  }

  /** Rows y..h-2 hold (h - 1 - y)·(w - 2) coordinates: exactly the interior ones from row y on, in row-major order. */
  lemma {:induction false} InteriorFromExact(y: nat, h: nat, w: nat)
    requires y >= 1
    ensures |InteriorFrom(y, h, w)| == (if y + 2 <= h then h - 1 - y else 0) * Inner(w)
    ensures forall q :: q in InteriorFrom(y, h, w) <==> y <= q.y && IsInterior(q, h, w)
    ensures forall i, j | 0 <= i < j < |InteriorFrom(y, h, w)| ::
      Before(InteriorFrom(y, h, w)[i], InteriorFrom(y, h, w)[j])
    decreases h - y
  {
    if y + 2 <= h {
      var row, rest := InteriorRow(y, w), InteriorFrom(y + 1, h, w);
      var r := InteriorFrom(y, h, w);
      assert r == row + rest;
      InteriorFromExact(y + 1, h, w);
      var k := if y + 3 <= h then h - 2 - y else 0;
      assert |rest| == k * Inner(w);
      assert (k + 1) * Inner(w) == k * Inner(w) + Inner(w);
      forall q
        ensures q in r <==> y <= q.y && IsInterior(q, h, w)
      {
        if q.y == y && IsInterior(q, h, w) {
          assert row[q.x - 1] == q;
        }
      }
      forall i, j | 0 <= i < j < |r|
        ensures Before(r[i], r[j])
      {
        if j >= |row| && i < |row| {
          assert r[j] == rest[j - |row|];
          assert rest[j - |row|] in rest;
        } else if i >= |row| {
          assert r[i] == rest[i - |row|] && r[j] == rest[j - |row|];
        }
      }
    }
  }

  /**
   * The interior list has (H - 2)·(W - 2) entries, contains exactly the pixels
   * with 1 <= y <= H - 2 and 1 <= x <= W - 2, and lists them in row-major order
   * (so without repetition).
   */
  lemma InteriorExact(h: nat, w: nat)
    ensures |Interior(h, w)| == Inner(h) * Inner(w)
    ensures forall q :: q in Interior(h, w) <==> IsInterior(q, h, w)
    ensures forall i, j | 0 <= i < j < |Interior(h, w)| :: Before(Interior(h, w)[i], Interior(h, w)[j])
    ensures Distinct(Interior(h, w))
  {
    InteriorFromExact(1, h, w);
  }

  /** `x[i], x[j] = x[j], x[i]` */
  function Swap<T>(s: seq<T>, i: nat, j: nat): (r: seq<T>)
    requires i < |s| && j < |s|
    ensures |r| == |s| && r[i] == s[j] && r[j] == s[i]
    ensures forall k | 0 <= k < |s| && k != i && k != j :: r[k] == s[k]
  {
    s[i := s[j]][j := s[i]]
  }

  lemma SwapPermutes<T>(s: seq<T>, i: nat, j: nat)
    requires i < |s| && j < |s|
    ensures |Swap(s, i, j)| == |s| && multiset(Swap(s, i, j)) == multiset(s)
    ensures Distinct(s) ==> Distinct(Swap(s, i, j))
  {
    var r := Swap(s, i, j);
    if Distinct(s) {
      forall a, b | 0 <= a < b < |r|
        ensures r[a] != r[b]
      {
        var sa := if a == j then i else if a == i then j else a;
        var sb := if b == j then i else if b == i then j else b;
        assert r[a] == s[sa] && r[b] == s[sb] && sa != sb;
        if sa > sb {
          assert s[sb] != s[sa];
        }
      }
    }
  }

  /** The index `random.shuffle` swaps with at step i: `_randbelow(i + 1)`. */
  function Draw(seed: nat, randBelow: (nat, nat, nat) -> nat, n: nat, i: nat): (j: nat)
    ensures j <= i
  {
    randBelow(seed, n, i) % (i + 1)
  }

  /** The steps i, i - 1, ..., 1 of `random.shuffle`'s loop `for i in reversed(range(1, len(x)))`. */
  function ShuffleSteps<T>(seed: nat, randBelow: (nat, nat, nat) -> nat, s: seq<T>, i: nat): (r: seq<T>)
    requires i == 0 || i < |s|
    ensures |r| == |s|
    decreases i
  {
    if i == 0 then s
    else ShuffleSteps(seed, randBelow, Swap(s, i, Draw(seed, randBelow, |s|, i)), i - 1)
  }

  /** `random.seed(seed); random.shuffle(s)`: a function of the seed and the list only. */
  function Shuffled<T>(seed: nat, randBelow: (nat, nat, nat) -> nat, s: seq<T>): (r: seq<T>)
    ensures |r| == |s|
  {
    if |s| == 0 then s else ShuffleSteps(seed, randBelow, s, |s| - 1)
  }

  lemma {:induction false} ShuffleStepsPermutes<T>(seed: nat, randBelow: (nat, nat, nat) -> nat, s: seq<T>, i: nat)
    requires i == 0 || i < |s|
    ensures |ShuffleSteps(seed, randBelow, s, i)| == |s|
    ensures multiset(ShuffleSteps(seed, randBelow, s, i)) == multiset(s)
    ensures Distinct(s) ==> Distinct(ShuffleSteps(seed, randBelow, s, i))
    decreases i
  {
    if i > 0 {
      var j := Draw(seed, randBelow, |s|, i);
      SwapPermutes(s, i, j);
      ShuffleStepsPermutes(seed, randBelow, Swap(s, i, j), i - 1);
    }
  }

  /** The shuffle returns a permutation of its input; a list without repetitions stays without. */
  lemma ShuffledPermutes<T>(seed: nat, randBelow: (nat, nat, nat) -> nat, s: seq<T>)
    ensures |Shuffled(seed, randBelow, s)| == |s|
    ensures multiset(Shuffled(seed, randBelow, s)) == multiset(s)
    ensures Distinct(s) ==> Distinct(Shuffled(seed, randBelow, s))
  {
    if |s| > 0 {
      ShuffleStepsPermutes(seed, randBelow, s, |s| - 1);
    }
  }

  /**
   * `random.shuffle` on an array, in place: for i from n - 1 down to 1, swap
   * element i with the element at the index drawn for step i.
   */
  method Shuffle<T>(a: array<T>, seed: nat, randBelow: (nat, nat, nat) -> nat)
    modifies a
    ensures a[..] == Shuffled(seed, randBelow, old(a[..]))
  {
    if a.Length == 0 {
      return;
    }
    var i := a.Length - 1;
    while i > 0
      invariant 0 <= i < a.Length
      invariant ShuffleSteps(seed, randBelow, a[..], i) == Shuffled(seed, randBelow, old(a[..]))
      decreases i
    {
      var j := Draw(seed, randBelow, a.Length, i);
      ghost var before := a[..];
      a[i], a[j] := a[j], a[i];
      assert a[..] == before[i := before[j]][j := before[i]];
      assert ShuffleSteps(seed, randBelow, before, i) == ShuffleSteps(seed, randBelow, a[..], i - 1);
      i := i - 1;
    }
  }

  /**
   * `generate_pseudo_random_positions(hash, h, w, count)` as a value: the first
   * `count` entries of the shuffled interior list, or the `ValueError` raised
   * when the interior has fewer than `count` pixels.
   */
  function Positions(lib: Lib, hash: string, h: nat, w: nat, count: nat): (r: Result<seq<Pos>>)
    requires IsHexString(hash)
    ensures r.Ok? ==> |r.value| == count && Distinct(r.value)
    ensures r.Ok? ==> forall i | 0 <= i < |r.value| :: IsInterior(r.value[i], h, w)
  {
    var interior := Interior(h, w);
    if |interior| < count then Err(ImageTooSmall(count))
    else
      var shuffled := Shuffled(Seed(hash), lib.randBelow, interior);
      InteriorExact(h, w);
      ShuffledPermutes(Seed(hash), lib.randBelow, interior);
      assert forall i | 0 <= i < |shuffled| :: shuffled[i] in multiset(interior);
      var r := shuffled[..count];
      assert forall i | 0 <= i < count :: r[i] == shuffled[i];
      Ok(r)
  }

  /** The method the codec runs: builds the list, checks capacity, shuffles in place, slices. */
  method GeneratePositions(lib: Lib, hash: string, h: nat, w: nat, count: nat) returns (r: Result<seq<Pos>>)
    requires IsHexString(hash)
    ensures r == Positions(lib, hash, h, w, count)
  {
    var seed := Seed(hash);
    var interior := Interior(h, w);
    if |interior| < count {
      return Err(ImageTooSmall(count));
    }
    var a := new Pos[|interior|](i requires 0 <= i < |interior| => interior[i]);
    assert a[..] == interior;
    Shuffle(a, seed, lib.randBelow);
    r := Ok(a[..count]);
  }

  /** A `ValueError` is raised iff more positions are asked for than there are interior pixels. */
  lemma PositionsFailIff(lib: Lib, hash: string, h: nat, w: nat, count: nat)
    requires IsHexString(hash)
    ensures Positions(lib, hash, h, w, count).Err? <==> count > Inner(h) * Inner(w)
    ensures Positions(lib, hash, h, w, count).Err? ==>
      Positions(lib, hash, h, w, count).error == ImageTooSmall(count)
  {
    InteriorExact(h, w);
  }

  /**
   * Regenerating the whole list for more positions extends, never reorders: the
   * answer for k positions is the first k of the answer for any k2 >= k.
   */
  lemma PositionsPrefix(lib: Lib, hash: string, h: nat, w: nat, k: nat, at: seq<Pos>)
    requires IsHexString(hash) && k <= |at| && Positions(lib, hash, h, w, |at|) == Ok(at)
    ensures Positions(lib, hash, h, w, k) == Ok(at[..k])
  {
    var k2 := |at|;
    var shuffled := Shuffled(Seed(hash), lib.randBelow, Interior(h, w));
    ShuffledPermutes(Seed(hash), lib.randBelow, Interior(h, w));
    assert shuffled[..k2][..k] == shuffled[..k];
  }
}
