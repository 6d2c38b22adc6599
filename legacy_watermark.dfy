/**
 * The earlier codec (`watermark.py`): a 16-bit header holding the number of
 * message BITS, least-significant bit first, then the message bytes, each
 * written least-significant bit first, into the same border-seeded blue LSBs.
 */
module LegacyWatermark {
  import opened Bits
  import opened Hex
  import opened Grid
  import opened Runtime
  import opened Border
  import opened Placement

  /** The bits `text_to_bits` lists: bit i is `(data[i // 8] >> (i % 8)) & 1`. */
  function LsbStream(data: seq<byte>): (bits: seq<bit>)
    ensures |bits| == 8 * |data|
  {
    seq(8 * |data|, i requires 0 <= i < 8 * |data| => BitOf(data[i / 8], i % 8))
  }

  /** `text_to_bits` after the UTF-8 encoding: eight bits per byte, least-significant first. */
  method TextToBits(data: seq<byte>) returns (bits: seq<bit>)
    ensures bits == LsbStream(data)
  {
    bits := [];
    for k := 0 to |data|
      invariant bits == LsbStream(data)[..8 * k]
    {
      var b := data[k];
      for i := 0 to 8
        invariant bits == LsbStream(data)[..8 * k + i]
      {
        LsbStreamAt(data, k, i);
        assert LsbStream(data)[..8 * k + i + 1] == LsbStream(data)[..8 * k + i] + [BitOf(b, i)];
        bits := bits + [BitOf(b, i)];
      }
    }
    assert LsbStream(data)[..8 * |data|] == LsbStream(data);
  }

  /** Bit i of byte k sits at index 8·k + i of the stream. */
  lemma LsbStreamAt(data: seq<byte>, k: nat, i: nat)
    requires k < |data| && i < 8
    ensures 8 * k + i < |LsbStream(data)| && LsbStream(data)[8 * k + i] == BitOf(data[k], i)
  {
    DivModUnique(8 * k + i, 8, k, i);
  }

  /** `bits + [0] * (8 - len(bits) % 8)` when the length is not a multiple of 8. */
  function PadToBytes(bits: seq<bit>): (padded: seq<bit>)
    ensures |padded| % 8 == 0 && |bits| <= |padded| < |bits| + 8 && padded[..|bits|] == bits
    ensures forall i | |bits| <= i < |padded| :: padded[i] == 0
  {
    if |bits| % 8 != 0 then bits + seq(8 - |bits| % 8, _ => 0) else bits
  }

  /** Eight bits per byte, the first bit of each group the least significant. */
  function PackBytesLsb(bits: seq<bit>): (bytes: seq<byte>)
    requires |bits| % 8 == 0
    ensures |bytes| == |bits| / 8
  {
    Pow2Byte();
    seq(|bits| / 8, k requires 0 <= k < |bits| / 8 => PackLsb(bits[8 * k..8 * k + 8]))
  }

  /**
   * `bits_to_text` up to its final decoding: pad, then for every group of eight
   * OR `bits[i + j] << j` into a fresh byte and append it.
   */
  method BitsToText(bits: seq<bit>) returns (data: seq<byte>)
    ensures data == PackBytesLsb(PadToBytes(bits))
  {
    var padded := bits;
    if |bits| % 8 != 0 {
      padded := bits + seq(8 - |bits| % 8, _ => 0);
    }
    assert padded == PadToBytes(bits);
    ghost var count := |padded| / 8;
    assert 8 * count == |padded|;
    data := [];
    var i := 0;
    while i < |padded|
      invariant |data| <= count && i == 8 * |data|
      invariant forall k | 0 <= k < |data| :: data[k] == PackLsb(padded[8 * k..8 * k + 8])
    {
      var b := ByteFromBits(padded, i);
      data := data + [b];
      i := i + 8;
    }
  }

  /** `byte = 0; for j in range(8): byte |= bits[i + j] << j`. */
  method ByteFromBits(bits: seq<bit>, i: nat) returns (b: byte)
    requires i + 8 <= |bits|
    ensures b == PackLsb(bits[i..i + 8])
  {
    var acc: nat := 0;
    for j := 0 to 8
      invariant acc == PackLsb(bits[i..i + j])
    {
      PackLsbStep(bits, i, j);
      acc := acc + bits[i + j] * Pow2(j);
    }
    Pow2Byte();
    b := acc;
  }

  /** Packing a byte's stream gives the bytes back; no padding is added to it. */
  lemma LsbRoundTrip(data: seq<byte>)
    ensures PadToBytes(LsbStream(data)) == LsbStream(data)
    ensures PackBytesLsb(LsbStream(data)) == data
  {
    var bits := LsbStream(data);
    DivModUnique(|bits|, 8, |data|, 0);
    assert PadToBytes(bits) == bits;
    forall k | 0 <= k < |data|
      ensures PackBytesLsb(bits)[k] == data[k]
    {
      PackedByte(data, k);
    }
  }

  /** The eight stream bits of byte k are its bits, least-significant first. */
  lemma LsbStreamByte(data: seq<byte>, k: nat)
    requires k < |data|
    ensures 8 * k + 8 <= |LsbStream(data)| && LsbStream(data)[8 * k..8 * k + 8] == LsbBits(data[k], 8)
  {
    LsbStreamAt(data, k, 0);
    forall i | 0 <= i < 8
      ensures LsbStream(data)[8 * k..8 * k + 8][i] == LsbBits(data[k], 8)[i]
    {
      LsbStreamAt(data, k, i);
    }
  }

  lemma PackedByte(data: seq<byte>, k: nat)
    requires k < |data|
    ensures 8 * k + 8 <= |LsbStream(data)| && PackLsb(LsbStream(data)[8 * k..8 * k + 8]) == data[k]
  {
    LsbStreamByte(data, k);
    PackLsbOfLsbBits(data[k], 8);
    Pow2Byte();
  }

  /** The stream of the first k bytes is the first 8·k bits of the stream. */
  lemma LsbStreamPrefix(data: seq<byte>, k: nat)
    requires k <= |data|
    ensures LsbStream(data)[..8 * k] == LsbStream(data[..k])
  {
    forall i | 0 <= i < 8 * k
      ensures LsbStream(data)[i] == LsbStream(data[..k])[i]
    {
      DivModUnique(i, 8, i / 8, i % 8);
    }
  }

  /** The header: `(message_length >> i) & 1` for i in 0..15, where message_length counts bits. */
  function Header(message: seq<byte>): (bits: seq<bit>)
    ensures |bits| == 16
  {
    LsbBits(8 * |message|, 16)
  }

  /** All the bits written: the header, then the message stream. */
  function Payload(message: seq<byte>): (bits: seq<bit>)
    ensures |bits| == 16 + 8 * |message|
  {
    Header(message) + LsbStream(message)
  }

  /** The number of bytes a wrapped header announces for an n-byte message: 8·n mod 65536 bits. */
  function HeaderBytes(n: nat): (k: nat)
    ensures k <= n && k < 8192
    ensures k == n <==> n < 8192
  {
    DivModUnique(n, 8192, n / 8192, n % 8192);
    n % 8192
  }

  /**
   * The header keeps only the low 16 bits of the bit count: it reads back as
   * 8·|m| mod 65536, so exactly when |m| < 8192.
   */
  lemma HeaderWraps(message: seq<byte>)
    ensures PackLsb(Header(message)) == (8 * |message|) % 65536 == 8 * HeaderBytes(|message|)
    ensures PackLsb(Header(message)) == 8 * |message| <==> |message| < 8192
  {
    PackLsbOfLsbBits(8 * |message|, 16);
    Pow2Byte();
    var n := |message|;
    DivModUnique(8 * n, 65536, n / 8192, 8 * (n % 8192));
  }

  /**
   * `embed_message` on a buffer, as a value: the header and message bits written
   * at 16 + 8·|m| positions, reporting `len(message_bits)`; `ImageTooSmall` when
   * the interior is smaller. There is no size limit.
   */
  function Embed(lib: Lib, p: Pixels, message: seq<byte>): (r: Result<Stamped>)
    requires Valid(p)
    ensures r.Err? ==> r.error == ImageTooSmall(16 + 8 * |message|)
    ensures r.Ok? ==> Valid(r.value.pixels) && SameShape(p, r.value.pixels) && r.value.bits == 8 * |message|
  {
    var bits := Payload(message);
    match Positions(lib, BorderHash(lib, p), |p|, |p[0]|, |bits|)
    case Err(e) => Err(e)
    case Ok(at) => Ok(Stamped(WriteLsbs(p, at, bits), 8 * |message|))
  }

  /** `bits_to_text` on the bytes level: pad and pack least-significant first. */
  function Unpack(bits: seq<bit>): (bytes: seq<byte>)
    ensures |bytes| == (|bits| + 7) / 8
  {
    var padded := PadToBytes(bits);
    DivModUnique(|bits| + 7, 8, |padded| / 8, |bits| + 7 - |padded|);
    PackBytesLsb(padded)
  }

  /**
   * `extract_message` on a buffer, as a value: the 16-bit bit count L from the
   * first 16 positions; if L > 0 the positions are drawn again for 16 + L;
   * the bits at positions 16 .. 16 + L, unpacked.
   */
  function Extract(lib: Lib, p: Pixels): (r: Result<seq<byte>>)
    requires Valid(p)
    ensures r.Err? ==> r.error.ImageTooSmall? && r.error.needed >= 16
    ensures r.Ok? ==> |r.value| <= 8192
  {
    var hash := BorderHash(lib, p);
    match Positions(lib, hash, |p|, |p[0]|, 16)
    case Err(e) => Err(e)
    case Ok(first) =>
      BitCountRange(ReadLsbs(p, first));
      MessageAt(lib, p, hash, first, PackLsb(ReadLsbs(p, first)))
  }

  /** The part of `extract_message` after the header: the positions for 16 + L, then the message bits. */
  function MessageAt(lib: Lib, p: Pixels, hash: string, first: seq<Pos>, length: nat): (r: Result<seq<byte>>)
    requires Valid(p) && IsHexString(hash) && AllInBounds(p, first) && |first| == 16
    ensures r.Err? ==> r.error == ImageTooSmall(16 + length)
    ensures r.Ok? ==> |r.value| == (length + 7) / 8
  {
    if |first| < 16 + length then
      match Positions(lib, hash, |p|, |p[0]|, 16 + length)
      case Err(e) => Err(e)
      case Ok(at) => Ok(Unpack(ReadLsbs(p, at)[16..16 + length]))
    else Ok(Unpack(ReadLsbs(p, first)[16..16 + length]))
  }

  /**
   * A count of 0 reads nothing and yields no bytes, without error; a positive
   * count always draws the positions again, and fails with `ImageTooSmall`
   * exactly when 16 + L exceeds the interior.
   */
  lemma MessageAtCases(lib: Lib, p: Pixels, hash: string, first: seq<Pos>, length: nat)
    requires Valid(p) && IsHexString(hash) && AllInBounds(p, first) && |first| == 16
    ensures length == 0 ==> MessageAt(lib, p, hash, first, length) == Ok([])
    ensures length > 0 ==>
      (MessageAt(lib, p, hash, first, length).Err? <==> 16 + length > Inner(|p|) * Inner(|p[0]|))
    ensures MessageAt(lib, p, hash, first, length).Err? ==>
      MessageAt(lib, p, hash, first, length).error == ImageTooSmall(16 + length)
  {
    PositionsFailIff(lib, hash, |p|, |p[0]|, 16 + length);
    if length == 0 {
      assert ReadLsbs(p, first)[16..16] == [];
      assert PadToBytes([]) == [];
    }
  }

  /** The bit count read from 16 header bits lies in [0, 65535]. */
  lemma BitCountRange(bits: seq<bit>)
    requires |bits| == 16
    ensures PackLsb(bits) <= 65535
  {
    Pow2Byte();
  }

  /** Embedding fails, with `ImageTooSmall(16 + 8·|m|)`, iff the interior is smaller than 16 + 8·|m|. */
  lemma EmbedOutcome(lib: Lib, p: Pixels, message: seq<byte>)
    requires Valid(p)
    ensures Embed(lib, p, message).Err? <==> 16 + 8 * |message| > Inner(|p|) * Inner(|p[0]|)
    ensures Embed(lib, p, message).Err? ==> Embed(lib, p, message).error == ImageTooSmall(16 + 8 * |message|)
    ensures Embed(lib, p, message).Ok? ==> Embed(lib, p, message).value.bits == 8 * |message|
  {
    PositionsFailIff(lib, BorderHash(lib, p), |p|, |p[0]|, 16 + 8 * |message|);
  }

  /** The positions `embed_message` draws: 16 + 8·|m| of them, from the border hash. */
  function PayloadPositions(lib: Lib, p: Pixels, message: seq<byte>): (r: Result<seq<Pos>>)
    requires Valid(p)
    ensures r.Ok? ==> |r.value| == 16 + 8 * |message| && AllInBounds(p, r.value) && Distinct(r.value)
  {
    Positions(lib, BorderHash(lib, p), |p|, |p[0]|, 16 + 8 * |message|)
  }

  /**
   * At the i-th drawn position the blue channel of a successful embed becomes
   * `(v & 0xFE) | all_bits[i]`; the pixel's other channels stay as they were.
   */
  lemma EmbedSetsBit(lib: Lib, p: Pixels, message: seq<byte>, i: nat)
    requires Valid(p) && Embed(lib, p, message).Ok? && i < 16 + 8 * |message|
    ensures PayloadPositions(lib, p, message).Ok?
    ensures var at := PayloadPositions(lib, p, message).value;
      var q := Embed(lib, p, message).value.pixels;
      q[at[i].y][at[i].x] == p[at[i].y][at[i].x][0 := SetLsb(p[at[i].y][at[i].x][0], Payload(message)[i])]
  {
    var at := PayloadPositions(lib, p, message).value;
    var bits := Payload(message);
    assert at[..|bits|] == at;
    WriteLsbsAt(p, at, bits, i);
  }

  /** Every pixel not drawn, in every channel, is left as it was by a successful embed. */
  lemma EmbedKeepsOthers(lib: Lib, p: Pixels, message: seq<byte>, y: nat, x: nat)
    requires Valid(p) && Embed(lib, p, message).Ok? && y < |p| && x < |p[0]|
    ensures PayloadPositions(lib, p, message).Ok?
    ensures Pos(y, x) !in PayloadPositions(lib, p, message).value ==>
      Embed(lib, p, message).value.pixels[y][x] == p[y][x]
  {
    var at := PayloadPositions(lib, p, message).value;
    var bits := Payload(message);
    assert at[..|bits|] == at;
    if Pos(y, x) !in at {
      WriteLsbsElsewhere(p, at, bits, y, x);
    }
  }

  /**
   * After a successful embed the border hash is the same, the positions drawn
   * for the payload are drawn again, and their LSBs read back as the payload.
   */
  lemma EmbedReadsBack(lib: Lib, p: Pixels, message: seq<byte>)
    requires Valid(p) && Embed(lib, p, message).Ok?
    ensures var q := Embed(lib, p, message).value.pixels;
      var hash := BorderHash(lib, p);
      var total := 16 + 8 * |message|;
      && Valid(q) && SameShape(p, q) && BorderHash(lib, q) == hash
      && Positions(lib, hash, |p|, |p[0]|, total).Ok?
      && AllInBounds(q, Positions(lib, hash, |p|, |p[0]|, total).value)
      && ReadLsbs(q, Positions(lib, hash, |p|, |p[0]|, total).value) == Payload(message)
  {
    var hash := BorderHash(lib, p);
    var bits := Payload(message);
    var at := Positions(lib, hash, |p|, |p[0]|, |bits|).value;
    var q := WriteLsbs(p, at, bits);
    assert at[..|bits|] == at;
    ReadBack(p, at, bits);
    forall y, x | 0 <= y < |p| && 0 <= x < |p[0]| && !IsInterior(Pos(y, x), |p|, |p[0]|)
      ensures p[y][x] == q[y][x]
    {
      assert Pos(y, x) !in at by {
        forall i | 0 <= i < |at| ensures at[i] != Pos(y, x) {
          assert IsInterior(at[i], |p|, |p[0]|);
        }
      }
      WriteLsbsElsewhere(p, at, bits, y, x);
    }
    BorderHashOfSameRing(lib, p, q);
  }

  /**
   * Embedding m and extracting from the result gives back the first |m| mod 8192
   * bytes of m: all of m below 8192 bytes, and a wrapped header beyond that.
   */
  lemma RoundTrip(lib: Lib, p: Pixels, message: seq<byte>)
    requires Valid(p) && 16 + 8 * |message| <= Inner(|p|) * Inner(|p[0]|)
    ensures Embed(lib, p, message).Ok?
    ensures Extract(lib, Embed(lib, p, message).value.pixels) == Ok(message[..HeaderBytes(|message|)])
  {
    var hash := BorderHash(lib, p);
    EmbedOutcome(lib, p, message);
    EmbedReadsBack(lib, p, message);
    var q := Embed(lib, p, message).value.pixels;
    var at := Positions(lib, hash, |p|, |p[0]|, 16 + 8 * |message|).value;
    HeaderReadsBack(lib, p, message, q, at);
    MessageReadsBack(lib, p, message, q, at);
  }

  /** What the header of a stamped buffer tells extract: 8·(|m| mod 8192) bits follow. */
  lemma HeaderReadsBack(lib: Lib, p: Pixels, message: seq<byte>, q: Pixels, at: seq<Pos>)
    requires Valid(p) && Valid(q) && SameShape(p, q) && BorderHash(lib, q) == BorderHash(lib, p)
    requires Positions(lib, BorderHash(lib, p), |p|, |p[0]|, 16 + 8 * |message|) == Ok(at)
    requires AllInBounds(q, at) && ReadLsbs(q, at) == Payload(message)
    ensures Extract(lib, q) == MessageAt(lib, q, BorderHash(lib, p), at[..16], 8 * HeaderBytes(|message|))
  {
    var hash := BorderHash(lib, p);
    PositionsPrefix(lib, hash, |p|, |p[0]|, 16, at);
    assert Positions(lib, hash, |q|, |q[0]|, 16) == Ok(at[..16]);
    assert ReadLsbs(q, at[..16]) == ReadLsbs(q, at)[..16] == Header(message);
    HeaderWraps(message);
  }

  /** The bits after the header, read for a count of 8·(|m| mod 8192), are the first |m| mod 8192 bytes. */
  lemma MessageReadsBack(lib: Lib, p: Pixels, message: seq<byte>, q: Pixels, at: seq<Pos>)
    requires Valid(p) && Valid(q) && SameShape(p, q)
    requires Positions(lib, BorderHash(lib, p), |p|, |p[0]|, 16 + 8 * |message|) == Ok(at)
    requires AllInBounds(q, at) && ReadLsbs(q, at) == Payload(message)
    ensures MessageAt(lib, q, BorderHash(lib, p), at[..16], 8 * HeaderBytes(|message|)) ==
      Ok(message[..HeaderBytes(|message|)])
  {
    var hash := BorderHash(lib, p);
    var kept := HeaderBytes(|message|);
    assert |p| == |q| && |p[0]| == |q[0]|;
    MessageAtTail(lib, q, hash, at, 8 * kept);
    UnpackPayload(q, at, message, kept);
  }

  /**
   * When the first 16 positions are a prefix of a longer draw, the message bits
   * `extract_message` reads for a count L are the bits after the header in that draw.
   */
  lemma MessageAtTail(lib: Lib, q: Pixels, hash: string, at: seq<Pos>, length: nat)
    requires Valid(q) && IsHexString(hash) && 16 + length <= |at|
    requires Positions(lib, hash, |q|, |q[0]|, |at|) == Ok(at)
    ensures AllInBounds(q, at) && AllInBounds(q, at[..16])
    ensures MessageAt(lib, q, hash, at[..16], length) == Ok(Unpack(ReadLsbs(q, at)[16..16 + length]))
  {
    ReadLsbsSlice(q, at, 16, 16, 0);
    if 0 < length {
      PositionsPrefix(lib, hash, |q|, |q[0]|, 16 + length, at);
      MessageAtRegenerated(lib, q, hash, at[..16], length, at[..16 + length]);
      ReadLsbsSlice(q, at, 16, 16 + length, length);
    } else {
      ReadLsbsSlice(q, at, 16, 16, length);
    }
  }

  /** With a count L > 0 the message bits are read at the regenerated positions for 16 + L. */
  lemma MessageAtRegenerated(lib: Lib, q: Pixels, hash: string, first: seq<Pos>, length: nat, at: seq<Pos>)
    requires Valid(q) && IsHexString(hash) && AllInBounds(q, first) && |first| == 16 && 0 < length
    requires Positions(lib, hash, |q|, |q[0]|, 16 + length) == Ok(at)
    ensures AllInBounds(q, at) && |at| == 16 + length
    ensures MessageAt(lib, q, hash, first, length) == Ok(Unpack(ReadLsbs(q, at)[16..16 + length]))
  {
  }

  /** The first k message bytes come back from the k·8 bits after the header. */
  lemma UnpackPayload(q: Pixels, at: seq<Pos>, message: seq<byte>, k: nat)
    requires Valid(q) && AllInBounds(q, at) && ReadLsbs(q, at) == Payload(message) && k <= |message|
    ensures Unpack(ReadLsbs(q, at)[16..16 + 8 * k]) == message[..k]
  {
    PayloadTail(message, k);
    LsbRoundTrip(message[..k]);
  }

  /** The 8·k payload bits after the header are the stream of the first k bytes. */
  lemma PayloadTail(message: seq<byte>, k: nat)
    requires k <= |message|
    ensures Payload(message)[16..16 + 8 * k] == LsbStream(message[..k])
  {
    LsbStreamPrefix(message, k);
    assert Payload(message)[16..16 + 8 * k] == LsbStream(message)[..8 * k];
  }

  /**
   * Corrected embedding: refuses a message whose bit count does not fit the
   * 16-bit header (8·|m| > 65535, i.e. |m| >= 8192) instead of wrapping it.
   */
  function CheckedEmbed(lib: Lib, p: Pixels, message: seq<byte>): (r: Result<Stamped>)
    requires Valid(p)
    ensures r.Ok? ==> |message| < 8192 && r == Embed(lib, p, message)
    ensures |message| >= 8192 ==> r == Err(MessageTooLarge)
  {
    if 8 * |message| > 65535 then Err(MessageTooLarge) else Embed(lib, p, message)
  }

  /** With the check, every message that is accepted comes back whole. */
  lemma CheckedRoundTrip(lib: Lib, p: Pixels, message: seq<byte>)
    requires Valid(p)
    ensures CheckedEmbed(lib, p, message).Err? <==>
      |message| >= 8192 || 16 + 8 * |message| > Inner(|p|) * Inner(|p[0]|)
    ensures CheckedEmbed(lib, p, message).Ok? ==>
      Extract(lib, CheckedEmbed(lib, p, message).value.pixels) == Ok(message)
  {
    EmbedOutcome(lib, p, message);
    if |message| < 8192 && Embed(lib, p, message).Ok? {
      RoundTrip(lib, p, message);
      assert HeaderBytes(|message|) == |message|;
      assert message[..|message|] == message;
    }
  }

  /** As written, a message of exactly 8192 bytes embeds a zero header and extracts as nothing. */
  lemma WrappedHeaderLosesMessage(lib: Lib, p: Pixels, message: seq<byte>)
    requires Valid(p) && |message| == 8192 && 16 + 8 * |message| <= Inner(|p|) * Inner(|p[0]|)
    ensures Embed(lib, p, message).Ok?
    ensures Extract(lib, Embed(lib, p, message).value.pixels) == Ok([])
  {
    RoundTrip(lib, p, message);
  }

  /**
   * `embed_message` on the loaded image: the bits, the header, the positions,
   * then for each position i below total_bits the blue LSB set to all_bits[i].
   */
  method EmbedMessage(lib: Lib, img: array3<byte>, message: seq<byte>) returns (r: Result<nat>)
    requires img.Length0 > 0 && img.Length1 > 0 && img.Length2 > 0
    modifies img
    ensures r == match Embed(lib, old(Snapshot(img)), message)
                 case Ok(s) => Ok(s.bits)
                 case Err(e) => Err(e)
    ensures Snapshot(img) == match Embed(lib, old(Snapshot(img)), message)
                             case Ok(s) => s.pixels
                             case Err(_) => old(Snapshot(img))
  {
    var hash := BorderHash(lib, Snapshot(img));
    var messageBits := TextToBits(message);
    var messageLength := |messageBits|;
    var headerBits := HeaderBits(messageLength);
    var allBits := headerBits + messageBits;
    assert allBits == Payload(message);
    var totalBits := |allBits|;
    var positions := GeneratePositions(lib, hash, img.Length0, img.Length1, totalBits);
    if positions.Err? {
      return Err(positions.error);
    }
    WriteAll(img, positions.value, allBits);
    r := Ok(messageLength);
  }

  /** `[(message_length >> i) & 1 for i in range(16)]`, by appending. */
  method HeaderBits(n: nat) returns (bits: seq<bit>)
    ensures bits == LsbBits(n, 16)
  {
    bits := [];
    for i := 0 to 16
      invariant bits == LsbBits(n, 16)[..i]
    {
      bits := bits + [BitOf(n, i)];
    }
  }

  /** The embedding loop: `for i, (y, x) in enumerate(positions): if i < total_bits: ...`. */
  method WriteAll(img: array3<byte>, at: seq<Pos>, bits: seq<bit>)
    requires img.Length0 > 0 && img.Length1 > 0 && img.Length2 > 0
    requires AllInBounds(Snapshot(img), at) && |bits| <= |at|
    modifies img
    ensures Snapshot(img) == WriteLsbs(old(Snapshot(img)), at, bits)
  {
    ghost var p := Snapshot(img);
    ghost var cur := p;
    SnapshotIs(img, p);
    var totalBits := |bits|;
    for i := 0 to |at|
      invariant cur == WriteLsbs(p, at, bits[..if i < totalBits then i else totalBits]) && Shows(img, cur)
    {
      if i < totalBits {
        var y, x := at[i].y, at[i].x;
        StoreBit(img, y, x, bits[i], cur);
        WriteLsbsNext(p, at, bits, i);
        cur := StoreLsb(cur, at[i], bits[i]);
      }
    }
    assert bits[..totalBits] == bits;
    SnapshotIs(img, cur);
  }

  /**
   * `extract_message` on the loaded image, up to the final decoding: the header
   * bits, the bit count OR-ed together, the positions regenerated when more
   * than 16 are needed, the message bits, `bits_to_text`'s packing.
   */
  method ExtractMessage(lib: Lib, img: array3<byte>) returns (r: Result<seq<byte>>)
    requires img.Length0 > 0 && img.Length1 > 0 && img.Length2 > 0
    ensures r == Extract(lib, Snapshot(img))
  {
    var hash := BorderHash(lib, Snapshot(img));
    var positions := GeneratePositions(lib, hash, img.Length0, img.Length1, 16);
    if positions.Err? {
      return Err(positions.error);
    }
    var first := positions.value;
    var headerBits := ReadBits(img, first, 0, 16);
    assert headerBits == ReadLsbs(Snapshot(img), first);
    var messageLength := BitCount(headerBits);
    r := ReadMessage(lib, img, hash, first, messageLength);
  }

  /** The rest of `extract_message`: regenerate when more than 16 positions are needed, read, unpack. */
  method ReadMessage(lib: Lib, img: array3<byte>, hash: string, first: seq<Pos>, messageLength: nat)
    returns (r: Result<seq<byte>>)
    requires img.Length0 > 0 && img.Length1 > 0 && img.Length2 > 0 && IsHexString(hash)
    requires AllInBounds(Snapshot(img), first) && |first| == 16
    ensures r == MessageAt(lib, Snapshot(img), hash, first, messageLength)
  {
    var at := first;
    if |first| < 16 + messageLength {
      var positions := GeneratePositions(lib, hash, img.Length0, img.Length1, 16 + messageLength);
      if positions.Err? {
        return Err(positions.error);
      }
      at := positions.value;
    }
    var messageBits := ReadBits(img, at, 16, 16 + messageLength);
    var data := BitsToText(messageBits);
    r := Ok(data);
  }

  /** `message_length |= bit << i` over the header bits. */
  method BitCount(bits: seq<bit>) returns (n: nat)
    ensures n == PackLsb(bits)
  {
    n := 0;
    for i := 0 to |bits|
      invariant n == PackLsb(bits[..i])
    {
      assert bits[..i + 1][..i] == bits[..i];
      n := n + bits[i] * Pow2(i);
    }
    assert bits[..|bits|] == bits;
  }
}
