/**
 * The current codec (`src/watermark.py`): a 2-byte big-endian byte-count header
 * followed by the message bytes, every byte written most-significant bit first
 * into the blue least-significant bits at the border-seeded positions.
 */
module Watermark {
  import opened Bits
  import opened Hex
  import opened Grid
  import opened Runtime
  import opened Border
  import opened Placement

  /** What `extract_message` returns: the message (held as its UTF-8 bytes) or an error string. */
  datatype Extracted = Text(utf8: seq<byte>) | Diagnostic(message: string)

  /** The largest byte count the 16-bit header can carry. */
  const MaxMessageBytes := 65535

  /** `message_length.to_bytes(2, byteorder='big') + message_bytes`: the data hidden. */
  function Frame(message: seq<byte>): (data: seq<byte>)
    requires |message| <= MaxMessageBytes
    ensures |data| == 2 + |message| && BigEndian(data[..2]) == |message| && data[2..] == message
  {
    var header := ToBytes2(|message|);
    assert (header + message)[..2] == header && (header + message)[2..] == message;
    header + message
  }

  /** The bits of `data`, byte after byte, bit i being `(data[i // 8] >> (7 - i % 8)) & 1`. */
  function MsbStream(data: seq<byte>): (bits: seq<bit>)
    ensures |bits| == 8 * |data|
  {
    seq(8 * |data|, i requires 0 <= i < 8 * |data| => BitOf(data[i / 8], 7 - i % 8))
  }

  /** n bytes from a bit list, each from eight bits taken most-significant first. */
  function PackBytesMsb(bits: seq<bit>, n: nat): (bytes: seq<byte>)
    requires 8 * n <= |bits|
    ensures |bytes| == n
  {
    Pow2Byte();
    seq(n, k requires 0 <= k < n => PackMsb(bits[8 * k..8 * k + 8]))
  }

  /** Bit j of byte k sits at index 8·k + j of the stream. */
  lemma MsbStreamAt(data: seq<byte>, k: nat, j: nat)
    requires k < |data| && j < 8
    ensures 8 * k + j < |MsbStream(data)| && MsbStream(data)[8 * k + j] == BitOf(data[k], 7 - j)
  {
    DivModUnique(8 * k + j, 8, k, j);
  }

  /** Stream bits 8k to 8k + 7 are bits 7 down to 0 of byte k. */
  lemma MsbStreamGroup(data: seq<byte>, k: nat)
    requires k < |data|
    ensures forall i | 8 * k <= i < 8 * k + 8 :: MsbStream(data)[i] == BitOf(data[k], 7 - (i - 8 * k))
  {
    forall i | 8 * k <= i < 8 * k + 8
      ensures MsbStream(data)[i] == BitOf(data[k], 7 - (i - 8 * k))
    {
      MsbStreamAt(data, k, i - 8 * k);
    }
  }

  /** The eight stream bits of byte k are its bits, most-significant first. */
  lemma MsbStreamByte(data: seq<byte>, k: nat)
    requires k < |data|
    ensures 8 * k + 8 <= |MsbStream(data)| && MsbStream(data)[8 * k..8 * k + 8] == MsbBits(data[k], 8)
  {
    MsbStreamAt(data, k, 0);
    forall j | 0 <= j < 8
      ensures MsbStream(data)[8 * k..8 * k + 8][j] == MsbBits(data[k], 8)[j]
    {
      MsbStreamAt(data, k, j);
    }
  }

  /** Packing a byte's bit stream gives the bytes back. */
  lemma MsbRoundTrip(data: seq<byte>)
    ensures PackBytesMsb(MsbStream(data), |data|) == data
  {
    var bits := MsbStream(data);
    var packed := PackBytesMsb(bits, |data|);
    forall k | 0 <= k < |data|
      ensures packed[k] == data[k]
    {
      PackedByte(data, k);
      assert packed[k] == PackMsb(bits[8 * k..8 * k + 8]);
    }
  }

  lemma PackedByte(data: seq<byte>, k: nat)
    requires k < |data|
    ensures 8 * k + 8 <= |MsbStream(data)| && PackMsb(MsbStream(data)[8 * k..8 * k + 8]) == data[k]
  {
    MsbStreamByte(data, k);
    PackMsbOfMsbBits(data[k], 8);
    Pow2Byte();
  }

  /** The stream of a concatenation is the concatenation of the streams. */
  lemma MsbStreamConcat(a: seq<byte>, b: seq<byte>)
    ensures MsbStream(a + b) == MsbStream(a) + MsbStream(b)
  {
    var s, t := MsbStream(a + b), MsbStream(a) + MsbStream(b);
    forall i | 0 <= i < |s|
      ensures s[i] == t[i]
    {
      if i >= 8 * |a| {
        var k := i - 8 * |a|;
        assert k / 8 == i / 8 - |a| && k % 8 == i % 8;
      }
    }
  }

  /**
   * The 16 header bits read most-significant first into two bytes and then
   * `int.from_bytes(..., 'big')` are the 16 bits read as one big-endian number,
   * so the value is at most 65535.
   */
  lemma HeaderValue(bits: seq<bit>)
    requires |bits| == 16
    ensures BigEndian(PackBytesMsb(bits, 2)) == PackMsb(bits)
    ensures PackMsb(bits) <= MaxMessageBytes
  {
    var hi, lo := bits[0..8], bits[8..16];
    assert hi + lo == bits;
    PackMsbAppend(hi, lo);
    Pow2Byte();
    var a, b := PackMsb(hi), PackMsb(lo);
    assert PackMsb(bits) == a * 256 + b;
    assert PackBytesMsb(bits, 2) == [a, b];
    BigEndianPair(a, b);
  }

  /**
   * `embed_message` on a buffer, as a value: `MessageTooLarge` for more than 65535
   * bytes, `ImageTooSmall` when the interior has fewer pixels than bits to hide,
   * else the buffer with the framed message written and the total bit count.
   */
  function Embed(lib: Lib, p: Pixels, message: seq<byte>): (r: Result<Stamped>)
    requires Valid(p)
    ensures |message| > MaxMessageBytes ==> r == Err(MessageTooLarge)
    ensures r.Err? ==> r.error == MessageTooLarge || r.error == ImageTooSmall(8 * (2 + |message|))
    ensures r.Ok? ==> Valid(r.value.pixels) && SameShape(p, r.value.pixels) && r.value.bits == 8 * (2 + |message|)
  {
    if |message| > MaxMessageBytes then Err(MessageTooLarge)
    else
      var data := Frame(message);
      match FramePositions(lib, p, message)
      case Err(e) => Err(e)
      case Ok(at) => Ok(Stamped(WriteLsbs(p, at, MsbStream(data)), |data| * 8))
  }

  /** The positions `embed_message` draws for a message: 8·(2 + |m|) of them, from the border hash. */
  function FramePositions(lib: Lib, p: Pixels, message: seq<byte>): (r: Result<seq<Pos>>)
    requires Valid(p)
    ensures r.Ok? ==> |r.value| == 8 * (2 + |message|) && AllInBounds(p, r.value) && Distinct(r.value)
  {
    Positions(lib, BorderHash(lib, p), |p|, |p[0]|, 8 * (2 + |message|))
  }

  /** `"Error: Invalid message length detected: {n}"` */
  function InvalidLength(n: nat): (s: string)
    ensures |s| > |InvalidLengthText| && s[..|InvalidLengthText|] == InvalidLengthText && IsDecimal(s[|InvalidLengthText|..])
    ensures DecimalValue(s[|InvalidLengthText|..]) == n
  {
    var s := InvalidLengthText + Decimal(n);
    assert s[..|InvalidLengthText|] == InvalidLengthText && s[|InvalidLengthText|..] == Decimal(n);
    s
  }

  const InvalidLengthText := "Error: Invalid message length detected: "

  /** Decimal digits, at least one, and no leading zero unless the text is "0". */
  predicate IsDecimal(s: string)
  {
    |s| > 0 && (forall i | 0 <= i < |s| :: '0' <= s[i] <= '9') && (s[0] == '0' ==> |s| == 1)
  }

  /** The number a string of decimal digits denotes, read most-significant digit first. */
  function DecimalValue(s: string): nat
    requires forall i | 0 <= i < |s| :: '0' <= s[i] <= '9'
  {
    if |s| == 0 then 0 else DecimalValue(s[..|s| - 1]) * 10 + (s[|s| - 1] as int - '0' as int)
  }

  /** `str(n)`: the canonical decimal numeral of n. */
  function Decimal(n: nat): (s: string)
    ensures IsDecimal(s) && DecimalValue(s) == n
    ensures s == "0" <==> n == 0
  {
    if n < 10 then [Digit(n)]
    else
      var front := Decimal(n / 10);
      assert front[0] != '0';
      var s := front + [Digit(n % 10)];
      assert s[..|s| - 1] == front;
      s
  }

  /** Every decimal numeral without a leading zero is `str` of the number it denotes. */
  lemma {:induction false} DecimalCanonical(s: string)
    requires IsDecimal(s)
    ensures Decimal(DecimalValue(s)) == s
  {
    var front := s[..|s| - 1];
    var c := s[|s| - 1];
    var d := c as int - '0' as int;
    assert 0 <= d < 10 && Digit(d) == c;
    var v := DecimalValue(s);
    assert v == DecimalValue(front) * 10 + d;
    if |s| == 1 {
      assert front == [];
      assert s == [c];
    } else {
      assert IsDecimal(front);
      DecimalCanonical(front);
      if DecimalValue(front) == 0 {
        assert false;
      }
      assert v / 10 == DecimalValue(front) && v % 10 == d;
      assert Decimal(v) == Decimal(v / 10) + [Digit(v % 10)];
      assert s == front + [c];
    }
  }

  /** `s[:n]` */
  function Take(s: string, n: nat): (r: string)
    ensures |r| == (if |s| <= n then |s| else n) && r <= s
  {
    if |s| <= n then s else s[..n]
  }

  /** The diagnostic for bytes that are not UTF-8: the first 64 hex digits of their dump. */
  function Undecodable(bytes: seq<byte>): (s: string)
    ensures |s| == |UndecodableText| + (if |bytes| <= 32 then 2 * |bytes| else 64) + 3
    ensures s[..|UndecodableText|] == UndecodableText && s[|s| - 3..] == "..."
  {
    var s := UndecodableText + Take(HexEncode(bytes), 64) + "...";
    assert s[..|UndecodableText|] == UndecodableText && s[|s| - 3..] == "...";
    s
  }

  const UndecodableText := "Error: Could not decode message as UTF-8. First 32 bytes in hex: "

  /** `message_bytes.decode('utf-8')`, or the hex diagnostic when that raises. */
  function Decoded(lib: Lib, bytes: seq<byte>): (r: Extracted)
    ensures r.Text? <==> lib.utf8Valid(bytes)
    ensures r.Text? ==> r.utf8 == bytes
  {
    if lib.utf8Valid(bytes) then Text(bytes) else Diagnostic(Undecodable(bytes))
  }

  /** The hex dump in the diagnostic covers exactly the first 32 bytes (all of them when fewer). */
  lemma UndecodableShowsFirst32(bytes: seq<byte>)
    ensures Undecodable(bytes) ==
      "Error: Could not decode message as UTF-8. First 32 bytes in hex: "
      + HexEncode(if |bytes| <= 32 then bytes else bytes[..32]) + "..."
  {
    if |bytes| > 32 {
      HexEncodePrefix(bytes, 32);
    }
  }

  /** The header value read from the first 16 positions: two bytes, most-significant bit first, big-endian. */
  function HeaderLength(p: Pixels, headerAt: seq<Pos>): (n: nat)
    requires Valid(p) && AllInBounds(p, headerAt) && |headerAt| == 16
    ensures n == PackMsb(ReadLsbs(p, headerAt)) && n <= MaxMessageBytes
  {
    HeaderValue(ReadLsbs(p, headerAt));
    BigEndian(PackBytesMsb(ReadLsbs(p, headerAt), 2))
  }

  /**
   * `extract_message` on a buffer, as a value: the header at the first 16
   * positions, an invalid-length diagnostic for 0 (or above 65535), otherwise the
   * payload bits at positions 16 .. 16 + 8·length of the regenerated list, packed
   * into bytes and decoded.
   */
  function Extract(lib: Lib, p: Pixels): (r: Result<Extracted>)
    requires Valid(p)
    ensures r.Err? ==> r.error.ImageTooSmall? && r.error.needed >= 16
    ensures r.Ok? && r.value.Text? ==> 1 <= |r.value.utf8| <= MaxMessageBytes
  {
    var hash := BorderHash(lib, p);
    match Positions(lib, hash, |p|, |p[0]|, 16)
    case Err(e) => Err(e)
    case Ok(headerAt) =>
      var length := HeaderLength(p, headerAt);
      if length > MaxMessageBytes || length <= 0 then Ok(Diagnostic(InvalidLength(length)))
      else ExtractPayload(lib, p, hash, length)
  }

  /** The second half of `extract_message`: the payload once the header gave a usable length. */
  function ExtractPayload(lib: Lib, p: Pixels, hash: string, length: nat): (r: Result<Extracted>)
    requires Valid(p) && IsHexString(hash)
    ensures r.Err? <==> 16 + length * 8 > Inner(|p|) * Inner(|p[0]|)
    ensures r.Err? ==> r.error == ImageTooSmall(16 + length * 8)
    ensures r.Ok? && r.value.Text? ==> |r.value.utf8| == length
  {
    PositionsFailIff(lib, hash, |p|, |p[0]|, 16 + length * 8);
    match Positions(lib, hash, |p|, |p[0]|, 16 + length * 8)
    case Err(e) => Err(e)
    case Ok(at) => Ok(Decoded(lib, PackBytesMsb(ReadLsbs(p, at)[16..], length)))
  }

  /**
   * The branches of `extract_message`: fewer than 16 interior pixels is
   * `ImageTooSmall(16)`; otherwise the header is a value in [0, 65535] read from
   * the LSBs of the first 16 positions, 0 gives the invalid-length diagnostic and
   * any other length goes on to the payload.
   */
  lemma ExtractCases(lib: Lib, p: Pixels)
    requires Valid(p)
    ensures var first := Positions(lib, BorderHash(lib, p), |p|, |p[0]|, 16);
      && (first.Err? <==> 16 > Inner(|p|) * Inner(|p[0]|))
      && (first.Err? ==> Extract(lib, p) == Err(ImageTooSmall(16)))
      && (first.Ok? ==>
            var length := HeaderLength(p, first.value);
            && length == PackMsb(ReadLsbs(p, first.value)) <= MaxMessageBytes
            && (length == 0 ==> Extract(lib, p) == Ok(Diagnostic(InvalidLength(0))))
            && (length > 0 ==> Extract(lib, p) == ExtractPayload(lib, p, BorderHash(lib, p), length)))
  {
    var hash := BorderHash(lib, p);
    PositionsFailIff(lib, hash, |p|, |p[0]|, 16);
    var first := Positions(lib, hash, |p|, |p[0]|, 16);
    if first.Ok? {
      HeaderValue(ReadLsbs(p, first.value));
    }
  }

  /**
   * Embedding fails with `MessageTooLarge` iff the message exceeds 65535 bytes,
   * otherwise with `ImageTooSmall` iff 8·(2 + |m|) bits exceed the interior; on
   * success it reports 8·(2 + |m|) bits.
   */
  lemma EmbedOutcome(lib: Lib, p: Pixels, message: seq<byte>)
    requires Valid(p)
    ensures Embed(lib, p, message).Err? <==>
      |message| > MaxMessageBytes || 8 * (2 + |message|) > Inner(|p|) * Inner(|p[0]|)
    ensures |message| > MaxMessageBytes ==> Embed(lib, p, message) == Err(MessageTooLarge)
    ensures |message| <= MaxMessageBytes && 8 * (2 + |message|) > Inner(|p|) * Inner(|p[0]|) ==>
      Embed(lib, p, message) == Err(ImageTooSmall(8 * (2 + |message|)))
    ensures Embed(lib, p, message).Ok? ==> Embed(lib, p, message).value.bits == 8 * (2 + |message|)
  {
    if |message| <= MaxMessageBytes {
      PositionsFailIff(lib, BorderHash(lib, p), |p|, |p[0]|, 8 * (2 + |message|));
    }
  }

  /** A successful embed wrote the frame's stream at the positions drawn for it. */
  lemma EmbedWrote(lib: Lib, p: Pixels, message: seq<byte>)
    requires Valid(p) && Embed(lib, p, message).Ok?
    ensures |message| <= MaxMessageBytes && FramePositions(lib, p, message).Ok?
    ensures Embed(lib, p, message).value.pixels ==
      WriteLsbs(p, FramePositions(lib, p, message).value, MsbStream(Frame(message)))
  {
  }

  /**
   * At the i-th drawn position the blue channel of a successful embed becomes
   * `(v & 0xFE) | ((data[i // 8] >> (7 - i % 8)) & 1)` and the pixel's other
   * channels stay as they were.
   */
  lemma EmbedSetsBit(lib: Lib, p: Pixels, message: seq<byte>, i: nat)
    requires Valid(p) && Embed(lib, p, message).Ok? && i < 8 * (2 + |message|)
    ensures |message| <= MaxMessageBytes && FramePositions(lib, p, message).Ok?
    ensures var at := FramePositions(lib, p, message).value;
      var q := Embed(lib, p, message).value.pixels;
      var data := Frame(message);
      q[at[i].y][at[i].x] == p[at[i].y][at[i].x][0 := SetLsb(p[at[i].y][at[i].x][0], BitOf(data[i / 8], 7 - i % 8))]
  {
    EmbedWrote(lib, p, message);
    StreamBitWritten(p, FramePositions(lib, p, message).value, Frame(message), i);
  }

  /** Writing a byte stream MSB-first puts bit 7 - i % 8 of byte i / 8 at the i-th position. */
  lemma StreamBitWritten(p: Pixels, at: seq<Pos>, data: seq<byte>, i: nat)
    requires Valid(p) && AllInBounds(p, at) && Distinct(at) && |at| == 8 * |data| && i < |at|
    ensures var q := WriteLsbs(p, at, MsbStream(data));
      q[at[i].y][at[i].x] == p[at[i].y][at[i].x][0 := SetLsb(p[at[i].y][at[i].x][0], BitOf(data[i / 8], 7 - i % 8))]
  {
    var bits := MsbStream(data);
    var b := BitOf(data[i / 8], 7 - i % 8);
    assert bits[i] == b;
    assert at[..|bits|] == at;
    WriteLsbsAt(p, at, bits, i);
  }

  /** Every pixel not drawn, in every channel, is left as it was by a successful embed. */
  lemma EmbedKeepsOthers(lib: Lib, p: Pixels, message: seq<byte>, y: nat, x: nat)
    requires Valid(p) && Embed(lib, p, message).Ok? && y < |p| && x < |p[0]|
    ensures |message| <= MaxMessageBytes && FramePositions(lib, p, message).Ok?
    ensures Pos(y, x) !in FramePositions(lib, p, message).value ==>
      Embed(lib, p, message).value.pixels[y][x] == p[y][x]
  {
    EmbedWrote(lib, p, message);
    var at := FramePositions(lib, p, message).value;
    var bits := MsbStream(Frame(message));
    assert at[..|bits|] == at;
    if Pos(y, x) !in at {
      WriteLsbsElsewhere(p, at, bits, y, x);
    }
  }

  /**
   * A successful embed keeps the shape, never touches the border ring, and so
   * leaves the border hash, and with it the seed and the positions, unchanged.
   */
  lemma EmbedKeepsBorder(lib: Lib, p: Pixels, message: seq<byte>)
    requires Valid(p) && Embed(lib, p, message).Ok?
    ensures var q := Embed(lib, p, message).value.pixels;
      Valid(q) && SameShape(p, q) && SameRing(p, q) && BorderHash(lib, q) == BorderHash(lib, p)
  {
    var q := Embed(lib, p, message).value.pixels;
    EmbedWrote(lib, p, message);
    var at := FramePositions(lib, p, message).value;
    forall y, x | 0 <= y < |p| && 0 <= x < |p[0]| && !IsInterior(Pos(y, x), |p|, |p[0]|)
      ensures p[y][x] == q[y][x]
    {
      EmbedKeepsOthers(lib, p, message, y, x);
      assert Pos(y, x) !in at by {
        forall i | 0 <= i < |at| ensures at[i] != Pos(y, x) {
          assert IsInterior(at[i], |p|, |p[0]|);
        }
      }
    }
    BorderHashOfSameRing(lib, p, q);
  }

  /** The framed stream: its first 16 bits read back as |m|, the rest as m. */
  lemma FrameDecodes(message: seq<byte>)
    requires |message| <= MaxMessageBytes
    ensures var bits := MsbStream(Frame(message));
      && |bits| == 16 + 8 * |message|
      && BigEndian(PackBytesMsb(bits[..16], 2)) == |message|
      && PackBytesMsb(bits[16..], |message|) == message
  {
    var header := ToBytes2(|message|);
    var bits := MsbStream(Frame(message));
    MsbStreamConcat(header, message);
    assert bits[..16] == MsbStream(header);
    assert bits[16..] == MsbStream(message);
    MsbRoundTrip(header);
    MsbRoundTrip(message);
  }

  /**
   * After a successful embed the buffer has the same border hash, the positions
   * drawn for the whole frame are drawn again, and reading their LSBs gives the
   * framed stream.
   */
  lemma EmbedReadsBack(lib: Lib, p: Pixels, message: seq<byte>)
    requires Valid(p) && Embed(lib, p, message).Ok?
    ensures |message| <= MaxMessageBytes
    ensures var q := Embed(lib, p, message).value.pixels;
      var hash := BorderHash(lib, p);
      var total := 8 * (2 + |message|);
      && Valid(q) && SameShape(p, q) && BorderHash(lib, q) == hash
      && Positions(lib, hash, |p|, |p[0]|, total).Ok?
      && AllInBounds(q, Positions(lib, hash, |p|, |p[0]|, total).value)
      && ReadLsbs(q, Positions(lib, hash, |p|, |p[0]|, total).value) == MsbStream(Frame(message))
  {
    EmbedWrote(lib, p, message);
    EmbedKeepsBorder(lib, p, message);
    var at := FramePositions(lib, p, message).value;
    var bits := MsbStream(Frame(message));
    ReadBack(p, at, bits);
    assert at[..|bits|] == at;
  }

  /**
   * Embedding m and extracting from the result gives m back (decoded, or the hex
   * diagnostic when m is not UTF-8), whenever 8·(2 + |m|) bits fit the interior
   * and |m| <= 65535. An empty message is embedded with header 0, which extract
   * reports as an invalid length.
   */
  lemma RoundTrip(lib: Lib, p: Pixels, message: seq<byte>)
    requires Valid(p) && |message| <= MaxMessageBytes
    requires 8 * (2 + |message|) <= Inner(|p|) * Inner(|p[0]|)
    ensures Embed(lib, p, message).Ok?
    ensures Extract(lib, Embed(lib, p, message).value.pixels) ==
      if |message| == 0 then Ok(Diagnostic(InvalidLength(0))) else Ok(Decoded(lib, message))
  {
    var hash := BorderHash(lib, p);
    EmbedOutcome(lib, p, message);
    EmbedReadsBack(lib, p, message);
    var q := Embed(lib, p, message).value.pixels;
    var at := Positions(lib, hash, |p|, |p[0]|, 8 * (2 + |message|)).value;
    FrameDecodes(message);
    HeaderReadsBack(lib, p, message, q, at);
    if |message| > 0 {
      PayloadReadsBack(lib, p, message, q, at);
    }
  }

  /** The header of a stamped buffer, read at the first 16 positions, is the byte count. */
  lemma HeaderReadsBack(lib: Lib, p: Pixels, message: seq<byte>, q: Pixels, at: seq<Pos>)
    requires Valid(p) && Valid(q) && SameShape(p, q) && |message| <= MaxMessageBytes
    requires Positions(lib, BorderHash(lib, p), |p|, |p[0]|, 8 * (2 + |message|)) == Ok(at)
    requires AllInBounds(q, at) && ReadLsbs(q, at) == MsbStream(Frame(message))
    ensures Positions(lib, BorderHash(lib, p), |q|, |q[0]|, 16) == Ok(at[..16])
    ensures HeaderLength(q, at[..16]) == |message|
  {
    PositionsPrefix(lib, BorderHash(lib, p), |p|, |p[0]|, 16, at);
    assert ReadLsbs(q, at[..16]) == ReadLsbs(q, at)[..16];
    FrameDecodes(message);
  }

  /** The payload of a stamped buffer, read for the byte count in its header, is the message. */
  lemma PayloadReadsBack(lib: Lib, p: Pixels, message: seq<byte>, q: Pixels, at: seq<Pos>)
    requires Valid(p) && Valid(q) && SameShape(p, q) && |message| <= MaxMessageBytes
    requires Positions(lib, BorderHash(lib, p), |p|, |p[0]|, 8 * (2 + |message|)) == Ok(at)
    requires AllInBounds(q, at) && ReadLsbs(q, at) == MsbStream(Frame(message))
    ensures ExtractPayload(lib, q, BorderHash(lib, p), |message|) == Ok(Decoded(lib, message))
  {
    var hash := BorderHash(lib, p);
    assert Positions(lib, hash, |q|, |q[0]|, 16 + |message| * 8) == Ok(at);
    FrameDecodes(message);
    var payload := ReadLsbs(q, at)[16..];
    assert payload == MsbStream(Frame(message))[16..];
    assert PackBytesMsb(payload, |message|) == message;
  }

  /**
   * `embed_message` on the loaded image: checks the size, frames the message,
   * generates the positions and writes the frame's bits. On failure nothing is
   * written.
   */
  method EmbedMessage(lib: Lib, img: array3<byte>, message: seq<byte>) returns (r: Result<nat>)
    requires img.Length0 > 0 && img.Length1 > 0 && img.Length2 > 0
    modifies img
    ensures r == match Embed(lib, old(Snapshot(img)), message)
                 case Ok(s) => Ok(s.bits)
                 case Err(e) => Err(e)
    ensures Snapshot(img) == match Embed(lib, old(Snapshot(img)), message)
                             case Ok(s) => s.pixels
                             case Err(_) => old(Snapshot(img))
  {
    var hash := BorderHash(lib, Snapshot(img));
    var messageLength := |message|;
    if messageLength > MaxMessageBytes {
      return Err(MessageTooLarge);
    }
    var data := ToBytes2(messageLength) + message;
    var totalBits := |data| * 8;
    var positions := GeneratePositions(lib, hash, img.Length0, img.Length1, totalBits);
    if positions.Err? {
      return Err(positions.error);
    }
    WriteFrame(img, positions.value, data);
    r := Ok(totalBits);
  }

  /**
   * The embedding loop: for each byte of the frame and each bit position, most
   * significant first, clear the blue LSB at positions[bit_index] and OR the bit in.
   */
  method WriteFrame(img: array3<byte>, at: seq<Pos>, data: seq<byte>)
    requires img.Length0 > 0 && img.Length1 > 0 && img.Length2 > 0
    requires AllInBounds(Snapshot(img), at) && 8 * |data| <= |at|
    modifies img
    ensures Snapshot(img) == WriteLsbs(old(Snapshot(img)), at, MsbStream(data))
  {
    ghost var p := Snapshot(img);
    ghost var bits := MsbStream(data);
    ghost var cur := p;
    SnapshotIs(img, p);
    var bitIndex := 0;
    for k := 0 to |data|
      invariant bitIndex == 8 * k
      invariant cur == WriteLsbs(p, at, bits[..bitIndex]) && Shows(img, cur)
    {
      MsbStreamGroup(data, k);
      WriteByte(img, at, data[k], bitIndex, p, bits, cur);
      cur := WriteLsbs(p, at, bits[..bitIndex + 8]);
      bitIndex := bitIndex + 8;
    }
    assert bits[..bitIndex] == bits;
    SnapshotIs(img, cur);
  }

  /** The inner loop of `embed_message`: the eight bits of b, most-significant first, as stream bits lo to lo + 7. */
  method WriteByte(img: array3<byte>, at: seq<Pos>, b: byte, lo: nat,
                   ghost p: Pixels, ghost bits: seq<bit>, ghost cur: Pixels)
    requires Valid(p) && AllInBounds(p, at) && lo + 8 <= |bits| <= |at|
    requires forall i | lo <= i < lo + 8 :: bits[i] == BitOf(b, 7 - (i - lo))
    requires cur == WriteLsbs(p, at, bits[..lo]) && Shows(img, cur)
    modifies img
    ensures Shows(img, WriteLsbs(p, at, bits[..lo + 8]))
  {
    ghost var now := cur;
    for bitPos := 0 to 8
      invariant now == WriteLsbs(p, at, bits[..lo + bitPos]) && Shows(img, now)
    {
      StoreMsbBit(img, at[lo + bitPos], b, bitPos, bits[lo + bitPos], now);
      WriteLsbsNext(p, at, bits, lo + bitPos);
      now := StoreLsb(now, at[lo + bitPos], bits[lo + bitPos]);
    }
  }

  /** `image[y, x, 0] = (image[y, x, 0] & 0xFE) | ((byte >> (7 - bit_pos)) & 1)`. */
  method StoreMsbBit(img: array3<byte>, q: Pos, b: byte, bitPos: nat, ghost want: bit, ghost now: Pixels)
    requires bitPos < 8 && want == BitOf(b, 7 - bitPos)
    requires Shows(img, now) && InBounds(now, q)
    modifies img
    ensures Shows(img, StoreLsb(now, q, want))
  {
    var bit := BitOf(b, 7 - bitPos);
    StoreBit(img, q.y, q.x, bit, now);
  }

  /**
   * `extract_message` on the loaded image: reads the 16 header bits, packs them
   * into two bytes, checks the length, regenerates the positions for the whole
   * message, reads the payload bits, packs them into bytes and decodes.
   */
  method ExtractMessage(lib: Lib, img: array3<byte>) returns (r: Result<Extracted>)
    requires img.Length0 > 0 && img.Length1 > 0 && img.Length2 > 0
    ensures r == Extract(lib, Snapshot(img))
  {
    ghost var p := Snapshot(img);
    var hash := BorderHash(lib, Snapshot(img));
    var headerBits := 16;
    var positions := GeneratePositions(lib, hash, img.Length0, img.Length1, headerBits);
    if positions.Err? {
      return Err(positions.error);
    }
    var lengthBits := ReadBits(img, positions.value, 0, 16);
    assert lengthBits == ReadLsbs(p, positions.value);
    var lengthBytes := PackInto(lengthBits, 2);
    var messageLength := BigEndian(lengthBytes);
    assert messageLength == HeaderLength(p, positions.value);
    if messageLength > MaxMessageBytes || messageLength <= 0 {
      return Ok(Diagnostic(InvalidLength(messageLength)));
    }
    r := ExtractPayloadFrom(lib, img, hash, messageLength);
  }

  /** The payload half of `extract_message`: regenerate the positions, read, pack, decode. */
  method ExtractPayloadFrom(lib: Lib, img: array3<byte>, hash: string, messageLength: nat) returns (r: Result<Extracted>)
    requires img.Length0 > 0 && img.Length1 > 0 && img.Length2 > 0 && IsHexString(hash)
    ensures r == ExtractPayload(lib, Snapshot(img), hash, messageLength)
  {
    var totalBits := 16 + messageLength * 8;
    var positions := GeneratePositions(lib, hash, img.Length0, img.Length1, totalBits);
    if positions.Err? {
      return Err(positions.error);
    }
    var messageBits := ReadBits(img, positions.value, 16, totalBits);
    assert messageBits == ReadLsbs(Snapshot(img), positions.value)[16..];
    var messageBytes := PackInto(messageBits, messageLength);
    r := Ok(Decoded(lib, messageBytes));
  }

  /**
   * The shift-accumulate loops of `extract_message`: a zeroed `bytearray(n)`,
   * then `b = (b << 1) | bits[i*8 + j]` for j in 0..7 into byte i.
   */
  method PackInto(bits: seq<bit>, n: nat) returns (bytes: seq<byte>)
    requires 8 * n <= |bits|
    ensures bytes == PackBytesMsb(bits, n)
  {
    bytes := seq(n, _ => 0);
    for i := 0 to n
      invariant |bytes| == n
      invariant forall k | 0 <= k < i :: bytes[k] == PackMsb(bits[8 * k..8 * k + 8])
    {
      var b := ByteFromBits(bits, i);
      bytes := bytes[i := b];
    }
  }

  /** `byte = 0; for j in range(8): if i*8 + j < len(bits): byte = (byte << 1) | bits[i*8 + j]`. */
  method ByteFromBits(bits: seq<bit>, i: nat) returns (b: byte)
    requires 8 * i + 8 <= |bits|
    ensures b == PackMsb(bits[8 * i..8 * i + 8])
  {
    var acc: nat := 0;
    for j := 0 to 8
      invariant acc == PackMsb(bits[8 * i..8 * i + j])
    {
      if i * 8 + j < |bits| {
        PackMsbStep(bits, 8 * i, j);
        acc := acc * 2 + bits[8 * i + j];
      }
    }
    Pow2Byte();
    b := acc;
  }

  /** The file-name rewrite before saving: ASCII lower-casing, `str.lower` on the letters that occur in ".png". */
  function Lower(c: char): char
  {
    if 'A' <= c <= 'Z' then (c as int - 'A' as int + 'a' as int) as char else c
  }

  /** `name.lower().endswith('.png')` */
  predicate EndsWithPng(name: string)
  {
    |name| >= 4 && forall i | 0 <= i < 4 :: Lower(name[|name| - 4 + i]) == ".png"[i]
  }

  /** The index of the last '.', or -1 when there is none. */
  function LastDot(name: string): (r: int)
    ensures -1 <= r < |name|
    ensures r >= 0 ==> name[r] == '.'
    ensures forall i | r < i < |name| :: name[i] != '.'
  {
    if name == [] then -1
    else if name[|name| - 1] == '.' then |name| - 1
    else LastDot(name[..|name| - 1])
  }

  /** `name.rsplit('.', 1)[0]`: everything before the last '.', or all of it. */
  function BeforeLastDot(name: string): (r: string)
  {
    var d := LastDot(name);
    if d < 0 then name else name[..d]
  }

  /** `output_path` as rewritten before `cv2.imwrite`. */
  function PngName(name: string): (r: string)
    ensures EndsWithPng(r)
  {
    if EndsWithPng(name) then name
    else
      var r := BeforeLastDot(name) + ".png";
      assert forall i | 0 <= i < 4 :: r[|r| - 4 + i] == ".png"[i];
      r
  }

  /**
   * The saved name always ends in ".png" (in any case); a name that already does
   * is kept; otherwise the text after the last '.' (all of it when there is no
   * '.') is replaced by ".png", and the rewrite is idempotent.
   */
  lemma PngNameSpec(name: string)
    ensures EndsWithPng(PngName(name))
    ensures EndsWithPng(name) ==> PngName(name) == name
    ensures !EndsWithPng(name) ==>
      exists stem: string :: stem <= name && PngName(name) == stem + ".png"
        && ((stem == name && '.' !in name) || (name[|stem|] == '.' && forall i | |stem| < i < |name| :: name[i] != '.'))
    ensures PngName(PngName(name)) == PngName(name)
  {
    if !EndsWithPng(name) {
      var stem := BeforeLastDot(name);
      assert PngName(name) == stem + ".png";
      if LastDot(name) < 0 {
        assert '.' !in name;
      }
    }
  }
}
