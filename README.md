# Border-seeded LSB watermarking, modelled in Dafny

The system hides a text message in an image. It writes the message into the
least-significant bit of channel 0 (blue in OpenCV's BGR order) at interior
pixels, never on the one-pixel border. The interior pixels to use are chosen
deterministically from the border itself:

- the border pixels (top row, bottom row, then the left and right columns
  without their corners) are serialised and hashed with SHA-256;
- the hex digest, read as a number modulo 2^32, seeds Python's `random`;
- the row-major list of interior coordinates is shuffled, and its first N
  entries are used.

Writing only interior pixels leaves the border, and so the positions, the same
after embedding. That lets extraction find the bits again without a key.

The repository holds two versions of the codec, and both are modelled:

- `src/watermark.py` (module `Watermark`) writes a 2-byte big-endian count of
  message BYTES, then the message. Every byte goes in most-significant bit
  first. Embedding refuses messages over 65535 bytes. Extraction reports a
  header of 0 as an invalid length, and reports bytes that are not UTF-8 as a
  hex dump.
- `watermark.py` (module `LegacyWatermark`) writes a 16-bit count of message
  BITS, least-significant bit first, then the message bytes, each one
  least-significant bit first (`text_to_bits` / `bits_to_text`). It checks no
  lengths.

The two files define `compute_border_hash` and
`generate_pseudo_random_positions` with the same text. The modules `Border`
and `Placement` model them once, and both codecs use them. The remaining
modules are:

- `Bits`: shifts, masks and `to_bytes`/`from_bytes` as integer arithmetic.
- `Hex`: `hexdigest()` and `int(h, 16)`.
- `Grid`: the H×W×C buffer and the LSB writes and reads.
- `Runtime`: the library calls, which are parameters, and the two
  `ValueError`s.

Each operation built from loops appears twice:

- A `method` runs the source's loops. The image writes work in place on an
  `array3<byte>` (`Watermark.EmbedMessage`, `LegacyWatermark.EmbedMessage`).
  The shuffle works in place on an `array<Pos>` (`Placement.Shuffle`). The
  extraction methods only read the image array (`Watermark.ExtractMessage`).
  `text_to_bits`, `bits_to_text` and the byte packing build sequences
  (`LegacyWatermark.TextToBits`, `LegacyWatermark.BitsToText`).
- A function on values is its specification: `Embed`, `Extract`,
  `LsbStream`, `Shuffled`.

Each method's `ensures` ties the new array contents, or its result, to that
function. The properties are proved as lemmas about the functions: the border
bytes, the exact interior, the prefix property of the positions, what an embed
changes and keeps, and the embed/extract round trips.

The current codec's `embed_message` accepts an empty message and writes
header 0; `extract_message` then returns `Error: Invalid message length
detected: 0` (`Watermark.RoundTrip`).

## Model

| member | source | states |
|---|---|---|
| Bits.ClearLsb | src/watermark.py:127 | `v & 0xFE` is even and keeps bits 1–7 of v |
| Bits.SetLsb | src/watermark.py:127-130 | clearing then or-ing b leaves the LSB equal to b and bits 1–7 unchanged |
| Bits.PackMsb | src/watermark.py:194-197 | shift-accumulating bits most-significant first stays below 2^n |
| Bits.PackLsb | watermark.py:185-187 | or-ing bit i at `<< i` stays below 2^n |
| Bits.BitOf | src/watermark.py:129 | `(v >> i) & 1` is a bit, and 0 whenever v < 2^i |
| Bits.BigEndian | src/watermark.py:200 | `int.from_bytes(s, 'big')` is below 2^(8·\|s\|) |
| Bits.ToBytes2 | src/watermark.py:109 | `to_bytes(2, 'big')` gives two bytes that `from_bytes(…, 'big')` reads back as n |
| Bits.PackMsbOfMsbBits | src/watermark.py:129 | packing the n bits `(v >> (n-1-k)) & 1` most-significant first gives v mod 2^n |
| Bits.PackLsbOfLsbBits | watermark.py:132-133 | packing the n bits `(v >> i) & 1` least-significant first gives v mod 2^n |
| Bits.PackMsbAppend | src/watermark.py:192-200 | packing a+b most-significant first is pack(a)·2^|b| + pack(b) |
| Bits.BigEndianPair | src/watermark.py:200 | `int.from_bytes([hi, lo], 'big')` is hi·256 + lo |
| Hex.HexEncode | src/watermark.py:41 | `hexdigest()` has two lower-case hex digits per byte |
| Hex.HexValue | src/watermark.py:57 | `int(s, 16)` is below 16^\|s\| |
| Hex.HexValueOfHexEncode | src/watermark.py:57 | `int(hexdigest, 16)` is the digest read as a big-endian number |
| Hex.HexEncodePrefix | src/watermark.py:243-244 | the first 2k hex digits of a dump are the dump of the first k bytes |
| Grid.StoreLsb | src/watermark.py:127-130 | writing one LSB keeps the buffer's shape |
| Grid.StoreLsbCell | src/watermark.py:127-130 | the written cell gets `(v & 0xFE) \| b`; every other cell and channel is unchanged |
| Grid.WriteLsbs | src/watermark.py:121-131 | writing the LSBs at a list of positions keeps the buffer's shape |
| Grid.ReadLsbs | src/watermark.py:186-190 | one bit `image[y, x, 0] & 1` is read per position |
| Grid.Snapshot | src/watermark.py:91-95 | the buffer view of the loaded image has its H, W and C and holds `image[y, x, c]` in every cell |
| Grid.WriteLsbsNext | src/watermark.py:121-131 | the bits are written in order, one position per bit |
| Grid.WriteLsbsAt | src/watermark.py:125-130 | at distinct positions, the i-th position's channel 0 holds the i-th bit and keeps its bits 1–7 and other channels |
| Grid.WriteLsbsElsewhere | src/watermark.py:121-131 | a pixel not among the positions written is unchanged |
| Grid.ReadBack | src/watermark.py:186-190 | reading the LSBs at the written distinct positions gives the bits written |
| Grid.ReadLsbsSlice | watermark.py:193-198 | skipping the first k positions, reading L more from a list or from any prefix of it that long gives the same bits |
| Grid.StoreBit | src/watermark.py:127-130 | the in-place write leaves the array showing the buffer with that LSB set |
| Grid.ReadBits | src/watermark.py:186-190 | the loop appends `image[y, x, 0] & 1` for positions lo..hi |
| Border.ColumnInside | src/watermark.py:32-33 | `image[1:H-1, x, :]` has H-2 pixels |
| Border.Flatten | src/watermark.py:36-37 | `flatten()` of pixels that all have c channels has c bytes per pixel |
| Border.BorderBytes | src/watermark.py:27-37 | the border serialisation has (2W + 2(H-2))·C bytes |
| Border.BorderHash | src/watermark.py:40-41 | the digest is 64 hex digits |
| Border.BorderBytesExactlyRing | src/watermark.py:27-40 | two same-shaped buffers serialise to the same border bytes iff they agree on every border pixel, so interior pixels are never hashed |
| Border.RingGivesBytes | src/watermark.py:30-37 | buffers with the same border give the same serialisation |
| Border.BytesGiveRing | src/watermark.py:30-37 | the same serialisation means the same border: top, bottom, left and right parts split back apart |
| Border.BorderHashOfSameRing | src/watermark.py:17-41 | buffers with equal borders hash equally |
| Border.FlattenInjective | src/watermark.py:36-37 | flattening equal-sized pixels is injective |
| Placement.SeedOfDigest | src/watermark.py:57 | the seed is the digest read base 16, modulo 2^32, so below 2^32 |
| Placement.Seed | src/watermark.py:57 | `int(hash_value, 16) % 2**32` is below 2^32 |
| Placement.InteriorRow | src/watermark.py:61 | each interior row has W-2 pixels |
| Placement.Interior | src/watermark.py:61 | the interior list has (H-2)(W-2) entries |
| Placement.InteriorFromExact | src/watermark.py:61 | rows y..H-2 of the comprehension hold exactly the interior pixels with row ≥ y, in strictly row-major order |
| Placement.InteriorExact | src/watermark.py:61 | the interior list is exactly {(y,x) \| 1≤y≤H-2, 1≤x≤W-2}, row-major, without repeats, of length (H-2)(W-2) |
| Placement.SwapPermutes | src/watermark.py:69 | one shuffle swap is a permutation that keeps entries distinct |
| Placement.Swap | src/watermark.py:69 | `x[i], x[j] = x[j], x[i]` exchanges the two entries and keeps every other one |
| Placement.ShuffleSteps | src/watermark.py:69 | the remaining steps of the shuffle loop keep the list's length |
| Placement.Shuffled | src/watermark.py:68-69 | `random.seed(seed); random.shuffle(x)` keeps the list's length |
| Placement.Draw | src/watermark.py:69 | the index drawn at step i is at most i |
| Placement.ShuffleStepsPermutes | src/watermark.py:69 | the remaining shuffle steps permute the list and keep it repeat-free |
| Placement.ShuffledPermutes | src/watermark.py:69 | the shuffled list is a permutation of the interior list that depends only on seed and input |
| Placement.Shuffle | src/watermark.py:69 | the in-place Fisher-Yates loop leaves the array holding the shuffled list |
| Placement.Positions | src/watermark.py:43-70 | a successful result has `num_bits` entries, all distinct and all interior |
| Placement.GeneratePositions | src/watermark.py:43-70 | the in-place version returns the same result |
| Placement.PositionsFailIff | src/watermark.py:63-66 | `ValueError` ("need at least N interior pixels") iff N > (H-2)(W-2) |
| Placement.PositionsPrefix | src/watermark.py:68-70 | the list for k positions is the prefix of the list for any k' ≥ k, with the same hash and size |
| Watermark.PackBytesMsb | src/watermark.py:224-231 | packing n bytes of bits gives n bytes |
| Watermark.Frame | src/watermark.py:109-112 | the hidden data is 2 + \|m\| bytes: two that read big-endian as \|m\|, then m |
| Watermark.MsbStream | src/watermark.py:123-129 | eight bits per byte |
| Watermark.MsbStreamAt | src/watermark.py:123-129 | bit 8k+j of the stream is `(data[k] >> (7 - j)) & 1` |
| Watermark.MsbStreamByte | src/watermark.py:123-129 | each group of 8 is the byte's bits, most-significant first |
| Watermark.PackedByte | src/watermark.py:225-231 | packing group k most-significant first gives byte k back |
| Watermark.MsbRoundTrip | src/watermark.py:224-231 | packing the MSB-first stream of any bytes gives them back |
| Watermark.MsbStreamConcat | src/watermark.py:112 | the stream of header + message is the header's stream followed by the message's |
| Watermark.HeaderValue | src/watermark.py:192-200 | two bytes packed MSB-first and read big-endian equal the 16 bits packed MSB-first, at most 65535 |
| Watermark.FramePositions | src/watermark.py:113-119 | the embed positions are 8·(2+\|m\|) distinct in-bounds pixels |
| Watermark.Embed | src/watermark.py:98-150 | `MessageTooLarge` for more than 65535 bytes; the only other error is `ImageTooSmall(8·(2+\|m\|))`; success keeps the buffer's shape and reports 8·(2+\|m\|) bits |
| Watermark.InvalidLength | src/watermark.py:210 | the text "Error: Invalid message length detected: " followed by a decimal numeral, without leading zeros, that denotes n |
| Watermark.Decimal | src/watermark.py:210 | `str(n)`: decimal digits without a leading zero that denote n; "0" exactly for 0 |
| Watermark.DecimalCanonical | src/watermark.py:210 | every decimal numeral without a leading zero is `str` of its value, so `str(n)` is the only such numeral for n |
| Watermark.Take | src/watermark.py:244 | `s[:n]` is the prefix of s of length min(\|s\|, n) |
| Watermark.Undecodable | src/watermark.py:243-244 | the UTF-8 failure text: its fixed prefix, then 2 hex digits per byte for at most 32 bytes, then "..." |
| Watermark.Decoded | src/watermark.py:237-244 | the message when `decode('utf-8')` succeeds, keeping its bytes; the hex diagnostic otherwise |
| Watermark.HeaderLength | src/watermark.py:186-200 | the header read is the 16 LSBs packed MSB-first, at most 65535 |
| Watermark.Extract | src/watermark.py:173-244 | the only error is `ImageTooSmall` of at least 16; a decoded message has 1 to 65535 bytes |
| Watermark.ExtractPayload | src/watermark.py:212-244 | fails with `ImageTooSmall(16 + 8·L)` iff those bits exceed the interior; a decoded message has exactly L bytes |
| Watermark.UndecodableShowsFirst32 | src/watermark.py:241-244 | the UTF-8 failure message holds the hex dump of exactly the first 32 bytes, all of them when fewer |
| Watermark.ExtractCases | src/watermark.py:181-214 | 16 positions fail iff the interior has fewer than 16 pixels; otherwise the header is in [0, 65535], 0 gives "Invalid message length detected: 0", and any other value reads the payload |
| Watermark.EmbedOutcome | src/watermark.py:101-119 | `MessageTooLarge` iff \|m\| > 65535, otherwise `ImageTooSmall(8·(2+\|m\|))` iff those bits exceed the interior; success reports 8·(2+\|m\|) bits |
| Watermark.EmbedSetsBit | src/watermark.py:125-130 | at positions[i] channel 0 becomes `(v & 0xFE) \| ((data[i // 8] >> (7 - i % 8)) & 1)`, the pixel's other channels unchanged |
| Watermark.StreamBitWritten | src/watermark.py:124-130 | writing a byte stream MSB-first at distinct positions puts bit 7 - i % 8 of byte i // 8 at the i-th position |
| Watermark.EmbedKeepsOthers | src/watermark.py:121-131 | every pixel not among the positions is unchanged |
| Watermark.EmbedKeepsBorder | src/watermark.py:121-131 | the border is unchanged, so the border hash is too |
| Watermark.FrameDecodes | src/watermark.py:109-113 | the frame's first 16 bits read back as \|m\| and the rest as m |
| Watermark.EmbedReadsBack | src/watermark.py:181-221 | after an embed the same positions are drawn again and their LSBs are the frame's bits |
| Watermark.RoundTrip | src/watermark.py:72-244 | with \|m\| ≤ 65535 and room for 8·(2+\|m\|) bits, extracting from the embedded buffer gives m (decoded, or the hex diagnostic), and the invalid-length message when m is empty |
| Watermark.HeaderReadsBack | src/watermark.py:181-200 | after an embed the 16 header positions are the prefix of the embed's positions, and they read back as \|m\| |
| Watermark.PayloadReadsBack | src/watermark.py:212-244 | after an embed the payload part of extraction gives m, decoded |
| Watermark.EmbedMessage | src/watermark.py:98-150 | the in-place embed leaves the array as `Embed` says, unchanged on error, and returns the bit count |
| Watermark.WriteFrame | src/watermark.py:121-131 | the nested loop writes the frame's MSB-first bits at the positions |
| Watermark.WriteByte | src/watermark.py:124-131 | the inner loop writes one byte's 8 bits, most-significant first |
| Watermark.StoreMsbBit | src/watermark.py:125-130 | one iteration writes `(byte >> (7 - bit_pos)) & 1` |
| Watermark.ExtractMessage | src/watermark.py:173-244 | the extraction loops return what `Extract` says |
| Watermark.ExtractPayloadFrom | src/watermark.py:212-244 | the payload loops return what `ExtractPayload` says |
| Watermark.PackInto | src/watermark.py:224-231 | the bytearray loop packs n bytes MSB-first |
| Watermark.ByteFromBits | src/watermark.py:226-230 | the inner loop shift-accumulates 8 bits MSB-first |
| Watermark.LastDot | src/watermark.py:140 | the last `.` in the name, or -1 when there is none |
| Watermark.PngName | src/watermark.py:139-140 | the saved name ends in `.png`, in any case |
| Watermark.PngNameSpec | src/watermark.py:139-140 | the result ends in `.png` (case-insensitively); a name that already does is kept; any other name loses the text from its last `.` (the whole name is kept only when it has no `.`) and gains `.png`; the rewrite is idempotent |
| LegacyWatermark.TextToBits | watermark.py:61-80 | the append loop returns the LSB-first stream of the bytes |
| LegacyWatermark.LsbStream | watermark.py:75-78 | eight bits per byte |
| LegacyWatermark.LsbStreamAt | watermark.py:75-78 | bit 8k+i of `text_to_bits` is `(byte_k >> i) & 1` |
| LegacyWatermark.PadToBytes | watermark.py:92-94 | padding gives a multiple of 8, adds fewer than 8 zeros and keeps the bits as a prefix |
| LegacyWatermark.PackBytesLsb | watermark.py:96-102 | packing gives one byte per 8 bits |
| LegacyWatermark.BitsToText | watermark.py:82-105 | the padding and packing loops return the LSB-first bytes of the padded bits |
| LegacyWatermark.ByteFromBits | watermark.py:99-101 | `byte \|= bits[i+j] << j` packs 8 bits least-significant first |
| LegacyWatermark.LsbRoundTrip | watermark.py:61-105 | `bits_to_text(text_to_bits(b))` gives b back, with no padding |
| LegacyWatermark.LsbStreamByte | watermark.py:76-78 | each group of 8 is the byte's bits, least-significant first |
| LegacyWatermark.PackedByte | watermark.py:99-101 | packing group k least-significant first gives byte k |
| LegacyWatermark.Unpack | watermark.py:92-102 | `bits_to_text` gives ⌈\|bits\|/8⌉ bytes |
| LegacyWatermark.LsbStreamPrefix | watermark.py:75-78 | the first 8k bits are the stream of the first k bytes |
| LegacyWatermark.Header | watermark.py:130-133 | the header has 16 bits |
| LegacyWatermark.Payload | watermark.py:135-137 | `all_bits` has 16 + 8·\|m\| bits |
| LegacyWatermark.HeaderBytes | watermark.py:128-133 | the byte count a wrapped header announces is at most \|m\| and below 8192, equal to \|m\| iff \|m\| < 8192 |
| LegacyWatermark.HeaderWraps | watermark.py:127-133 | the header reads back as 8·\|m\| mod 65536, which is 8·\|m\| iff \|m\| < 8192 |
| LegacyWatermark.Embed | watermark.py:121-152 | the only error is `ImageTooSmall(16+8·\|m\|)`; success keeps the buffer's shape and reports 8·\|m\| |
| LegacyWatermark.Extract | watermark.py:169-203 | the only error is `ImageTooSmall` of at least 16; at most 8192 bytes come back |
| LegacyWatermark.MessageAt | watermark.py:189-201 | ⌈L/8⌉ bytes, or `ImageTooSmall(16+L)` |
| LegacyWatermark.BitCountRange | watermark.py:185-187 | the bit count read from 16 header bits is in [0, 65535] |
| LegacyWatermark.MessageAtCases | watermark.py:189-201 | a count of 0 gives no bytes and no error; a positive count fails with `ImageTooSmall(16+L)` iff 16+L exceeds the interior |
| LegacyWatermark.EmbedOutcome | watermark.py:126-152 | `ImageTooSmall(16+8·\|m\|)` iff those bits exceed the interior, with no size check; success reports 8·\|m\|, header excluded |
| LegacyWatermark.PayloadPositions | watermark.py:137-140 | the embed positions are 16+8·\|m\| distinct in-bounds pixels |
| LegacyWatermark.EmbedSetsBit | watermark.py:143-148 | at positions[i] channel 0 becomes `(v & 0xFE) \| all_bits[i]`, the pixel's other channels unchanged |
| LegacyWatermark.EmbedKeepsOthers | watermark.py:142-148 | every pixel not among the positions is unchanged |
| LegacyWatermark.EmbedReadsBack | watermark.py:140-148 | after an embed the border hash and positions are the same, and their LSBs are `all_bits` |
| LegacyWatermark.RoundTrip | watermark.py:107-203 | with room for 16+8·\|m\| bits, extraction gives the first (\|m\| mod 8192) bytes of m |
| LegacyWatermark.HeaderReadsBack | watermark.py:174-187 | after an embed extraction reads the wrapped bit count from the first 16 positions |
| LegacyWatermark.MessageReadsBack | watermark.py:189-201 | the regenerated positions give back the first (\|m\| mod 8192) bytes |
| LegacyWatermark.MessageAtTail | watermark.py:189-198 | reading L bits after the header equals reading positions 16..16+L of any longer list for the same hash |
| LegacyWatermark.UnpackPayload | watermark.py:193-201 | the first 8k payload bits unpack to the first k message bytes |
| LegacyWatermark.PayloadTail | watermark.py:135-137 | `all_bits[16:16+8k]` is the stream of the first k bytes |
| LegacyWatermark.WrappedHeaderLosesMessage | watermark.py:130-133 | as written, an 8192-byte message embeds without error and extracts as nothing |
| LegacyWatermark.CheckedEmbed | watermark.py:130-133 | with the size check added: messages of 8192 bytes or more get `MessageTooLarge`; any accepted embed is the original one |
| LegacyWatermark.CheckedRoundTrip | watermark.py:107-203 | with the size check added, embedding fails iff \|m\| ≥ 8192 or the interior is too small, and otherwise extraction gives m whole |
| LegacyWatermark.EmbedMessage | watermark.py:121-152 | the in-place embed leaves the array as `Embed` says, unchanged on error, and returns the bit count |
| LegacyWatermark.HeaderBits | watermark.py:131-133 | the loop collects the 16 bits `(n >> i) & 1` |
| LegacyWatermark.WriteAll | watermark.py:142-148 | the enumerate loop writes every bit at its position |
| LegacyWatermark.ExtractMessage | watermark.py:172-203 | the extraction loops return what `Extract` says |
| LegacyWatermark.ReadMessage | watermark.py:189-201 | the regenerate-and-read steps return what `MessageAt` says |
| LegacyWatermark.BitCount | watermark.py:185-187 | `message_length \|= bit << i` packs the header least-significant first |

## Left out

- Image files: `cv2.imread`, `cv2.imwrite`, the "could not open image" errors
  and the PNG compression flag are file I/O. The model takes the decoded
  buffer, and the embed methods leave the written buffer in the array.
- SHA-256, Python's Mersenne Twister and UTF-8 decoding are library code. They
  are the fields `sha256`, `randBelow` and `utf8Valid` of `Runtime.Lib`, and
  every operation takes them as a parameter. The shuffle loop itself
  (Fisher-Yates from the last index down) is modelled. The index drawn at each
  step is `randBelow(seed, n, i)` reduced below i + 1, not Python's exact
  stream.
- `str.encode('utf-8')` is library code, so messages are byte sequences.
  `Watermark.Extracted` holds the decoded text as its UTF-8 bytes.
- LegacyWatermark.BitsToText: returns the bytes before
  `decode('utf-8', errors='replace')`; the replacement of invalid sequences is
  left to the library.
- Watermark.Decoded: only decides, through `utf8Valid`, whether `decode`
  succeeds. It does not model the decoded string.
- Watermark.PngNameSpec: `lower()` is modelled for ASCII letters only.
- `TimingInfo`, `time.time()` and the millisecond arithmetic are floating-point
  instrumentation. The current embed's result is the bit count without the
  timing record.
- The `print` debug lines and the command-line front ends (`main.py`,
  `src/main.py`) have no algorithmic content.
- LegacyWatermark.BitCount: `message_length |= bit << i` is modelled with
  unbounded integers, as under NumPy 1.x, where the `uint8` bit read from the
  image widens to a Python/NumPy integer. Under NumPy 2 promotion rules the
  shift stays `uint8`, header bits 8–15 are lost and `16 + message_length` can
  wrap; that reading of `watermark.py:181-195` is not modelled.
- Watermark.ExtractCases: the `message_length > 65535` branch is kept in
  `Extract`. `Watermark.HeaderValue` proves that it can never be taken.

## Findings

| source | as written | input that shows it | evidently intended | confidence | as-written member | corrected member |
|---|---|---|---|---|---|---|
| watermark.py:130-133 | the header keeps the low 16 bits of the message's BIT count, and nothing checks that the count fits | any message of 8192 bytes or more, e.g. exactly 8192 bytes in an image with at least 65552 interior pixels: the header is 0 and extraction returns an empty message | refuse messages whose bit count exceeds 65535 (as the newer version refuses more than 65535 bytes), so that every accepted message comes back whole | not executed | LegacyWatermark.WrappedHeaderLosesMessage | LegacyWatermark.CheckedRoundTrip |
