/**
 * What the codec takes from Python's libraries and does not itself define, and
 * the two ways its operations can raise.
 */
module Runtime {
  import opened Bits

  /** A SHA-256 digest: 32 bytes, shown by `hexdigest()` as 64 hex digits. */
  type Digest = d: seq<byte> | |d| == 32 witness seq(32, _ => 0)

  /**
   * The library functions the codec calls, as total functions of their inputs:
   *  - `sha256`: `hashlib.sha256(data).digest()`;
   *  - `randBelow`: the index that `random.shuffle` draws at step i when shuffling
   *    a list of length n after `random.seed(seed)`; the Mersenne Twister state at
   *    that step depends on nothing but the seed, n and i, so the draw is a
   *    function of the three (the shuffle reduces it below i + 1);
   *  - `utf8Valid`: whether `bytes.decode('utf-8')` succeeds.
   */
  datatype Lib = Lib(
    sha256: seq<byte> -> Digest,
    randBelow: (nat, nat, nat) -> nat,
    utf8Valid: seq<byte> -> bool)

  /** The `ValueError`s the core raises. */
  datatype Failure =
    | MessageTooLarge         // "Message too large - maximum size is 65535 bytes"
    | ImageTooSmall(needed: nat) // "Image is too small for the message. Need at least {needed} interior pixels."

  datatype Result<T> = Ok(value: T) | Err(error: Failure)
}
