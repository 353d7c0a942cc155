/** Shared vocabulary of the decoder model: bytes and bits as the C++ typedefs
    `byte` and `bit` of BitStream.h, the typed errors that replace the thrown
    exceptions and undefined behaviour, and big-endian field assembly. */
module Common {

  /** `unsigned char`: the element type of the input buffer and of most fields. */
  type Byte = x: int | 0 <= x < 256

  /** `bit`: a `bool` in the source, used arithmetically as 0 or 1. */
  type Bit = b: int | 0 <= b <= 1

  datatype Option<+T> = None | Some(value: T)

  /** Stub handlers of the decoder, each of which throws "Not implemented yet". */
  datatype Feature =
    | ExtendedSequentialDct
    | ProgressiveDct
    | ArithmeticConditioning
    | RestartInterval
    | ApplicationSpecific
    | NumberOfLines
    | ImageCorrectnessCheck

  /** Why a decode stops. The first three are thrown on purpose by the source;
      the others stand for accesses the source performs without a check
      (undefined behaviour in C++), which the model reports instead. */
  datatype Error =
    | MissingMarkerPrefix                 // "There must be 0xFF byte"
    | UnsupportedMarker(reported: int)    // "Found not supported yet marker: " + number
    | NotImplementedYet(feature: Feature) // the stub handlers
    | InvalidHuffmanCode                  // a tree step onto a missing child
    | UndefinedTable                      // a Huffman table selected but never defined
    | IndexOutOfRange                     // a vector index past its end
    | BadTableLength                      // the square root of a negative DQT length

  datatype Outcome = Pass | Fail(error: Error)

  datatype Result<+T> = Ok(value: T) | Err(error: Error)

  function Pow2(n: nat): (r: nat)
    ensures r >= 1
  {
    if n == 0 then 1 else 2 * Pow2(n - 1)
  }

  /** A two-byte big-endian field: `b1 * 0x100 + b2`. */
  function BigEndian16(hi: Byte, lo: Byte): (r: nat)
    ensures r < 0x10000
    ensures r / 0x100 == hi && r % 0x100 == lo
  {
    hi * 0x100 + lo
  }

  /** High and low nibble of a packed byte (`x >> 4`, `x & 0x0F`). */
  function HighNibble(x: Byte): (r: Byte)
    ensures r < 16 && r * 16 <= x < r * 16 + 16
  {
    x / 16
  }

  function LowNibble(x: Byte): (r: Byte)
    ensures r < 16 && r == x - HighNibble(x) * 16
  {
    x % 16
  }

  function Max(a: int, b: int): (r: int)
    ensures r >= a && r >= b && (r == a || r == b)
  {
    if a >= b then a else b
  }

  function Min(a: int, b: int): (r: int)
    ensures r <= a && r <= b && (r == a || r == b)
  {
    if a <= b then a else b
  }
}
