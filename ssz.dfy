/** The pieces of SimpleSerialize (SSZ) that the hand-written codecs rely on:
    the offset width, decode outcomes, the fixed-size byte strings of the
    primitives library, and the 32-byte little-endian form of a 256-bit
    unsigned integer. */
module Ssz {
  import opened Uints

  /** Width of an offset slot in a container's fixed part (and of the
      offsets themselves, which are little-endian `uint32`). */
  const BYTES_PER_LENGTH_OFFSET: nat := 4

  const ADDRESS_BYTES: nat := 20
  const B256_BYTES: nat := 32
  const B64_BYTES: nat := 8
  const U256_BYTES: nat := 32

  type Address = s: seq<uint8> | |s| == ADDRESS_BYTES
    witness seq(20, _ => 0)

  type B256 = s: seq<uint8> | |s| == B256_BYTES
    witness seq(32, _ => 0)

  type B64 = s: seq<uint8> | |s| == B64_BYTES
    witness seq(8, _ => 0)

  datatype Option<+T> = None | Some(value: T)

  /** The errors a decoder reports through its `Result`. */
  datatype DecodeError =
    | InvalidByteLength(len: nat, expected: nat)
    | OffsetIntoFixedPortion(offset: nat)
    | OffsetSkipsVariableBytes(offset: nat)
    | OffsetsAreDecreasing(offset: nat)
    | OffsetOutOfBounds(offset: nat)

  /** Why a decoder panics instead of returning. */
  datatype PanicReason =
    | SliceOutOfRange          // `bytes[a..b]` with `b` past the end
    | LengthConversionFailed   // `try_into().unwrap()` on a slice of the wrong width
    | InvalidReceiptBytes      // `serde_json::from_slice(..).unwrap()` on bad input
    | SliceLengthMismatch      // `from_slice` on a slice of the wrong width

  /** What a decoder call ends in: a value, a `DecodeError`, or a panic. */
  datatype Outcome<+T> = Ok(value: T) | Err(error: DecodeError) | Panicked(reason: PanicReason)
  {
    predicate IsFailure() {
      !Ok?
    }

    function PropagateFailure<U>(): (r: Outcome<U>)
      requires !Ok?
      ensures r.Err? == Err? && r.Panicked? == Panicked?
    {
      match this
      case Err(e) => Err(e)
      case Panicked(p) => Panicked(p)
    }

    function Extract(): T
      requires Ok?
    {
      value
    }
  }

  /** `U256::as_ssz_bytes`: the 32-byte little-endian form, from which
      the value reads back. */
  function U256AsSszBytes(x: uint256): (r: seq<uint8>)
    ensures |r| == U256_BYTES
    ensures FromLittleEndian(r) == x
  {
    LittleEndianRoundTrip(x, U256_BYTES);
    ToLittleEndian(x, U256_BYTES)
  }

  /** `U256::from_ssz_bytes`: exactly 32 bytes, read little-endian; any
      other length is an `InvalidByteLength` error. */
  function U256FromSszBytes(bytes: seq<uint8>): (r: Outcome<uint256>)
    ensures r.Ok? <==> |bytes| == U256_BYTES
    ensures !r.Panicked?
    ensures r.Ok? ==> U256AsSszBytes(r.value) == bytes
  {
    if |bytes| != U256_BYTES then Err(InvalidByteLength(|bytes|, U256_BYTES))
    else
      FromLittleEndianRoundTrip(bytes);
      Ok(FromLittleEndian(bytes))
  }

  lemma U256RoundTrip(x: uint256)
    ensures U256FromSszBytes(U256AsSszBytes(x)) == Ok(x)
  {
    LittleEndianRoundTrip(x, U256_BYTES);
  }
}
