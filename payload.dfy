/** How the flashblock payload and its metadata are laid out as SSZ
    containers. A container is a fixed part, holding each fixed-length
    field in place and a 4-byte little-endian offset for each
    variable-length field, followed by the variable-length fields' regions
    in declaration order. Each field contributes `ssz_fixed_len()` bytes to
    the fixed part, so the custom codecs' declarations decide where every
    later field sits. */
module Payload {
  import opened Uints
  import opened Ssz
  import opened HashMaps
  import Balances = NewAccountBalancesSsz
  import Receipts = ReceiptsSsz
  import PayloadIds = PayloadIdSsz

  /** A field as its codec declares it: `is_ssz_fixed_len()` and
      `ssz_fixed_len()`, the width of its slot in the fixed part. */
  datatype Field = Field(isFixedLen: bool, fixedLen: nat)

  /** The field that holds a `u64`. */
  const U64_FIELD: Field := Field(true, B64_BYTES)

  /** A field whose type is variable-length under the derived codec
      (an `Option` or a container with a list in it). */
  const VARIABLE_FIELD: Field := Field(false, BYTES_PER_LENGTH_OFFSET)

  /** Fields of `FlashblocksMetadata`: receipts, new account balances,
      block number. */
  const METADATA_FIELDS: seq<Field> := [
    Field(Receipts.IsSszFixedLen(), Receipts.SszFixedLen()),
    Field(Balances.IsSszFixedLen(), Balances.SszFixedLen()),
    U64_FIELD
  ]

  /** Fields of `FlashblocksPayloadV1`: payload id, index, base, diff,
      metadata. */
  const PAYLOAD_FIELDS: seq<Field> := [
    Field(PayloadIds.IsSszFixedLen(), PayloadIds.SszFixedLen()),
    U64_FIELD,
    VARIABLE_FIELD,
    VARIABLE_FIELD,
    VARIABLE_FIELD
  ]

  /** Length of a container's fixed part: the sum of its fields' slots. */
  function FixedPartLength(fields: seq<Field>): nat
  {
    if fields == [] then 0 else fields[0].fixedLen + FixedPartLength(fields[1..])
  }

  /** Where field `i`'s slot starts in the fixed part. */
  function SlotStart(fields: seq<Field>, i: nat): nat
    requires i <= |fields|
  {
    if i == 0 then 0 else fields[0].fixedLen + SlotStart(fields[1..], i - 1)
  }

  /** Number of variable-length fields, one offset each. */
  function VariableFields(fields: seq<Field>): nat
  {
    if fields == [] then 0 else (if fields[0].isFixedLen then 0 else 1) + VariableFields(fields[1..])
  }

  /** Every variable-length field takes exactly one offset slot, so the
      fixed part is the offsets plus the fixed-length fields' bytes. */
  lemma {:induction false} FixedPartCounts(fields: seq<Field>)
    requires forall i | 0 <= i < |fields| :: !fields[i].isFixedLen ==> fields[i].fixedLen == BYTES_PER_LENGTH_OFFSET
    ensures FixedPartLength(fields)
         == BYTES_PER_LENGTH_OFFSET * VariableFields(fields) + FixedBytes(fields)
    ensures SlotStart(fields, |fields|) == FixedPartLength(fields)
  {
    if fields != [] {
      FixedPartCounts(fields[1..]);
    }
  }

  /** The bytes of the fixed-length fields. */
  function FixedBytes(fields: seq<Field>): nat
  {
    if fields == [] then 0 else (if fields[0].isFixedLen then fields[0].fixedLen else 0) + FixedBytes(fields[1..])
  }

  /** The metadata container's fixed part: the receipts offset at 0, the
      balances offset at 4, the block number at 8, 16 bytes in all. */
  lemma MetadataLayout()
    ensures !METADATA_FIELDS[0].isFixedLen && !METADATA_FIELDS[1].isFixedLen && METADATA_FIELDS[2].isFixedLen
    ensures SlotStart(METADATA_FIELDS, 1) == 4 && SlotStart(METADATA_FIELDS, 2) == 8
    ensures FixedPartLength(METADATA_FIELDS) == METADATA_FIXED_BYTES
  {
    var f := METADATA_FIELDS;
    assert f[0] == VARIABLE_FIELD && f[1] == VARIABLE_FIELD && f[2] == U64_FIELD;
    assert f[1..][1..][1..] == [];
    assert FixedPartLength(f[1..][1..]) == 8;
    assert SlotStart(f[1..][1..], 0) == 0;
    assert SlotStart(f[1..], 1) == 4;
  }

  /** The payload container's fixed part: the 8 identifier bytes in place,
      the index, then three offsets, 28 bytes in all. */
  lemma PayloadLayout()
    ensures PAYLOAD_FIELDS[0].isFixedLen && SlotStart(PAYLOAD_FIELDS, 1) == B64_BYTES
    ensures VariableFields(PAYLOAD_FIELDS) == 3
    ensures FixedPartLength(PAYLOAD_FIELDS) == 28
  {
    var f := PAYLOAD_FIELDS;
    assert f[0] == Field(true, B64_BYTES) && f[1] == U64_FIELD;
    assert f[2] == VARIABLE_FIELD && f[3] == VARIABLE_FIELD && f[4] == VARIABLE_FIELD;
    var tail := f[1..][1..];
    assert tail == [VARIABLE_FIELD, VARIABLE_FIELD, VARIABLE_FIELD];
    assert tail[1..][1..][1..] == [];
    assert FixedPartLength(tail[1..][1..]) == 4 && VariableFields(tail[1..][1..]) == 1;
    assert FixedPartLength(tail) == 12 && VariableFields(tail) == 3;
  }

  // ---------------------------------------------------------------------
  // The metadata container

  const METADATA_FIXED_BYTES: nat := 16

  datatype FlashblocksMetadata<R> = FlashblocksMetadata(
    receipts: map<B256, R>,
    newAccountBalances: map<Address, uint256>,
    blockNumber: uint64)

  /** The container written for a metadata value whose maps are iterated
      as `receipts` and `balances`: the two offsets (as 4-byte
      little-endian integers, keeping the low 32 bits), the block number,
      then the receipts region, written with `usizeBytes`-wide lengths,
      and the balances region. */
  function EncodeMetadata<R>(
    receipts: seq<(B256, R)>, balances: seq<(Address, uint256)>, blockNumber: uint64,
    ser: R -> seq<uint8>, usizeBytes: nat)
    : (r: seq<uint8>)
    ensures |r| == METADATA_FIXED_BYTES + |Receipts.Encoding(receipts, ser, usizeBytes)| + |Balances.Encoding(balances)|
    ensures FromLittleEndian(r[..4]) == METADATA_FIXED_BYTES
    ensures METADATA_FIXED_BYTES + |Receipts.Encoding(receipts, ser, usizeBytes)| < Pow256(BYTES_PER_LENGTH_OFFSET) ==>
      FromLittleEndian(r[4..8]) == METADATA_FIXED_BYTES + |Receipts.Encoding(receipts, ser, usizeBytes)|
    ensures FromLittleEndian(r[8..16]) == blockNumber
    ensures r[METADATA_FIXED_BYTES..] == Receipts.Encoding(receipts, ser, usizeBytes) + Balances.Encoding(balances)
  {
    var receiptsRegion := Receipts.Encoding(receipts, ser, usizeBytes);
    var balancesRegion := Balances.Encoding(balances);
    var second := METADATA_FIXED_BYTES + |receiptsRegion|;
    var firstBytes := ToLittleEndian(METADATA_FIXED_BYTES, BYTES_PER_LENGTH_OFFSET);
    var secondBytes := ToLittleEndian(second, BYTES_PER_LENGTH_OFFSET);
    var numberBytes := ToLittleEndian(blockNumber, B64_BYTES);
    ContainerPieces(firstBytes, secondBytes, numberBytes, receiptsRegion, balancesRegion);
    LittleEndianRoundTrip(METADATA_FIXED_BYTES, BYTES_PER_LENGTH_OFFSET);
    LittleEndianRoundTrip(blockNumber, B64_BYTES);
    if second < Pow256(BYTES_PER_LENGTH_OFFSET) then
      LittleEndianRoundTrip(second, BYTES_PER_LENGTH_OFFSET);
      firstBytes + secondBytes + numberBytes + receiptsRegion + balancesRegion
    else
      firstBytes + secondBytes + numberBytes + receiptsRegion + balancesRegion
  }

  /** Reads a metadata container: the fixed part must be present, the
      first offset must point just past it, the offsets must not decrease
      and must stay inside the bytes; then each map field's codec decodes
      its region, and a failure of either is the outcome. */
  function DecodeMetadata<R>(bytes: seq<uint8>, de: seq<uint8> -> Option<R>, usizeBytes: nat)
    : (r: Outcome<FlashblocksMetadata<R>>)
    ensures |bytes| < METADATA_FIXED_BYTES ==> r == Err(InvalidByteLength(|bytes|, METADATA_FIXED_BYTES))
    ensures r.Ok? ==>
      && |bytes| >= METADATA_FIXED_BYTES
      && FromLittleEndian(bytes[..4]) == METADATA_FIXED_BYTES
      && METADATA_FIXED_BYTES <= FromLittleEndian(bytes[4..8]) <= |bytes|
      && r.value.blockNumber == FromLittleEndian(bytes[8..16])
      && Receipts.Decoded(bytes[METADATA_FIXED_BYTES..FromLittleEndian(bytes[4..8])], de, usizeBytes)
         == Ok(r.value.receipts)
      && Balances.Decoded(bytes[FromLittleEndian(bytes[4..8])..]) == Ok(r.value.newAccountBalances)
  {
    if |bytes| < METADATA_FIXED_BYTES then Err(InvalidByteLength(|bytes|, METADATA_FIXED_BYTES))
    else
      var first := FromLittleEndian(bytes[..4]);
      var second := FromLittleEndian(bytes[4..8]);
      if first < METADATA_FIXED_BYTES then Err(OffsetIntoFixedPortion(first))
      else if first > METADATA_FIXED_BYTES then Err(OffsetSkipsVariableBytes(first))
      else if second < first then Err(OffsetsAreDecreasing(second))
      else if second > |bytes| then Err(OffsetOutOfBounds(second))
      else
        var receipts := Receipts.Decoded(bytes[first..second], de, usizeBytes);
        if !receipts.Ok? then receipts.PropagateFailure()
        else
          var balances := Balances.Decoded(bytes[second..]);
          if !balances.Ok? then balances.PropagateFailure()
          else Ok(FlashblocksMetadata(receipts.value, balances.value, FromLittleEndian(bytes[8..16])))
  }

  /** The container's length: its fixed part plus the two regions. */
  lemma EncodeMetadataLength<R>(
    md: FlashblocksMetadata<R>, receipts: seq<(B256, R)>, balances: seq<(Address, uint256)>,
    ser: R -> seq<uint8>, usizeBytes: nat)
    requires IsIterationOf(receipts, md.receipts) && IsIterationOf(balances, md.newAccountBalances)
    ensures |EncodeMetadata(receipts, balances, md.blockNumber, ser, usizeBytes)|
         == METADATA_FIXED_BYTES + Receipts.EncodedLength(receipts, ser, usizeBytes)
            + Balances.ENTRY_BYTES * |md.newAccountBalances|
  {
    Receipts.EncodingLength(receipts, ser, usizeBytes);
    Balances.EncodingLength(balances);
    IterationRebuildsMap(balances, md.newAccountBalances);
  }

  /** Where the pieces of a container with two offsets and a `u64` sit. */
  lemma ContainerPieces(first: seq<uint8>, second: seq<uint8>, number: seq<uint8>, region1: seq<uint8>, region2: seq<uint8>)
    requires |first| == 4 && |second| == 4 && |number| == 8
    ensures var bytes := first + second + number + region1 + region2;
      && |bytes| == METADATA_FIXED_BYTES + |region1| + |region2|
      && bytes[..4] == first && bytes[4..8] == second && bytes[8..16] == number
      && bytes[METADATA_FIXED_BYTES..] == region1 + region2
      && bytes[METADATA_FIXED_BYTES..METADATA_FIXED_BYTES + |region1|] == region1
      && bytes[METADATA_FIXED_BYTES + |region1|..] == region2
  {
  }

  /** Where the regions of an encoded container start and end. */
  lemma EncodedRegions<R>(
    receipts: seq<(B256, R)>, balances: seq<(Address, uint256)>, blockNumber: uint64,
    ser: R -> seq<uint8>, usizeBytes: nat)
    ensures var bytes := EncodeMetadata(receipts, balances, blockNumber, ser, usizeBytes);
      var second := METADATA_FIXED_BYTES + |Receipts.Encoding(receipts, ser, usizeBytes)|;
      && second <= |bytes|
      && bytes[METADATA_FIXED_BYTES..second] == Receipts.Encoding(receipts, ser, usizeBytes)
      && bytes[second..] == Balances.Encoding(balances)
  {
    var bytes := EncodeMetadata(receipts, balances, blockNumber, ser, usizeBytes);
    var rr := Receipts.Encoding(receipts, ser, usizeBytes);
    var tail := bytes[METADATA_FIXED_BYTES..];
    assert tail == rr + Balances.Encoding(balances);
    assert bytes[METADATA_FIXED_BYTES..METADATA_FIXED_BYTES + |rr|] == tail[..|rr|];
    assert bytes[METADATA_FIXED_BYTES + |rr|..] == tail[|rr|..];
  }

  /** Decoding the container written for `md` with 4-byte receipt lengths
      gives back `md`, whatever order either map is iterated in, as long as
      the second offset fits in 32 bits and the receipt codec is inverted
      by `de`. */
  lemma MetadataRoundTrip<R(!new)>(
    md: FlashblocksMetadata<R>, receipts: seq<(B256, R)>, balances: seq<(Address, uint256)>,
    ser: R -> seq<uint8>, de: seq<uint8> -> Option<R>)
    requires IsIterationOf(receipts, md.receipts) && IsIterationOf(balances, md.newAccountBalances)
    requires Receipts.Inverse(ser, de) && Receipts.LengthsFit(receipts, ser)
    requires METADATA_FIXED_BYTES + |Receipts.Encoding(receipts, ser, Receipts.LENGTH_SLICE_BYTES)| < Pow256(BYTES_PER_LENGTH_OFFSET)
    ensures DecodeMetadata(
      EncodeMetadata(receipts, balances, md.blockNumber, ser, Receipts.LENGTH_SLICE_BYTES), de, Receipts.LENGTH_SLICE_BYTES)
      == Ok(md)
  {
    EncodedRegions(receipts, balances, md.blockNumber, ser, Receipts.LENGTH_SLICE_BYTES);
    Receipts.RoundTrip(md.receipts, receipts, ser, de);
    Balances.RoundTrip(md.newAccountBalances, balances);
  }

  /** As built for a 64-bit target, where the receipts are written with
      8-byte lengths and read back through a 4-byte slice, decoding the
      container written for `md` panics as soon as it holds a receipt. */
  lemma MetadataFailsOn64Bit<R>(
    md: FlashblocksMetadata<R>, receipts: seq<(B256, R)>, balances: seq<(Address, uint256)>,
    ser: R -> seq<uint8>, de: seq<uint8> -> Option<R>)
    requires IsIterationOf(receipts, md.receipts) && md.receipts != map[]
    requires METADATA_FIXED_BYTES + |Receipts.Encoding(receipts, ser, Receipts.USIZE_BYTES)| < Pow256(BYTES_PER_LENGTH_OFFSET)
    ensures DecodeMetadata(
      EncodeMetadata(receipts, balances, md.blockNumber, ser, Receipts.USIZE_BYTES), de, Receipts.USIZE_BYTES)
      == Panicked(LengthConversionFailed)
  {
    EncodedRegions(receipts, balances, md.blockNumber, ser, Receipts.USIZE_BYTES);
    Receipts.RoundTripFailsOn64Bit(md.receipts, receipts, ser, de);
  }

  /** A first offset other than 16 is rejected, whatever follows. */
  lemma FirstOffsetMustEndFixedPart<R>(bytes: seq<uint8>, de: seq<uint8> -> Option<R>, usizeBytes: nat)
    requires |bytes| >= METADATA_FIXED_BYTES
    requires FromLittleEndian(bytes[..4]) != METADATA_FIXED_BYTES
    ensures DecodeMetadata(bytes, de, usizeBytes).Err?
  {
  }
}
