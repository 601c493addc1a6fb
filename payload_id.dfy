/** `payload_id_ssz`: the codec for the 8-byte payload identifier of a
    flashblock. The field is fixed-length: its 8 raw bytes sit in the
    enclosing container's fixed part, with no offset. */
module PayloadIdSsz {
  import opened Uints
  import opened Ssz
  import opened Buffers

  /** The engine API's payload identifier: a wrapper around 8 bytes. */
  datatype PayloadId = PayloadId(bytes: B64)

  /** `is_ssz_fixed_len`: the identifier sits in place in the container's
      fixed part. */
  function IsSszFixedLen(): (r: bool)
    ensures r
  {
    true
  }

  /** `ssz_fixed_len`: the width of that place, which is the length of
      every identifier's bytes. */
  function SszFixedLen(): (r: nat)
    ensures forall id: PayloadId :: |id.bytes| == r
  {
    B64_BYTES
  }

  /** `ssz_append`: appends the identifier's 8 bytes and nothing else. */
  method SszAppend(id: PayloadId, buf: ByteBuf)
    modifies buf
    ensures buf.contents == old(buf.contents) + id.bytes
    ensures |buf.contents| == |old(buf.contents)| + SszFixedLen()
  {
    buf.ExtendFromSlice(id.bytes);
  }

  /** `as_ssz_bytes`: `ssz_append` on an empty buffer, which leaves exactly
      the identifier's bytes, as many as the declared fixed length. */
  method AsSszBytes(id: PayloadId) returns (bytes: seq<uint8>)
    ensures bytes == id.bytes
    ensures |bytes| == SszFixedLen()
  {
    var buf := new ByteBuf();
    SszAppend(id, buf);
    bytes := buf.contents;
  }

  /** `ssz_bytes_len`: always the declared fixed length. */
  method SszBytesLen(id: PayloadId) returns (len: nat)
    ensures len == SszFixedLen()
  {
    var bytes := AsSszBytes(id);
    len := |bytes|;
  }

  /** `from_ssz_bytes`: copies a slice of exactly 8 bytes into the
      identifier; a slice of any other length makes `from_slice` panic. The
      `Result` it returns is never an error. */
  function FromSszBytes(bytes: seq<uint8>): (r: Outcome<PayloadId>)
    ensures r.Ok? <==> |bytes| == SszFixedLen()
    ensures r.Ok? ==> r.value.bytes == bytes
    ensures !r.Ok? ==> r == Panicked(SliceLengthMismatch)
  {
    if |bytes| == B64_BYTES then Ok(PayloadId(bytes)) else Panicked(SliceLengthMismatch)
  }

  /** Decoding what the encoder wrote gives back the same identifier. */
  lemma RoundTrip(id: PayloadId)
    ensures FromSszBytes(id.bytes) == Ok(id)
  {
  }
}
