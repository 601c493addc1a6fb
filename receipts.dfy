/** `receipts_ssz`: the codec that fits the hash -> receipt map of the
    flashblock metadata into an SSZ container. The field is variable-length
    (one offset slot in the container). Each entry of its region is the
    32-byte hash, then the length of the receipt's serialized form as a
    big-endian `usize`, then that serialized form.

    Receipts are serialized through an external human-readable encoding;
    here that encoding is any pair of functions `ser` (which cannot fail)
    and `de` (which can), and the round trip assumes only that `de` undoes
    `ser`.

    The encoder writes `usize::to_be_bytes`, which is `usizeBytes` wide
    (8 on a 64-bit target); the decoder always slices 4 bytes and converts
    them into a `usize` array, which succeeds only when `usizeBytes` is 4. */
module ReceiptsSsz {
  import opened Uints
  import opened Ssz
  import opened HashMaps
  import opened Buffers

  /** `size_of::<usize>()` on a 64-bit target. */
  const USIZE_BYTES: nat := 8

  /** Width of the length slice the decoder reads. */
  const LENGTH_SLICE_BYTES: nat := 4

  /** Bytes in front of an entry's serialized receipt, as the decoder
      reads them: the hash and the length slice. */
  const ENTRY_HEADER_BYTES: nat := 36

  /** `is_ssz_fixed_len`: the field is variable-length, so its region
      follows the container's fixed part. */
  function IsSszFixedLen(): (r: bool)
    ensures !r
  {
    false
  }

  /** `ssz_fixed_len`: the field's slot in the fixed part holds one offset. */
  function SszFixedLen(): (r: nat)
    ensures r == BYTES_PER_LENGTH_OFFSET
  {
    BYTES_PER_LENGTH_OFFSET
  }

  /** One (hash, receipt) pair as it is written. */
  function EntryBytes<R>(entry: (B256, R), ser: R -> seq<uint8>, usizeBytes: nat): seq<uint8>
  {
    var json := ser(entry.1);
    entry.0 + ToBigEndian(|json|, usizeBytes) + json
  }

  /** The region written for the pairs of `entries`, in that order. */
  function Encoding<R>(entries: seq<(B256, R)>, ser: R -> seq<uint8>, usizeBytes: nat): seq<uint8>
  {
    if entries == [] then []
    else Encoding(entries[..|entries| - 1], ser, usizeBytes) + EntryBytes(entries[|entries| - 1], ser, usizeBytes)
  }

  /** The sum over the entries of (32 + usizeBytes + length of the
      serialized receipt). */
  function EncodedLength<R>(entries: seq<(B256, R)>, ser: R -> seq<uint8>, usizeBytes: nat): nat
  {
    if entries == [] then 0
    else B256_BYTES + usizeBytes + |ser(entries[0].1)| + EncodedLength(entries[1..], ser, usizeBytes)
  }

  /** Reading the entry that starts at `offset`: the pair and the offset
      just past it, or the panic that stops the reading. */
  function ReadEntry<R>(bytes: seq<uint8>, offset: nat, de: seq<uint8> -> Option<R>, usizeBytes: nat)
    : (r: Outcome<((B256, R), nat)>)
    requires offset < |bytes|
    ensures r.Ok? ==> offset < r.value.1 <= |bytes|
    ensures !r.Err?
  {
    if offset + B256_BYTES > |bytes| then Panicked(SliceOutOfRange)
    else if offset + ENTRY_HEADER_BYTES > |bytes| then Panicked(SliceOutOfRange)
    else if usizeBytes != LENGTH_SLICE_BYTES then Panicked(LengthConversionFailed)
    else
      var len := FromBigEndian(bytes[offset + B256_BYTES..offset + ENTRY_HEADER_BYTES]);
      var end := offset + ENTRY_HEADER_BYTES + len;
      if end > |bytes| then Panicked(SliceOutOfRange)
      else
        var hash: B256 := bytes[offset..offset + B256_BYTES];
        match de(bytes[offset + ENTRY_HEADER_BYTES..end])
        case None => Panicked(InvalidReceiptBytes)
        case Some(receipt) => Ok(((hash, receipt), end))
  }

  /** The pairs read from `bytes`, starting at `offset`, up to its end, or
      the panic that stops the reading. */
  function EntriesFrom<R>(bytes: seq<uint8>, offset: nat, de: seq<uint8> -> Option<R>, usizeBytes: nat)
    : Outcome<seq<(B256, R)>>
    requires offset <= |bytes|
    decreases |bytes| - offset
  {
    if offset == |bytes| then Ok([])
    else
      var e := ReadEntry(bytes, offset, de, usizeBytes);
      if e.Ok? then Prepend([e.value.0], EntriesFrom(bytes, e.value.1, de, usizeBytes))
      else e.PropagateFailure()
  }

  /** `done` followed by what `rest` read, or the failure that `rest` is. */
  function Prepend<R>(done: seq<(B256, R)>, rest: Outcome<seq<(B256, R)>>): Outcome<seq<(B256, R)>>
  {
    if rest.Ok? then Ok(done + rest.value) else rest
  }

  /** What decoding `region` ends in: the map obtained by inserting its
      entries in order, or the panic that stops the reading. */
  function Decoded<R>(region: seq<uint8>, de: seq<uint8> -> Option<R>, usizeBytes: nat): Outcome<map<B256, R>>
  {
    var entries := EntriesFrom(region, 0, de, usizeBytes);
    if entries.Ok? then Ok(MapOf(entries.value)) else entries.PropagateFailure()
  }

  /** `de` recovers every receipt from its serialized form. */
  ghost predicate Inverse<R(!new)>(ser: R -> seq<uint8>, de: seq<uint8> -> Option<R>)
  {
    forall r :: de(ser(r)) == Some(r)
  }

  /** Every serialized receipt is short enough for a 4-byte length. */
  ghost predicate LengthsFit<R>(entries: seq<(B256, R)>, ser: R -> seq<uint8>)
  {
    forall i | 0 <= i < |entries| :: |ser(entries[i].1)| < Pow256(LENGTH_SLICE_BYTES)
  }

  // ---------------------------------------------------------------------
  // Encoding

  /** `ssz_append`: appends one entry per pair, in the map's iteration
      order, and nothing else; what `buf` held before is kept. */
  method SszAppend<R>(m: map<B256, R>, entries: seq<(B256, R)>, ser: R -> seq<uint8>, usizeBytes: nat, buf: ByteBuf)
    requires IsIterationOf(entries, m)
    modifies buf
    ensures buf.contents == old(buf.contents) + Encoding(entries, ser, usizeBytes)
  {
    for i := 0 to |entries|
      invariant buf.contents == old(buf.contents) + Encoding(entries[..i], ser, usizeBytes)
    {
      var (receiptHash, receipt) := entries[i];
      buf.ExtendFromSlice(receiptHash);
      var receiptJsonBytes := ser(receipt);
      var receiptJsonBytesLen := |receiptJsonBytes|;
      buf.ExtendFromSlice(ToBigEndian(receiptJsonBytesLen, usizeBytes));
      buf.ExtendFromSlice(receiptJsonBytes);
      assert entries[..i + 1][..i] == entries[..i];
    }
    assert entries[..|entries|] == entries;
  }

  /** `as_ssz_bytes`: `ssz_append` on an empty buffer. */
  method AsSszBytes<R>(m: map<B256, R>, entries: seq<(B256, R)>, ser: R -> seq<uint8>, usizeBytes: nat)
    returns (bytes: seq<uint8>)
    requires IsIterationOf(entries, m)
    ensures bytes == Encoding(entries, ser, usizeBytes)
    ensures |bytes| == EncodedLength(entries, ser, usizeBytes)
  {
    var buf := new ByteBuf();
    SszAppend(m, entries, ser, usizeBytes, buf);
    bytes := buf.contents;
    EncodingLength(entries, ser, usizeBytes);
  }

  /** `ssz_bytes_len`: the length of `as_ssz_bytes`. */
  method SszBytesLen<R>(m: map<B256, R>, entries: seq<(B256, R)>, ser: R -> seq<uint8>, usizeBytes: nat)
    returns (len: nat)
    requires IsIterationOf(entries, m)
    ensures len == EncodedLength(entries, ser, usizeBytes)
  {
    var bytes := AsSszBytes(m, entries, ser, usizeBytes);
    len := |bytes|;
  }

  lemma {:induction false} EncodedLengthSnoc<R>(entries: seq<(B256, R)>, x: (B256, R), ser: R -> seq<uint8>, usizeBytes: nat)
    ensures EncodedLength(entries + [x], ser, usizeBytes)
         == EncodedLength(entries, ser, usizeBytes) + B256_BYTES + usizeBytes + |ser(x.1)|
  {
    if entries != [] {
      EncodedLengthSnoc(entries[1..], x, ser, usizeBytes);
      assert (entries + [x])[1..] == entries[1..] + [x];
    }
  }

  /** The region is 32 + usizeBytes + L bytes per entry, L being the
      length of that entry's serialized receipt. */
  lemma {:induction false} EncodingLength<R>(entries: seq<(B256, R)>, ser: R -> seq<uint8>, usizeBytes: nat)
    ensures |Encoding(entries, ser, usizeBytes)| == EncodedLength(entries, ser, usizeBytes)
  {
    if entries != [] {
      var n := |entries| - 1;
      EncodingLength(entries[..n], ser, usizeBytes);
      EncodedLengthSnoc(entries[..n], entries[n], ser, usizeBytes);
      assert entries[..n] + [entries[n]] == entries;
    }
  }

  lemma {:induction false} EncodingCons<R>(x: (B256, R), rest: seq<(B256, R)>, ser: R -> seq<uint8>, usizeBytes: nat)
    ensures Encoding([x] + rest, ser, usizeBytes) == EntryBytes(x, ser, usizeBytes) + Encoding(rest, ser, usizeBytes)
    decreases |rest|
  {
    if rest != [] {
      var n := |rest| - 1;
      EncodingCons(x, rest[..n], ser, usizeBytes);
      assert ([x] + rest)[..n + 1] == [x] + rest[..n];
    }
  }

  // ---------------------------------------------------------------------
  // Decoding

  /** An entry written with a 4-byte length, followed by anything, is read
      back as that pair, and the reading goes on right after it. */
  lemma FirstEntryRead<R>(prefix: seq<uint8>, x: (B256, R), tail: seq<uint8>, ser: R -> seq<uint8>, de: seq<uint8> -> Option<R>)
    requires |ser(x.1)| < Pow256(LENGTH_SLICE_BYTES) && de(ser(x.1)) == Some(x.1)
    ensures |prefix| < |prefix + EntryBytes(x, ser, LENGTH_SLICE_BYTES)| <= |prefix + EntryBytes(x, ser, LENGTH_SLICE_BYTES) + tail|
    ensures ReadEntry(prefix + EntryBytes(x, ser, LENGTH_SLICE_BYTES) + tail, |prefix|, de, LENGTH_SLICE_BYTES)
         == Ok((x, |prefix + EntryBytes(x, ser, LENGTH_SLICE_BYTES)|))
  {
    var json := ser(x.1);
    var header := ToBigEndian(|json|, LENGTH_SLICE_BYTES);
    var bytes := prefix + EntryBytes(x, ser, LENGTH_SLICE_BYTES) + tail;
    var offset := |prefix|;
    assert bytes == prefix + x.0 + header + json + tail;
    assert bytes[offset..offset + B256_BYTES] == x.0;
    assert bytes[offset + B256_BYTES..offset + ENTRY_HEADER_BYTES] == header;
    BigEndianRoundTrip(|json|, LENGTH_SLICE_BYTES);
    assert bytes[offset + ENTRY_HEADER_BYTES..offset + ENTRY_HEADER_BYTES + |json|] == json;
  }

  /** An entry read at `offset`, followed by the entries read after it. */
  lemma ConsRead<R>(bytes: seq<uint8>, offset: nat, x: (B256, R), next: nat, rest: seq<(B256, R)>, de: seq<uint8> -> Option<R>)
    requires offset < next <= |bytes|
    requires ReadEntry(bytes, offset, de, LENGTH_SLICE_BYTES) == Ok((x, next))
    requires EntriesFrom(bytes, next, de, LENGTH_SLICE_BYTES) == Ok(rest)
    ensures EntriesFrom(bytes, offset, de, LENGTH_SLICE_BYTES) == Ok([x] + rest)
  {
  }

  /** Reading back a region written with 4-byte lengths, wherever it
      starts, gives the pairs that were written, in the order they were
      written. */
  lemma {:induction false} EntriesOfEncoding<R(!new)>(
    prefix: seq<uint8>, entries: seq<(B256, R)>, ser: R -> seq<uint8>, de: seq<uint8> -> Option<R>)
    requires Inverse(ser, de) && LengthsFit(entries, ser)
    ensures EntriesFrom(prefix + Encoding(entries, ser, LENGTH_SLICE_BYTES), |prefix|, de, LENGTH_SLICE_BYTES) == Ok(entries)
    decreases |entries|
  {
    if entries == [] {
      assert prefix + Encoding(entries, ser, LENGTH_SLICE_BYTES) == prefix;
    } else {
      var x, rest := entries[0], entries[1..];
      assert entries == [x] + rest;
      assert LengthsFit(rest, ser) by {
        forall i | 0 <= i < |rest|
          ensures |ser(rest[i].1)| < Pow256(LENGTH_SLICE_BYTES)
        {
          assert rest[i] == entries[i + 1];
        }
      }
      var head := EntryBytes(x, ser, LENGTH_SLICE_BYTES);
      var tail := Encoding(rest, ser, LENGTH_SLICE_BYTES);
      var next := prefix + head;
      var bytes := next + tail;
      assert prefix + Encoding(entries, ser, LENGTH_SLICE_BYTES) == bytes by {
        EncodingCons(x, rest, ser, LENGTH_SLICE_BYTES);
      }
      EntriesOfEncoding(next, rest, ser, de);
      assert |ser(x.1)| < Pow256(LENGTH_SLICE_BYTES);
      FirstEntryRead(prefix, x, tail, ser, de);
      assert |prefix| < |next| <= |bytes|;
      assert ReadEntry(bytes, |prefix|, de, LENGTH_SLICE_BYTES) == Ok((x, |next|));
      assert EntriesFrom(bytes, |next|, de, LENGTH_SLICE_BYTES) == Ok(rest);
      ConsRead(bytes, |prefix|, x, |next|, rest, de);
    }
  }

  /** With 4-byte lengths on both sides, decoding an encoding of `m` gives
      back `m`, whichever iteration order the encoder used. */
  lemma RoundTrip<R(!new)>(m: map<B256, R>, entries: seq<(B256, R)>, ser: R -> seq<uint8>, de: seq<uint8> -> Option<R>)
    requires IsIterationOf(entries, m)
    requires Inverse(ser, de) && LengthsFit(entries, ser)
    ensures Decoded(Encoding(entries, ser, LENGTH_SLICE_BYTES), de, LENGTH_SLICE_BYTES) == Ok(m)
  {
    EntriesOfEncoding([], entries, ser, de);
    assert [] + Encoding(entries, ser, LENGTH_SLICE_BYTES) == Encoding(entries, ser, LENGTH_SLICE_BYTES);
    IterationRebuildsMap(entries, m);
  }

  /** As built for a 64-bit target, decoding what the encoder wrote fails
      for every non-empty map: the 4-byte length slice cannot become an
      8-byte `usize` array. */
  lemma RoundTripFailsOn64Bit<R>(m: map<B256, R>, entries: seq<(B256, R)>, ser: R -> seq<uint8>, de: seq<uint8> -> Option<R>)
    requires IsIterationOf(entries, m) && m != map[]
    ensures Decoded(Encoding(entries, ser, USIZE_BYTES), de, USIZE_BYTES) == Panicked(LengthConversionFailed)
  {
    IterationRebuildsMap(entries, m);
    assert |entries| > 0;
    EncodingLength(entries, ser, USIZE_BYTES);
  }

  /** How decoding fails at any cursor the loop reaches, `done` being the
      pairs read before it: fewer than 32 + 4 bytes left, a `usize` that
      is not 4 bytes wide, or a declared length that runs past the end of
      the region. Any other `usizeBytes` makes every non-empty region
      fail. */
  lemma DecodeFailures<R>(bytes: seq<uint8>, offset: nat, done: seq<(B256, R)>, de: seq<uint8> -> Option<R>, usizeBytes: nat)
    requires offset < |bytes|
    requires EntriesFrom(bytes, 0, de, usizeBytes) == Prepend(done, EntriesFrom(bytes, offset, de, usizeBytes))
    ensures |bytes| - offset < ENTRY_HEADER_BYTES ==> Decoded(bytes, de, usizeBytes) == Panicked(SliceOutOfRange)
    ensures |bytes| - offset >= ENTRY_HEADER_BYTES && usizeBytes != LENGTH_SLICE_BYTES ==>
      Decoded(bytes, de, usizeBytes) == Panicked(LengthConversionFailed)
    ensures (&& |bytes| - offset >= ENTRY_HEADER_BYTES && usizeBytes == LENGTH_SLICE_BYTES
             && offset + ENTRY_HEADER_BYTES + FromBigEndian(bytes[offset + B256_BYTES..offset + ENTRY_HEADER_BYTES]) > |bytes|) ==>
      Decoded(bytes, de, usizeBytes) == Panicked(SliceOutOfRange)
    ensures usizeBytes != LENGTH_SLICE_BYTES ==> Decoded(bytes, de, usizeBytes).Panicked?
  {
    var e := ReadEntry(bytes, offset, de, usizeBytes);
    if e.Panicked? {
      FailureIsFinal(bytes, offset, done, de, usizeBytes, e.reason);
    }
  }

  /** The loop starts at the front of the region with nothing read. */
  lemma StartOfRegion<R>(bytes: seq<uint8>, de: seq<uint8> -> Option<R>, usizeBytes: nat)
    ensures EntriesFrom(bytes, 0, de, usizeBytes) == Prepend([], EntriesFrom(bytes, 0, de, usizeBytes))
  {
    var all := EntriesFrom(bytes, 0, de, usizeBytes);
    if all.Ok? {
      assert [] + all.value == all.value;
    }
  }

  /** An entry followed by a partial one: the first is read, and the
      region still panics at the second. */
  lemma TrailingBytesFail<R(!new)>(x: (B256, R), trailing: seq<uint8>, ser: R -> seq<uint8>, de: seq<uint8> -> Option<R>)
    requires |ser(x.1)| < Pow256(LENGTH_SLICE_BYTES) && de(ser(x.1)) == Some(x.1)
    requires 0 < |trailing| < ENTRY_HEADER_BYTES
    ensures Decoded(EntryBytes(x, ser, LENGTH_SLICE_BYTES) + trailing, de, LENGTH_SLICE_BYTES) == Panicked(SliceOutOfRange)
  {
    var entry := EntryBytes(x, ser, LENGTH_SLICE_BYTES);
    var bytes := entry + trailing;
    FirstEntryRead([], x, trailing, ser, de);
    assert [] + entry + trailing == bytes && [] + entry == entry;
    StartOfRegion(bytes, de, LENGTH_SLICE_BYTES);
    assert EntriesFrom(bytes, 0, de, LENGTH_SLICE_BYTES) == Prepend([x], EntriesFrom(bytes, |entry|, de, LENGTH_SLICE_BYTES));
    DecodeStep(bytes, 0, |entry|, [], de, x);
    assert [] + [x] == [x];
    DecodeFailures(bytes, |entry|, [x], de, LENGTH_SLICE_BYTES);
  }

  /** The empty region decodes to the empty map, whatever the width of
      `usize`. */
  lemma EmptyRegion<R>(de: seq<uint8> -> Option<R>, usizeBytes: nat)
    ensures Decoded([], de, usizeBytes) == Ok(map[])
  {
  }

  /** As built for a 64-bit target, decoding what the encoder wrote
      succeeds exactly for the empty map, and then gives it back. */
  lemma DecodesOn64BitIffEmpty<R>(m: map<B256, R>, entries: seq<(B256, R)>, ser: R -> seq<uint8>, de: seq<uint8> -> Option<R>)
    requires IsIterationOf(entries, m)
    ensures Decoded(Encoding(entries, ser, USIZE_BYTES), de, USIZE_BYTES).Ok? <==> m == map[]
    ensures m == map[] ==> Decoded(Encoding(entries, ser, USIZE_BYTES), de, USIZE_BYTES) == Ok(m)
  {
    if m == map[] {
      IterationRebuildsMap(entries, m);
      assert entries == [];
      EmptyRegion(de, USIZE_BYTES);
    } else {
      RoundTripFailsOn64Bit(m, entries, ser, de);
    }
  }

  /** Cutting a 4-byte-length entry short, by any number of bytes, makes
      decoding panic; it never yields a shortened receipt. */
  lemma TruncatedEntryFails<R>(x: (B256, R), ser: R -> seq<uint8>, de: seq<uint8> -> Option<R>, n: nat)
    requires |ser(x.1)| < Pow256(LENGTH_SLICE_BYTES)
    requires 0 < n < |EntryBytes(x, ser, LENGTH_SLICE_BYTES)|
    ensures Decoded(EntryBytes(x, ser, LENGTH_SLICE_BYTES)[..n], de, LENGTH_SLICE_BYTES) == Panicked(SliceOutOfRange)
  {
    var json := ser(x.1);
    var entry := EntryBytes(x, ser, LENGTH_SLICE_BYTES);
    var region := entry[..n];
    if n >= ENTRY_HEADER_BYTES {
      assert region[B256_BYTES..ENTRY_HEADER_BYTES] == ToBigEndian(|json|, LENGTH_SLICE_BYTES);
      BigEndianRoundTrip(|json|, LENGTH_SLICE_BYTES);
    }
  }

  /** A failure met part-way through the region is the outcome of the
      whole decoding. */
  lemma FailureIsFinal<R>(bytes: seq<uint8>, offset: nat, done: seq<(B256, R)>, de: seq<uint8> -> Option<R>, usizeBytes: nat, p: PanicReason)
    requires offset <= |bytes|
    requires EntriesFrom(bytes, 0, de, usizeBytes) == Prepend(done, EntriesFrom(bytes, offset, de, usizeBytes))
    requires EntriesFrom(bytes, offset, de, usizeBytes) == Panicked(p)
    ensures Decoded(bytes, de, usizeBytes) == Panicked(p)
  {
  }

  /** Reading one entry at `start` and then the rest is reading from `start`. */
  lemma DecodeStep<R>(bytes: seq<uint8>, start: nat, end: nat, done: seq<(B256, R)>, de: seq<uint8> -> Option<R>, x: (B256, R))
    requires start <= end <= |bytes|
    requires EntriesFrom(bytes, start, de, LENGTH_SLICE_BYTES) == Prepend([x], EntriesFrom(bytes, end, de, LENGTH_SLICE_BYTES))
    requires EntriesFrom(bytes, 0, de, LENGTH_SLICE_BYTES) == Prepend(done, EntriesFrom(bytes, start, de, LENGTH_SLICE_BYTES))
    ensures EntriesFrom(bytes, 0, de, LENGTH_SLICE_BYTES) == Prepend(done + [x], EntriesFrom(bytes, end, de, LENGTH_SLICE_BYTES))
  {
    var tail := EntriesFrom(bytes, end, de, LENGTH_SLICE_BYTES);
    if tail.Ok? {
      assert done + ([x] + tail.value) == (done + [x]) + tail.value;
    }
  }

  /** `from_ssz_bytes`: reads entries off the front of the region until it
      is used up, inserting each into the map; any slice that runs past the
      end, a length slice that cannot become a `usize`, or a receipt that
      does not deserialize is a panic. */
  method FromSszBytes<R>(bytes: seq<uint8>, de: seq<uint8> -> Option<R>, usizeBytes: nat)
    returns (r: Outcome<map<B256, R>>)
    ensures r == Decoded(bytes, de, usizeBytes)
    ensures !r.Err?
  {
    var receipts: map<B256, R> := map[];
    var offset := 0;
    ghost var done: seq<(B256, R)> := [];
    assert forall o: Outcome<seq<(B256, R)>> :: Prepend([], o) == o by {
      forall o: Outcome<seq<(B256, R)>> ensures Prepend([], o) == o {
        if o.Ok? {
          assert [] + o.value == o.value;
        }
      }
    }
    while offset < |bytes|
      invariant offset <= |bytes|
      invariant receipts == MapOf(done)
      invariant EntriesFrom(bytes, 0, de, usizeBytes) == Prepend(done, EntriesFrom(bytes, offset, de, usizeBytes))
      decreases |bytes| - offset
    {
      ghost var start := offset;
      if offset + B256_BYTES > |bytes| {
        FailureIsFinal(bytes, start, done, de, usizeBytes, SliceOutOfRange);
        return Panicked(SliceOutOfRange);
      }
      var receiptHash: B256 := bytes[offset..offset + B256_BYTES];
      offset := offset + B256_BYTES;
      if offset + LENGTH_SLICE_BYTES > |bytes| {
        FailureIsFinal(bytes, start, done, de, usizeBytes, SliceOutOfRange);
        return Panicked(SliceOutOfRange);
      }
      if usizeBytes != LENGTH_SLICE_BYTES {
        FailureIsFinal(bytes, start, done, de, usizeBytes, LengthConversionFailed);
        return Panicked(LengthConversionFailed);
      }
      var receiptJsonBytesLen := FromBigEndian(bytes[offset..offset + LENGTH_SLICE_BYTES]);
      offset := offset + LENGTH_SLICE_BYTES;
      if offset + receiptJsonBytesLen > |bytes| {
        FailureIsFinal(bytes, start, done, de, usizeBytes, SliceOutOfRange);
        return Panicked(SliceOutOfRange);
      }
      var receiptJsonBytes := bytes[offset..offset + receiptJsonBytesLen];
      offset := offset + receiptJsonBytesLen;
      var receipt := de(receiptJsonBytes);
      if receipt.None? {
        FailureIsFinal(bytes, start, done, de, usizeBytes, InvalidReceiptBytes);
        return Panicked(InvalidReceiptBytes);
      }
      receipts := receipts[receiptHash := receipt.value];
      DecodeStep(bytes, start, offset, done, de, (receiptHash, receipt.value));
      MapOfSnoc(done, (receiptHash, receipt.value));
      done := done + [(receiptHash, receipt.value)];
    }
    assert done + [] == done;
    return Ok(receipts);
  }
}
