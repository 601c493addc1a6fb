/** `new_account_balances_ssz`: the codec that fits the address -> balance
    map of the flashblock metadata into an SSZ container. The field is
    variable-length (one offset slot in the container), and its region is a
    run of fixed 52-byte entries: 20 address bytes, then the balance as a
    32-byte little-endian integer. There is no count, separator or
    terminator; the region's length alone says how many entries there are. */
module NewAccountBalancesSsz {
  import opened Uints
  import opened Ssz
  import opened HashMaps
  import opened Buffers

  const ENTRY_BYTES: nat := 52

  /** `is_ssz_fixed_len`: the field is variable-length, so its region
      follows the container's fixed part. */
  function IsSszFixedLen(): (r: bool)
    ensures !r
  {
    false
  }

  /** `ssz_fixed_len`: the field's slot in the fixed part holds one offset. */
  function SszFixedLen(): (r: nat)
    ensures r == BYTES_PER_LENGTH_OFFSET
  {
    BYTES_PER_LENGTH_OFFSET
  }

  /** One (address, balance) pair as it is written. */
  function EntryBytes(entry: (Address, uint256)): (r: seq<uint8>)
    ensures |r| == ENTRY_BYTES
  {
    entry.0 + U256AsSszBytes(entry.1)
  }

  /** The region written for the pairs of `entries`, in that order. */
  function Encoding(entries: seq<(Address, uint256)>): seq<uint8>
  {
    if entries == [] then []
    else Encoding(entries[..|entries| - 1]) + EntryBytes(entries[|entries| - 1])
  }

  /** The pair held by the 52 bytes at `offset`: the address, then the
      balance read little-endian. */
  function EntryAt(bytes: seq<uint8>, offset: nat): (Address, uint256)
    requires offset + ENTRY_BYTES <= |bytes|
  {
    var balanceBytes := bytes[offset + ADDRESS_BYTES..offset + ENTRY_BYTES];
    assert |balanceBytes| == U256_BYTES;
    (bytes[offset..offset + ADDRESS_BYTES], FromLittleEndian(balanceBytes))
  }

  /** The pairs held by the whole 52-byte entries of `bytes` from `offset`
      on, in the order they occur. */
  function EntriesFrom(bytes: seq<uint8>, offset: nat): seq<(Address, uint256)>
    decreases |bytes| - offset
  {
    if offset + ENTRY_BYTES > |bytes| then []
    else [EntryAt(bytes, offset)] + EntriesFrom(bytes, offset + ENTRY_BYTES)
  }

  /** What decoding `region` ends in: the map obtained by inserting its
      entries in order when it is a whole number of entries, and a slice
      panic otherwise. */
  function Decoded(region: seq<uint8>): (r: Outcome<map<Address, uint256>>)
    ensures r.Ok? <==> |region| % ENTRY_BYTES == 0
    ensures !r.Err?
  {
    if |region| % ENTRY_BYTES == 0 then Ok(MapOf(EntriesFrom(region, 0)))
    else Panicked(SliceOutOfRange)
  }

  // ---------------------------------------------------------------------
  // Encoding

  /** `ssz_append`: appends one entry per pair, in the map's iteration
      order, and nothing else; what `buf` held before is kept. */
  method SszAppend(m: map<Address, uint256>, entries: seq<(Address, uint256)>, buf: ByteBuf)
    requires IsIterationOf(entries, m)
    modifies buf
    ensures buf.contents == old(buf.contents) + Encoding(entries)
  {
    for i := 0 to |entries|
      invariant buf.contents == old(buf.contents) + Encoding(entries[..i])
    {
      var (address, balance) := entries[i];
      EncodingPrefix(entries, i);
      buf.ExtendFromSlice(address);
      buf.ExtendFromSlice(U256AsSszBytes(balance));
    }
    assert entries[..|entries|] == entries;
  }

  /** The encoding of the first i + 1 pairs extends that of the first i by
      the address and the balance of pair i. */
  lemma EncodingPrefix(entries: seq<(Address, uint256)>, i: nat)
    requires i < |entries|
    ensures Encoding(entries[..i + 1]) == Encoding(entries[..i]) + entries[i].0 + U256AsSszBytes(entries[i].1)
  {
    assert entries[..i + 1][..i] == entries[..i];
  }

  /** `as_ssz_bytes`: `ssz_append` on an empty buffer; 52 bytes per pair. */
  method AsSszBytes(m: map<Address, uint256>, entries: seq<(Address, uint256)>) returns (bytes: seq<uint8>)
    requires IsIterationOf(entries, m)
    ensures bytes == Encoding(entries)
    ensures |bytes| == ENTRY_BYTES * |m|
  {
    var buf := new ByteBuf();
    SszAppend(m, entries, buf);
    bytes := buf.contents;
    EncodingLength(entries);
    IterationRebuildsMap(entries, m);
  }

  /** `ssz_bytes_len`: the length of `as_ssz_bytes`, whatever the order. */
  method SszBytesLen(m: map<Address, uint256>, entries: seq<(Address, uint256)>) returns (len: nat)
    requires IsIterationOf(entries, m)
    ensures len == ENTRY_BYTES * |m|
  {
    var bytes := AsSszBytes(m, entries);
    len := |bytes|;
  }

  lemma {:induction false} EncodingLength(entries: seq<(Address, uint256)>)
    ensures |Encoding(entries)| == ENTRY_BYTES * |entries|
  {
    if entries != [] {
      EncodingLength(entries[..|entries| - 1]);
    }
  }

  /** Entry `i` of the region is the i-th pair's 20 address bytes followed
      by its 32-byte little-endian balance. */
  lemma {:induction false} EncodingEntryAt(entries: seq<(Address, uint256)>, i: nat)
    requires i < |entries|
    ensures |Encoding(entries)| == ENTRY_BYTES * |entries|
    ensures Encoding(entries)[ENTRY_BYTES * i..ENTRY_BYTES * i + ADDRESS_BYTES] == entries[i].0
    ensures Encoding(entries)[ENTRY_BYTES * i + ADDRESS_BYTES..ENTRY_BYTES * (i + 1)]
         == ToLittleEndian(entries[i].1, U256_BYTES)
  {
    var n := |entries| - 1;
    var prefix := entries[..n];
    EncodingLength(entries);
    EncodingLength(prefix);
    var enc := Encoding(entries);
    assert enc == Encoding(prefix) + EntryBytes(entries[n]);
    if i < n {
      EncodingEntryAt(prefix, i);
      assert ENTRY_BYTES * (i + 1) <= ENTRY_BYTES * n;
      assert enc[..ENTRY_BYTES * n] == Encoding(prefix);
    } else {
      assert enc[ENTRY_BYTES * i..] == EntryBytes(entries[i]);
    }
  }

  lemma {:induction false} EncodingCons(x: (Address, uint256), rest: seq<(Address, uint256)>)
    ensures Encoding([x] + rest) == EntryBytes(x) + Encoding(rest)
    decreases |rest|
  {
    if rest != [] {
      var n := |rest| - 1;
      EncodingCons(x, rest[..n]);
      assert ([x] + rest)[..n + 1] == [x] + rest[..n];
    }
  }

  /** An entry followed by anything is read back as that pair. */
  lemma FirstEntryRead(prefix: seq<uint8>, x: (Address, uint256), tail: seq<uint8>)
    ensures |prefix + EntryBytes(x) + tail| >= |prefix| + ENTRY_BYTES
    ensures (prefix + EntryBytes(x) + tail)[|prefix|..|prefix| + ADDRESS_BYTES] == x.0
    ensures FromLittleEndian((prefix + EntryBytes(x) + tail)[|prefix| + ADDRESS_BYTES..|prefix| + ENTRY_BYTES]) == x.1
  {
    var bytes := prefix + EntryBytes(x) + tail;
    assert bytes == prefix + x.0 + U256AsSszBytes(x.1) + tail;
    assert bytes[|prefix|..|prefix| + ADDRESS_BYTES] == x.0;
    assert bytes[|prefix| + ADDRESS_BYTES..|prefix| + ENTRY_BYTES] == ToLittleEndian(x.1, U256_BYTES);
    LittleEndianRoundTrip(x.1, U256_BYTES);
  }

  /** Reading the entries back from an encoding, wherever it starts, gives
      the pairs that were written, in the order they were written. */
  lemma {:induction false} EntriesOfEncoding(prefix: seq<uint8>, entries: seq<(Address, uint256)>)
    ensures EntriesFrom(prefix + Encoding(entries), |prefix|) == entries
    decreases |entries|
  {
    EncodingLength(entries);
    if entries == [] {
      assert prefix + Encoding(entries) == prefix;
    } else {
      var x, rest := entries[0], entries[1..];
      assert entries == [x] + rest;
      var next := prefix + EntryBytes(x);
      var tail := Encoding(rest);
      var bytes := next + tail;
      assert prefix + Encoding(entries) == bytes by {
        EncodingCons(x, rest);
      }
      EntriesOfEncoding(next, rest);
      FirstEntryRead(prefix, x, tail);
      assert |next| == |prefix| + ENTRY_BYTES;
    }
  }

  /** Decoding an encoding of `m` gives back `m`, whichever iteration order
      the encoder used. */
  lemma RoundTrip(m: map<Address, uint256>, entries: seq<(Address, uint256)>)
    requires IsIterationOf(entries, m)
    ensures Decoded(Encoding(entries)) == Ok(m)
  {
    EntriesOfEncoding([], entries);
    assert [] + Encoding(entries) == Encoding(entries);
    EncodingLength(entries);
    assert |Encoding(entries)| % ENTRY_BYTES == 0;
    IterationRebuildsMap(entries, m);
  }

  /** Two iteration orders of the same map may give different bytes, but
      both decode to the same map. */
  lemma EncodingsAgreeAsMaps(m: map<Address, uint256>, e1: seq<(Address, uint256)>, e2: seq<(Address, uint256)>)
    requires IsIterationOf(e1, m) && IsIterationOf(e2, m)
    ensures |Encoding(e1)| == |Encoding(e2)|
    ensures Decoded(Encoding(e1)) == Decoded(Encoding(e2))
  {
    RoundTrip(m, e1);
    RoundTrip(m, e2);
    EncodingLength(e1);
    EncodingLength(e2);
    IterationRebuildsMap(e1, m);
    IterationRebuildsMap(e2, m);
  }

  // ---------------------------------------------------------------------
  // Decoding

  /** Entry `i` counted from `offset` is the pair held by the 52 bytes
      that start 52i bytes after `offset`. */
  lemma {:induction false} EntriesAt(bytes: seq<uint8>, offset: nat, i: nat)
    requires offset + ENTRY_BYTES * (i + 1) <= |bytes|
    ensures i < |EntriesFrom(bytes, offset)|
    ensures EntriesFrom(bytes, offset)[i] == EntryAt(bytes, offset + ENTRY_BYTES * i)
    decreases i
  {
    assert EntriesFrom(bytes, offset) == [EntryAt(bytes, offset)] + EntriesFrom(bytes, offset + ENTRY_BYTES);
    if i > 0 {
      EntriesAt(bytes, offset + ENTRY_BYTES, i - 1);
      assert offset + ENTRY_BYTES * i == offset + ENTRY_BYTES + ENTRY_BYTES * (i - 1);
    }
  }

  /** One entry per whole 52 bytes: fewer than 52 bytes are left over. */
  lemma {:induction false} EntriesLength(bytes: seq<uint8>, offset: nat)
    requires offset <= |bytes|
    ensures offset + ENTRY_BYTES * |EntriesFrom(bytes, offset)| <= |bytes|
    ensures |bytes| < offset + ENTRY_BYTES * |EntriesFrom(bytes, offset)| + ENTRY_BYTES
    decreases |bytes| - offset
  {
    if offset + ENTRY_BYTES <= |bytes| {
      EntriesLength(bytes, offset + ENTRY_BYTES);
    }
  }

  /** Entry `j` of a region lies wholly inside it. */
  lemma EntryInside(region: seq<uint8>, j: nat)
    requires j < |EntriesFrom(region, 0)|
    ensures ENTRY_BYTES * (j + 1) <= |region|
  {
    EntriesLength(region, 0);
    var n := |EntriesFrom(region, 0)|;
    assert 52 * (j + 1) <= 52 * n;
  }

  /** No entry after entry `i` repeats its address, given that no later
      52-byte slot of the region does. */
  lemma LaterAddressesDiffer(region: seq<uint8>, i: nat)
    requires ENTRY_BYTES * (i + 1) <= |region|
    requires forall j: nat | i < j && ENTRY_BYTES * (j + 1) <= |region| ::
      region[ENTRY_BYTES * j..ENTRY_BYTES * j + ADDRESS_BYTES] != region[ENTRY_BYTES * i..ENTRY_BYTES * i + ADDRESS_BYTES]
    ensures i < |EntriesFrom(region, 0)|
    ensures forall j | i < j < |EntriesFrom(region, 0)| :: EntriesFrom(region, 0)[j].0 != EntriesFrom(region, 0)[i].0
  {
    var entries := EntriesFrom(region, 0);
    var start := ENTRY_BYTES * i;
    EntriesAt(region, 0, i);
    assert entries[i].0 == region[start..start + ADDRESS_BYTES];
    forall j | i < j < |entries|
      ensures entries[j].0 != entries[i].0
    {
      EntryInside(region, j);
      EntriesAt(region, 0, j);
      var other := ENTRY_BYTES * j;
      assert entries[j].0 == region[other..other + ADDRESS_BYTES];
    }
  }

  /** When an address occurs in several entries of a region, the decoded
      map holds the balance of the last one. */
  lemma LaterEntryWins(region: seq<uint8>, i: nat)
    requires |region| % ENTRY_BYTES == 0
    requires ENTRY_BYTES * (i + 1) <= |region|
    requires forall j: nat | i < j && ENTRY_BYTES * (j + 1) <= |region| ::
      region[ENTRY_BYTES * j..ENTRY_BYTES * j + ADDRESS_BYTES] != region[ENTRY_BYTES * i..ENTRY_BYTES * i + ADDRESS_BYTES]
    ensures Decoded(region).Ok?
    ensures region[ENTRY_BYTES * i..ENTRY_BYTES * i + ADDRESS_BYTES] in Decoded(region).value
    ensures Decoded(region).value[region[ENTRY_BYTES * i..ENTRY_BYTES * i + ADDRESS_BYTES]]
         == FromLittleEndian(region[ENTRY_BYTES * i + ADDRESS_BYTES..ENTRY_BYTES * (i + 1)])
  {
    var entries := EntriesFrom(region, 0);
    LaterAddressesDiffer(region, i);
    EntriesAt(region, 0, i);
    MapOfLastWins(entries, i);
    assert Decoded(region) == Ok(MapOf(entries));
  }

  /** A region that ends less than one entry after an entry boundary is not
      a whole number of entries, so decoding it panics. */
  lemma PartialEntry(bytes: seq<uint8>, offset: nat)
    requires offset % ENTRY_BYTES == 0 && offset < |bytes| < offset + ENTRY_BYTES
    ensures Decoded(bytes) == Panicked(SliceOutOfRange)
  {
  }

  /** The boundary after an entry boundary is one too. */
  lemma NextBoundary(offset: nat)
    requires offset % ENTRY_BYTES == 0
    ensures (offset + ENTRY_BYTES) % ENTRY_BYTES == 0
  {
  }

  /** A region used up at an entry boundary decodes to the entries read. */
  lemma WholeRegion(bytes: seq<uint8>, done: seq<(Address, uint256)>)
    requires |bytes| % ENTRY_BYTES == 0
    requires EntriesFrom(bytes, 0) == done + EntriesFrom(bytes, |bytes|)
    ensures Decoded(bytes) == Ok(MapOf(done))
  {
    assert done + [] == done;
  }

  /** One turn of the decoding loop: the entry at `start` is the next pair
      of the region's entries, and inserting it extends the map built so
      far. */
  lemma DecodeStep(bytes: seq<uint8>, start: nat, done: seq<(Address, uint256)>, address: Address, balance: uint256)
    requires start + ENTRY_BYTES <= |bytes|
    requires address == bytes[start..start + ADDRESS_BYTES]
    requires balance == FromLittleEndian(bytes[start + ADDRESS_BYTES..start + ENTRY_BYTES])
    requires EntriesFrom(bytes, 0) == done + EntriesFrom(bytes, start)
    ensures EntriesFrom(bytes, 0) == (done + [(address, balance)]) + EntriesFrom(bytes, start + ENTRY_BYTES)
    ensures MapOf(done + [(address, balance)]) == MapOf(done)[address := balance]
  {
    var x := (address, balance);
    assert EntryAt(bytes, start) == x;
    assert EntriesFrom(bytes, start) == [x] + EntriesFrom(bytes, start + ENTRY_BYTES);
    assert done + ([x] + EntriesFrom(bytes, start + ENTRY_BYTES)) == done + [x] + EntriesFrom(bytes, start + ENTRY_BYTES);
    MapOfSnoc(done, x);
  }

  /** `from_ssz_bytes`: cuts 52-byte entries off the front of the region
      until it is used up. A region that is not a whole number of entries
      makes a slice run past the end (a panic); the `?` on the balance never
      propagates an error, since every slice reaching it is 32 bytes. */
  method FromSszBytes(bytes: seq<uint8>) returns (r: Outcome<map<Address, uint256>>)
    ensures r == Decoded(bytes)
  {
    var balances: map<Address, uint256> := map[];
    var offset := 0;
    ghost var done: seq<(Address, uint256)> := [];
    while offset < |bytes|
      invariant offset <= |bytes| && offset % ENTRY_BYTES == 0
      invariant balances == MapOf(done)
      invariant EntriesFrom(bytes, 0) == done + EntriesFrom(bytes, offset)
    {
      ghost var start := offset;
      if offset + ADDRESS_BYTES > |bytes| {
        PartialEntry(bytes, start);
        return Panicked(SliceOutOfRange);
      }
      var address: Address := bytes[offset..offset + ADDRESS_BYTES];
      offset := offset + ADDRESS_BYTES;
      if offset + U256_BYTES > |bytes| {
        PartialEntry(bytes, start);
        return Panicked(SliceOutOfRange);
      }
      // The `?` of the source: the slice is exactly 32 bytes, so it never fires.
      var balanceResult := U256FromSszBytes(bytes[offset..offset + U256_BYTES]);
      assert balanceResult.Ok?;
      var balance := balanceResult.value;
      offset := offset + U256_BYTES;
      balances := balances[address := balance];
      DecodeStep(bytes, start, done, address, balance);
      NextBoundary(start);
      done := done + [(address, balance)];
    }
    WholeRegion(bytes, done);
    return Ok(balances);
  }
}
