# Flashblocks SSZ codecs — a Dafny model

This project models the hand-written SimpleSerialize (SSZ) codecs of the
flashblocks payload (`src/payload.rs`). Three of its fields are not
natively SSZ types, so each has its own codec: encode (`ssz_append`,
`as_ssz_bytes`, `ssz_bytes_len`), decode (`from_ssz_bytes`), and the
declarations `is_ssz_fixed_len` / `ssz_fixed_len`.

- **`payload_id_ssz`** covers the 8-byte payload identifier. It is
  fixed-length and copied byte for byte.
- **`new_account_balances_ssz`** covers the address → balance hash map.
  - Each entry is 20 address bytes, then the balance as a 32-byte
    little-endian integer.
  - There is no count, separator or terminator.
  - The decoder cuts 52-byte entries until the region is used up.
- **`receipts_ssz`** covers the hash → receipt hash map.
  - Each entry is the 32-byte hash, then the length of the receipt's
    serialized form as a big-endian `usize`, then that serialized form.
  - The decoder reads the length from a 4-byte slice.
- **Containers.** `FlashblocksMetadata` and `FlashblocksPayloadV1` lay these
  fields out in an SSZ container: a fixed part (fixed-length fields in place,
  a 4-byte little-endian offset per variable-length field), followed by the
  variable-length regions.

Modules, one per file:

| file | module | what it holds |
|---|---|---|
| `uints.dfy` | `Uints` | bytes, `u64` and `U256` as bounded naturals, little- and big-endian conversions and their round trips |
| `ssz.dfy` | `Ssz` | fixed-size byte strings (`Address`, `B256`, `B64`), decode outcomes, the 32-byte SSZ form of `U256` |
| `buffers.dfy` | `Buffers` | `ByteBuf`, the `Vec<u8>` the encoders append to (a class whose `contents` the methods update) |
| `hashmaps.dfy` | `HashMaps` | the hash maps: iteration orders, and insertion in order, where a later key wins |
| `payload_id.dfy` | `PayloadIdSsz` | `payload_id_ssz` |
| `balances.dfy` | `NewAccountBalancesSsz` | `new_account_balances_ssz` |
| `receipts.dfy` | `ReceiptsSsz` | `receipts_ssz` |
| `payload.dfy` | `Payload` | field layout of the two containers, and the metadata container's encoding and decoding |

How the Rust behaviour is represented:

- **Decode results.** A decoder's result is an `Outcome`:
  - `Ok(value)`;
  - `Err(e)`, where `e` is a `DecodeError` returned through the `Result`;
  - `Panicked(reason)`, for a slice out of range, a failed
    `try_into().unwrap()`, a failed `serde_json` `unwrap`, or a
    `from_slice` of the wrong width.
- **Iteration order.** A Rust `HashMap` has no defined iteration order. An
  encoder is therefore given the map `m` together with any duplicate-free
  sequence of its pairs (`IsIterationOf(entries, m)`). Every property holds
  for whichever order the map happens to use.
- **Encoders.** `ssz_append` is a method that changes only the buffer.
  `as_ssz_bytes` and `ssz_bytes_len` are methods that call it on a fresh
  buffer.
- **Decoders.** Both map decoders are methods with the source's `while`
  loop and `offset` cursor. Each is proved equal to a declarative
  definition (`Decoded`), and the round trips and failure laws are proved
  about that definition.
- **Receipt serialization.** The JSON serialization of a receipt is a
  parameter: `ser` (cannot fail) and `de` (may fail).
- **Width of `usize`.** This is a parameter, `usizeBytes`. The build target
  is 64-bit, so `USIZE_BYTES` is 8.

## Model

| member | source | states |
|---|---|---|
| `PayloadIdSsz.IsSszFixedLen` | src/payload.rs:238-240 | the identifier is declared fixed-length: it sits in place in the container's fixed part |
| `PayloadIdSsz.SszFixedLen` | src/payload.rs:242-244 | the declared width, 8, is the length of every identifier's bytes |
| `PayloadIdSsz.SszAppend` | src/payload.rs:250-252 | appends exactly the identifier's 8 bytes; the buffer's earlier contents are kept |
| `PayloadIdSsz.AsSszBytes` | src/payload.rs:254-258 | `ssz_append` on an empty buffer; the result is exactly the identifier's bytes, `ssz_fixed_len()` = 8 of them |
| `PayloadIdSsz.SszBytesLen` | src/payload.rs:246-248 | always the declared fixed length, 8 |
| `PayloadIdSsz.FromSszBytes` | src/payload.rs:274-277 | succeeds iff the slice is 8 bytes long, and then holds exactly those bytes; any other length is a `from_slice` panic, and the `Result` is never an error |
| `PayloadIdSsz.RoundTrip` | src/payload.rs:250-277 | decoding the bytes the encoder writes gives back the same identifier |
| `NewAccountBalancesSsz.IsSszFixedLen` | src/payload.rs:95-97 | the balances field is declared variable-length: its region follows the fixed part |
| `NewAccountBalancesSsz.SszFixedLen` | src/payload.rs:99-101 | its slot in the fixed part is one 4-byte offset |
| `NewAccountBalancesSsz.SszAppend` | src/payload.rs:107-112 | appends, per pair in iteration order, the 20 address bytes and then the 32-byte SSZ balance, and nothing else; earlier contents are kept |
| `NewAccountBalancesSsz.AsSszBytes` | src/payload.rs:114-118 | `ssz_append` on an empty buffer; 52 bytes per entry of the map |
| `NewAccountBalancesSsz.SszBytesLen` | src/payload.rs:103-105 | 52 times the number of entries, whatever the iteration order |
| `NewAccountBalancesSsz.EncodingLength` | src/payload.rs:107-112 | N pairs encode to exactly 52·N bytes |
| `NewAccountBalancesSsz.EncodingEntryAt` | src/payload.rs:108-111 | bytes 52i to 52i+20 are the i-th address, and the next 32 are its balance, little-endian (no separator or count anywhere) |
| `NewAccountBalancesSsz.EntriesOfEncoding` | src/payload.rs:139-145 | reading 52-byte entries from an encoding, wherever it starts, gives back the written pairs in order |
| `NewAccountBalancesSsz.RoundTrip` | src/payload.rs:107-147 | decoding the encoding of a map gives back exactly that map, for any iteration order (the empty map gives the empty region and back) |
| `NewAccountBalancesSsz.EncodingsAgreeAsMaps` | src/payload.rs:107-147 | two iteration orders of one map give encodings of equal length that decode to the same map |
| `NewAccountBalancesSsz.EntriesAt` | src/payload.rs:139-144 | entry i read from an offset is the pair held by the 52 bytes starting 52i bytes later |
| `NewAccountBalancesSsz.EntryInside` | src/payload.rs:139-141 | every entry read from a region lies wholly inside it |
| `NewAccountBalancesSsz.EntriesLength` | src/payload.rs:139-145 | a whole region holds one entry per 52 bytes |
| `NewAccountBalancesSsz.LaterAddressesDiffer` | src/payload.rs:139-144 | when no later 52-byte slot repeats entry i's address bytes, no later decoded entry repeats its address |
| `NewAccountBalancesSsz.LaterEntryWins` | src/payload.rs:144 | when an address occurs more than once in a region, the decoded map holds the balance of its last occurrence |
| `NewAccountBalancesSsz.Decoded` | src/payload.rs:136-147 | a region decodes iff its length is a multiple of 52; otherwise an out-of-range slice panic; the `?` on the balance never yields an error |
| `NewAccountBalancesSsz.PartialEntry` | src/payload.rs:139-141 | a region ending part-way through an entry panics with an out-of-range slice |
| `NewAccountBalancesSsz.DecodeStep` | src/payload.rs:139-145 | one loop turn appends the entry at the cursor and inserts its balance under its address |
| `NewAccountBalancesSsz.WholeRegion` | src/payload.rs:139-147 | when the cursor reaches the end, the map built so far is the decoded map |
| `NewAccountBalancesSsz.FromSszBytes` | src/payload.rs:136-147 | the loop, with its two slice checks and insertions, computes exactly `Decoded` |
| `ReceiptsSsz.IsSszFixedLen` | src/payload.rs:158-160 | the receipts field is declared variable-length: its region follows the fixed part |
| `ReceiptsSsz.SszFixedLen` | src/payload.rs:162-164 | its slot in the fixed part is one 4-byte offset |
| `ReceiptsSsz.SszAppend` | src/payload.rs:172-183 | appends, per pair in iteration order, the hash, the big-endian `usize` length of the serialized receipt, and the serialized receipt; earlier contents are kept |
| `ReceiptsSsz.AsSszBytes` | src/payload.rs:185-191 | `ssz_append` on an empty buffer; its length is the sum over entries of 32 + `usizeBytes` + L |
| `ReceiptsSsz.SszBytesLen` | src/payload.rs:166-170 | the sum over entries of 32 + `usizeBytes` + the serialized length |
| `ReceiptsSsz.EncodingLength` | src/payload.rs:176-182 | the encoding's length is the sum of (32 + `usizeBytes` + L_i) |
| `ReceiptsSsz.EncodedLengthSnoc` | src/payload.rs:176-182 | one more entry adds 32 + `usizeBytes` + its serialized length |
| `ReceiptsSsz.FirstEntryRead` | src/payload.rs:217-226 | an entry written with a 4-byte length is read back as the same pair, and reading resumes right after it |
| `ReceiptsSsz.ConsRead` | src/payload.rs:216-227 | when the entry at the cursor is read as x ending at `next`, and the entries from `next` are `rest`, the entries from the cursor are exactly x followed by `rest` (the step the round trip's induction uses) |
| `ReceiptsSsz.EntriesOfEncoding` | src/payload.rs:214-229 | with 4-byte lengths, reading an encoding from wherever it starts gives back the written pairs in order |
| `ReceiptsSsz.RoundTrip` | src/payload.rs:172-230 | with 4-byte lengths on both sides, and `de` inverting `ser`, decoding the encoding of a map gives back that map, for any iteration order |
| `ReceiptsSsz.RoundTripFailsOn64Bit` | src/payload.rs:179-220 | with the 8-byte `usize` of a 64-bit target, decoding the encoding of any non-empty map panics in the length conversion |
| `ReceiptsSsz.DecodeFailures` | src/payload.rs:216-222 | at any cursor the loop reaches with bytes left, the whole decode panics when fewer than 36 bytes remain there, when `usize` is not 4 bytes wide, or when the length read there runs past the end; with any width but 4 every non-empty region panics |
| `ReceiptsSsz.StartOfRegion` | src/payload.rs:213-215 | the loop starts at offset 0 with nothing read, which meets the cursor condition of `DecodeFailures` |
| `ReceiptsSsz.TrailingBytesFail` | src/payload.rs:216-218 | one whole entry followed by 1 to 35 stray bytes still panics with an out-of-range slice: the first entry is read, and the second has no room |
| `ReceiptsSsz.EmptyRegion` | src/payload.rs:213-216 | the empty region decodes to the empty map, whatever the width of `usize` |
| `ReceiptsSsz.DecodesOn64BitIffEmpty` | src/payload.rs:172-230 | with the 8-byte `usize` of a 64-bit target, decoding what the encoder wrote succeeds if and only if the map is empty, and then gives it back |
| `ReceiptsSsz.TruncatedEntryFails` | src/payload.rs:217-222 | an entry cut short by any number of bytes makes decoding panic rather than yield a shorter receipt |
| `ReceiptsSsz.FailureIsFinal` | src/payload.rs:216-227 | a panic part-way through the region is the outcome of the whole decode |
| `ReceiptsSsz.DecodeStep` | src/payload.rs:216-227 | one loop turn extends the pairs read so far by the entry at the cursor |
| `ReceiptsSsz.FromSszBytes` | src/payload.rs:211-230 | the loop computes `Decoded`: the map obtained by inserting the entries in order, or the first panic met; the `Result` is never an error |
| `Ssz.U256AsSszBytes` | src/payload.rs:110 | a balance's SSZ form is 32 bytes, from which it reads back little-endian |
| `Ssz.U256FromSszBytes` | src/payload.rs:142 | exactly 32 bytes decode, little-endian, to the value whose SSZ form they are; other lengths are an error, never a panic |
| `Ssz.U256RoundTrip` | src/payload.rs:110 | a balance's 32-byte SSZ form decodes back to the balance |
| `Payload.FixedPartCounts` | src/payload.rs:79-88 | a fixed part is one 4-byte offset per variable-length field plus the fixed-length fields' bytes |
| `Payload.MetadataLayout` | src/payload.rs:79-88 | both map fields declare themselves variable-length with a 4-byte slot, so the metadata fixed part has the receipts offset at 0, the balances offset at 4 and the block number at 8, 16 bytes in all |
| `Payload.PayloadLayout` | src/payload.rs:63-77 | the payload identifier sits in place in the first 8 bytes, then the index; base, diff and metadata take offsets; 28 bytes in all |
| `Payload.EncodeMetadata` | src/payload.rs:79-88 | the container is 16 bytes then the receipts region (lengths `usizeBytes` wide) and the balances region; the first offset reads as 16, the second as 16 plus the receipts region's length when that fits in 32 bits, and bytes 8-16 as the block number |
| `Payload.DecodeMetadata` | src/payload.rs:79-88 | fewer than 16 bytes is an error; a success means the first offset is 16, the second is between 16 and the length, and each map field is its codec's decoding of its own region, receipts at the given `usize` width |
| `Payload.EncodeMetadataLength` | src/payload.rs:79-88 | the container is 16 bytes plus the receipts region plus 52 bytes per balance |
| `Payload.MetadataRoundTrip` | src/payload.rs:79-88 | with 4-byte receipt lengths on both sides, decoding the container written for a metadata value gives it back, for any iteration orders, when the second offset fits in 32 bits |
| `Payload.MetadataFailsOn64Bit` | src/payload.rs:79-88 | with the 8-byte `usize` of a 64-bit target on both sides, decoding the container written for a metadata value panics in the length conversion as soon as it holds a receipt |
| `Payload.FirstOffsetMustEndFixedPart` | src/payload.rs:79-88 | a first offset other than 16 is an error |
| `HashMaps.IterationRebuildsMap` | src/payload.rs:144 | inserting any iteration of a map into an empty map rebuilds it, and an iteration has one entry per key |
| `HashMaps.MapOfLastWins` | src/payload.rs:226 | inserting pairs in order leaves each key bound to its last value |
| `HashMaps.IterationExists` | src/payload.rs:108 | every map has an iteration order |
| `Buffers.ByteBuf.ExtendFromSlice` | src/payload.rs:109-110 | `extend_from_slice` appends the slice and keeps what was there |
| `Uints.LittleEndianRoundTrip` | src/payload.rs:110 | reading back the little-endian form of a value that fits gives the value |
| `Uints.BigEndianRoundTrip` | src/payload.rs:180 | reading back the big-endian form of a value that fits gives the value |

## Left out

- `serde_json` (the JSON form of a receipt) is outside this model. Serialization is an arbitrary total function `ser`, and deserialization an arbitrary partial function `de`. The round trip assumes only that `de` undoes `ser`, and the `unwrap` on `to_vec` is taken never to fail.
- `src/main.rs` (command line, file I/O, compression, console output, floating-point ratios) and `src/subscriber.rs` (the websocket client) are not part of this model.
- The derived layouts of `ExecutionPayloadBaseV1`, `ExecutionPayloadFlashblockDeltaV1`, `Withdrawal`, `Bloom` and `Option` are not part of this model. Only their effect on the payload's fixed part (one offset each for base, diff and metadata) is modelled.
- The `FlashblocksPayloadV1` container is modelled only as a layout. Its full encoding needs the nested types left out above.
- The hashing and actual iteration order of the hash maps are not modelled. Every iteration order is allowed instead.
- `Payload.DecodeMetadata`: the order in which the container checks produce their `DecodeError`s, and the exact `expected` length reported, follow the SSZ container rules. They are not taken from the `ssz` library's code, which is not part of this model. Only which inputs fail, and what succeeds, is claimed.
- `Payload.MetadataRoundTrip`: the round trip is claimed with 4-byte receipt lengths, the corrected width (see Findings); at the 64-bit width `Payload.MetadataFailsOn64Bit` shows the container panics instead. Offsets at or beyond 2^32 are truncated to their low 32 bits, and the round trip is claimed only below that.
- Receipts decoder: when `usize` is 4 bytes wide (the only width at which the length is read at all), `offset + receipt_json_bytes_len` can exceed `usize::MAX` for a region near 4 GiB. The model uses unbounded integers, so that overflow is not modelled; in a checked build it would panic, as the out-of-range slice does in the model.
- `usize` values written by the encoders (lengths) are not bounded by the model; `ToBigEndian` keeps the low bytes, and the receipts round trip requires each serialized receipt to be shorter than 2^32 bytes.

## Findings

| source | as written | input that shows it | evidently intended | confidence | as-written member | corrected member |
|---|---|---|---|---|---|---|
| src/payload.rs:179-180 | the encoder writes `receipt_json_bytes_len.to_be_bytes()`, 8 bytes on a 64-bit target, while the decoder (src/payload.rs:219-220) reads a 4-byte slice and converts it with `try_into().unwrap()` to `[u8; 8]`, which fails | any map with at least one receipt: its region has ≥ 36 bytes, and decoding panics at the first entry's length conversion | one width on both sides: a 4-byte big-endian length, which is what the decoder reads | not executed | `ReceiptsSsz.RoundTripFailsOn64Bit` | `ReceiptsSsz.RoundTrip` |
| src/payload.rs:219-220 | the same conversion, reached through the derived `FlashblocksMetadata` container, whose receipts field uses this codec | any metadata value with at least one receipt: the container decodes as far as its receipts region, which panics | the container round-trips with the 4-byte length | not executed | `Payload.MetadataFailsOn64Bit` | `Payload.MetadataRoundTrip` |
