# etcd core, modelled in Dafny

This project models four pieces of etcd and proves what they promise:

- **The write-ahead-log record decoder.** It walks a list of WAL segment files front to back. It reads each frame's 8-byte little-endian length field, whose low 56 bits hold the record size and whose top byte flags and holds the padding. It then checks that size against the room left in the file, reads the record and its padding, and unmarshals the record. Unless the record is a checksum record, it feeds the record's data into the running CRC-32C and compares the result. When unmarshalling or the comparison fails in the last segment, it tells a torn write (a whole 512-byte sector piece of zeros) apart from corruption.
- **The simple auth-token provider.** It has two tables:
  - token → user name;
  - token → expiry time, held by the keeper.

  Its operations are assign, invalidate, refresh on lookup, the periodic sweep of expired tokens, and enable/disable. It also checks the shape of a token, `<prefix>.<index>`.
- **Ending a write transaction on the watchable store.** The transaction's changes become PUT/DELETE events at revision `Rev()+1`. Deletions are stamped with that revision. The watchers are notified under the store lock, before the underlying transaction ends.
- **etcdctl's `addHexPrefix`.** It turns a hex string into `\x`-escaped pairs.

Modules:

- `Types`: byte, int64, uint64 and Option.
- `WalFrame`: the length field as little-endian bytes, and the size/padding split.
- `WalCrc`: CRC-32C, computed bit by bit, and how its values chain.
- `WalTorn`: cutting data at sector boundaries.
- `WalDecode`: one `decodeRecord` call, as a function of the decoder's state, plus the lemmas about it. The checksum update is a parameter of these functions, so the decoding rules hold for any checksum; the decoder object passes `WalCrc.Update`.
- `WalDecoder`: the decoder object. Its fields are updated in place, and its methods are proved equal to the `WalDecode` functions.
- `TokenFormat`: `strings.Split`, `strconv.ParseUint` (bit size 0, i.e. the platform's `uint`) and `%d`.
- `SimpleToken`: the keeper and token-provider objects.
- `WatchableStoreTxn`: `End` over the change array.
- `HexPrefix`: `addHexPrefix`.

Outside parts of the system are passed in as parameters rather than modelled:

- The record unmarshaller is a function parameter of the decoder. It returns the record, or nothing on error.
- Time is integer nanoseconds, passed as `now`.
- The wait for a raft index is a predicate `indexReached`. A cancelled wait counts as `false`.
- The watchers' `notify` and the underlying `TxnWrite.End` are recorded as an ordered log of effects.

## Model

| member | source | states |
|---|---|---|
| WalFrame.DecodeFrameSize | server/storage/wal/decoder.go:133-142 | the record size is below 2^56 and equals the length field when that is non-negative and below 2^56; padding lies in 0..7 and is 0 for a non-negative field |
| WalFrame.FrameSizeRoundTrip | server/storage/wal/decoder.go:133-141 | for any size below 2^56 and padding below 8, the writer's field (the bare size without padding, `size \| (0x80\|pad)<<56` with it) splits back into exactly that size and padding; it is negative when padded, and zero only for an empty unpadded frame |
| WalFrame.Int64RoundTrip | server/storage/wal/decoder.go:227-231 | reading eight little-endian bytes gives back the int64 they encode |
| WalFrame.Int64BytesRoundTrip | server/storage/wal/decoder.go:227-231 | any eight bytes are the encoding of the int64 read from them |
| WalFrame.LittleEndianRoundTrip | server/storage/wal/decoder.go:229 | encoding a number below 256^n in n little-endian bytes and reading it back gives that number |
| WalCrc.UpdateConcat | server/storage/wal/decoder.go:117 | writing two byte strings into the checksum one after the other equals writing their concatenation |
| WalCrc.ChainStep | server/storage/wal/decoder.go:116-117 | a checksum equal to the seed fed with some bytes, fed with more bytes, equals the seed fed with all of them |
| WalCrc.UpdateNothing | server/storage/wal/decoder.go:189-198 | a checksum fed nothing keeps its value, so a fresh seed is the sum |
| WalTorn.ChunksPartition | server/storage/wal/decoder.go:156-168 | the sector pieces concatenate back to the data and each holds 1 to 512 bytes |
| WalTorn.ChunksAligned | server/storage/wal/decoder.go:156-168 | every piece after the first starts on a 512-byte file boundary and no piece crosses one |
| WalTorn.SomeChunkZeroIffSectorZero | server/storage/wal/decoder.go:170-183 | some piece is all zeros iff, for some 512-byte sector, the data's bytes falling in it are all zeros |
| WalTorn.TornNeedsOneReaderAndData | server/storage/wal/decoder.go:152-154 | the torn verdict is false unless exactly one reader is left and the data is non-empty |
| WalDecode.DecodeSkipsExhausted | server/storage/wal/decoder.go:72-86 | decoding skips the exhausted front segments, resetting the offset to 0 when it moves past one and more remain, and decodes a frame from the first live one; with none live it yields EOF, no segments, and the offset as it was if the list was empty or had one segment |
| WalDecode.FrameNeverEOF | server/storage/wal/decoder.go:87-107 | a frame read from a live segment never yields plain EOF; a frame cut short (fewer than 8 header bytes, or record and padding running past the data) whose declared size passes the size check yields ErrUnexpectedEOF |
| WalDecode.DecodeShortFrame | server/storage/wal/decoder.go:87-106 | when the first live segment's frame is cut short and its declared size passes the size check, `decodeRecord` returns ErrUnexpectedEOF |
| WalDecode.DecodeEOFIffExhausted | server/storage/wal/decoder.go:72-86 | EOF is returned iff every segment is exhausted, and then no segment is left and the checksum is untouched |
| WalDecode.DecodeOffset | server/storage/wal/decoder.go:84-127 | every error leaves the offset where the segment skipping put it; a decoded record advances it by exactly 8 + record size + padding and moves that segment's cursor past the frame |
| WalDecode.DecodeSizeLimit | server/storage/wal/decoder.go:91-97 | the size-limit error occurs iff the record size exceeds file size − offset − padding; then the offset, checksum and remaining segments are untouched beyond the 8 header bytes |
| WalDecode.DecodeChecksum | server/storage/wal/decoder.go:115-124 | for a checksum that keeps its value when fed nothing, the new checksum is the old one fed with exactly the bytes this call wrote; a decoded non-checksum record wrote its data and carries that checksum, a checksum record wrote nothing |
| WalDecode.DecodeTornOnlyInLastSegment | server/storage/wal/decoder.go:108-124 | with two or more segments left, ErrUnexpectedEOF only comes from a short frame: the torn verdict never applies there |
| WalDecode.DecodeUnmarshalFailure | server/storage/wal/decoder.go:108-113 | after a full read, a record that does not unmarshal gives ErrUnexpectedEOF when the frame's bytes are torn and the unmarshal error otherwise |
| WalDecode.DecodeCRCMismatch | server/storage/wal/decoder.go:115-123 | after a full read, a non-checksum record that unmarshals but whose checksum differs from the running one gives ErrUnexpectedEOF when the frame's bytes are torn and the CRC mismatch otherwise; the running checksum has already absorbed the record's data and the offset is not advanced |
| WalDecode.DecodeKeepsSync | server/storage/wal/decoder.go:125-127 | after a decoded record the front cursor equals the offset and later segments are unread, so the offset marks the end of a whole valid frame |
| WalDecode.DecodeWrittenFrame | server/storage/wal/decoder.go:71-128 | a frame laid out as the writer lays it (header flagged only when padded, record, padding; not both empty) decodes to the record its bytes unmarshal to, with the offset moved past the frame |
| WalDecoder.Decoder.constructor | server/storage/wal/decoder.go:45-54 | one unread reader per file in order, offset 0, checksum seeded with 0 |
| WalDecoder.Decoder.IsTornEntry | server/storage/wal/decoder.go:151-184 | the loop's answer is the torn-write predicate: one reader left and some sector piece all zeros |
| WalDecoder.Decoder.DecodeRecord | server/storage/wal/decoder.go:71-128 | result, readers, offset and checksum are exactly those of the decode function with CRC-32C as the checksum, so every WalDecode lemma holds of the object; the checksum stays the seed fed with every byte written |
| WalDecoder.SplitOnSectors | server/storage/wal/decoder.go:156-168 | the loop's pieces are exactly the sector pieces of the data, counted from the given file offset |
| WalDecoder.IsAllZero | server/storage/wal/decoder.go:172-179 | the scan answers true iff every byte of the piece is zero |
| WalDecoder.Decoder.ReadFrame | server/storage/wal/decoder.go:91-107 | the size check and payload read agree with the decode function's frame stage |
| WalDecoder.Decoder.CheckRecord | server/storage/wal/decoder.go:108-127 | unmarshal, checksum and offset update agree with the decode function's record stage |
| WalDecoder.Decoder.UpdateCRC | server/storage/wal/decoder.go:189-191 | the checksum is reseeded with the given value; readers and offset untouched |
| WalDecoder.Decoder.LastCRC | server/storage/wal/decoder.go:196-198 | the result is the last seed fed with every record payload written since |
| WalDecoder.Decoder.LastOffset | server/storage/wal/decoder.go:203 | the result is the offset, which in the normal state is the front reader's cursor |
| TokenFormat.Split | server/auth/simple_token.go:268 | the pieces are one more than the separators, contain no separator, and join back to the input |
| TokenFormat.SplitOneSeparator | server/auth/simple_token.go:268-271 | two dot-free strings around one dot split into exactly those two |
| TokenFormat.ParseUint64 | server/auth/simple_token.go:272-275 | parsing succeeds iff the string is non-empty, all decimal digits, and its value is below 2^64 |
| TokenFormat.ParseFormatted | server/auth/simple_token.go:258-275 | parsing the `%d` form of any uint64 gives it back |
| TokenFormat.DecimalString | server/auth/simple_token.go:258 | `%d` output is non-empty, all digits, dot-free, with no leading zero |
| TokenFormat.TokenIndex | server/auth/simple_token.go:267-275 | a token carries an index only if it holds exactly one dot |
| TokenFormat.IsValidSimpleToken | server/auth/simple_token.go:267-284 | valid iff the token splits into two pieces whose second parses as a uint64 and that index is reached |
| TokenFormat.AssignedTokenIndex | server/auth/simple_token.go:250-284 | a token `assign` builds from a dot-free prefix carries its index back, so it is valid exactly when the index is reached |
| TokenFormat.DottedPrefixInvalid | server/auth/simple_token.go:258-271 | a prefix holding a dot never yields a valid token |
| SimpleToken.SweptKeepsLive | server/auth/simple_token.go:101-108 | a tick keeps exactly the tokens expiring at or after now, with their expiries unchanged |
| SimpleToken.SweepTwice | server/auth/simple_token.go:98-108 | two ticks remove what the later one alone removes |
| SimpleToken.FreshTokenSurvives | server/auth/simple_token.go:69-80 | a token given expiry now + TTL survives every tick up to that time |
| SimpleToken.WithoutUser | server/auth/simple_token.go:169-181 | once a user's tokens are removed, none maps to that user and every other token keeps its owner |
| SimpleToken.TTLKeeper.AddSimpleToken | server/auth/simple_token.go:69-71 | the token's expiry becomes now + TTL; other entries untouched |
| SimpleToken.TTLKeeper.ResetSimpleToken | server/auth/simple_token.go:76-80 | an existing token's expiry becomes now + TTL; an unknown token is not added |
| SimpleToken.TTLKeeper.DeleteSimpleToken | server/auth/simple_token.go:85-87 | exactly that token is removed |
| SimpleToken.TTLKeeper.constructor | server/auth/simple_token.go:206-213 | a keeper starts with no tokens and the provider's TTL |
| SimpleToken.TokenSimple.constructor | server/auth/simple_token.go:286-296 | a provider starts disabled with no tokens and the given TTL |
| SimpleToken.TokenSimple.Enable | server/auth/simple_token.go:186-215 | no change when already enabled; otherwise a non-positive TTL becomes 300 s and a fresh empty keeper is installed; the keeper then times exactly the assigned tokens |
| SimpleToken.TokenSimple.Disable | server/auth/simple_token.go:220-229 | the keeper is gone and no token is assigned |
| SimpleToken.TokenSimple.AssignSimpleTokenToUser | server/auth/simple_token.go:146-164 | nothing while disabled; the panic case for a token in use changes nothing; otherwise the token maps to the user and expires at now + TTL; the TTL is unchanged |
| SimpleToken.TokenSimple.Assign | server/auth/simple_token.go:250-262 | the token handed out is `<prefix>.<index>`; it is assigned to the user and timed at now + TTL unless the provider is disabled or the token is already in use, in which case nothing changes; the TTL is unchanged |
| SimpleToken.TokenSimple.InvalidateUser | server/auth/simple_token.go:169-181 | both tables lose exactly the user's tokens; nothing changes while disabled; the TTL is unchanged |
| SimpleToken.TokenSimple.Info | server/auth/simple_token.go:234-245 | nothing for an invalid token; otherwise the owner (or an empty name and false) with the revision, and a known token's expiry is pushed to now + TTL |
| SimpleToken.TokenSimple.Sweep | server/auth/simple_token.go:98-109 | one tick: the keeper keeps exactly the unexpired tokens and the name table loses the expired ones; the tables keep the same tokens; the TTL is unchanged |
| WatchableStoreTxn.NextRev | server/storage/mvcc/watchable_store_txn.go:35 | the event revision is `Rev() + 1`, wrapping as Go's int64 does |
| WatchableStoreTxn.EventsMatchChanges | server/storage/mvcc/watchable_store_txn.go:36-45 | one event per change, in order: a DELETE carrying the new revision for a change with no creation revision, otherwise a PUT carrying the change untouched |
| WatchableStoreTxn.EventKeysAndRevisions | server/storage/mvcc/watchable_store_txn.go:36-45 | every event has its change's key and every DELETE event is dated at the new revision |
| WatchableStoreTxn.WatchableStoreTxnWrite.End | server/storage/mvcc/watchable_store_txn.go:26-53 | without changes only the underlying End runs; otherwise lock, one notify of those events at `Rev()+1`, underlying End, unlock, in that order, with deletions stamped in the change array |
| HexPrefix.HexPrefixed | etcdctl/ctlv3/command/util.go:49 | the output is twice as long as the input |
| HexPrefix.HexGroups | etcdctl/ctlv3/command/util.go:50-55 | output characters 4j..4j+3 are `\`, `x`, input 2j and input 2j+1 |
| HexPrefix.StripAfterPrefix | etcdctl/ctlv3/command/util.go:48-57 | dropping every `\x` from the output gives back the input |
| HexPrefix.PrefixAfterStrip | etcdctl/ctlv3/command/util.go:48-57 | every string made of `\x`-led groups of four is the output for what those groups enclose |
| HexPrefix.AddHexPrefix | etcdctl/ctlv3/command/util.go:48-57 | the buffer filled by the stride-2 loop is the escaped form of the input |

## Left out

- Mutexes are not modelled: `decoder.mu`, `simpleTokensMu` and the watchable store's `mu`. The store lock appears only as Lock/Unlock entries in the effect log of `End`.
- The keeper goroutine's ticker/select loop and `stop`'s channel handshake are not modelled. One tick of the loop is `TokenSimple.Sweep`, taking the time as a parameter.
- `decode` is not modelled separately. It only resets the output record and takes the lock around `decodeRecord`; the model returns a fresh outcome instead.
- The CRC table and `crc.New` are defined outside these files. The checksum is modelled as the reflected Castagnoli CRC-32 computed bit by bit. The byte-at-a-time table lookup computes the same function, but that equivalence is not proved.
- `rec.Unmarshal` is a parameter of the decoder: a protobuf decoder the model does not contain. `rec.Validate` is modelled as its checksum comparison.
- `mustUnmarshalEntry` and `mustUnmarshalState` are protobuf decoding of raft types and are not part of this model.
- File I/O is not modelled. Each reader is its segment's bytes plus a cursor, and the file size is the number of bytes. Readers are values owned by the decoder, so no sharing of a reader with other code is modelled.
- The decoder's offset is an unbounded natural. Go's int64 overflow of `lastValidOff` is not modelled; it would need a file over 2^63 bytes.
- `crcType` is 4, from the record-type list in wal.go. wal.go is not part of this model.
- `genTokenPrefix` (crypto/rand) is not modelled. The prefix is a parameter of `Assign`.
- `assign`'s `context.Value` lookups are not modelled, and neither is their failure path. The index and the prefix are parameters.
- `isValidSimpleToken`'s index wait is not modelled. `indexWaiter`/`ctx.Done()` becomes the predicate `indexReached`.
- zap logging is not modelled. The panic for a reused token is the `AlreadyAssigned` outcome, with the state unchanged.
- The rest of etcdctl's util.go is not modelled: `printKV`, `Argify`, `commandCtx`, `isCommandTimeoutFlagSet`, `endpointMemoryMetrics`, `compact` and `defrag`. They are output, regexp, CLI and RPC plumbing.
- server/storage/backend/hooks.go is not modelled. It only wraps a function value.
- server/proxy/tcpproxy/userspace_test.go is not modelled. It holds network tests.
- The watchable store's `notify` and the underlying `TxnWrite.End` are not modelled. They appear only as entries in the effect log.
- HexPrefix.AddHexPrefix: requires an even-length input. Its callers pass hex-encoder output; on odd input Go would index past the buffer and panic.
- TokenFormat.ParseUint64: takes Go's `uint` to be 64 bits wide. `strconv.ParseUint` with bit size 0 uses the platform's `uint`, so on a 32-bit platform indices of 2^32 or more would be refused.
- WatchableStoreTxn.WatchableStoreTxnWrite.End: each event holds a copy of its change. In Go the event's `Kv` points into the change slice, so a later write through either one is seen by the other; the model captures the state at the end of `End`, where both agree, but not that sharing.
- Go strings and byte slices are modelled as sequences of characters or of bytes. No text encoding is modelled.
