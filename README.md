# Hi Happy Garden protocol: the frame codec and the Aggregation serializer

This project models the core of the Hi Happy Garden wire protocol in Dafny and proves properties of the model.

- **Packages.** A package (Aggregation, Data, Finish, Station, Error, Synchro) is serialized to bytes.
- **Frames.** Those bytes are cut into frames ("heads"). Each frame carries at most HEAD_MAX_PAYLOAD_SIZE payload bytes.
- **Wire form.** Each frame is written as `[ (version << 7) | flags, id, length, payload…, crcLow, crcHigh ]`. The CRC-16 covers the first `3 + length` bytes.
- **Sentinel.** When a message needs more than one frame and the last one lacks FIN, the encoder appends a FIN sentinel frame. That frame is taken from the nested encoding of a default Finish package.
- **Decoding.** `decode` reads a frame back and rejects a checksum mismatch.
- **Id rewrite.** `updateIdToBufferEncoded` rewrites an encoded buffer in place.

Modules:

- `Constants`: byte, `uint16_t`, HEAD_MAX_PAYLOAD_SIZE, HEAD_MAX_PARTIAL and the flag values. The headers that give these their values are not part of this model. Each constant is declared with only its type's bounds, so every proof holds for every choice of values.
- `Bits`: `|` and `&` on bytes, defined bit by bit, with the facts the encoder and decoder rely on.
- `Checksum`: the CRC-16/ARC function of the checksum library. The codec uses it only as one fixed function of the bytes.
- `Codec`: the frame value `Head`, its wire form, the per-frame loop of `encode`, `decode`, and the id rewrite.
- `AggregationPackage`: `Aggregation::serialize()` as the cursor-writing method it is, plus its field layout.
- `Fragments`: the recursion of `encodeDataToHeads` and the nested `encodeStart` of the sentinel, as functions (`Level`, `Close`). It also has a flat description of the same result (`Chunks` followed by one end-of-message check), and the lemmas about what an encoding contains.
- `Protocol`: the encoder as the code runs it. `DataTransport` and the frame vector are objects that the recursive methods update. Each method is proved to return what `Fragments` describes.

## Model

| member | source | states |
|---|---|---|
| Bits.VersionAndFlags | src/protocol.cpp:142 | for version ≤ 1 and flags < 0x80, `(version << 7) \| flags` is `version*128 + flags`, and the decoder's masks 0x7F and 0x80 take that byte apart into the same flags and version |
| Checksum.Crc16 | src/protocol.cpp:155-159 | the checksum is CRC-16/ARC computed over the given bytes; over no bytes it is the initial value 0 |
| Codec.HeaderByte | src/protocol.cpp:142 | byte 0 is `(version << 7) \| flags`; for version ≤ 1 and flags < 0x80 that is `version*128 + flags` |
| Codec.WireBytes | src/protocol.cpp:134-163 | a frame's wire form is 5 + length bytes: header byte, id, length, payload, then the CRC of the first 3 + length bytes, low byte first |
| Codec.EncodeHead | src/protocol.cpp:134-165 | the per-frame body of `encode` (zero-filled buffer, header bytes, payload copy loop, CRC) returns exactly `WireBytes` of the frame |
| Codec.WriteCovered | src/protocol.cpp:142-151 | after the header writes and the copy loop, the first 3 + length bytes of the buffer are the header, id, length and payload |
| Codec.Decode | src/protocol.cpp:336-388 | decode succeeds iff the CRC of the first length + 3 bytes equals the received CRC `(data[n+4] << 8) \| data[n+3]`; the only failure is a CRC mismatch, because the version and flags range checks cannot fire; on success the fields are the masked version and flags, id, length and the payload bytes |
| Codec.ReceivedCrcBytes | src/protocol.cpp:374-375 | the received checksum `(data[n+4] << 8) \| data[n+3]` equals a value iff byte n+3 is its low byte and byte n+4 its high byte |
| Codec.DecodeWireBytes | src/protocol.cpp:336-388 | round trip: decoding the wire form of any well-formed frame with version ≤ 1 and flags < 0x80 gives that frame back |
| Codec.WireHeader | src/protocol.cpp:142-144 | the first three wire bytes are `version*128 + flags`, id and length |
| Codec.WireCrc | src/protocol.cpp:374-379 | the CRC a receiver reads from a wire form equals the CRC it computes over the first length + 3 bytes |
| Codec.DecodeAccepts | src/protocol.cpp:336-388 | a buffer whose fields spell out a frame and whose CRC matches decodes to exactly that frame |
| Codec.Restamped | src/protocol.cpp:394-397 | re-stamping keeps every byte but the last two and writes the CRC of those bytes there, low byte first |
| Codec.UpdateIdToBufferEncoded | src/protocol.cpp:390-398 | as written: byte 2 takes the new id, the last two bytes are the CRC of all the others, and no other byte changes |
| Codec.StampByte | src/protocol.cpp:390-398 | setting one byte and re-stamping leaves the buffer equal to `WithByte` of the old contents |
| Codec.WithByteEffects | src/protocol.cpp:390-398 | `WithByte` keeps the length, sets exactly the given byte, keeps every other byte before the CRC, and ends with the CRC of the rest |
| Codec.UpdateIdHitsLengthByte | src/protocol.cpp:390-398 | after the rewrite as written, byte 1 still holds the old id and the length field holds the new id. A new id larger than the payload points the length past the buffer. Any decode that still passes reports the old id |
| Codec.UpdateIdExample | test/protocoltest.cpp:246-262 | a frame with id 0 and a 128-byte payload, rewritten to 37, never decodes with id 37; a passing decode reads a 37-byte payload |
| Codec.RewriteId | src/protocol.cpp:390-398 | the intended rewrite: byte 1 takes the new id, the CRC is re-stamped, nothing else before the CRC changes |
| Codec.RewriteIdReencodes | src/protocol.cpp:390-398 | the intended rewrite of any buffer that spells out a frame, whatever its old id and its last two bytes, is exactly the wire form of the same frame with the new id |
| Codec.RewriteIdDecodes | src/protocol.cpp:390-398 | so the rewritten buffer decodes to the frame with the new id |
| AggregationPackage.Capped | src/packages/aggregation.cpp:51-57 | a string contributes its size, capped at 255 bytes, and never more than its size |
| AggregationPackage.Aggregation.AllocSize | src/packages/aggregation.cpp:48-78 | the allocation is four single bytes (id and three size bytes) plus the three string sizes and the bool, bool, Schedule, uint16_t and Status widths; with one-byte size fields the 255-byte cap never shortens a string |
| AggregationPackage.Aggregation.Serialize | src/packages/aggregation.cpp:43-145 | the buffer is allocated at the summed field widths and filled exactly: it is `Layout` of the package; the returned size is the allocation minus the status width |
| AggregationPackage.Aggregation.WriteFront | src/packages/aggregation.cpp:89-109 | from the start of the buffer: id, the description field, manual and schedule, with the cursor after them |
| AggregationPackage.Aggregation.WriteWindow | src/packages/aggregation.cpp:110-137 | the start and end string fields follow what is already written, with the cursor after them |
| AggregationPackage.Aggregation.WriteBack | src/packages/aggregation.cpp:138-144 | sequential, weight and status follow; the returned cursor stops before the status block |
| AggregationPackage.Aggregation.FromBuffer | src/packages/aggregation.cpp:147-150 | the deserializing overload returns nothing for every buffer |
| AggregationPackage.Layout | src/packages/aggregation.cpp:89-142 | the serialized form has exactly the allocated size |
| AggregationPackage.StringField | src/packages/aggregation.cpp:92-105 | a string field is its size byte followed by the first `Capped(size)` bytes of the string |
| AggregationPackage.WriteString | src/packages/aggregation.cpp:92-105 | writing a size byte and, when it is non-zero, the capped string bytes appends `StringField` and advances the cursor by its length |
| AggregationPackage.CopyInto | src/packages/aggregation.cpp:90 | a byte-wise memcpy appends the source bytes after the bytes already written |
| AggregationPackage.LayoutFieldOffsets | src/packages/aggregation.cpp:89-142 | each field sits at the offset where the previous one ends, in the order id, description, manual, schedule, start, end, sequential, weight, status, and status ends the buffer |
| Fragments.Serialized | src/protocol.cpp:209-212 | the length `serialize()` reports never exceeds its buffer |
| Fragments.Tag | src/protocol.cpp:185-204 | each package type gets its own tag; a Finish package's tag has the FIN bit |
| Fragments.BaseFlags | src/protocol.cpp:185-202 | `tag \| additionalFags` has every bit of the tag and every bit of the extra flags |
| Fragments.Encoded | src/protocol.cpp:173-217 | a successful `encodeStart` returns at least one frame; the first carries the package's type tag, and every frame is version 0, id 0, well formed and at most HEAD_MAX_PAYLOAD_SIZE bytes |
| Fragments.TransportLength | src/protocol.cpp:212 | the length stored in the `uint16_t` field is below 65536 and within the buffer |
| Fragments.Frame | src/protocol.cpp:295-332 | a frame built by `newHead` has version 0, id 0, the given flags and payload, and a length field equal to the payload length |
| Fragments.Chunks | src/protocol.cpp:219-262 | cutting fails only with PartialLimitExceeded; on success there is at least one frame, and the last carries the deepest level's flags |
| Fragments.SentinelFlags | src/protocol.cpp:272-280 | the sentinel keeps ACK when the level has ACK and PRT when it has PRT, is NOT_SET when it has neither, and stays inside seven bits |
| Fragments.Close | src/protocol.cpp:264-289 | the end-of-message check keeps the existing frames in front and leaves a vector that needs no further sentinel |
| Fragments.Level | src/protocol.cpp:219-292 | one `encodeDataToHeads` call adds at least one frame, keeps the first frame, leaves no pending sentinel, and a top-level call's first frame carries the level's flags (plus PRT) |
| Fragments.Message | src/protocol.cpp:116-122 | a successful `encodeRecursive` returns at least one frame and needs no sentinel |
| Fragments.LevelIsChunks | src/protocol.cpp:219-292 | the recursion as written equals the flat cut followed by one end-of-message check with the deepest level's flags |
| Fragments.LevelPassesThrough | src/protocol.cpp:235-289 | a level that cuts a full-size chunk returns what the level below returns: its own check adds nothing |
| Fragments.CutStep | src/protocol.cpp:243-260 | cutting one full-size chunk moves it from the chunks to the frames already pushed |
| Fragments.CloseKeepsClosed | src/protocol.cpp:264 | a vector of one frame, or whose last frame has FIN, is left as it is |
| Fragments.CutsDivide | src/protocol.cpp:225-257 | the number of full-size chunks and the remainder length are the quotient and remainder of the length by HEAD_MAX_PAYLOAD_SIZE |
| Fragments.Remainder | src/protocol.cpp:225-257 | the last chunk is shorter than HEAD_MAX_PAYLOAD_SIZE, and fits behind a full chunk when one was cut |
| Fragments.ChunksCount | src/protocol.cpp:225-260 | the cut has one frame per full-size chunk plus one for the remainder |
| Fragments.ChunksFull | src/protocol.cpp:243-251 | every frame but the last is the first HEAD_MAX_PAYLOAD_SIZE bytes of the buffer, flagged with PRT |
| Fragments.ChunksLast | src/protocol.cpp:225-257 | the last frame is the remainder, read at offset 0 when nothing was cut and at HEAD_MAX_PAYLOAD_SIZE otherwise, flagged PRT once a chunk was cut |
| Fragments.ChunksFirst | src/protocol.cpp:225-251 | the first frame is the whole short length, or a full-size PRT chunk |
| Fragments.ChunksEmitted | src/protocol.cpp:295-332 | every cut frame is well formed, version 0, id 0, at most HEAD_MAX_PAYLOAD_SIZE bytes, and carries the level's flags with or without PRT |
| Fragments.ChunksFailure | src/protocol.cpp:238-241 | the cut fails iff some level must cut a full-size chunk while HEAD_MAX_PARTIAL frames already exist |
| Fragments.TooManyPartialsBound | src/protocol.cpp:238-241 | that happens iff the number of full-size chunks plus the frames already there exceeds HEAD_MAX_PARTIAL |
| Fragments.FinishFrame | src/protocol.cpp:281-286 | the sentinel frame is an emitted frame |
| Fragments.SentinelFrame | src/protocol.cpp:281-286 | the nested Finish encoding fails iff its own cut hits HEAD_MAX_PARTIAL, always with PartialLimitExceeded; otherwise its first frame is the Finish bytes flagged FIN with the inherited ACK/PRT, plus PRT when they fill a frame |
| Fragments.SentinelPartFlags | src/protocol.cpp:272-286 | the sentinel an encoding ends with has the FIN and PRT bits set, and the ACK bit whenever the base flags have it |
| Fragments.CloseShape | src/protocol.cpp:264-289 | closed form of the check: a vector needing a sentinel gets `FinishFrame` of the level's ACK/PRT bits, or fails when the Finish encoding hits the limit; any other vector is kept |
| Fragments.MessageFrames | src/protocol.cpp:219-292 | a successful encoding is the cut frames followed by the sentinel exactly when a full chunk was cut and the PRT-extended flags lack FIN |
| Fragments.MessageFailure | src/protocol.cpp:238-289 | an encoding fails iff its cut hits HEAD_MAX_PARTIAL, or it needs a sentinel and the Finish cut hits it; the error is always PartialLimitExceeded |
| Fragments.FailsOnBound | src/protocol.cpp:238-241 | the failure condition in terms of chunk counts: more than HEAD_MAX_PARTIAL full-size chunks in the payload, or a needed sentinel whose Finish bytes hold more |
| Fragments.MessageSingleFrame | src/protocol.cpp:225-234 | a length below HEAD_MAX_PAYLOAD_SIZE gives exactly one frame with the base flags and the whole payload |
| Fragments.MessageLong | src/protocol.cpp:235-289 | a longer encoding has `Cuts + 1` frames plus the sentinel part: full-size PRT chunks of the buffer's start, then the remainder from offset HEAD_MAX_PAYLOAD_SIZE, flagged PRT |
| Fragments.MessageExactMax | src/protocol.cpp:225-260 | a length of exactly HEAD_MAX_PAYLOAD_SIZE gives a full frame and then an empty PRT frame |
| Fragments.MessageEmitted | src/protocol.cpp:295-332 | every frame of an encoding, the sentinel included, is version 0, id 0, well formed and at most HEAD_MAX_PAYLOAD_SIZE bytes |
| Fragments.MessageFlagsBelow80 | src/protocol.cpp:248 | flags inside seven bits stay inside seven bits in every frame, the PRT-extended and sentinel flags included |
| Fragments.MessageDecodes | src/protocol.cpp:336-388 | every frame of an encoding with seven-bit flags decodes from its wire form back to itself |
| Fragments.BaseFlagsBelow80 | src/protocol.cpp:185-202 | a type tag ORed with seven-bit extra flags stays inside seven bits |
| Fragments.TwoFragmentsReassemble | src/protocol.cpp:243-257 | for HEAD_MAX_PAYLOAD_SIZE ≤ length < 2·HEAD_MAX_PAYLOAD_SIZE, the first two frames' payloads joined are the serialized bytes |
| Fragments.RepeatedFirstChunk | src/protocol.cpp:246 | from length 2·HEAD_MAX_PAYLOAD_SIZE on, the second frame repeats the first chunk of the buffer |
| Fragments.SecondChunkLost | src/protocol.cpp:246 | a buffer whose second chunk differs from its first is not sent: frame 1 does not carry bytes HEAD_MAX_PAYLOAD_SIZE..2·HEAD_MAX_PAYLOAD_SIZE |
| Fragments.IntendedChunks | src/protocol.cpp:243-257 | the corrected cut, read at a running offset, fails only with PartialLimitExceeded, and on success has one frame per full-size chunk plus one for the remainder |
| Fragments.IntendedChunksReassemble | src/protocol.cpp:243-257 | the cut read at the running offset reassembles: the payloads joined are exactly the bytes cut |
| Fragments.IntendedChunksFailure | src/protocol.cpp:238-241 | that cut fails exactly where the cut as written does |
| Fragments.ChunksAsIntendedWhenShort | src/protocol.cpp:243-257 | below 2·HEAD_MAX_PAYLOAD_SIZE the cut as written equals the running-offset cut |
| Protocol.DataTransport.constructor | src/protocol.cpp:55-76 | a fresh transport has an empty payload, pointer 0, length 0 and NOT_SET flags |
| Protocol.NewHead | src/protocol.cpp:295-332 | fails with PayloadLengthExceed iff the length exceeds HEAD_MAX_PAYLOAD_SIZE; otherwise it returns the frame of the transport's flags and the `length` bytes at its pointer, copied into a zero-filled payload |
| Protocol.EncodeDataToHeads | src/protocol.cpp:219-292 | returns `Level` of the initial vector and transport, leaves that result in the vector on success, and does not change the transport's payload, length or flags |
| Protocol.EncodeShort | src/protocol.cpp:225-234 | the short branch followed by the end-of-message check returns `Level` of the initial state |
| Protocol.EncodeLong | src/protocol.cpp:235-261 | the long branch returns `Level` of the initial state |
| Protocol.PushRemainder | src/protocol.cpp:225-234 | appends one frame of the remaining length, read at offset 0 for an empty vector and at the pointer otherwise |
| Protocol.PushFullChunk | src/protocol.cpp:243-257 | appends the first HEAD_MAX_PAYLOAD_SIZE bytes of the buffer with PRT added, and returns a fresh transport at offset HEAD_MAX_PAYLOAD_SIZE with the length reduced by as much |
| Protocol.CloseMessage | src/protocol.cpp:264-289 | returns `Close` of the vector, and leaves it in the vector on success |
| Protocol.EncodeRecursive | src/protocol.cpp:116-122 | returns `Message` of the transport's payload, length and flags |
| Protocol.EncodeStart | src/protocol.cpp:173-217 | a null package fails with NullPackage; any other returns `Encoded` of it: type tag ORed with the extra flags, serialized bytes, `uint16_t` length |
| Protocol.SerializePackage | src/protocol.cpp:209-212 | returns the buffer and length of `Serialized` |
| Protocol.Encode | src/protocol.cpp:124-169 | fails iff `encodeStart` fails, with NullPackage or PartialLimitExceeded; otherwise returns one wire buffer per frame, in order, each `WireBytes` of its frame |

## Left out

- Memory allocation failures (`new(nothrow)` returning null) are not modelled. Neither are the `runtime_error` exceptions they raise; the other exceptions are modelled as `Err` results.
- The package class test of `encodeStart` ("class not child of Package") is not modelled: `Package` is a closed datatype of the six kinds.
- Only the Aggregation serializer is part of this model. Data, Finish, Station, Error and Synchro packages are represented by the bytes their own `serialize()` returns. `DefaultFinishBytes`, the serialization of a default Finish package, is a constant without a value.
- The values of HEAD_MAX_PAYLOAD_SIZE, HEAD_MAX_PARTIAL and the flag constants are not part of this model. Each is declared with only its type's bounds: a payload bound in 1..255, flag values non-zero inside seven bits. Facts that depend on the flags being distinct bits are not proved, e.g. the exact flags expected by the multi-frame tests.
- The CRC library's internals are given as the CRC-16/ARC definition; no property of the CRC beyond being a function of the bytes is used.
- The host byte representations of `bool`, `Schedule`, `uint16_t` and `Status` in the Aggregation buffer are opaque byte blocks of fixed width.
- The encoder's flags are bytes combined with `Bits.Or` and `Bits.And`, bit-by-bit definitions of `|` and `&`. Dafny's bit-vector operators are not used for them.
- Reassembly of a whole message by a receiver is not part of the source. Beyond the two-fragment case and the corrected cut, no reassembly property is proved.
- Codec.Decode: the input is a raw pointer in the source. The model requires the buffer to hold the length byte's count plus five bytes, since reading past it is undefined behaviour, not an error path.
- Protocol.NewHead: likewise requires the transport's pointer plus length to lie inside the buffer when the length passes the check, since `memcpy` from outside it is undefined.
- AggregationPackage.Aggregation.AllocSize: the size fields `descriptionSize`, `startSize` and `endSize` are taken as `uint8_t`, following the `static_cast<uint8_t>` and the one-byte copies of them at src/packages/aggregation.cpp:92, 110 and 124. Their declared types are in a header that is not part of this model. So the 255-byte cap never fires, and `sizeof(endSize)` is 1.
- Fragments.SentinelPartFlags: states that the sentinel has ACK when the base flags have it, but not the converse. The converse needs ACK, FIN and PRT to be distinct bits, and their values are not part of this model.
- Protocol.CloseMessage: requires that a vector needing a sentinel comes from a level whose flags lack FIN; `Fragments.Close` carries the same condition. The source does not state it. Every call in the encoder meets it, because the last frame carries the calling level's flags. It is what makes the recursion through the nested Finish encoding terminate.
- Protocol.EncodeShort, Protocol.EncodeLong, Protocol.PushRemainder, Protocol.PushFullChunk: these split `encodeDataToHeads` into its branches, so that each proof stays small. The statements run in the source's order.
- Codec.WriteCovered and the `Write*` methods of the Aggregation serializer split one source function into consecutive stretches in the same way.
- Zero-filling before the copies (`memset`) is modelled as allocation with zeros. Every byte is then overwritten, so the results never show it.

## Findings

| source | as written | input that shows it | evidently intended | confidence | as-written member | corrected member |
|---|---|---|---|---|---|---|
| src/protocol.cpp:246 | every full-size chunk is copied from the start of the serialized buffer (`dataLocal.payloadPtr = dataLocal.payload`), so once the length L reaches 2·HEAD_MAX_PAYLOAD_SIZE, frame 1 repeats frame 0. The frames carry only bytes 0..HEAD_MAX_PAYLOAD_SIZE and then the remainder from HEAD_MAX_PAYLOAD_SIZE. Bytes HEAD_MAX_PAYLOAD_SIZE + (L mod HEAD_MAX_PAYLOAD_SIZE)..L are never sent | a serialized length of at least 2·HEAD_MAX_PAYLOAD_SIZE whose second chunk differs from its first, encoded without hitting HEAD_MAX_PARTIAL | chunk k is read at offset k·HEAD_MAX_PAYLOAD_SIZE, so that the payloads joined are the serialized bytes | high (not executed) | Fragments.SecondChunkLost | Fragments.IntendedChunksReassemble |
| src/protocol.cpp:392 | `updateIdToBufferEncoded` writes the new id into byte 2, the length field, and leaves byte 1, the id field, unchanged | the frame of the id test (id 0, a payload longer than 37 bytes) rewritten to id 37: byte 1 stays 0, so no successful decode reports id 37 | the id is written into byte 1 and the CRC re-stamped, so the buffer is the wire form of the same frame with the new id | high (not executed) | Codec.UpdateIdHitsLengthByte | Codec.RewriteIdDecodes |

The encoder methods in `Protocol` follow the code as written, including the chunk offsets, and `Codec.UpdateIdToBufferEncoded` writes byte 2 as the code does. The corrected definitions (`Fragments.IntendedChunks`, `Codec.RewriteId`) stand beside them, with their intended properties proved.
