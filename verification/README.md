# Model of the stream, CBOR, PEM and COSE packages

This project models four packages of a Go cryptography library and proves what they promise.

**STREAM** (`stream/stream.go`) encrypts a message in 64 KiB chunks. One function, `Enc`, says what the encryption of a
message is, and one, `Dec`, what a reader makes of any source; they are proved to be inverse to each other. The four
stateful objects are classes with the fields of the original, proved against these functions: a writer that flushes
lazily, a reader that encrypts in place over its own over-read byte, a reader that streams, and one with random access
and a cache. Concurrent calls on the last one are a state machine over a shared heap. The AEAD is a pair of functions;
`Sized`, `Ideal` and `OpensOnly` are the three contracts that theorems assume of it, and `AeadModel.IdealExists` and
`StreamFormat.OpensOnlyExists` show that they can be met.

**CBOR** (`cbor/cbor.go`, `cbor/reflect.go`) is a restricted deterministic encoding. Item trees and their one encoding are
the reference; the walkers, the cursor and the encoder are classes and methods proved against it. Go types are schemas
and Go values are values of a schema.

**PEM** (`pem/pem.go`) is a strict parser, proved to accept exactly a grammar, and a printer with a loop.

**COSE** (`cose/cose.go`) nests canonical CBOR in signed and encrypted envelopes. Keys, signatures and HPKE are abstract
functions, correct in some theorems and ideal in others; random numbers and the current time are parameters.

Files: `Base`, `BigEndian`, `Aead`, `Utf8`, `ByteSearch` and `Base64` are shared; then `Nonce`, `Stream*`, `Encrypt*`,
`Decrypt*`, `RandomAccess*` and `SharedCache*`; `Cbor*`; `Pem*`; `Cose*`. Check everything with
`dafny verify dfyconfig.toml`.

## Findings

- `EncryptedChunkCount` gives no error on most negative sizes and on nearly all sizes within 65551 of the end of int64.
  `StreamSizes.CountIsRightExactly` says for which sizes its answer is right.
- `NewDecryptReaderAt` panics, in `make` with a negative length, on many of those negative sizes and on all but 34 of the
  65551 sizes at the end of int64. `StreamSizes.PanicsExactly` has the exact condition.
- `NewDecryptReaderAt` also refuses a source that reports EOF along with the last bytes, which `ReadAt` of the same object
  accepts: `StreamRandomAccessRuns.EncryptionAccepted`.
- Marshal followed by Unmarshal loses values of the types that `CborRoundTrip.Unambiguous` excludes, and of `Null` or a
  `Raw` holding null at the top level. `CborMarshal.RoundTripsExactly` has the exact condition on the type.
- Marshal writes whatever a `Raw` holds. Where that is not one item, the value is not read back
  (`CborRoundTrip.ReadsBackExactly`) and two values can share an encoding (`CborMarshal.RawsCanCollide`);
  `CborMarshal.EveryValueRoundTripsExactly` has the condition on the type that excludes this, too. The predicate
  `Encodable` of the other theorems assumes that each `Raw` holds one item.
- Marshal can write what Verify refuses: it has no depth limit, and a `Raw` it passes through can hold what Verify refuses
  by itself (`CborMarshalItems.RawCanFailVerify`). Nothing else goes wrong: `CborMarshalItems.MarshalledVerifiesExactly`.
- Encode of an empty blob in PEM writes text that Decode refuses (`PemGrammar.RoundTripsExactly`), though Decode does accept
  another text for it (`PemGrammar.EmptyBlobIsOneEmptyLine`).
- The drift check of COSE measures time around a circle of 2^64 seconds. `CoseDrift.CheckIsTruthfulExactly` says for which
  clocks and limits that is the true distance, and `CoseDrift.StaleCanPass` gives a stale timestamp that passes for every
  other clock and limit.

## Model

| member | source | states |
|---|---|---|
| StreamNonce.IncNonce | stream/stream.go:156-165 | the carry loop adds one to the big-endian counter in place and leaves the flag byte; it reaches its panic exactly when every counter byte wraps |
| StreamNonce.SuccessorCounts | stream/stream.go:156-165 | adding one to the bytes of k gives the bytes of k + 1, and overflows only past the last value of the width |
| StreamNonce.NextNonce | stream/stream.go:156-165 | one step takes the nonce of chunk k to that of chunk k + 1, the flag kept |
| StreamNonce.StepFromZero | stream/stream.go:156-165 | k steps from the zero nonce end at the nonce of chunk k |
| StreamNonce.SetLastChunkFlag | stream/stream.go:173-175 | sets the flag and keeps the counter |
| StreamNonce.NonceForChunk | stream/stream.go:167-171 | for every non-negative int64 index, the nonce that so many steps from zero would reach |
| StreamNonce.NonceInjective | stream/stream.go:156-175 | two chunks, or two flag settings, never share a nonce |
| StreamNonce.NonceZero | stream/stream.go:177-179 | the nonce is zero exactly before the first chunk |
| StreamFormat.EncSplit | stream/stream.go:243-257 | the encryption of a message can be produced chunk by chunk as long as something is left for the last one |
| StreamFormat.EncLength | stream/stream.go:24-38 | an encryption is longer than its message by one tag for each chunk |
| StreamFormat.RunNoncesDistinct | stream/stream.go:243-257 | over a whole run no nonce is used twice, and only the closing one carries the flag |
| StreamFormat.DecInvertsEnc | stream/stream.go:115-154 | every encryption decrypts to its message, full-length last chunks and the empty message included |
| StreamFormat.EncInvertsDec | stream/stream.go:115-154 | a source that ends cleanly is the encryption of what it yielded; an empty last chunk after others is refused |
| StreamFormat.DecAcceptsExactlyEnc | stream/stream.go:73-154 | the sequential reader accepts exactly the image of the encryption |
| StreamFormat.DecDeliversPrefix | stream/stream.go:86-153 | if the AEAD opens only the chunks of one message, then whatever the source holds the plaintext is a prefix of it, and a clean end needs the whole encryption |
| StreamFormat.OpensOnlyExists | stream/stream.go:86-153 | for every message there is such an AEAD, one that opens all of its chunks, so that the clean end is reached |
| StreamFormat.ChunksOpenExactlyEnc | stream/stream.go:403-445 | opening every chunk alone, under its own nonce, also accepts exactly the image of the encryption |
| StreamWire.NonceBytes | stream/stream.go:156-175 | twelve bytes: the chunk number, most significant byte first, and 1 on the last chunk |
| StreamWire.ChunkBytes | stream/stream.go:243-257 | chunk k of an encryption lies at 65552 times k and is what the AEAD makes of the 65536 bytes of the message from 65536 times k on, or of what is left of them, under that nonce |
| StreamEndings.DecEndsExactly | stream/stream.go:73-154 | for an ideal AEAD and every source, plaintext and status: when reading ends so, said by what a writer would have sealed; in particular an unexpected EOF exactly after whole chunks none of which is the last, and a failure exactly where no such chunk follows |
| StreamEndings.CutBetweenChunks | stream/stream.go:118-125 | an encryption cut between two chunks gives the chunks before the cut and then an unexpected EOF |
| StreamEndings.CutInsideChunk | stream/stream.go:126-150 | cut inside a chunk it gives the chunks before that one and then one of two other errors, unless the piece happens to be sealed itself |
| StreamSizes.SizesAreExact | stream/stream.go:24-47 | without overflow a size is accepted exactly if it is that of some encryption, and then count and plaintext size are those of that encryption |
| StreamSizes.ValidSizes | stream/stream.go:24-38 | the sizes of encryptions are: one lone tag, whole chunks, or whole chunks and a last one of at least a byte |
| StreamSizes.CountIsRightExactly | stream/stream.go:24-38 | for every int64, exactly when the answer is right: in range, or one of the few sizes out of range that are refused |
| StreamSizes.NegativeSizes | stream/stream.go:24-38 | which negative sizes are given no error |
| StreamSizes.OverflowingSizes | stream/stream.go:24-38 | which sizes near the end of int64 are given no error, and the two negative counts they get |
| StreamSizes.FinalChunkOfNegative | stream/stream.go:371-378 | for which negative sizes the constructor would allocate a negative length, and that otherwise it never reads at a valid offset |
| StreamSizes.FinalChunkOfOverflowing | stream/stream.go:371-378 | of the sizes past the range, all but 34 in the middle would allocate a negative length, and none leads to a read inside a source |
| StreamSizes.PanicsExactly | stream/stream.go:371-378 | for every int64 size, the arithmetic condition on it for which a negative length is allocated |
| StreamEncryptWriter.EncryptWriter.constructor | stream/stream.go:189-195 | an open writer that has accepted and emitted nothing |
| StreamEncryptWriter.EncryptWriter.Write | stream/stream.go:197-221 | accepts all of p or fails for good; keeps the invariant that what is out is the sealed prefix of what was written and the rest is buffered; terminates although an iteration may move no byte |
| StreamEncryptWriter.EncryptWriter.Close | stream/stream.go:224-236 | after the first successful call the sink holds exactly the encryption of everything written; later calls fail |
| StreamEncryptWriter.EncryptWriter.FlushChunk | stream/stream.go:243-257 | seals the buffered chunk under the next nonce; the panic for a partial chunk that is not the last is unreachable |
| StreamEncryptReader.EncryptReader.constructor | stream/stream.go:272-278 | a reader that has emitted nothing |
| StreamEncryptReader.EncryptReader.Read | stream/stream.go:280-301 | hands out the next bytes of the encryption of the source, at least one each time, and reports the end exactly when all of it is out |
| StreamEncryptReader.EncryptReader.FeedBuffer | stream/stream.go:305-349 | one chunk and one byte more are read; both panics are unreachable; some ciphertext is ready afterwards |
| StreamEncryptReader.EncryptReader.SealNext | stream/stream.go:334-348 | a chunk with something after it is sealed without the flag; the over-read byte is neither lost nor emitted |
| StreamEncryptReader.EncryptReader.SealKeepingTail | stream/stream.go:334-348 | the byte after the chunk, which the tag overwrites in place, is put back behind the tag |
| StreamEncryptReader.EncryptReader.SealLast | stream/stream.go:317-332 | the last chunk is sealed in place under the flagged nonce and completes the encryption |
| StreamEncryptReader.EncryptReader.SealInPlace | stream/stream.go:323-330 | sealing over the plaintext, with the tag running past it, yields the ciphertext of what was there |
| StreamDecryptReader.DecryptReader.constructor | stream/stream.go:65-71 | a reader that has delivered nothing |
| StreamDecryptReader.DecryptReader.Read | stream/stream.go:73-110 | delivers the next plaintext; the first error is sticky and is that of the reference decryption of the whole source, which DecEndsExactly pins down; no call without an error delivers nothing for ever |
| StreamDecryptReader.DecryptReader.ReadChunk | stream/stream.go:115-154 | opens the next chunk as any other or, failing that, as the last, in place over its ciphertext; a source that ends between chunks is an unexpected EOF |
| StreamDecryptReader.DecryptReader.CheckEnd | stream/stream.go:95-107 | a byte after the last chunk is trailing data, none is a clean end |
| StreamRuns.PushEncrypt | stream/stream.go:181-257 | however a message is cut into writes, the sink ends up with its encryption |
| StreamRuns.PullEncrypt | stream/stream.go:259-349 | whatever the sizes of the reads and of the short reads below them, the bytes read are the encryption |
| StreamRuns.EmittedIsPrefix | stream/stream.go:280-301 | at every moment what a pulling encryptor handed out is a prefix of the encryption |
| StreamRuns.SunkIsPrefix | stream/stream.go:197-221 | before Close the sink holds whole chunks of the encryption, whatever is still to be written, and all but the one that may be the last |
| StreamRuns.WriterIsDisciplined | stream/stream.go:181-257 | in every valid state the nonces a writer has used are pairwise distinct, and only the last one of a closed writer carries the flag |
| StreamRuns.ReaderIsDisciplined | stream/stream.go:259-349 | so are those of the encrypting reader, flagged at the end of its source only |
| StreamRuns.PullDecrypt | stream/stream.go:73-154 | draining with any read sizes ends as the reference decryption does; with an ideal AEAD, for every plaintext and status, exactly when the source holds what leads to them |
| StreamRuns.DeliveredIsPrefix | stream/stream.go:86-153 | every reader at every moment has delivered a prefix of the one message whose chunks open, and a clean end needs its whole encryption |
| StreamDecryptReaderAt.DecryptReaderAt.ReadAt | stream/stream.go:396-453 | whatever the cache holds, exactly the plaintext asked for, with EOF when that reaches the end; an error only where the next byte lies in a chunk that is missing or does not open; afterwards the cache has the last chunk taken from, or after an error what it had before |
| StreamDecryptReaderAt.DecryptReaderAt.Load | stream/stream.go:411-437 | a hit and a miss yield the same plaintext, and the pending cache update holds it |
| StreamDecryptReaderAt.DecryptReaderAt.OpenChunk | stream/stream.go:416-437 | opens the chunk in the buffer it was read to, under the nonce for its place |
| StreamDecryptReaderAt.DecryptReaderAt.FetchChunk | stream/stream.go:417-427 | EOF along with all the bytes is no error, with fewer it is |
| StreamDecryptReaderAt.DecryptReaderAt.CopyOut | stream/stream.go:439-444 | every iteration copies at least one byte, from the right place to the right place |
| StreamDecryptReaderAt.NewDecryptReaderAt | stream/stream.go:364-394 | which sources are accepted at which size, for every int64 size, and which error the others get; the new reader caches the final chunk; and make panics exactly on the sizes that satisfy Panics, which the caller can check |
| StreamRandomAccess.RandomAgreesWithSequential | stream/stream.go:364-453 | reading every chunk succeeds with m exactly when the sequential reader drains the source cleanly with m |
| StreamRandomAccess.EncryptionOpens | stream/stream.go:403-445 | over the encryption of m every chunk opens and the plaintext is m |
| StreamRandomAccessRuns.ReadSlice | stream/stream.go:396-453 | over the encryption of m, ReadAt is slicing of m, with EOF exactly at its end |
| StreamRandomAccessRuns.ReadAnywhere | stream/stream.go:364-453 | so it is in every sequence of calls on one reader |
| StreamRandomAccessRuns.ReadWhole | stream/stream.go:364-453 | opening at the source's size and reading it whole succeeds exactly when sequential decryption does, with the same message |
| StreamRandomAccessRuns.EncryptionAccepted | stream/stream.go:364-394 | an encryption is accepted at its size exactly if the source does not report EOF along with the last bytes |
| StreamRandomAccessRuns.RefusedIsNotEncryption | stream/stream.go:364-394 | a source refused at its own size is no encryption |
| StreamRandomAccessRuns.ReadTruncated | stream/stream.go:396-453 | where an encryption was cut off, ReadAt gives what lies in whole chunks, and stops at the first other one with the error of a source that is too short |
| StreamSharedCache.StepKeeps | stream/stream.go:403-448 | no step of any call, loads and stores of the cache included, breaks the shared invariant |
| StreamSharedCache.InterleavingsAreSafe | stream/stream.go:388-448 | in every interleaving of any number of calls the cache holds the plaintext of the chunk at its offset, and each call returns what was asked for, or fails at a byte whose chunk is missing or does not open, with all before it |
| StreamSharedCache.PublishedIsFrozen | stream/stream.go:404-448 | a buffer once reachable from the cache is never written again, although each call reuses its own over its iterations |
| StreamSharedCache.CopyIsEnabled | stream/stream.go:439-444 | while a call copies, the bytes it is about to take are there |
| StreamSharedCacheRuns.EveryCallCompletes | stream/stream.go:396-453 | over an encryption, in every interleaving, every call that returns is complete with its slice of the message |
| StreamSharedCacheRuns.NextIsEnabled | stream/stream.go:403-453 | in every reachable state each call that has not returned can go on: look the chunk up or finish, open it or fail by whether it opens, copy at least a byte |
| StreamSharedCacheRuns.CallsAreWaitFree | stream/stream.go:403-453 | no call takes more steps than three for each byte and one to finish, whatever the others do |
| StreamSharedCacheRuns.EveryCallCanReturn | stream/stream.go:403-453 | after any run each call can return by steps of its own, the others standing still |
| StreamSharedCacheRuns.OpenedChunkIsCached | stream/stream.go:437-448 | when the last chunk a call looked at was not cached, it is afterwards, and other calls take it from there |
| StreamSharedCacheRuns.ChunksAreLoadedOnce | stream/stream.go:403-410 | a call looks up each chunk with a byte that was asked for once, and no other |
| CborHeader.ReadHeadInvertsHeader | cbor/cbor.go:158-174 | a header is read back to its type and argument, whatever follows |
| CborHeader.HeaderInvertsReadHead | cbor/cbor.go:358-421 | only what encodeLength writes for its argument is read |
| CborShortest.HeaderIsShortest | cbor/cbor.go:158-174 | of all byte strings that section 3 of RFC 8949 reads as this major type and argument, in whatever width, the header written is the shortest, and no other is as short |
| CborShortest.ReadHeadAcceptsExactlyShortest | cbor/cbor.go:358-421 | decodeHeader accepts exactly the shortest of these |
| CborShortest.ReadHeadErrors | cbor/cbor.go:358-421 | and each of its errors stands for exactly the byte strings with that fault |
| CborHeader.ReadIntInvertsEncodeInt | cbor/cbor.go:107-113 | every int64 is read back |
| CborHeader.EncodeIntInvertsReadInt | cbor/cbor.go:209-228 | an integer is read from its one encoding, and only in the range of int64 |
| CborHeader.MapKeyCmpIsRankOrder | cbor/cbor.go:445-452 | comparing encoded keys is the order 0, 1, 2, ..., -1, -2, ..., and gives 0 only for equal keys (section 4.2.1 of RFC 8949) |
| CborScalar.BlobReadBack | cbor/cbor.go:116-119 | a byte string is read back from its header and contents, also by the fixed-length reader |
| CborScalar.TextReadBack | cbor/cbor.go:123-130 | valid text is read back |
| CborScalar.StringsOnly | cbor/cbor.go:231-293 | nothing but header and contents is read as a string; text only if it is UTF-8 |
| Utf8.ValidUtf8Exactly | cbor/cbor.go:123-130 | valid text is exactly what encodes a sequence of Unicode scalar values in their shortest forms |
| CborCodec.Encoder.EncodeLength | cbor/cbor.go:158-174 | the five widths, narrowest first, append the header, which is the shortest there is |
| CborCodec.Encoder.EncodeInt | cbor/cbor.go:107-113 | appends the encoding of an int64 |
| CborCodec.Encoder.EncodeBytes | cbor/cbor.go:116-119 | appends header and contents |
| CborCodec.Encoder.EncodeText | cbor/cbor.go:123-130 | refuses text that is not UTF-8 and then writes nothing |
| CborCodec.Encoder.EncodeBool | cbor/cbor.go:143-149 | appends the one byte for false or true |
| CborCodec.Decoder.DecodeHeader | cbor/cbor.go:358-421 | reads what ReadHead reads, which is exactly the shortest headers, in one counted header read, and always moves on when it succeeds |
| CborCodec.Decoder.ReadBytes | cbor/cbor.go:424-437 | moves past n bytes if an int holds n and they are there, else not at all |
| CborCodec.Decoder.DecodeInt | cbor/cbor.go:209-228 | an int64 in canonical form, or the same error as the specification |
| CborCodec.Decoder.DecodeBytes | cbor/cbor.go:231-248 | a byte string, and the cursor after it |
| CborCodec.Decoder.DecodeBytesFixed | cbor/cbor.go:251-272 | a byte string of the length asked for, compared as an int |
| CborCodec.Decoder.DecodeText | cbor/cbor.go:275-293 | text, if it is UTF-8 |
| CborCodec.Decoder.DecodeBool | cbor/cbor.go:322-337 | false or true, and moves only then |
| CborCodec.Decoder.DecodeNull | cbor/cbor.go:340-350 | null, and moves only then |
| CborCodec.Decoder.PeekNull | cbor/cbor.go:353-355 | null is next, without moving |
| CborCodec.Decoder.Finish | cbor/cbor.go:189-194 | an error exactly if bytes are left |
| CborCodec.VerifyObject | cbor/cbor.go:524-587 | accepts and stops as the parser of item trees does, with no more header reads than bytes passed, and one more on failure |
| CborCodec.VerifyData | cbor/cbor.go:514-520 | Verify, in at most one header read more than there are bytes, whatever counts the headers claim |
| CborCodec.SkipObject | cbor/cbor.go:466-510 | stops where Skip does, with the same bound on its work |
| CborItem.ParseInvertsEncode | cbor/cbor.go:524-587 | the encoding of a well-formed item no deeper than allowed is walked over exactly, whatever follows |
| CborItem.EncodeInvertsParse | cbor/cbor.go:524-587 | whatever is walked over is the encoding of one well-formed item within the depth |
| CborItem.VerifyAcceptsExactlyEncodings | cbor/cbor.go:514-587 | Verify accepts exactly the canonical encodings: valid text, int64 keys strictly increasing, depth at most 32; and the tree is unique |
| CborShortest.EncodingIsShortest | cbor/cbor.go:524-587 | the encoding of an item is the shortest byte string that section 3 of RFC 8949 reads as that item, and the only one as short |
| CborShortest.VerifyAcceptsExactlyShortest | cbor/cbor.go:514-587 | Verify accepts exactly these shortest ones, for items nested at most 32 deep |
| CborFaults.VerifyFindsFirstFault | cbor/cbor.go:514-587 | for every byte string and error: Verify gives that error exactly if it is that of the first fault in the one item, or there is something behind the item |
| CborItem.EncodingsArePrefixFree | cbor/cbor.go:524-587 | no encoding is a proper prefix of another |
| CborSkip.SkipFollowsParse | cbor/cbor.go:466-587 | from anywhere, at any depth, where verifyObject succeeds skipObject does and stops at the same place, although it spends depth on map keys |
| CborSkip.SkipDeeper | cbor/reflect.go:296-304 | what is skipped at one depth is skipped alike at any greater depth, so that a Raw can be captured deep inside and read at the top |
| CborLoose.SkipAcceptsExactly | cbor/cbor.go:466-510 | skipping succeeds exactly on items whose text need not be text and whose map keys may be any items in any order, within the depth, and stops behind them |
| CborSkip.SkipIsLocal | cbor/cbor.go:466-510 | what is skipped does not depend on what follows |
| CborSkip.SkippedIsOneItem | cbor/reflect.go:296-304 | the bytes captured as a Raw are one item again |
| CborFieldOrder.SortedOrderIsOrdered | cbor/reflect.go:188-190 | sorting the fields puts each once, by increasing key |
| CborFieldOrder.OrderedIsComplete | cbor/reflect.go:411-438 | as many distinct increasing keys as there are fields are all of them |
| CborFieldOrder.OrderedIsUnique | cbor/reflect.go:188-190 | there is one such order, so an accepted map has its fields where the encoder puts them |
| CborRoundTrip.StartsWithNull | cbor/reflect.go:86-213 | only values of nullable types start like null, and only a Raw that is not one item can encode as nothing |
| CborRoundTrip.DecodeInvertsEncode | cbor/reflect.go:86-444 | what is encoded by an unambiguous type, each Raw holding one item, is decoded to itself, whatever follows |
| CborRoundTrip.ReadsBackExactly | cbor/reflect.go:86-444 | whatever the Raws in it hold, a value of an unambiguous type is decoded to itself exactly if each of them holds one item |
| CborRoundTrip.EncodeInvertsDecode | cbor/reflect.go:226-444 | for every type, what is decoded was written in the one way the encoder writes it |
| CborRoundTrip.EntriesCanonical | cbor/reflect.go:406-439 | the entries that the map loop reads set distinct fields in increasing order of key, and are the encoding of those fields |
| CborMarshal.UnmarshalAcceptsExactlyMarshal | cbor/reflect.go:216-222 | Unmarshal yields v from data exactly if data is what Marshal makes of v, save that null is refused unless the target is an Option |
| CborMarshal.UnmarshalAcceptsOnlyMarshal | cbor/reflect.go:216-222 | for every type, an accepted byte string is the one encoding of its result |
| CborMarshal.MarshalIsInjective | cbor/reflect.go:37-43 | two values of an unambiguous type, their Raws holding one item each, never share an encoding |
| CborMarshal.RawsCanCollide | cbor/reflect.go:115-119 | the assumption on Raws is needed: two of them side by side can divide the same bytes in every way |
| CborMarshal.NullableExactly | cbor/reflect.go:86-213 | which types have a value that encodes as null |
| CborMarshal.RoundTripsExactly | cbor/reflect.go:37-222 | every value of a type, its Raws holding one item each, survives Marshal and Unmarshal exactly if the type, behind the pointer Unmarshal takes, is unambiguous: nothing nullable in an Option or behind a pointer, and pointers one deep |
| CborMarshal.EveryValueRoundTripsExactly | cbor/reflect.go:37-222 | every value that can be marshalled at all, whatever its Raws hold, survives exactly if the type is unambiguous and has no Raw in it |
| CborMarshal.MisreadValue | cbor/reflect.go:241-260 | an ambiguous type has a value that is encoded but not read back |
| CborRefusals.EncodeRefusesExactly | cbor/reflect.go:86-213 | which values Marshal refuses: those with text that is not UTF-8, or nil where the optional tag is missing; and with the error of the first of these in the order of writing |
| CborRefusals.TrailingIsRefused | cbor/reflect.go:216-222 | an encoding with something behind it is refused for that |
| CborRefusals.NullIsRefused | cbor/reflect.go:241-260 | null is refused as such unless the target is an Option |
| CborRefusals.CountIsRefused | cbor/reflect.go:377-400 | a struct whose header announces another number of fields is refused for that |
| CborRefusals.KeyIsRefused | cbor/reflect.go:406-432 | after any entries as they should be, a key that comes again, one out of order and one of no field are refused, each with its own error |
| CborMarshalItems.EncodeWritesItem | cbor/reflect.go:86-213 | for every type, what is written is the canonical encoding of the item that the value stands for, a Raw that Verify accepts standing for the item it holds, a struct for an array of the fields in order or a map by increasing key |
| CborMarshalItems.MarshalledVerifiesExactly | cbor/reflect.go:37-43 | what Marshal writes, each Raw holding one item, is accepted by Verify exactly if every Raw inside is and the item is not nested more than 32 deep |
| CborMarshalItems.RawCanFailVerify | cbor/reflect.go:37-43 | a Raw holding text that is not UTF-8 is marshalled, inside a single array, to bytes that Verify refuses |
| CborReflect.EncodeValue | cbor/reflect.go:86-213 | the encoder, appending as it goes, writes what the specification says or fails as it says |
| CborReflect.EncodeArray | cbor/reflect.go:169-178 | the loop over the fields of an array struct |
| CborReflect.EncodeMap | cbor/reflect.go:187-198 | the loop over the sorted fields of a map struct |
| CborReflect.Marshal | cbor/reflect.go:37-43 | the bytes of the specification, and none after an error |
| CborReflect.DecodeValue | cbor/reflect.go:226-260 | follows one pointer, and reads what the specification says with the cursor left where it says |
| CborReflect.DecodeKind | cbor/reflect.go:262-443 | the switch on the kind |
| CborReflect.DecodeRawItem | cbor/reflect.go:296-304 | captures the bytes that skipObject passes |
| CborReflect.DecodeArray | cbor/reflect.go:377-392 | the loop over the fields of an array struct |
| CborReflect.BuildLookup | cbor/reflect.go:402-405 | the key table has each key of the type and no other, at its position |
| CborReflect.DecodeMap | cbor/reflect.go:393-439 | the loop over the entries: key order, unknown keys, and the field each value goes to |
| CborReflect.Unmarshal | cbor/reflect.go:216-222 | the value of the specification, and nothing may be left over |
| Base64.DecodeInvertsEncode64 | pem/pem.go:106 | every byte string is decoded from its base64 |
| Base64.EncodeInvertsDecode64 | pem/pem.go:96 | strict decoding accepts only the encoding of its result: no misplaced padding, no stray bits |
| Base64.Decode64AcceptsExactlyEncode64 | pem/pem.go:96 | both together |
| Base64.GroupsAreNumerals | pem/pem.go:106 | every group of up to three bytes is written as the digits, to the base of 64, of its 24 bits, in the alphabet of RFC 4648, and padding |
| ByteSearch.IndexIsFirst | pem/pem.go:65 | a search finds the first occurrence and no other |
| Pem.HeaderHasRoom | pem/pem.go:54-57 | the slice for the block type is in range: prefix and suffix of the header never overlap |
| Pem.Encode | pem/pem.go:105-130 | the loop over 64-character lines writes the text of the specification |
| PemGrammar.MarksAreSpelled | pem/pem.go:15-19 | how the first and the last line are spelled |
| PemGrammar.DecodeAcceptsExactlyBlockTexts | pem/pem.go:31-101 | accepted texts are exactly: header, one consistent line ending, lines that join to the base64 of the blob, footer, at most that line ending |
| PemGrammar.FooterFound | pem/pem.go:61-70 | the first occurrence of the footer is the footer, base64 having no dash in it |
| PemGrammar.SplitIntoLines | pem/pem.go:89-95 | text that is clean once its line endings are removed is made of lines |
| PemGrammar.RemoveAllJoins | pem/pem.go:89-95 | removing the line endings joins the lines |
| PemGrammar.ChunkedLines | pem/pem.go:114-122 | every printed line has 64 characters but the last, which has 1 to 64 |
| PemGrammar.PrintedIsBlockText | pem/pem.go:105-130 | what is printed is text of the grammar |
| PemGrammar.RoundTripsExactly | pem/pem.go:31-130 | a block is printed and parsed back exactly if its type is not empty and has no newline and its blob is not empty |
| PemGrammar.EmptyBlobIsOneEmptyLine | pem/pem.go:31-101 | for every such type, one empty line between header and footer is decoded to the block with an empty blob |
| CoseTypes.SigHeaderEncodes | cose/cose.go:233-241 | the signature header always encodes, in a few bytes: its panic is unreachable |
| CoseTypes.SigAadEncodes | cose/cose.go:225-231 | so does the external data, with the message to authenticate passed through |
| CoseTypes.SigStructureEncodes | cose/cose.go:243-252 | so does what is to be signed |
| CoseTypes.Sign1Encodes | cose/cose.go:256-266 | so does the message, with a payload or null |
| CoseTypes.Encrypt0Encodes | cose/cose.go:630-641 | so does the encrypted message |
| CoseWire.SigProtectedItem | cose/cose.go:58-63 | the header on the wire: labels 1, 2, 4 and -70002 in this order, with these values |
| CoseWire.EncProtectedItem | cose/cose.go:73-76 | the encryption header on the wire |
| CoseWire.ToBeSignedItem | cose/cose.go:124-130 | the Sig_structure of section 4.4 of RFC 9052, its context written out |
| CoseWire.EncAadItem | cose/cose.go:139-144 | the Enc_structure of section 5.3 of RFC 9052, its context written out |
| CoseWire.Sign1Item | cose/cose.go:94-100 | the COSE_Sign1 of section 4.2 of RFC 9052; a detached payload is null |
| CoseWire.Encrypt0Item | cose/cose.go:109-114 | the COSE_Encrypt0 of section 5.2 of RFC 9052, with the encapsulated key under label -4 |
| CoseWire.ExternalAadBytes | cose/cose.go:224-231 | the external data of a signature, byte by byte: dark-bio-v1 and a colon, the domain, and the message to authenticate as it is |
| CoseWire.SignedMessageItem | cose/cose.go:222-343 | all of a signed message: header, external data, what is signed, with an empty payload when detached, and what is sent |
| CoseWire.EncryptedMessageItem | cose/cose.go:599-641 | all of an encrypted message: header, additional data, the prefixed domain that HPKE is given, and what is sent |
| CoseTheorems.SigHeaderExactly | cose/cose.go:767-782 | a protected header is accepted, with its timestamp, exactly if it is the one a signer with the verifier's fingerprint writes |
| CoseTheorems.EncHeaderExactly | cose/cose.go:786-798 | so is an encryption header |
| CoseTheorems.VerifyAcceptsExactly | cose/cose.go:445-494 | a message is accepted exactly if it is the one encoding for the verifier's key, a fresh timestamp, the payload and a signature that is good for them |
| CoseTheorems.VerifyDetachedAcceptsExactly | cose/cose.go:349-389 | the same with a null payload |
| CoseTheorems.MessagesDiffer | cose/cose.go:222-267 | a message determines the key it names, its timestamp, payload and signature |
| CoseTheorems.SignatureBinds | cose/cose.go:222-252 | what is signed determines domain, message to authenticate, key, timestamp and payload |
| CoseTheorems.VerifiesExactlySigned | cose/cose.go:445-494 | with an ideal signature, exactly what the owner of the key signed for this domain and message, at a fresh time, is accepted |
| CoseTheorems.VerifiedNamesSigner | cose/cose.go:505-515 | Signer names the key that a message verifies with |
| CoseTheorems.VerifiedIsPeeked | cose/cose.go:527-542 | Peek shows, before verification, what verification then yields |
| CoseDrift.DriftIsCircular | cose/cose.go:470-478 | the drift compared is the distance the short way around 2^64 seconds |
| CoseDrift.CheckIsTruthfulExactly | cose/cose.go:470-478 | for which clocks and limits the check is right about every timestamp |
| CoseDrift.UsualCheckIsTruthful | cose/cose.go:470-478 | for a clock past 1970 and a limit short of the end of int64 it is |
| CoseDrift.StaleCanPass | cose/cose.go:470-478 | for every clock and limit for which the check is not right, a timestamp that is too far away and passes |
| CoseSealing.DecryptAcceptsExactly | cose/cose.go:700-741 | a message is decrypted exactly if it is the one encoding, for the own key, of an encapsulated key of the right size and a ciphertext that HPKE opens under the prefixed domain |
| CoseSealing.DecryptedNamesRecipient | cose/cose.go:752-762 | Recipient names the key that a message is decrypted with |
| CoseSealing.DecryptInvertsEncrypt | cose/cose.go:599-741 | decrypting undoes encrypting |
| CoseSealing.SignedVerifies | cose/cose.go:222-494 | what was signed verifies if it is fresh, and is reported stale otherwise |
| CoseSealing.DetachedVerifies | cose/cose.go:270-389 | so does a detached signature |
| CoseSealing.OpenInvertsSeal | cose/cose.go:570-741 | opening what was sealed gives back the value exactly if the timestamp is fresh |
| CoseSealing.OpenInvertsSealWithinDrift | cose/cose.go:570-741 | and so, for usual clocks and limits, exactly if the true time difference is allowed, for every int64 timestamp |
| CoseSealing.EncAadBinds | cose/cose.go:599-641 | what an encryption authenticates determines the protected header and the message to authenticate |
| CoseSealing.DecryptsExactlyEncrypted | cose/cose.go:599-741 | with ideal HPKE, exactly what was encrypted to the own key for this domain and message is decrypted |
| CoseSealing.DecryptsOnlyForItsOwn | cose/cose.go:599-741 | and it is decrypted by no other key and under no other domain or message to authenticate |
| CoseSealing.OpensExactlySealed | cose/cose.go:570-741 | with ideal signatures and HPKE, a value is opened exactly from what the sender sealed of it, to the own key, for this domain and message, at a fresh time |
| CoseOutcomes.SignedOutcome | cose/cose.go:349-494 | what was signed verifies, attached or detached: always when there is no limit on the drift, and with a limit exactly when the distance the short way around is within it, and else it is stale |
| CoseOutcomes.SealedOutcome | cose/cose.go:570-741 | so does what was sealed open |
| CoseOutcomes.VerifyOutcome | cose/cose.go:349-494 | for every message with a header that parses: the result or the error, by payload, algorithm, critical label, key, drift and signature in this order |
| CoseOutcomes.MalformedOutcome | cose/cose.go:349-494 | every other byte string is refused by the parser, or for its missing or unexpected payload |
| CoseOutcomes.SignerOutcome | cose/cose.go:505-542 | Signer and Peek give the key and the payload of every such message, verified or not |
| CoseOutcomes.DecryptOutcome | cose/cose.go:700-741 | for every encrypted message with a header that parses: the result or the error, by algorithm, key, size of the encapsulated key and what HPKE makes of the rest |
| CoseOutcomes.RecipientOutcome | cose/cose.go:752-762 | Recipient gives the key of every such message |
| CoseSuite.SuiteExists | cose/cose.go:222-267 | one signature and HPKE meet all the contracts assumed of them, correct and ideal |
| AeadModel.IdealExists | stream/stream.go:251-254 | the contract assumed of the AEAD can be met |

## Left out

- StreamEncryptWriter.EncryptWriter: the buffer is a sequence that is replaced, not a bytes.Buffer whose store is reused;
  sealing in place is modelled in the encrypting reader.
- StreamIo.Source: a reader gives EOF only without bytes, never fails otherwise, and never returns nothing without an error.
- StreamDecryptReaderAt.ReaderAt: a source gives all the bytes it has; it may report EOF with the last ones or not.
- StreamDecryptReaderAt.NewDecryptReaderAt: a source has at most 2^63 - 65552 bytes, so that no size in range overflows.
- StreamFormat.MAX_MESSAGE: messages and sources past 2^88 - 1 chunks, on which the counter would panic, are not given to
  the stream objects.
- Pem.Decode: which of its errors is given, as they differ in their text only.
- Keys of the wrong length, which the stream constructors refuse.
- ChaCha20-Poly1305 itself, and the growth of buffers beyond what overlapping in place needs.
- StreamSharedCache.Step: one call fills its buffer in one step after the load of the cache, as nobody else can see it.
- CborSchema.SchemaOk: keys of a map struct are distinct, which mapFields does not check, and counts fit an int.
- CborSchema.Schema: integers are the 64-bit kinds, which narrower kinds truncate to; tag strings, embedded and
  unexported fields, custom Marshaler and Unmarshaler types and the name test for Option are not modelled, nor are the
  types that both directions refuse.
- CborReflect.DecodeValue: the decoded value is returned; that the target is partly written when decoding fails is not
  modelled, nor is a target that held something before.
- CborFieldOrder.SortedOrder: slices.SortFunc is a function, its result on distinct keys being the only sorted one.
- CborReflect.Unmarshal: data fits a slice.
- CoseTypes.Fits: domain and message to authenticate are at most 2^60 bytes, so that what is put around them fits a slice.
- Cose.SignMessage: signAt and signDetachedAt are one function of an optional payload; errors of a Signer are not modelled.
- CoseSuite.HpkeIdeal: an ideal HPKE opens nothing but what was sealed; that it keeps a secret is not stated, nor are
  probabilities, which the ideal signature leaves out as well.
- CborRoundTrip.Encodable: a `Raw` is assumed to hold one item, which Marshal does not check; the theorems named above say
  exactly what happens when it does not.
- The entry points that only read the clock, or only marshal their arguments before signing.
- The text of error messages; where several errors wrap one, that one is modelled.
- 32-bit platforms.
- eddsa, mldsa, rsa, xhpke, xdsa, argon2 and hkdf, which wrap libraries that are not part of this model.
- DER and certificates (x509, internal/asn1ext, internal/x509ext and the cert.go files), which rest on parsers that are not
  part of this model.
