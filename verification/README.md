# A Dafny model of WombatKV

WombatKV is a content-addressed store for KV-cache blocks. This project models the parts of it
whose correctness is stateful, concurrent or arithmetic, and proves what they promise for every
input, every run and every interleaving.

| file | what it models |
|---|---|
| `LargeValues.dfy` | large values as chunks plus a manifest over single-key PUT and GET; refines atomic registers |
| `HttpKeepAlive.dfy` | the keep-alive accumulator; equals a pure parser of the byte stream, however reads are split |
| `HttpFraming.dfy` | the same loop against a reference that takes the declared body of every request (section 6.2 of RFC 9112); they agree exactly where stated |
| `HttpServed.dfy` | what the loop does with each request and with whole conversations: which bytes reach the handler, and where the next request starts |
| `Envelope.dfy` | the wire envelope and the frame stream |
| `BlockIndex.dfy`, `Eviction.dfy` | the metadata index and one LRU eviction cycle, with and without other threads |
| `BlockStore.dfy`, `BlockRuns.dfy` | put batches, evictions, bootstraps and touches interleaved; when every indexed block is stored, and exactly when one is not |
| `BlockKeys.dfy`, `Compression.dfy`, `TieredStore.dfy` | names of blocks, the WBZ1 envelope, and flat files, foyer and object store together; every hit is the block |
| `ParallelGet.dfy`, `BatchCodecs.dfy` | the all-or-nothing parallel GET and the batch codecs it travels through |
| `DeltaReplay.dfy`, `DeltaOrder.dfy` | replay of delta facts; exactly which inputs may come in any order |
| `PrefixChain.dfy` | the prefix-chain store against a plain trie |
| `DispatchBridge.dfy` | connections, bounded queue, workers and one-shot replies; connection ids |
| `Latency.dfy` | the lock-free histogram and its percentile error |
| `Arena.dfy` | the wrapping bump allocator |
| `SegmentFormat.dfy` | WAL and segment codecs with 32-bit FNV-1a (section 2 of draft-eastlake-fnv) |
| `Bytes.dfy`, `Text.dfy`, `Tallies.dfy` | bytes, little-endian integers, UTF-8, decimal, hex, lines, text order, sums and filters over sequences |

What stands in for the outside world:

- Text is its UTF-8 bytes. Clocks, I/O outcomes, read sizes, thread schedules and peers are parameters or steps that are free to do anything.
- blake3 is a function parameter, collision-free on the inputs of the run at hand. CRC32C is an arbitrary function. zstd is a pair of functions with `decompress(compress(p), |p|) == p`.
- The dispatch function, the HTTP head parser and the request handler are arbitrary.
- A relaxed load sees any value the variable has held (`Latency`), or may miss a store for any time (`ParallelGet`).

Where the code and its comments or documentation disagree, the model follows the code:

- `bootstrap_world_knowledge` uses `insert` and so overwrites existing metadata; it does not merge.
- The head limit is compared before each read, so heads up to one read over the limit may pass: `SplitIndependentIff` gives the exact streams for which reads matter.
- Ping and unknown routes drop only the head from the buffer, whatever body it declares. On a kept-alive connection that body is then read as the next request: `PingInsideUpload`, and `LoopIsReferenceIff` for exactly which streams.
- Replay is not independent of input order when least facts of a key tie: `WinnersOrderFreeIff` and `OutcomeOrderFreeIff` give the exact inputs.
- `remove_if_unchanged` and the object delete are two steps with no common lock. `MissingIff` says, from the order of a hash's effects in a run, exactly when the index ends up naming a missing object; `RaceBreaks` is such a run.
- Bootstrap takes any key under its prefix that holds the block infix and a hex hash, also those of a nested namespace: `RecognisedIsOwnIff`, `NestedNamespaceBreaks`, and `AlwaysBackedIff` for exactly which buckets are safe.
- The arena returns payload lengths cut to 32 bits, so a payload of 4 GiB or more is not read back through its handle: `HandleReadsBackIff`.
- A raw payload that looks like a WBZ1 envelope, and a small value that looks like a manifest, are not read back: `RawReadsBackIff`, `SmallPutReadsBackIff`.
- Connection ids of two shards clash only after more than 2^32 accepts on one shard: `ShardsClashIff`.

`dafny verify dfyconfig.toml` checks the whole project.

## Model

| member | source | states |
|---|---|---|
| `LargeValues.ChunksSpell` | crates/wombatkv-daemon/src/client.rs:326-342 | the chunks a large payload is cut into each fit one frame, and joined they are the payload |
| `LargeValues.ChunkCount` | crates/wombatkv-daemon/src/client.rs:326-342 | the manifest’s chunk count is the rounded-up quotient, and the number of chunks |
| `LargeValues.PreimageInjective` | crates/wombatkv-daemon/src/client.rs:1120-1130 | for NUL-free namespaces and keys the bytes hashed into the id determine namespace, key and payload |
| `LargeValues.LargeChunkKeyInjective` | crates/wombatkv-daemon/src/client.rs:1132-1134 | chunk keys of ids of one length coincide only for the same id and index |
| `LargeValues.LargeChunkKeyReserved` | crates/wombatkv-daemon/src/client.rs:1132-1134 | every chunk key lies in the reserved directory |
| `Text.Decimal8Is` | crates/wombatkv-daemon/src/client.rs:1132-1134 | the chunk index is its decimal digits behind just enough zeros to make eight |
| `LargeValues.ManifestRoundTrip` | crates/wombatkv-daemon/src/client.rs:1136-1150 | a written manifest parses back to itself |
| `LargeValues.ManifestIff` | crates/wombatkv-daemon/src/client.rs:1140-1150 | a payload parses as a manifest if and only if it is a UTF-8 text of the magic line, the id line and two lines with numerals of the two numbers below 2^64, with any mix of LF and CRLF, signs and leading zeros, and anything after the last line |
| `LargeValues.NoMagicIsOrdinary` | crates/wombatkv-daemon/src/client.rs:1140-1150 | bytes that are not UTF-8, and texts that do not start with the magic line, are no manifest |
| `Text.ValidUtf8Iff` | crates/wombatkv-daemon/src/client.rs:1140-1150 | bytes are valid UTF-8 exactly when they encode some sequence of Unicode scalar values |
| `Text.NextLineIff` | crates/wombatkv-daemon/src/client.rs:1140-1150 | a line ends at LF, which takes one CR before it along, or at the end of the text |
| `Text.ParseUsizeIff` | crates/wombatkv-daemon/src/client.rs:1140-1150 | a number is read exactly from its decimal digits below 2^64, with leading zeros and one plus sign allowed |
| `LargeValues.PutsFitFrames` | crates/wombatkv-daemon/src/client.rs:313-342 | no PUT is too long for one frame, and exactly the payloads that fit one go out in a single PUT as they are |
| `LargeValues.GetHitsIff` | crates/wombatkv-daemon/src/client.rs:344-426 | a read misses exactly when the key is absent, and hits with the stored bytes when they are no manifest, else with what the named chunks join to at the announced length |
| `LargeValues.GetFailsIff` | crates/wombatkv-daemon/src/client.rs:400-426 | a read fails exactly on the first missing chunk, or on a wrong total length with all chunks there |
| `LargeValues.BinaryReadsBack` | crates/wombatkv-daemon/src/client.rs:313-364 | every value that is not UTF-8 or lacks the magic line is read back, whatever the store holds |
| `LargeValues.ChunkCellsDistinct` | crates/wombatkv-daemon/src/client.rs:326-342 | with a collision-free id, two chunk cells coincide only for the same chunk of the same upload |
| `LargeValues.ManifestParses` | crates/wombatkv-daemon/src/client.rs:1136-1150 | the manifest of every upload of a run parses back to itself |
| `LargeValues.FetchIff` | crates/wombatkv-daemon/src/client.rs:400-426 | in any store a fetch gives a payload exactly when the missing chunks are stored, complete it, and have the stated length |
| `LargeValues.SmallPutReadsBackIff` | crates/wombatkv-daemon/src/client.rs:313-364 | in any store a small value is read back exactly when it spells no manifest, or the manifest it spells delivers that very value |
| `LargeValues.ManifestShapedPayloadIsLost` | crates/wombatkv-daemon/src/client.rs:313-364 | a concrete small value that is accepted and comes back empty |
| `LargeValues.FetchYields` | crates/wombatkv-daemon/src/client.rs:400-426 | with all chunks stored, fetching from any point ends with the whole payload |
| `LargeValues.PutKeepsChunks` | crates/wombatkv-daemon/src/client.rs:326-342 | no PUT of any client disturbs a chunk that is stored |
| `LargeValues.StepPreserves` | crates/wombatkv-daemon/src/client.rs:313-426 | every single-key step of every client keeps: a published manifest has all its chunks, a call in progress is on its way to one upload |
| `LargeValues.StepRefines` | crates/wombatkv-daemon/src/client.rs:313-426 | each step is one step of an array of atomic registers: the last PUT writes, the GET of the user key observes, all else is invisible |
| `LargeValues.RunRefines` | crates/wombatkv-daemon/src/client.rs:313-426 | every interleaving of any number of clients, with calls abandoned anywhere, is a run of atomic registers |
| `LargeValues.RegisterHoldsLastWrite` | crates/wombatkv-daemon/src/client.rs:313-364 | a register holds the last value written to it |
| `LargeValues.ResultStays` | crates/wombatkv-daemon/src/client.rs:344-364 | what a get has observed is not changed by later writes |
| `LargeValues.NoSecondObserve` | crates/wombatkv-daemon/src/client.rs:344-426 | a get observes its key once |
| `LargeValues.PutFromStart` | crates/wombatkv-daemon/src/client.rs:313-342 | a put call begun anywhere and left alone makes all its PUTs in order, is over with the last one and not before, and changes nothing else |
| `LargeValues.GetCompletes` | crates/wombatkv-daemon/src/client.rs:344-426 | in any state, reachable or not, a get begun and left alone returns what the call gives alone, and changes nothing else |
| `LargeValues.GetReturnsLastCompletedPut` | crates/wombatkv-daemon/src/client.rs:344-426 | a get that returns gives Miss or the whole value of the last put completed when it read the user key, whatever happens before and after |
| `LargeValues.NoReadEverFails` | crates/wombatkv-daemon/src/client.rs:400-426 | no interleaving makes a get fail on a missing chunk or a wrong length, and every hit is some client’s whole payload |
| `LargeValues.RemoteKvStoreClient.PutKv` | crates/wombatkv-daemon/src/client.rs:313-342 | the loop issues the PUTs in order, manifest last; a failing transport leaves exactly the prefix already issued |
| `LargeValues.RemoteKvStoreClient.GetKv` | crates/wombatkv-daemon/src/client.rs:344-426 | the loop returns what reading the store at rest returns |
| `HttpKeepAlive.FindsFirst` | crates/wombatkv-daemon/src/http_transport.rs:561-563 | the search gives the first position of the head terminator, or none when there is none |
| `HttpKeepAlive.FindInPrefix` | crates/wombatkv-daemon/src/http_transport.rs:561-563 | what searching the bytes received so far tells about the whole stream |
| `HttpKeepAlive.ReadHeadFinds` | crates/wombatkv-daemon/src/http_transport.rs:528-559 | for every split the head read finds the terminator of the whole stream, or fails as the stream demands, and buffer plus unread bytes stay the same |
| `HttpKeepAlive.ReadBodyFills` | crates/wombatkv-daemon/src/http_transport.rs:451-490 | the body read takes exactly the declared bytes, never past the body |
| `HttpKeepAlive.ServeOneIsParseOne` | crates/wombatkv-daemon/src/http_transport.rs:336-368 | one round handles the request the pure parser finds, and leaves buffer plus unread bytes at what follows it |
| `HttpKeepAlive.ServeIsParse` | crates/wombatkv-daemon/src/http_transport.rs:336-368 | for every split of a clear stream the keep-alive loop handles exactly the requests of the pure parser and stops for the same reason |
| `HttpKeepAlive.BorderlineDisagrees` | crates/wombatkv-daemon/src/http_transport.rs:528-559 | a head just over the limit is accepted or refused depending on how the peer’s bytes arrive |
| `HttpKeepAlive.SplitIndependentIff` | crates/wombatkv-daemon/src/http_transport.rs:336-368 | the loop agrees with the pure parser under every split if and only if no head of the stream is borderline |
| `HttpKeepAlive.HeadsFitIsClear` | crates/wombatkv-daemon/src/http_transport.rs:336-368 | streams whose heads end within the limit are never borderline |
| `HttpKeepAlive.ServeConnection` | crates/wombatkv-daemon/src/http_transport.rs:336-368 | the loop with its buffer computes the served sequence, and at each turn the buffer and the unread bytes are the unhandled end of the stream |
| `HttpKeepAlive.ServeRound` | crates/wombatkv-daemon/src/http_transport.rs:336-368 | one round with the buffer updated in place |
| `HttpKeepAlive.ProcessRoute` | crates/wombatkv-daemon/src/http_transport.rs:377-490 | route, framing, body and drain with the buffer updated in place |
| `HttpKeepAlive.ReadUntilDoubleCrlf` | crates/wombatkv-daemon/src/http_transport.rs:528-559 | the head loop with the buffer extended in place |
| `HttpKeepAlive.ReadWholeBody` | crates/wombatkv-daemon/src/http_transport.rs:451-490 | the body loop with the buffer extended in place |
| `HttpFraming.ReferenceIff` | crates/wombatkv-daemon/src/http_transport.rs:377-490 | the parser of the code equals the reference that takes every declared body exactly when no request that goes on is a ping or unknown route with a positive length |
| `HttpFraming.BytewiseIsParse` | crates/wombatkv-daemon/src/http_transport.rs:336-368 | fed byte by byte, the loop equals the parser on every stream, clear or not |
| `HttpFraming.LoopIsReferenceIff` | crates/wombatkv-daemon/src/http_transport.rs:336-490 | under every split the loop equals the reference if and only if no head is borderline and no declared body is overlooked |
| `HttpFraming.BodyBecomesRequest` | crates/wombatkv-daemon/src/http_transport.rs:389-424 | for any two heads that are answered and go on, the first declaring the second as its body, the loop handles two requests where the reference has one, under every split |
| `HttpFraming.PingInsideUpload` | crates/wombatkv-daemon/src/http_transport.rs:389-424 | concretely: an upload to an unknown route whose body spells a ping |
| `HttpFraming.HeadAtTheLimit` | crates/wombatkv-daemon/src/http_transport.rs:528-559 | a concrete stream that is not clear: refused byte by byte, not refused when it comes in one read |
| `HttpServed.RpcIsServed` | crates/wombatkv-daemon/src/http_transport.rs:377-490 | under every split an RPC request with its declared body reaches the handler with exactly those bytes; it is the last one if the handler fails or the connection is not kept alive, else the loop goes on right behind the body |
| `HttpServed.OtherIsServed` | crates/wombatkv-daemon/src/http_transport.rs:377-424 | any other request reaches the handler without a body, and the loop goes on right behind its head |
| `HttpServed.RefusedIsClosed` | crates/wombatkv-daemon/src/http_transport.rs:336-490 | an unparsable head, a missing or excessive length and a body cut short close the connection with nothing handled, each for its own reason |
| `HttpServed.NoHeadIsClosed` | crates/wombatkv-daemon/src/http_transport.rs:528-559 | bytes without a head end close the connection as too long, faulty or gone |
| `HttpServed.LongHeadIsClosed` | crates/wombatkv-daemon/src/http_transport.rs:528-559 | a head that ends more than one read over the limit is refused under every split |
| `HttpServed.ConversationIsServed` | crates/wombatkv-daemon/src/http_transport.rs:336-490 | under every split any pipelined list of well-framed messages is served message by message, bodies included, and then the peer is gone |
| `Envelope.HeaderCanonical` | crates/wombatkv-daemon/src/envelope.rs:184-198 | a header decodes exactly when it is the encoding of the fields it decodes to |
| `Envelope.DecodeIffEncode` | crates/wombatkv-daemon/src/envelope.rs:108-182 | the decoder returns a body exactly on that body’s encoding |
| `Envelope.ReadFrameIff` | crates/wombatkv-daemon/src/tcp_transport.rs:427-453 | the header-then-body-then-CRC read takes a frame exactly when the whole-buffer decoder accepts its bytes |
| `Envelope.CutFrameIsPartial` | crates/wombatkv-daemon/src/tcp_transport.rs:427-453 | a frame cut short anywhere is seen as the peer leaving |
| `Envelope.FramesRecovered` | crates/wombatkv-daemon/src/tcp_transport.rs:427-453 | any concatenation of envelopes up to the frame limit, whole or cut at the end, is read back as exactly its bodies |
| `Envelope.FramesSound` | crates/wombatkv-daemon/src/tcp_transport.rs:427-453 | on any stream the bodies read are those of the envelopes it starts with |
| `Envelope.FramesEnd` | crates/wombatkv-daemon/src/tcp_transport.rs:427-453 | for any stream: which frames are handled, that all but a failing last one succeeded, and that otherwise what follows is no frame, for the reason given |
| `Envelope.FrameVerdict` | crates/wombatkv-daemon/src/tcp_transport.rs:427-453 | the verdict on any header and the bytes behind it, with its error and details, in the order magic, version, limit, bytes, checksum |
| `Envelope.BufferVerdict` | crates/wombatkv-daemon/src/envelope.rs:108-182 | the same for a whole buffer, which must end with the body |
| `Envelope.EveryStreamIsFramed` | crates/wombatkv-daemon/src/tcp_transport.rs:427-453 | every stream is of that form or shorter than a header, and then no frame |
| `Envelope.ReadFrames` | crates/wombatkv-daemon/src/tcp_transport.rs:427-453 | the read loop handles the frames the stream starts with, up to the first that fails, and ends with the reason that is there, a read error included |
| `DeltaReplay.LessIsStrictWeak` | crates/wombatkv-core/src/metadata.rs:206-215 | the order by (epoch, seq, write id) is a strict weak order |
| `DeltaReplay.SortsAndPermutes` | crates/wombatkv-core/src/metadata.rs:206-215 | the sort orders the facts and keeps them all |
| `DeltaReplay.BestIsLeast` | crates/wombatkv-core/src/metadata.rs:206-248 | the reference winner of a key is one of its facts and no fact of the key precedes it |
| `DeltaReplay.FirstOfSorted` | crates/wombatkv-core/src/metadata.rs:206-248 | the first fact of a key after sorting is the leftmost least one before |
| `DeltaReplay.WinnersAreBest` | crates/wombatkv-core/src/metadata.rs:206-248 | the replayed winners are the reference winners, key by key |
| `DeltaReplay.EachWinnerIsLeast` | crates/wombatkv-core/src/metadata.rs:206-248 | every key that occurs has a winner with the smallest epoch, among those the smallest seq, among those the byte-wise smallest write id |
| `DeltaReplay.ValuesInKeyOrder` | crates/wombatkv-core/src/metadata.rs:244-248 | winners come out in strictly increasing key order |
| `DeltaReplay.WinnersTell` | crates/wombatkv-core/src/metadata.rs:206-248 | the listed winners: one input fact per occurring key, not later by epoch, seq and write id than any fact of its key, in increasing order of tenant, fingerprint and prefix hash |
| `DeltaReplay.CompactionLaw` | crates/wombatkv-core/src/metadata.rs:206-248 | replaying the winners of A followed by B gives the winners of A followed by B |
| `DeltaReplay.NothingIsLost` | crates/wombatkv-core/src/metadata.rs:206-248 | winners, idempotent drops and conflict losers add up to the input; there is one row per conflict |
| `DeltaReplay.ConflictsCounted` | crates/wombatkv-core/src/metadata.rs:206-248 | the conflict count is the number of facts that disagree with their key’s winner |
| `DeltaReplay.RowsTell` | crates/wombatkv-core/src/metadata.rs:206-248 | each conflict row shows a losing fact of the input next to its key’s winner |
| `DeltaReplay.OrderDoesNotMatter` | crates/wombatkv-core/src/metadata.rs:206-248 | a condition checked on sort keys alone: when no two distinct facts share one, the whole outcome is the same for every permutation |
| `DeltaReplay.TiesDependOnOrder` | crates/wombatkv-core/src/metadata.rs:206-248 | the smallest failing inputs: two distinct facts of one key and one sort key are decided by their order |
| `DeltaReplay.ReplayDeltaFacts` | crates/wombatkv-core/src/metadata.rs:206-248 | the sort-and-scan loop computes that outcome |
| `DeltaOrder.WinnersOrderFreeIff` | crates/wombatkv-core/src/metadata.rs:206-248 | all permutations have the same winners if and only if any two least facts of one key are equal |
| `DeltaOrder.OutcomeOrderFreeIff` | crates/wombatkv-core/src/metadata.rs:206-248 | all permutations have the same outcome, rows in order included, if and only if moreover disputed facts of one sort key agree in key and digest |
| `DeltaOrder.ReplayRows` | crates/wombatkv-core/src/metadata.rs:206-248 | the rows are the losing facts of the sorted input, in that order, next to their winners |
| `DeltaOrder.DisputedIffLoses` | crates/wombatkv-core/src/metadata.rs:206-248 | a fact has a row exactly when its digest differs from that of a least fact of its key |
| `DeltaOrder.SortIsStable` | crates/wombatkv-core/src/metadata.rs:206-215 | facts of one sort key stay in input order |
| `Text.TextOrder` | crates/wombatkv-core/src/metadata.rs:206-215 | byte-wise order of texts is total, transitive and asymmetric |
| `Text.TextLessIff` | crates/wombatkv-core/src/metadata.rs:206-215 | a text is less exactly when it is a proper prefix or has the smaller byte at the first difference |
| `PrefixChain.TokenBytesInjective` | crates/wombatkv-core/src/reuse.rs:112-118 | the bytes of a block determine its tokens |
| `PrefixChain.SeedInputInjective` | crates/wombatkv-core/src/reuse.rs:124-130 | the seed preimage determines tenant and fingerprint |
| `PrefixChain.MixInputInjective` | crates/wombatkv-core/src/reuse.rs:132-139 | the link preimage determines the previous hash and the block |
| `PrefixChain.SeedIsNotMix` | crates/wombatkv-core/src/reuse.rs:124-139 | no seed preimage is a link preimage |
| `PrefixChain.ChainHashInjective` | crates/wombatkv-core/src/reuse.rs:106-139 | with a collision-free hash, equal chain hashes mean equal owners and equal chains |
| `PrefixChain.KeysNamePrefixes` | crates/wombatkv-core/src/reuse.rs:39-66 | two block keys coincide exactly when they name the same prefix of the same owner |
| `PrefixChain.PublishWrites` | crates/wombatkv-core/src/reuse.rs:39-66 | one publication sets exactly the prefixes of its chain |
| `PrefixChain.StoreIsTrie` | crates/wombatkv-core/src/reuse.rs:39-66 | the flat map holds for each prefix the payload last published for it |
| `PrefixChain.MatchedIffPublished` | crates/wombatkv-core/src/reuse.rs:68-102 | a lookup matches a length exactly when some chain of the owner was published through that prefix |
| `PrefixChain.LookupAnswersAsTrie` | crates/wombatkv-core/src/reuse.rs:68-102 | matched length, payloads and missing keys are those of a plain trie |
| `PrefixChain.LookupIsTrieLookup` | crates/wombatkv-core/src/reuse.rs:39-139 | the same for the store keyed by the real chain hashes |
| `PrefixChain.ChainedPrefixHashes` | crates/wombatkv-core/src/reuse.rs:106-122 | the running hash gives each prefix its chain hash |
| `PrefixChain.InMemoryKvStore.PublishPrefix` | crates/wombatkv-core/src/reuse.rs:39-66 | success for matching lengths up to 2^32 blocks, else which error, with the state after success and after each error |
| `PrefixChain.InMemoryKvStore.LookupPrefix` | crates/wombatkv-core/src/reuse.rs:68-102 | the scan computes the lookup result; beyond 2^32 blocks the code panics, hence the precondition |
| `SegmentFormat.PrimeIsInvertible` | crates/wombatkv-format/src/lib.rs:101-108 | multiplying by the FNV prime can be undone modulo 2^32 |
| `SegmentFormat.FnvStepInjective` | crates/wombatkv-format/src/lib.rs:101-108 | one checksum step keeps different states, and different bytes, apart |
| `SegmentFormat.ChecksumKeepsStatesApart` | crates/wombatkv-format/src/lib.rs:101-108 | different states stay different over any tail |
| `SegmentFormat.ChecksumDetectsSubstitution` | crates/wombatkv-format/src/lib.rs:101-108 | changing one byte always changes the checksum, at every length |
| `SegmentFormat.ComputeChecksum32` | crates/wombatkv-format/src/lib.rs:101-108 | the loop computes that checksum |
| `SegmentFormat.ChecksumTestVectors` | crates/wombatkv-format/src/lib.rs:101-108 | the published FNV-1a values of the empty text and of “a” |
| `SegmentFormat.WalHeaderIff` | crates/wombatkv-format/src/lib.rs:60-75 | a header is read exactly when it encodes its fields |
| `SegmentFormat.WalEncodesIff` | crates/wombatkv-format/src/lib.rs:34-58 | exactly the records whose key and meta stay below 2^16 and whose payload stays below 2^32 bytes are encoded; all others are FieldTooLarge |
| `SegmentFormat.WalVerdict` | crates/wombatkv-format/src/lib.rs:60-97 | any data: short of a header, foreign, short of its body, wrong checksum, or accepted, each exactly when |
| `SegmentFormat.WalRoundTrip` | crates/wombatkv-format/src/lib.rs:34-97 | a record decodes to itself with any bytes appended |
| `SegmentFormat.WalCanonical` | crates/wombatkv-format/src/lib.rs:34-97 | the decoder accepts data exactly when it starts with the encoding of its result |
| `SegmentFormat.WalRecordDetectsSubstitution` | crates/wombatkv-format/src/lib.rs:34-108 | changing any one body byte of an encoded record gives ChecksumMismatch |
| `SegmentFormat.ParseIndexIff` | crates/wombatkv-format/src/lib.rs:227-271 | the index parser accepts exactly the encodings of entry lists |
| `SegmentFormat.ParseSegmentIndex` | crates/wombatkv-format/src/lib.rs:239-271 | the cursor loop computes the parse |
| `SegmentFormat.FooterReads` | crates/wombatkv-format/src/lib.rs:119-162 | an encoded footer reads back its magic, index length and checksum |
| `SegmentFormat.SegmentVerdict` | crates/wombatkv-format/src/lib.rs:203-225 | any segment: too short, foreign, shorter than its index, footer or checksum wrong, or its index parsed, each exactly when |
| `SegmentFormat.LayoutDescribes` | crates/wombatkv-format/src/lib.rs:173-201 | each index entry’s offset and length slice the laid-out bytes to its block |
| `SegmentFormat.SegmentEncodesIff` | crates/wombatkv-format/src/lib.rs:173-201 | exactly the block lists whose count, lengths, offsets and index size fit their fields are encoded; all others are FieldTooLarge |
| `SegmentFormat.SegmentRoundTrip` | crates/wombatkv-format/src/lib.rs:173-225 | every block list that encodes decodes to its keys in order, each entry slicing the segment to its payload |
| `SegmentFormat.SegmentIndexDetectsSubstitution` | crates/wombatkv-format/src/lib.rs:173-225 | changing any one byte of the index gives ChecksumMismatch |
| `SegmentFormat.EncodeSegmentV1` | crates/wombatkv-format/src/lib.rs:173-201 | the loop that grows data and index side by side computes the segment |
| `BatchCodecs.ReadU32Iff` | crates/wombatkv-daemon/src/lib.rs:398-412 | an integer is read exactly when the data starts with its encoding |
| `BatchCodecs.KeyBatchIff` | crates/wombatkv-daemon/src/lib.rs:226-331 | the key decoder returns a list exactly on that list’s encoding (valid UTF-8 keys, 32-bit counts and lengths) |
| `BatchCodecs.KeyBatchVerdict` | crates/wombatkv-daemon/src/lib.rs:294-331 | keys that are all there are returned when nothing follows them, else the extra bytes are counted |
| `BatchCodecs.ReadMany` | crates/wombatkv-daemon/src/lib.rs:294-396 | the cursor loop of both decoders reads the announced number of items or fails where the first one fails |
| `BatchCodecs.DecodeKeyBatchLoop` | crates/wombatkv-daemon/src/lib.rs:294-331 | the decoding loop with its cursor computes the decoder |
| `BatchCodecs.SliceOfConcat` | crates/wombatkv-daemon/src/lib.rs:336-396 | slicing the joined items by their lengths gives the items back |
| `BatchCodecs.ConcatOfSlice` | crates/wombatkv-daemon/src/lib.rs:354-396 | slices have the given lengths and join to the body |
| `BatchCodecs.BytesBatchIff` | crates/wombatkv-daemon/src/lib.rs:336-396 | the bytes decoder returns a list exactly on that list’s encoding (32-bit counts and lengths) |
| `BatchCodecs.BytesBatchNeverLies` | crates/wombatkv-daemon/src/lib.rs:336-396 | whatever was encoded, with counts and lengths cut to 32 bits, decodes to itself or to an error, never to other items |
| `BatchCodecs.BytesBatchVerdict` | crates/wombatkv-daemon/src/lib.rs:354-396 | a body is cut by the announced lengths exactly when it has their sum, else refused |
| `BatchCodecs.ForeignIff` | crates/wombatkv-daemon/src/lib.rs:294-396 | a batch is refused as foreign exactly when it does not start with its magic |
| `BatchCodecs.DecodeBytesBatchLoop` | crates/wombatkv-daemon/src/lib.rs:354-396 | the two decoding loops compute the decoder |
| `BatchCodecs.SliceLoop` | crates/wombatkv-daemon/src/lib.rs:354-396 | the slicing loop cuts the body into items that spell it |
| `ParallelGet.StepKeeps` | crates/wombatkv-cabi/src/ffi.rs:158-200 | every step keeps: the flag is stored only after a miss, and each thread’s reply is its key’s answer or a justified give-up |
| `ParallelGet.CollectMeans` | crates/wombatkv-cabi/src/ffi.rs:207-215 | the first reply that is not a payload decides: its error, or None; without one all payloads come in order |
| `ParallelGet.CanFinish` | crates/wombatkv-cabi/src/ffi.rs:158-200 | from every state all threads can be brought to an end |
| `ParallelGet.SeenGivesUp` | crates/wombatkv-cabi/src/ffi.rs:168-200 | in no run does a thread that saw the flag read its key |
| `ParallelGet.ParallelGetIsAllOrNothing` | crates/wombatkv-cabi/src/ffi.rs:158-216 | for every schedule and visibility of the flag, payloads come back in key order exactly when every key hits; None only after a miss; an error only from its key |
| `ParallelGet.BlocksComeBackIff` | crates/wombatkv-cabi/src/ffi.rs:422-478 | through the bytes-batch codec the blocks come back in order exactly when counts and lengths fit 32 bits |
| `ParallelGet.BlocksOutcome` | crates/wombatkv-cabi/src/ffi.rs:422-478 | blocks that come back are exactly the payloads in order; None comes only from a miss, and always from a miss without failing keys; an error is that of a failing key, or of a batch of hits that does not fit the codec |
| `ParallelGet.CollectLoop` | crates/wombatkv-cabi/src/ffi.rs:207-215 | the collecting loop computes that result |
| `BlockIndex.LongestPrefixIff` | crates/wombatkv-radix/src/block_meta.rs:253-265 | the result is the one length whose blocks are all present while the next is absent |
| `BlockIndex.BulkLoadKeepsFirst` | crates/wombatkv-radix/src/block_meta.rs:195-200 | present entries win, then the first loaded item of a hash; nothing else appears |
| `BlockIndex.SnapshotUnique` | crates/wombatkv-radix/src/block_meta.rs:270-278 | the hash-ordered snapshot is determined by the index |
| `BlockIndex.InMemoryMetadataIndex.Insert` | crates/wombatkv-radix/src/block_meta.rs:233-236 | the record is stored with the current stamp and nothing else changes |
| `BlockIndex.InMemoryMetadataIndex.GetAndTouch` | crates/wombatkv-radix/src/block_meta.rs:242-247 | a present record is returned re-stamped, an absent one changes nothing |
| `BlockIndex.InMemoryMetadataIndex.Remove` | crates/wombatkv-radix/src/block_meta.rs:249-251 | the record goes, and the result tells whether it was there |
| `BlockIndex.InMemoryMetadataIndex.RemoveIfUnchanged` | crates/wombatkv-radix/src/block_meta.rs:220-229 | removes exactly when present with the expected stamp |
| `BlockIndex.InMemoryMetadataIndex.BulkLoad` | crates/wombatkv-radix/src/block_meta.rs:195-200 | the loop computes the bulk load |
| `BlockIndex.InMemoryMetadataIndex.LongestPrefixLoop` | crates/wombatkv-radix/src/block_meta.rs:253-265 | the counting loop computes the longest prefix |
| `BlockIndex.InMemoryMetadataIndex.Entries` | crates/wombatkv-radix/src/block_meta.rs:270-278 | every entry once, in hash order |
| `Eviction.DrawnBytes` | crates/wombatkv-node/src/lru.rs:262-343 | taking entries out of an index takes exactly their bytes out of its total |
| `Eviction.SortsByStamp` | crates/wombatkv-node/src/lru.rs:280-282 | the sort puts oldest first and keeps every entry |
| `Eviction.SortsStably` | crates/wombatkv-node/src/lru.rs:280-282 | entries of one stamp stay in hash order |
| `Eviction.SortedSnapshot` | crates/wombatkv-node/src/lru.rs:262-282 | the sorted snapshot lists every entry of the index once |
| `Eviction.FreesOnlyUnchanged` | crates/wombatkv-node/src/lru.rs:294-331 | whatever other threads do between visits, the loop removes exactly the visited snapshot entries whose stamp still matched, and ends short of its goal only after visiting all |
| `Eviction.SurvivingIff` | crates/wombatkv-node/src/lru.rs:294-331 | an entry is freed exactly when some visit found it present with its snapshot stamp |
| `Eviction.StopsAtOnce` | crates/wombatkv-node/src/lru.rs:294-331 | before every visit the goal was not met, under any interference |
| `Eviction.EvictsShortestPrefix` | crates/wombatkv-node/src/lru.rs:262-343 | without interference exactly the shortest sufficient prefix of the sorted snapshot is evicted: none retained is older, bytes are conserved, the target is met and would not be with one eviction less |
| `Eviction.CycleMeetsTarget` | crates/wombatkv-node/src/lru.rs:262-343 | alone, a walk leaves at most its target and would not with one eviction less; bytes are conserved, nothing is skipped, and failures are the failed deletes of the evicted prefix |
| `Eviction.RunMeans` | crates/wombatkv-node/src/lru.rs:262-343 | under any interference: what each visit saw, when the walk stopped, what it left, and every counter, failed deletes included, counted from those visits |
| `Eviction.CountersAddUp` | crates/wombatkv-node/src/lru.rs:262-343 | freed plus skipped are the visits; failed deletes are among the freed; a cycle that falls short visited everything |
| `Eviction.HeadroomTarget` | crates/wombatkv-node/src/lru.rs:286-287 | nine tenths of the budget, rounded down |
| `Eviction.Scan` | crates/wombatkv-node/src/lru.rs:262-265 | the snapshot’s bytes are summed |
| `Eviction.Evict` | crates/wombatkv-node/src/lru.rs:291-331 | the loop with its counters computes the walk |
| `Eviction.RunCycle` | crates/wombatkv-node/src/lru.rs:254-343 | without a budget or within it the index stays as it is and only the scan is reported; over it the cycle evicts down to nine tenths as stated for the walk, under any interference and alone |
| `Eviction.CycleTo` | crates/wombatkv-node/src/lru.rs:254-343 | the cycle for any target up to the budget: nothing within the budget, a walk down to the target over it |
| `Eviction.EvictDown` | crates/wombatkv-node/src/lru.rs:280-343 | the part of the cycle behind the budget test |
| `BlockKeys.UnhexIff` | crates/wombatkv-cabi/src/ffi.rs:499-523 | the hex decoder undoes the hex encoder and accepts nothing else up to letter case |
| `BlockKeys.HexParses` | crates/wombatkv-cabi/src/ffi.rs:487-513 | the hex of a hash parses to the hash |
| `BlockKeys.DecodeHex32` | crates/wombatkv-node/src/embed.rs:1040-1062 | the pair-by-pair loop computes the decoder |
| `BlockKeys.BlockKeyInjective` | crates/wombatkv-cabi/src/ffi.rs:487-494 | block keys tell hashes apart |
| `BlockKeys.ObjectKeyInjective` | crates/wombatkv-node/src/embed.rs:388-394 | object keys of one namespace tell hashes apart |
| `BlockKeys.FlatNameInjective` | crates/wombatkv-node/src/kv_blob_cache.rs:110-122 | file names of one namespace’s block keys tell hashes apart |
| `BlockKeys.FlatNamesCollide` | crates/wombatkv-node/src/kv_blob_cache.rs:110-122 | two different keys in general can share a file name |
| `BlockKeys.SanitizeIs` | crates/wombatkv-node/src/kv_blob_cache.rs:110-122 | a file name has one byte per character of the key: ASCII letters, digits, - _ . = as they are, an underscore for any other |
| `BlockKeys.FindsFirstOccurrence` | crates/wombatkv-node/src/embed.rs:299-303 | the text search gives the first occurrence |
| `BlockKeys.RecogniseIff` | crates/wombatkv-node/src/embed.rs:299-313 | bootstrap recognises a stored block as itself exactly when the key infix occurs no further left |
| `BlockKeys.RecognisesOwnBlocks` | crates/wombatkv-node/src/embed.rs:299-313 | and so always when prefix and namespace have no equals sign |
| `BlockKeys.RecogniseExactly` | crates/wombatkv-node/src/embed.rs:299-313 | any key is recognised as a hash exactly when 64 digits of that hash, of either case, follow the first occurrence of the infix |
| `BlockKeys.OwnKeyIsItsBlock` | crates/wombatkv-node/src/embed.rs:299-313 | a namespace’s own block key is taken for its own hash or for none, never for another |
| `BlockKeys.RecognisedIsOwnIff` | crates/wombatkv-node/src/embed.rs:240-313 | a recognised key is the namespace’s own key of that hash exactly when it starts with the namespace’s base, the infix first occurs at the slash ending that base, and the last 64 digits are lower case |
| `BlockKeys.NestedNamespaceIsTaken` | crates/wombatkv-node/src/embed.rs:240-313 | every block of a namespace nested in the bootstrapped one is listed and recognised as a block of the outer one |
| `BlockKeys.UpperCaseIsTaken` | crates/wombatkv-node/src/embed.rs:299-313 | an upper-case spelling of a hash is recognised though no block is stored under it |
| `BlockStore.RealBucketIsValid` | crates/wombatkv-node/src/embed.rs:240-313 | under the code’s names and recogniser no own key is taken for another hash |
| `BlockStore.ListedAreStored` | crates/wombatkv-node/src/embed.rs:240-313 | what bootstrap recognises in a listing without foreign block-like keys is stored |
| `BlockStore.StepKeeps` | crates/wombatkv-cabi/src/ffi.rs:320-354 | with write-through on, no foreign block-like key and no hash put and evicted at once, every step keeps index entries, blocks about to be indexed and listed blocks backed by objects |
| `BlockStore.EveryIndexedHashIsStored` | crates/wombatkv-node/src/lru.rs:294-331 | so after every such run of batches, evictions, bootstraps and touches every indexed hash has its object |
| `BlockStore.LookupThenHits` | crates/wombatkv-cabi/src/ffi.rs:253-261 | a lookup of K followed by no eviction visit finds all K objects |
| `BlockStore.BootAlone` | crates/wombatkv-node/src/embed.rs:299-313 | a bootstrap left alone indexes every block its listing holds, as one call does, and is then through |
| `BlockStore.CycleAlone` | crates/wombatkv-node/src/lru.rs:294-331 | a cycle left alone takes exactly the candidates that still carry their stamp out of the index and the store |
| `BlockRuns.MissingIff` | crates/wombatkv-node/src/lru.rs:294-331 | after any run a hash is indexed without object exactly when its last insert comes after its last successful visit, and no put of it ever landed or its last effective delete comes after its last landed put |
| `BlockRuns.InsertFollowsPut` | crates/wombatkv-cabi/src/ffi.rs:320-354 | with write-through and no foreign block-like key nothing is indexed that was never put |
| `BlockRuns.MissingAfterDeleteIff` | crates/wombatkv-node/src/lru.rs:294-331 | so there the only cause is a delete after the last landed put of a hash inserted after its last visit |
| `BlockRuns.RecordIs` | crates/wombatkv-radix/src/block_meta.rs:233-247 | after any run an indexed block has the length it was last indexed with and the time it was last indexed or touched |
| `BlockRuns.ForeignKeyBreaks` | crates/wombatkv-node/src/embed.rs:299-313 | one foreign key that is recognised, listed by one bootstrap, leaves its hash indexed without object |
| `BlockRuns.AlwaysBackedIff` | crates/wombatkv-node/src/embed.rs:299-470 | all runs that never put and evict one hash at once keep every indexed hash stored if and only if write-through is on and no foreign key is recognised |
| `BlockRuns.NestedNamespaceBreaks` | crates/wombatkv-node/src/embed.rs:240-313 | with the real names: one block of a nested namespace suffices |
| `BlockRuns.RaceBreaks` | crates/wombatkv-node/src/lru.rs:294-331 | a run from the empty store in which a block is re-put while being evicted leaves it indexed without object |
| `BlockRuns.BestEffortBreaks` | crates/wombatkv-node/src/embed.rs:407-470 | in best-effort mode a failed PUT leaves a block indexed without object |
| `BlockStore.InsertedHolds` | crates/wombatkv-cabi/src/ffi.rs:345-354 | indexing a batch adds its hashes and changes nothing else |
| `BlockStore.LastBlockWins` | crates/wombatkv-cabi/src/ffi.rs:345-354 | of several blocks with one hash the last one’s length and time stay, in a root record |
| `BlockStore.InsertedIsIndexed` | crates/wombatkv-cabi/src/ffi.rs:345-354 | after a batch the index holds its hashes, each with the length and time of its last block, and all other records as they were |
| `BlockStore.PutKvBlocks` | crates/wombatkv-cabi/src/ffi.rs:311-354 | a batch fails with the first failing PUT and then indexes nothing; otherwise it indexes all with their lengths and times, returns the bytes, and keeps the index backed |
| `BlockStore.BootstrapWorldKnowledge` | crates/wombatkv-node/src/embed.rs:299-313 | exactly the recognised keys are indexed, in list order, overwriting existing records |
| `BlockStore.RecognisedAre` | crates/wombatkv-node/src/embed.rs:299-313 | a hash is taken from a listing exactly when one of its keys is recognised as it |
| `BlockStore.OneForEach` | crates/wombatkv-node/src/embed.rs:299-313 | the number of blocks loaded is the number of recognised keys |
| `Compression.ZstdReadsBack` | crates/wombatkv-node/src/compression.rs:138-200 | with zstd every payload under 4 GiB that compresses is read back, and larger ones are refused |
| `Compression.EncodesIff` | crates/wombatkv-node/src/compression.rs:138-168 | compression off encodes every payload as itself; zstd exactly those below 4 GiB that compress, as magic, codec, clamped level, length and data; lz4 none |
| `Compression.DecodesOpened` | crates/wombatkv-node/src/compression.rs:175-200 | what opens comes out plain or decompressed, all else as it is |
| `Compression.RawReadsBackIff` | crates/wombatkv-node/src/compression.rs:175-200 | a payload stored raw is read back exactly when the decoder does not open it as an envelope, or decompresses it to itself |
| `Compression.RawReadsBackUnlessOpened` | crates/wombatkv-node/src/compression.rs:175-200 | a payload whose declared length is not its own is read back exactly when it is not opened |
| `Compression.NoMagicReadsBack` | crates/wombatkv-node/src/compression.rs:175-200 | in particular when it lacks the magic |
| `Compression.RawEnvelopeIsLost` | crates/wombatkv-node/src/compression.rs:138-200 | a concrete raw payload that comes back empty |
| `TieredStore.AdvanceKeeps` | crates/wombatkv-node/src/embed.rs:546-663 | every step of a get, with promoted bytes in hand, keeps all tiers right |
| `TieredStore.StepKeeps` | crates/wombatkv-node/src/embed.rs:407-663 | every tier write, drop, delete, get step and restore step keeps all tiers and all bytes in hand right |
| `TieredStore.EveryHitIsTheBlock` | crates/wombatkv-node/src/embed.rs:407-663 | in every run every hit returns the one payload of its hash |
| `TieredStore.HitsAreRightIff` | crates/wombatkv-node/src/embed.rs:407-759 | that holds for all runs if and only if file names and keys tell payloads apart and the storage codec is lossless |
| `TieredStore.GetAlone` | crates/wombatkv-node/src/embed.rs:546-663 | the steps of a get without others in between: which tier answers, and what the tiers hold after it |
| `TieredStore.PutAlone` | crates/wombatkv-node/src/embed.rs:407-470 | the tier writes of a put one after the other |
| `TieredStore.DropsAlone` | crates/wombatkv-node/src/embed.rs:748-759 | removals from the tiers one after the other, each of its own entry |
| `TieredStore.RestoreAlone` | crates/wombatkv-node/src/embed.rs:710-735 | a restore begun and left alone puts every listed object into foyer and is then through |
| `TieredStore.StoreWorldValidIff` | crates/wombatkv-node/src/embed.rs:388-470 | the code’s names and envelope meet this: with zstd always, with compression off exactly when every payload is left unopened or decompresses to itself |
| `TieredStore.StoredIff` | crates/wombatkv-node/src/embed.rs:407-470 | something is stored exactly when the payload encodes, and with compression off it is the payload |
| `TieredStore.WombatKVKvStore.PutKv` | crates/wombatkv-node/src/embed.rs:407-470 | new state of all tiers for every mix of failures; which error is reported for an encoding failure and for a lost write-through PUT; tiers stay right |
| `TieredStore.WombatKVKvStore.GetKv` | crates/wombatkv-node/src/embed.rs:546-663 | flat, foyer, object store in that order with the tiers filled on the way and untouched on a miss or a fault; a stored block is always found with its payload |
| `TieredStore.WombatKVKvStore.DeleteKv` | crates/wombatkv-node/src/embed.rs:748-759 | flat and object go, foyer stays; a failing flat remove is ignored, a failing object delete is reported |
| `TieredStore.RestoredHolds` | crates/wombatkv-node/src/embed.rs:710-735 | every listed object ends up decoded in foyer and every other entry stays |
| `TieredStore.WombatKVKvStore.RestoreFromS3` | crates/wombatkv-node/src/embed.rs:710-735 | the loop restores the listed objects and counts them, or stops at the first object-store error with those before it restored |
| `DispatchBridge.QueueDepth` | crates/wombatkv-daemon/src/tcp_transport.rs:256-264 | the queue depth is the larger of four per worker and eight |
| `DispatchBridge.StepKeeps` | crates/wombatkv-daemon/src/tcp_transport.rs:224-296 | every step of every connection and worker keeps the bridge’s invariant |
| `DispatchBridge.DispatchedAtMostOnce` | crates/wombatkv-daemon/src/tcp_transport.rs:224-296 | no two dispatch calls are for the same request of a connection |
| `DispatchBridge.ResponsesMatchRequests` | crates/wombatkv-daemon/src/tcp_transport.rs:426-481 | the i-th response is what dispatch returned for the connection’s id and its own i-th request |
| `DispatchBridge.QueueIsBounded` | crates/wombatkv-daemon/src/tcp_transport.rs:256-264 | the queue never exceeds its depth |
| `DispatchBridge.NeverStuck` | crates/wombatkv-daemon/src/tcp_transport.rs:224-296 | while a worker lives, a request that is not lost with a crashed worker can always move on |
| `DispatchBridge.EveryRequestCanBeAnswered` | crates/wombatkv-daemon/src/tcp_transport.rs:224-296 | in every reachable state with a living worker, every awaited answer that is not lost can still arrive, through a run of the bridge |
| `DispatchBridge.FreshIsServed` | crates/wombatkv-daemon/src/tcp_transport.rs:426-481 | whatever else is going on, a new connection’s first request can be received and answered |
| `DispatchBridge.CloseIsFinal` | crates/wombatkv-daemon/src/tcp_transport.rs:426-481 | after a close nothing is read from or written to the connection in any run |
| `DispatchBridge.ShardIdsRepeatIff` | crates/wombatkv-daemon/src/tcp_transport.rs:379-396 | two accepts of one shard get the same id exactly when they are a multiple of 2^64 apart |
| `DispatchBridge.ShardsClashIff` | crates/wombatkv-daemon/src/tcp_transport.rs:379-396 | two shards give out a common id exactly when the lower one has run through the range up to the other’s first id |
| `DispatchBridge.ConnIdsDistinct` | crates/wombatkv-daemon/src/tcp_transport.rs:379-396 | ids are distinct while every shard has accepted at most 2^32 connections |
| `Latency.BucketBelow` | crates/wombatkv-node/src/latency_histogram.rs:266-274 | a sample is in the first k buckets exactly when it is below 2^k |
| `Latency.MaxKept` | crates/wombatkv-node/src/latency_histogram.rs:86-93 | every load, exchange and spurious failure keeps: finished calls are at or below the maximum, and the maximum is a recorded value |
| `Latency.QuiescentSnapshotIsExact` | crates/wombatkv-node/src/latency_histogram.rs:77-112 | for every interleaving, once all calls finish, buckets, overflow, sum and count are those of the samples and the maximum is the true one |
| `Latency.FinishCall` | crates/wombatkv-node/src/latency_histogram.rs:77-112 | from every reachable state a call left alone finishes within five steps, whatever the others are in the middle of |
| `Latency.EverySampleListIsRecorded` | crates/wombatkv-node/src/latency_histogram.rs:77-112 | every list of samples is what some run records |
| `Latency.BucketsAddUp` | crates/wombatkv-node/src/latency_histogram.rs:77-112 | buckets and overflow add up to the count |
| `Latency.CumulativeCounts` | crates/wombatkv-node/src/latency_histogram.rs:154-174 | the first i buckets count the samples below 2^i |
| `Latency.TargetInRange` | crates/wombatkv-node/src/latency_histogram.rs:154-174 | for p in (0, 100] the target rank is between 1 and the count |
| `Latency.TargetIsRank` | crates/wombatkv-node/src/latency_histogram.rs:154-174 | the target is the one rank k with 100 (k - 1) < p n <= 100 k |
| `Latency.PercentileBound` | crates/wombatkv-node/src/latency_histogram.rs:154-174 | for p in (0, 100], the rank k with 100 (k - 1) < p n <= 100 k and t the k-th smallest sample, the reported U satisfies t < U <= 2 max(t, 1) while t < 2^30, and is the maximum otherwise |
| `Latency.PercentileOutside` | crates/wombatkv-node/src/latency_histogram.rs:154-174 | no samples give None, p at or below 0 gives 2, p above 100 gives the maximum |
| `Latency.KthExists` | crates/wombatkv-node/src/latency_histogram.rs:154-174 | the k-th smallest sample exists and is what sorting puts at position k |
| `Latency.PercentileLoop` | crates/wombatkv-node/src/latency_histogram.rs:154-174 | the accumulating loop computes the percentile |
| `Arena.WrittenEffect` | crates/wombatkv-daemon/src/arena.rs:163-210 | a write puts the payload in its slab, moves the offset, bumps the epoch exactly on a wrap, and touches no other byte |
| `Arena.WriteGoesWhere` | crates/wombatkv-daemon/src/arena.rs:163-210 | a payload that fits behind the last one goes there in the same epoch; one that does not goes to byte 64 in the next epoch; one over size - 64 changes nothing; no other byte moves |
| `Arena.WriteKeeps` | crates/wombatkv-daemon/src/arena.rs:163-210 | a write keeps every slab’s promise |
| `Arena.LE64IsField` | crates/wombatkv-daemon/src/arena.rs:163-210 | the little-endian 64-bit fields read back what was written |
| `Arena.EveryHistoryIsSound` | crates/wombatkv-daemon/src/arena.rs:163-210 | over every sequence of writes the rest of the header stays zero, slabs of one epoch do not overlap and live slabs keep their bytes |
| `Arena.HeaderStaysIntact` | crates/wombatkv-daemon/src/arena.rs:131-210 | with the real fields: no sequence of writes touches the rest of the header |
| `Arena.SlabsDisjoint` | crates/wombatkv-daemon/src/arena.rs:163-210 | with the real fields: two slabs of one epoch never overlap |
| `Arena.HandleReadsBackIff` | crates/wombatkv-daemon/src/arena.rs:264-270 | a live slab is read back through its returned handle exactly when it is below 4 GiB |
| `Arena.ReadableIff` | crates/wombatkv-daemon/src/arena.rs:264-270 | exactly the ranges behind the header and within the arena are readable, and the error names what was asked |
| `Arena.LiveSlabReadsBack` | crates/wombatkv-daemon/src/arena.rs:163-270 | with the real fields, over every sequence of writes: the same while its epoch is current, or one wrap later while the offset has not passed it |
| `Arena.FittingAllReadable` | crates/wombatkv-daemon/src/arena.rs:163-270 | payloads that fit the arena together are all readable at the end, each where the ones before it end |
| `Arena.ArenaWriter.constructor` | crates/wombatkv-daemon/src/arena.rs:131-155 | a new arena has zero header but for the next offset |
| `Arena.ArenaWriter.WritePayload` | crates/wombatkv-daemon/src/arena.rs:163-210 | the mapped buffer after the call, the offset and the length cut to 32 bits that are returned, and exactly when a payload starts over at the front or is refused |

## Left out

- rkyv payloads and the `WireRequest`/`WireResponse` codecs: the layout is a library's; requests are their bytes.
- SlateDB metadata, the S3 client, the WAL store and the segment store: only put, get, delete and list of objects are used.
- foyer, the shared-memory rings, compio, mmap and CPU pinning: foyer is a map that may lose entries at any time.
- The daemon's dispatch function, the C ABI wrappers, borrow handles, configuration, metrics, heartbeats and prefetch scoring.
- HTTP head syntax: the head parser is a function parameter that yields route, framing and keep-alive; what is proved is buffering and framing.
- Sidecar pre-warming in bootstrap: it only fills a cache.
- Remote arms of `put_kv_blocks`, `get_many_kv_batch` and `lookup_block_prefix_hex`: only the embedded arms are modelled.
- Non-block keys of a namespace in `TieredStore`: for them file names can collide (`FlatNamesCollide`).
- Flat-file writes are one step: the temporary file and its rename are not separate.
- Eviction.RunCycle: byte totals are unbounded, so `u64` saturation is not modelled; it cannot set in while the total fits 64 bits.
- Eviction.HeadroomTarget: exact arithmetic in place of `f64` rounding; the lemmas hold for every target up to the budget.
- Latency.PercentileBound: `p` and the rank are exact, where the code computes them in `f64`.
- Latency.QuiescentSnapshotIsExact: counters are unbounded; wrap-around at 2^64 and `reset` are not modelled.
- Arena.EveryHistoryIsSound: fewer than 2^64 - 1 writes and arenas below 2^63 bytes; whole writes only, as the code defers reader-side detection of a wrap during a write.
- DispatchBridge.NeverStuck: absence of deadlock, not fairness; that a waiting request is served in the end depends on the scheduler.
- DispatchBridge.ConnIdsDistinct: ids that fit 64 bits; the counter's wrap past them is modelled in `ConnId` but not reached.
- BlockStore.PutKvBlocks: one batch alone, with an unbounded byte total where the code saturates; concurrent batches are the steps of the state machine in the same file.
- TieredStore.WombatKVKvStore.PutKv: claims nothing about later reads of a payload whose put failed beyond the state it left.
