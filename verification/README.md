# RatNet in Dafny: messages, streams, encodings, polling and routing

RatNet carries messages between nodes that meet only now and then. This project models the parts of the Rust
implementation that decide what a message looks like on its way and whether it arrives, and proves what they promise.

* **Encodings** (`src/api/remoting.rs`, `src/api/actions.rs`). `Varint`, `Frames`, `Values`, `ValueCodec`, `Records`
  and `Envelopes` model the variable-length integer (unsigned LEB128, section 7.6 of DWARF 5), length-prefixed blocks
  and frames, the recursive tagged value format with its records, bundles and arrays, and RPC calls and responses.
  `WireForms` has the exact bytes, tag by tag; `Panics` says which inputs make a reader panic. `Cursors` holds the
  growing byte vector and the reading cursor that the writers and readers update in place. Each loop over bytes is a
  method, proved equal to a specification function; the round trips are lemmas about these functions. What survives a
  trip is `Norm`: booleans and objects are written as their JSON text and arrive as strings.
* **Streams** (`src/api/chunking.rs`, `src/nodes/memory.rs`). `Nodes` has the in-memory node, a class whose maps the
  methods reassign. `Chunking` cuts a large message into a header and numbered chunks. `StreamRuns` follows whole runs
  of headers and chunks through a node, one handler call at a time, and `Cleanup` says what they leave in the maps.
  `Interleaving` lets any number of chunk handlers run at the same time, each access to a shared map being one step;
  `Overlaps` counts what they deliver, `Leftovers` says when nothing is left behind, and `SoloRuns` that a handler on
  its own is a handler call.
* **Store and forward** (`src/nodes/memory.rs`, `src/policy/common.rs`, `src/router/default.rs`). `Pickups` says what
  a budgeted pickup takes and when a flush shows, and `Outboxes` what each outbox operation does entry by entry;
  `Transfers` carries messages from one node's outbox to another node's application; `Polling` has the peer table and
  one poll of a server; `PollingRuns`, `PollingHistory` and `PollingLosses` follow runs of sends and polls; `Routing`
  reads frames, dispatches them and copies channel messages along the patch table.
* **Advertisements** (`src/policy/p2p.rs`). `DnsNames` writes, skips and extracts names (RFC 1035 sections 3.1 and
  4.1.4) and decides whether a chain of compression pointers ends; `Advertisement` builds the two-record mDNS packet
  and walks received ones (RFC 1035 sections 4.1.1 and 4.1.3, RFC 2782). `Packets` has the literal bytes of an
  advertisement, and what the packets of any sender announce.

`Bytes` has bytes, machine integers, results and fixed-width integers. A string is the sequence of its UTF-8 bytes
(section 4 of RFC 3629), which `Utf8` proves to be the encodings of characters. `dafny verify dfyconfig.toml` checks
the whole project.

## Where the code does not do what one might expect

Each of these is proved, with the exact condition under which the expected behaviour holds.

* Exactly-once delivery holds when handler calls are atomic (`StreamRuns.DeliveredOnceComplete`). When they overlap, a
  stream is delivered at least once and only ever with its own content, but up to as many times as it has handlers
  (`Overlaps.MostDeliveries`); it is delivered once in every schedule if and only if it has a single handler
  (`Overlaps.DeliveredAtMostOnce`).
* A chunk number outside the announced range counts like any other; a stream that receives one before it is complete is
  never delivered until a new header opens it again.
* A chunk that arrives when its stream is not open, be it early, late or repeated, is stored and stays stored; a delivery
  removes exactly the announced chunks stored until then (`Cleanup.CheckRemovesExactly`, `Cleanup.DeliveryLeavesNothing`).
* `dropoff` hands every message of a bundle to the application. The header and the chunks of a split message that travel
  in a bundle therefore arrive in pieces and are never joined; only frames that are routed are
  (`Transfers.SplitMessageArrivesInPieces`, `Chunking.EndToEnd`).
* Content of 2^32 bytes or more loses its end exactly when its length modulo 2^32 does not fit one message and is a
  multiple of the payload size (`Chunking.SplitLosesNothing`, `Chunking.LongContentLosesItsEnd`).
* A length prefix of 2^63 or more makes a reader panic, since the vector is made before its bytes are looked for. This
  happens exactly when the ten-byte prefix of a block read on the way sets bit 63, and never for anything that was
  written (`Frames.BlockPanics`, `Panics.ValuePanics`, `Panics.WrittenNeverPanics`).
* The first poll of a server panics after a successful key exchange, since the key is read from the entry fetched before
  the exchange; the comment above `poll_server` says the key is fetched if not cached. An entry has its key cached exactly
  when one poll of it has panicked (`PollingHistory.EntryTellsHistory`).
* The poller passes an empty channel list, with which nothing is ever sent (`PollingHistory.EmptyListSendsNothing`). The
  channel list is therefore a parameter of the model.
* A poll whose cursor moves keeps every message if and only if the byte limit has room for all it may take
  (`PollingLosses.PollLosesWithoutRoom`). A run of five events that lacks the room once loses a message
  (`PollingLosses.CrowdedRunLoses`), and nothing brings it back (`PollingLosses.LostStaysLost`).
* The advertisement of an empty address is built but never found, and longer addresses than 31 bytes are refused
  (`Advertisement.AdvertisementIsFound`).
* A received packet can crash the walk: a service name whose compression pointers meet an offset twice overflows the
  stack, and one that ends in half a pointer indexes out of range. Packets of 30 bytes do either
  (`Advertisement.LoopingPacket`, `Advertisement.HalfPointerPacket`); with enough stack for all pointer targets no other
  packet does (`Advertisement.PacketCrashes`).

## Model

| member | source | states |
|---|---|---|
| Varint.DecodeAfterEncode | src/api/remoting.rs:547-581 | for every u64 and any following bytes, decoding an encoding returns the value and exactly the number of bytes written |
| Varint.VarintLength | src/api/remoting.rs:547-555 | every encoding has 1 to 10 bytes |
| Varint.EncodingLength | src/api/remoting.rs:547-555 | the encoding of n fits k bytes if and only if n is below 128 to the power k |
| Varint.EncodingIsShortest | src/api/remoting.rs:547-581 | no byte sequence that decodes to a value is shorter than that value's encoding |
| Varint.EncodingPrefixFree | src/api/remoting.rs:547-581 | no encoding is a proper prefix of another one |
| Varint.NextDigit | src/api/remoting.rs:567-578 | at shift 7k the bits set so far lie below the shift, so or-ing the next digit in adds it, and the sum is the value of all digits modulo 2^64; the tenth digit is the only one that can lose bits |
| Varint.EncodingDigits | src/api/remoting.rs:547-555 | byte i of an encoding holds base-128 digit i of the number, and the high bit unless it is the last byte |
| Varint.ValueDigits | src/api/remoting.rs:558-581 | digit i of a decoded value is the low seven bits of byte i |
| Varint.DecodingIsExact | src/api/remoting.rs:558-581 | a value is decoded if and only if one of the first ten bytes is below 128, from the bytes up to there; it is an early end exactly when at most ten bytes are there and all have the high bit, and an overflow exactly when more are there and ten have it |
| Varint.VarintEncode | src/api/remoting.rs:547-555 | the loop writes the specified encoding |
| Varint.VarintDecode | src/api/remoting.rs:558-581 | the loop with its 64-bit shifts decodes as specified, leaves the cursor right behind the varint, and fails exactly on inputs that end too early or run past ten bytes |
| Frames.DecodeAfterEncodeBlock | src/api/remoting.rs:528-544 | a block followed by anything is read back and the reader stops where it ends |
| Frames.BlockIsExact | src/api/remoting.rs:536-544 | a block is read if and only if a length below 2^63 stands there with as many bytes after it, and these are the block |
| Frames.BlockCutShort | src/api/remoting.rs:536-611 | a block that is cut short anywhere is an unexpected end for both readers |
| Frames.CollectorAgrees | src/api/remoting.rs:584-604 | the ten-byte length collector accepts exactly the prefixes the varint decoder accepts, and hands it the same bytes |
| Frames.FrameIsBlock | src/api/remoting.rs:536-611 | a frame is read off a stream exactly when a block is read from a cursor, with the same bytes, and both panic on the same inputs; their results differ only on exactly ten bytes that all have the high bit |
| Frames.BlockPanics | src/api/remoting.rs:536-544 | reading a block panics exactly when its length prefix has ten bytes and the last one is odd, which are the lengths of 2^63 and more, whatever follows |
| Frames.FrameStreamRoundTrip | src/api/remoting.rs:584-619 | writing any list of buffers and reading as many frames returns the list and leaves what follows |
| Frames.WriteBlock | src/api/remoting.rs:528-533 | appends exactly one block to the vector |
| Frames.ReadBlock | src/api/remoting.rs:536-544 | reads one block off the cursor and leaves the rest; fails when bytes are missing, and panics on a length of 2^63 or more before looking for them |
| Frames.WriteBuffer | src/api/remoting.rs:614-619 | appends exactly one frame to the stream |
| Frames.ReadBuffer | src/api/remoting.rs:584-611 | reads one frame off the stream and leaves the rest; fails when bytes are missing, and panics on a length of 2^63 or more before looking for them |
| Frames.CollectPrefix | src/api/remoting.rs:584-604 | the collecting loop never indexes past its ten bytes and collects the length prefix up to the first byte below 128 |
| Values.RoundTrip | src/api/remoting.rs:231-325 | for every value that can be written and any following bytes, reading returns Norm of the value and stops exactly at the following bytes |
| Values.ItemsRoundTrip | src/api/remoting.rs:253-262 | the same for the items of an array, one after the other |
| Values.SerializeFailsOnFloats | src/api/remoting.rs:236-262 | writing fails, with the unsupported-number error, if and only if a float occurs at the top or inside nested arrays |
| Values.NormIdempotent | src/api/remoting.rs:253-271 | Norm is idempotent, and a value and its Norm are written as the same bytes |
| Values.NodesAreBounded | src/api/remoting.rs:276-515 | on any bytes whatsoever, a value that was read has at most as many nodes as bytes were consumed, across all array tags |
| Values.Deserialize | src/api/remoting.rs:276-515 | reading ends on any bytes; on success it consumed at least one byte and none past the end |
| Values.DecodeRecord | src/api/remoting.rs:326-461 | a record is an object and takes at least one byte and none past the end |
| WireForms.NumbersAndNull | src/api/remoting.rs:233-247 | null is the byte 1; a number is the tag 2 and its two's complement in eight bytes, or from 2^63 on the tag 3 and its eight bytes |
| WireForms.Texts | src/api/remoting.rs:249-270 | a string is the tag 4, its length and its bytes; a boolean or an object is the string of its JSON text |
| WireForms.Arrays | src/api/remoting.rs:253-262 | an array is the tag 7 and a block with the number of items and their encodings in order |
| WireForms.NumbersAreRead | src/api/remoting.rs:283-294 | eight bytes behind the tag 2 are read as two's complement and behind the tag 3 as they are, whatever the size |
| WireForms.ShortNumbersFail | src/api/remoting.rs:283-294 | fewer than eight bytes behind these tags are an unexpected end |
| WireForms.BytesAreRead | src/api/remoting.rs:276-301 | a block behind the tag 5 is read as its base64 text |
| WireForms.OtherTagsAreText | src/api/remoting.rs:276-515 | a block behind any tag without a meaning of its own is read as a string, and refused when it is not UTF-8 |
| WireForms.RecordsAreText | src/api/remoting.rs:326-461 | a record of any kind with a field that is not UTF-8 is refused, whichever field it is |
| Utf8.ValidMeansEncoded | src/api/remoting.rs:276-515 | the bytes taken for a string are exactly the encodings of sequences of characters, surrogates, overlong forms and numbers over 0x10FFFF excluded |
| ValueCodec.WriteValue | src/api/remoting.rs:231-273 | appends exactly the specified bytes; a failed write leaves nothing behind but the tag byte of an array |
| ValueCodec.WriteItems | src/api/remoting.rs:253-262 | the loop over items appends their encodings in order and stops at the first float |
| ValueCodec.ReadValue | src/api/remoting.rs:276-515 | reads as specified and leaves the cursor exactly behind the value; it ends because every inner block is shorter |
| ValueCodec.ReadArray | src/api/remoting.rs:302-325 | reads the block of an array, its count and its items, whatever the tag says the items are |
| ValueCodec.ReadItems | src/api/remoting.rs:302-325 | the loop over items collects exactly the specified items in order or fails with the first failing one |
| ValueCodec.ReadRecord | src/api/remoting.rs:326-461 | all blocks of a record are read before any text is checked |
| ValueCodec.ReadBundle | src/api/remoting.rs:490-506 | a bundle is a block and a signed time |
| Records.RecordIsRead | src/api/remoting.rs:326-461 | the blocks of a contact, channel, profile or peer, and its flag byte where it has one, are read as the object with exactly these fields, whatever follows |
| Records.RecordCutShort | src/api/remoting.rs:326-461 | a record of any kind that breaks off anywhere, before its flag byte too, is an unexpected end |
| Records.TaggedRecordIsRead | src/api/remoting.rs:326-461 | the same behind its tag; bytes after the fields inside the block are ignored and the reader stops where the block ends |
| Records.TaggedBundleIsRead | src/api/remoting.rs:490-506 | a tagged bundle is read as its data in base64 and its signed time, for every signed 64-bit time |
| Records.ItemsAreRead | src/api/remoting.rs:302-487 | items that are each read back whatever follows are read back one after the other |
| Records.TaggedArrayIsRead | src/api/remoting.rs:302-487 | an array of any array tag is read item by item, and the reader stops where its block ends |
| Records.RecordArrayIsRead | src/api/remoting.rs:341-487 | any list of records behind its array tag is read as the objects meant, in order |
| Records.BlobArrayIsRead | src/api/remoting.rs:302-314 | any list of byte strings is read as their base64 texts, in order |
| Panics.ValuePanics | src/api/remoting.rs:276-544 | on any bytes, reading a value panics if and only if one of the blocks it reads on the way, before its first failure, claims 2^63 bytes or more |
| Panics.WrittenNeverPanics | src/api/remoting.rs:231-325 | what was written for a value, followed by anything, leads the reader to no such block |
| Panics.CallPanics | src/api/remoting.rs:143-156 | reading a call panics if and only if its value does |
| Panics.ResponsePanics | src/api/remoting.rs:174-194 | reading a response panics if and only if its first value does, or its second one after a first one that was read |
| Panics.LongestClaim | src/api/remoting.rs:536-544 | a string tag and the length 2^64 - 1 panic, whatever follows |
| Envelopes.ActionRoundTrip | src/api/actions.rs:48-90 | reading the code of an action gives the action |
| WireForms.ActionsAreNumbered | src/api/actions.rs:48-90 | every action has its number, in the order of the protocol: from 1, from 16 and from 40 |
| WireForms.UnusedCodes | src/api/actions.rs:48-90 | a byte is read as the null action if and only if no action has it |
| Envelopes.CallRoundTrip | src/api/remoting.rs:112-156 | a call, followed by anything, is recovered with its action and its arguments up to Norm, and the length check never refuses it |
| Envelopes.CallFailsOnFloats | src/api/remoting.rs:112-140 | a call cannot be encoded if and only if a float occurs in its arguments |
| Envelopes.ResponseRoundTrip | src/api/remoting.rs:159-194 | both halves of a response are recovered from two values back to back, followed by anything, up to Norm, a null value becoming no value |
| WireForms.CallWithoutArguments | src/api/remoting.rs:129-140 | a call without arguments is its code and the bytes 7, 1 and 0 |
| WireForms.CallsAreArrays | src/api/remoting.rs:143-156 | a call of under two bytes, or with a value other than an array behind its code, is refused |
| WireForms.ErrorStandsFirst | src/api/remoting.rs:159-171 | a response is its error as a string, or null, and behind that its value, or null |
| WireForms.OddErrors | src/api/remoting.rs:174-194 | an error that is a number or an array is read as the empty error |
| Envelopes.RemoteCallToBytes | src/api/remoting.rs:129-140 | encodes a call as specified |
| Envelopes.RemoteCallFromBytes | src/api/remoting.rs:143-156 | decodes any bytes as specified, failures included |
| Envelopes.RemoteResponseToBytes | src/api/remoting.rs:159-171 | encodes a response as specified |
| Envelopes.RemoteResponseFromBytes | src/api/remoting.rs:174-194 | decodes any bytes as specified, failures included |
| Nodes.MemoryNode.Handle | src/nodes/memory.rs:249-261 | hands one message to the application and changes nothing else |
| Nodes.MemoryNode.AddStream | src/nodes/memory.rs:275-294 | opens the stream with nothing received, forgetting the progress of an earlier header; stored chunks stay |
| Nodes.MemoryNode.AddChunk | src/nodes/memory.rs:296-319 | stores the chunk, marks it only when the stream is open, and checks for completion when the count matches |
| Nodes.MemoryNode.CheckStreamComplete | src/nodes/memory.rs:321-391 | joins, removes and hands over a stream whose count matches and whose chunks are all stored; otherwise changes nothing |
| Nodes.MemoryNode.SendMsg | src/nodes/memory.rs:1245-1305 | appends one entry to the queue of the message's channel, or of the empty name, and changes no other queue |
| Nodes.MemoryNode.FlushOutbox | src/nodes/memory.rs:935-951 | every queue keeps, in order, exactly its entries younger than the age |
| Nodes.MemoryNode.Pickup | src/nodes/memory.rs:990-1058 | the nested loops pick what Pickups.PickIsMaximalWithinBudget describes, and change nothing |
| Nodes.MemoryNode.Dropoff | src/nodes/memory.rs:961-988 | hands over the messages of a bundle in order, and nothing for an unreadable one |
| Nodes.BundleRoundTrip | src/nodes/memory.rs:1308-1340 | the messages put into a bundle are the messages read from it, and its data is empty only without messages |
| Nodes.MissingChunk | src/nodes/memory.rs:338-350 | one missing chunk is enough for the join to fail |
| Cleanup.CheckRemovesExactly | src/nodes/memory.rs:321-391 | a check that hands a message over removes the stream and exactly its chunks numbered below the total, and changes no other entry; any other check changes nothing |
| Cleanup.IncompleteChunkIsKept | src/nodes/memory.rs:296-319 | a chunk that does not complete its stream is stored, its stream open or not, and marked only when it is open; nothing else changes |
| Cleanup.CompletingChunkDelivers | src/nodes/memory.rs:296-391 | a chunk that completes its stream hands over all pieces in order under the channel's name, and exactly the announced chunks of the stream are gone, this one included |
| Cleanup.DeliveryLeavesNothing | src/nodes/memory.rs:275-391 | after any run of one stream, the announced chunks stored are those that arrived after the delivery, or without a delivery all that arrived or were stored before; chunks of other streams are as before |
| StreamRuns.Isolation | src/nodes/memory.rs:275-391 | in any interleaving of several streams, one stream's record, chunks and deliveries are those of its own events alone |
| StreamRuns.OpenStreamsRecordTheirChunks | src/nodes/memory.rs:286-319 | in every reachable state an open stream has marked exactly the numbers sent since its last header, and each is stored with the last bytes sent for it |
| StreamRuns.DeliveredOnceComplete | src/nodes/memory.rs:286-391 | after its header a stream is handed over at most once, exactly when at some moment all announced numbers and no other had arrived, with the pieces joined in order; before that nothing is |
| StreamRuns.CompletedInRange | src/nodes/memory.rs:304-316 | with announced numbers only, that moment is when the last missing one arrives |
| StreamRuns.DeliveredOnceAmongOthers | src/nodes/memory.rs:286-391 | the same with any traffic of other streams in between |
| StreamRuns.CheckCollecting | src/nodes/memory.rs:321-391 | a check delivers a collecting stream if and only if all its chunks are there and no number is out of range |
| StreamRuns.CountTellsStrangers | src/nodes/memory.rs:337-340 | once all announced numbers are in, the 32-bit count equals the total if and only if no other number is in |
| StreamRuns.Pigeonhole | src/nodes/memory.rs:308-312 | distinct numbers below n are at most n, and n of them are all of them |
| StreamRuns.StepAgrees | src/api/chunking.rs:208-239 | a handler call does the same to two nodes that agree on its stream |
| StreamRuns.StepLeavesOthers | src/api/chunking.rs:208-239 | a handler call changes nothing of any other stream |
| Chunking.LowestLimitIsAMinimum | src/api/chunking.rs:22-35 | the loop's result is at most every positive 32-bit limit and the default, and is one of them |
| Chunking.ChunkSizeRespectsLimits | src/api/chunking.rs:22-45 | an accepted size is at least 9 and, with the overhead, at most every positive 64-bit limit, despite the cast to 32 bits |
| Chunking.ChunkSizeRefused | src/api/chunking.rs:38-42 | the size is refused if and only if some limit, cast to 32 bits, lies between 1 and 140 |
| Chunking.CalculateChunkSize | src/api/chunking.rs:22-45 | the loop computes the specified size or refusal |
| Chunking.ChunkSizeIsExact | src/api/chunking.rs:22-45 | a size is accepted if and only if, with the overhead of 132 bytes, it is the least of 65536 and the limits that are positive after the cast to 32 bits, and over 140 |
| Chunking.CalculatedSizeIsUsable | src/api/chunking.rs:22-59 | a calculated size is never refused as too small |
| Chunking.PiecesRebuildContent | src/api/chunking.rs:48-101 | the pieces concatenate to the content that the 32-bit length stands for |
| Chunking.WholeOrSplit | src/api/chunking.rs:48-82 | a message is sent as it is if and only if its 32-bit length fits beside the chunk header of eight bytes; otherwise it is cut into the least number of chunks that can carry that length, which the header announces; sizes up to eight are refused |
| Chunking.FramesKeepSender | src/api/chunking.rs:106-170 | every frame keeps the name, channel flag and public key of its message, channel message or not, and of several frames the first alone is a header |
| Chunking.SplitLosesNothing | src/api/chunking.rs:48-101 | the frames carry the whole content if and only if it is shorter than 2^32, or its 32-bit length fits one message or leaves a remainder |
| Chunking.LongContentLosesItsEnd | src/api/chunking.rs:48-101 | content of 2^32 bytes and two full payloads is carried only up to these two payloads |
| Chunking.ChunkAt | src/api/chunking.rs:85-101 | chunk number k of the split is numbered k and carries piece k |
| Chunking.FramesFit | src/api/chunking.rs:48-156 | for content shorter than 2^32 no frame is longer than the chunk size |
| Chunking.SendChunked | src/api/chunking.rs:48-103 | the frames are queued in order, header first, each stamped with the time of its own sending, or the size is refused and nothing is queued |
| Chunking.SendChunks | src/api/chunking.rs:85-101 | the loop queues one message per chunk number, and no 32-bit product in it overflows |
| Chunking.HeaderIsRead | src/api/chunking.rs:106-205 | the receiver reads from a header the stream, the total and the channel that were sent, the name only of channel messages |
| Chunking.ChunkIsRead | src/api/chunking.rs:136-232 | the receiver reads from a chunk the stream, the number and the bytes that were sent |
| Chunking.MessagesAreEvents | src/api/chunking.rs:172-239 | a chunked message is refused if and only if it has under eight bytes; otherwise it is a stream id and a number of four bytes each, lowest byte first, and what follows is the chunk, or ignored in a header |
| Chunking.HandleChunked | src/api/chunking.rs:172-239 | runs the header or chunk step, and refuses messages under eight bytes without touching the node |
| Chunking.DeliveryIsArrivals | src/api/chunking.rs:48-239 | handling a sender's frames in any order is running the arrivals of one stream |
| Chunking.EndToEnd | src/api/chunking.rs:48-239 | a split message, header first and then chunks in any order with any repetitions, arrives as exactly one message, from the first moment no chunk is missing, whatever the receiver's state; content below 2^32 bytes is intact, and the name and flag of a named channel survive |
| Interleaving.StepKeepsSafe | src/nodes/memory.rs:296-391 | every single map access of any handler keeps all that is stored, carried along or delivered for a stream a true part of it |
| Interleaving.StepKeepsAlive | src/nodes/memory.rs:296-391 | every single map access keeps a stream either intact, or being removed by a handler that will deliver it, or delivered |
| Interleaving.RunsStaySafeAndAlive | src/nodes/memory.rs:296-391 | both hold after every schedule of any number of handlers |
| Interleaving.DeliveriesAreOriginals | src/nodes/memory.rs:337-391 | in every interleaving, every message delivered for a stream is the original message |
| Interleaving.FinishedMeansDelivered | src/api/chunking.rs:208-239 | once all handlers have finished, a stream whose chunks were all handled has been delivered |
| Interleaving.CountTellsCompleteness | src/nodes/memory.rs:337-340 | while only announced numbers are marked, the count test is completeness |
| Overlaps.HandlersFinish | src/nodes/memory.rs:296-391 | in every schedule a handler has finished once it has moved 4 * total + 12 times, whatever the other handlers do |
| Overlaps.FairSchedulesDeliver | src/api/chunking.rs:208-239 | every schedule that lets each handler move that often delivers every stream whose chunks are all handled |
| Overlaps.AllCanFinish | src/api/chunking.rs:208-239 | from every initial state there is a schedule after which all handlers have finished |
| Overlaps.MostDeliveries | src/nodes/memory.rs:321-391 | a stream is never delivered more often than it has handlers; when all its chunks are handled some schedule delivers it exactly that often, and otherwise none delivers it |
| Overlaps.DeliveredAtMostOnce | src/nodes/memory.rs:321-391 | a stream whose chunks are all handled is delivered at most once in every schedule if and only if exactly one handler handles it, whatever handlers other streams have |
| Leftovers.NothingIsLeft | src/nodes/memory.rs:321-391 | when each chunk of a stream has exactly one handler, then after every schedule that finishes all handlers the stream has been delivered and neither it nor any of its chunks is in the maps |
| SoloRuns.SoloIsOneStep | src/nodes/memory.rs:296-391 | a handler that runs through its map accesses with no other in between finishes and leaves what a handler call taken as one step leaves |
| Outboxes.SendAppendsOne | src/nodes/memory.rs:1245-1305 | a sent message is the last entry of the queue of its channel, or of the empty name, with its JSON text and the time; every other queue is unchanged, and no other key is made |
| Outboxes.FlushKeepsExactlyTheYoung | src/nodes/memory.rs:935-951 | for every outbox, time and age a flush keeps the set of queues, and of each the entries at exactly the increasing list of positions younger than the age, whatever else is in them |
| Outboxes.CandidatesInOrder | src/nodes/memory.rs:996-1010 | the channels of a pickup are served in the order in which they are named, each queue from the front |
| Outboxes.PickIsGreedy | src/nodes/memory.rs:1002-1028 | a message is taken if and only if it is recent enough and readable and fits beside those taken before it |
| Outboxes.BundleIsRead | src/nodes/memory.rs:961-988 | bundle data is read as a list of messages, else as a single message, else as none |
| Pickups.PickIsMaximalWithinBudget | src/nodes/memory.rs:1002-1028 | a pickup is an order-preserving subsequence of the channels' queues, all recent enough and readable, of total size within the budget, and no message left out would fit beside it |
| Pickups.EverythingFits | src/nodes/memory.rs:1002-1028 | when the budget holds all eligible messages, all of them are taken |
| Pickups.RoomDecides | src/nodes/memory.rs:1002-1028 | a pickup takes all eligible messages if and only if its budget has room for them together |
| Pickups.FlushedCandidates | src/nodes/memory.rs:935-1010 | flushing the queues and then concatenating them is concatenating and then flushing |
| Pickups.FlushKeepsRecentPickups | src/nodes/memory.rs:935-1028 | a flush changes nothing for a pickup that asks only for messages younger than the flush age, for every outbox, channel list and budget |
| Pickups.FlushIsInvisibleToRecentPickups | src/nodes/memory.rs:935-1028 | a flush shows in no pickup of any outbox if and only if the pickup asks only for messages younger than the flush age |
| Transfers.SentAt | src/nodes/memory.rs:1245-1305 | of the messages sent to one queue, each stands in its place behind what was queued before, with its JSON text and the time of its own sending |
| Transfers.SentReachApplication | src/nodes/memory.rs:961-1058 | messages sent to one queue, picked up with room for all and dropped off at another node, reach its application unchanged and in order, behind what was queued before; nothing else there changes |
| Transfers.SplitMessageArrivesInPieces | src/nodes/memory.rs:961-988 | an unsplit message arrives as it was; of a split one the header and every chunk arrive as separate messages still marked as chunked, and no stream is opened and no chunk stored |
| Polling.PollOutcomes | src/policy/common.rs:50-202 | a poll ends with the first error of the calls it makes, with the panic, or polled; a failed one leaves nothing accepted and hands nothing over, and a polled one leaves the bundle accepted and the reply's messages handed over |
| Polling.PeerInfo.ExchangeWith | src/policy/common.rs:132-199 | counters and cursors of the entry after the three exchanges, whichever of them fails: what was counted before a failure stays counted |
| Polling.PeerTable.Entry | src/policy/common.rs:59-74 | a new host gets a fresh entry that no other host shares; all other entries stay the same objects |
| Polling.PeerTable.Remember | src/policy/common.rs:80-101 | the host's entry is replaced by one with the key and the same cursors and counters |
| Polling.PeerTable.PollKnown | src/policy/common.rs:116-201 | a poll with a cached key changes this host's entry and the node's inbox only, as specified |
| Polling.PeerTable.PollServer | src/policy/common.rs:50-202 | a poll of any host has the specified effect on the table, the inbox and the remote side, for every combination of failing calls; the panic comes from the entry fetched first, which still lacks the key just stored |
| PollingRuns.RunsKeepInv | src/policy/common.rs:50-202 | in every legal run and for every host, each queued message of the polled channels stamped before the cursor has been accepted by the host |
| PollingRuns.SentStaysQueued | src/nodes/memory.rs:1267-1305 | a message that was sent stays in its queue through any run of sends and polls |
| PollingRuns.CursorLosesNothing | src/policy/common.rs:116-198 | in every legal run, whatever calls fail and wherever, each message sent on a polled channel and stamped before a host's cursor has been accepted by that host |
| PollingRuns.CursorNeverGoesBack | src/policy/common.rs:174-177 | in a legal run a poll never moves a cursor back |
| PollingHistory.EntryTellsHistory | src/policy/common.rs:74-199 | after any run, legal or not, the sent counter is the size of all bundles the host accepted since its entry was made and the received counter that of all replies read; the local cursor is the time of the last accepted bundle but for the first, the remote cursor that of the last bundle handed over; the key is cached exactly when one poll has panicked, and none does twice |
| PollingHistory.InboxIsHandedOver | src/policy/common.rs:190-199 | after any run the messages handed over locally are those of all bundles handed over, in order |
| PollingHistory.EmptyListSendsNothing | src/policy/common.rs:119-128 | with the empty channel list the poller passes, no run gets a message accepted or a local cursor moved |
| PollingLosses.PollLosesWithoutRoom | src/policy/common.rs:116-187 | a poll that moves the cursor keeps every message, accepted or still ahead of the cursor, if and only if the byte limit has room for all eligible messages |
| PollingLosses.CrowdedRunLoses | src/policy/common.rs:116-187 | for any two different messages of a channel, a run from the start that lacks only the room, in its last poll, leaves the second one behind the cursor and not accepted |
| PollingLosses.LostStaysLost | src/policy/common.rs:116-187 | a message behind the cursor is never accepted afterwards, in any run with any limits and replies, unless it is sent again or the entry is made anew |
| Routing.FrameIsRead | src/router/default.rs:29-64 | the name and payload put into a frame are read from it, for every name of up to 65535 bytes; whatever the higher flag bits are, the lowest bit marks a stream header, the next one a chunk and the third one a channel name |
| Routing.OneEntryPerSource | src/router/default.rs:281-290 | after any patch calls the list has at most one entry per source |
| Routing.LastPatchWins | src/router/default.rs:122-290 | after any patch calls a channel is copied to exactly the targets that the last call for it listed |
| Routing.CopiesReachTheirQueues | src/router/default.rs:122-164 | each queue grows by the copies for its channel and by nothing else |
| Routing.CopiesForAreCopies | src/router/default.rs:130-151 | these are as many as the channel is listed, each under the channel name and with the content |
| Routing.CopyAt | src/router/default.rs:130-151 | the copy for each listed target stands behind the copies of the targets before it and carries the time of its own sending |
| Routing.ChannelFrameIsRouted | src/router/default.rs:214-252 | a channel frame is handed to the node once with its name and payload, and copied once per target of the last patch for its channel |
| Routing.StreamFramesGoToTheHandler | src/router/default.rs:182-212 | stream headers and chunks go to the chunk handler alone, a frame flagged as both being a header; the outbox is untouched |
| Routing.NamelessFrameIsRouted | src/router/default.rs:254-266 | a plain frame without a channel is handed to the node once, with an empty name and its payload, and nothing else changes |
| Routing.RefusedFrames | src/router/default.rs:29-277 | routing fails if and only if the frame is empty, has a channel name that is cut short or not UTF-8, or is a stream frame with under eight bytes of payload; which error it is follows from the frame, and the node is unchanged |
| Routing.DefaultRouter.AddPatch | src/router/default.rs:281-290 | removes the entries of the source and appends the new one |
| Routing.DefaultRouter.ApplyPatches | src/router/default.rs:122-164 | sends one copy per target of every matching patch, in order |
| Routing.DefaultRouter.Route | src/router/default.rs:174-277 | has the specified outcome and effect on the node for every frame, malformed ones included |
| DnsNames.JoinAfterSplit | src/policy/p2p.rs:395-425 | joining the parts of a name with dots gives the name |
| DnsNames.PartsHaveNoDots | src/policy/p2p.rs:600-612 | no label of a written name holds a dot |
| DnsNames.NamesAreEncoded | src/policy/p2p.rs:600-612 | a name is written as its parts between dots, each behind its length, and a zero byte; a part of over 63 bytes is a bad name |
| DnsNames.AddDnsName | src/policy/p2p.rs:600-612 | appends the labels and the zero byte; on a label over 63 bytes it fails, and exactly the labels before it have been appended |
| DnsNames.SkipDnsName | src/policy/p2p.rs:341-354 | skips on any bytes as specified |
| DnsNames.ExtractDnsName | src/policy/p2p.rs:395-425 | on any bytes the loop and its recursion on pointers extract the name, or fail, or crash, as specified; how many nested calls the stack has room for is a parameter |
| DnsNames.WrittenNameIsRead | src/policy/p2p.rs:341-612 | a name with labels of 1 to 63 bytes, written anywhere in a packet, is extracted unchanged, and skipping it leads to the first offset after it |
| DnsNames.WrittenLabels | src/policy/p2p.rs:341-425 | the labels read at a written name are the labels written, and skipping agrees |
| DnsNames.BehindLabels | src/policy/p2p.rs:341-425 | on any packet, what extracting and skipping make of labels is decided by what stands behind them: the end of the packet, a zero byte, a reserved or overlong length, or a pointer, which drops the labels before it |
| DnsNames.CompressedNameIsRead | src/policy/p2p.rs:341-425 | a pointer to a written name is read as that name and skipped with its two bytes |
| DnsNames.SkipIsExact | src/policy/p2p.rs:341-354 | skipping a written name ends right after it if and only if it has no empty label |
| DnsNames.LabelsAreUtf8 | src/policy/p2p.rs:601-608 | the parts of a UTF-8 name are UTF-8 |
| DnsNames.BackwardHalts | src/policy/p2p.rs:404-407 | when every pointer met leads strictly before its own segment, extraction ends after at most as many jumps as the offset it starts from |
| DnsNames.SelfPointerNeverHalts | src/policy/p2p.rs:404-407 | a pointer to itself is followed for ever |
| DnsNames.CycleNeverHalts | src/policy/p2p.rs:404-407 | a chain of pointers that meets an offset twice goes on for ever |
| DnsNames.HaltsSoonOrNever | src/policy/p2p.rs:395-425 | on any packet, following pointers ends if and only if it ends within 16385 jumps |
| DnsNames.HaltsUnlessRepeating | src/policy/p2p.rs:395-425 | on any packet, following pointers ends if and only if no jump leads to an offset met before |
| DnsNames.ExtractionOutcome | src/policy/p2p.rs:395-425 | with stack for more calls than there are pointer targets, extraction overflows the stack if and only if an offset repeats, indexes out of range if and only if the chain ends in half a pointer, and has an ordinary outcome otherwise |
| DnsNames.BackwardNeverOverflows | src/policy/p2p.rs:404-407 | pointers that lead backward need no more nested calls than the offset they start from |
| Advertisement.AddDnsSrvRecord | src/policy/p2p.rs:534-572 | appends the name, the fields, the back-patched length and the data of a service record |
| Advertisement.AddDnsTxtRecord | src/policy/p2p.rs:575-597 | appends the name, the fields, the length and the text of a text record |
| Advertisement.CreateMdnsAdvertisementPacket | src/policy/p2p.rs:500-531 | builds the header and both records, or fails as specified |
| Advertisement.WalkIsTiled | src/policy/p2p.rs:295-335 | on any bytes, the records met follow one another without a gap, lie inside the packet and take at least eleven bytes each |
| Advertisement.PacketWalkIsTiled | src/policy/p2p.rs:262-338 | the same for a whole packet with its questions skipped |
| Advertisement.P2PPolicy.ProcessMdnsPacket | src/policy/p2p.rs:262-338 | on any bytes announces exactly the peers of the records met, in order, up to the first crash, and reports success, a bad name, or that crash |
| Advertisement.P2PPolicy.ParseRatnetSrvRecord | src/policy/p2p.rs:357-391 | gives the peer a service record announces, or the error or crash, for every record |
| Advertisement.EncodedService | src/policy/p2p.rs:517-521 | the exact bytes of a service name, and that its labels are proper unless the address is empty |
| Advertisement.RankText | src/policy/p2p.rs:527-528 | the rank text fits the one length byte of a text record |
| Advertisement.PacketNeedsShortAddress | src/policy/p2p.rs:500-531 | a packet is built if and only if the address has at most 31 bytes |
| Advertisement.PacketIsWalked | src/policy/p2p.rs:262-531 | the built packet is walked to exactly its last byte, and its two records are met |
| Advertisement.AdvertisementRoundTrip | src/policy/p2p.rs:262-612 | for every address of 1 to 31 bytes and every rank, processing the built packet finds exactly one peer: the address's name, port 5353, priority and weight 0, and the encoded rank name as target |
| Advertisement.EmptyAddressIsLost | src/policy/p2p.rs:262-531 | the packet for the empty address is built, but no record of it is met |
| Advertisement.AdvertisementIsFound | src/policy/p2p.rs:262-612 | an advertisement is built and found if and only if the address has 1 to 31 bytes |
| Advertisement.LoopingPacket | src/policy/p2p.rs:262-425 | a packet of 30 bytes whose service name points at itself overflows the stack, however much room it has |
| Advertisement.HalfPointerPacket | src/policy/p2p.rs:262-425 | a packet of 30 bytes whose service name points at its last byte, the first half of a pointer, indexes out of range |
| Advertisement.PacketCrashes | src/policy/p2p.rs:262-425 | with stack for more calls than there are pointer targets, a packet crashes the walk if and only if some service record met in it has a name whose pointers repeat an offset or end in half a pointer |
| Packets.HexIsPairs | src/policy/p2p.rs:517-520 | each byte becomes two characters of "0123456789abcdef", the one for its high half first |
| Packets.DecimalSaysNumber | src/policy/p2p.rs:527-528 | the decimal text of a number has only digits, no zero in front, and says the number |
| Packets.NamesAreHexadecimal | src/policy/p2p.rs:517-520 | an address is announced under rn, its hexadecimal form and local, and the target is ng, the rank's eight bytes in hexadecimal, the lowest one first, and local |
| Packets.AdvertisementBytes | src/policy/p2p.rs:500-597 | the literal bytes of the whole packet: its header, types, classes, times to live, lengths, port, names and rank text |
| Packets.QuestionsAreSkipped | src/policy/p2p.rs:289-295 | questions are skipped, each with its name and four bytes |
| Packets.ServiceMeansWhatWasWritten | src/policy/p2p.rs:357-572 | a service record, with any name, target, port, priority and weight, means the peer with these |
| Packets.TextRecordBytes | src/policy/p2p.rs:575-597 | the literal bytes of a text record of up to 255 bytes |
| Packets.ResponseAnnounces | src/policy/p2p.rs:262-391 | a response with any questions, answers and trailing bytes announces exactly the peers its answers mean, in order: those of type 33 and class 1 with at least six bytes of data, with priority, weight, port and address read from these |
| Packets.BrokenResponse | src/policy/p2p.rs:262-338 | a response that breaks off in an answer announces the answers before; the break is an error when it is in the name, and none when it is behind |
| Packets.BrokenQuestion | src/policy/p2p.rs:287-295 | a response that breaks off in a question announces nobody; the break is an error when it is in the name, and none when it is behind |
| Packets.OthersAreIgnored | src/policy/p2p.rs:262-285 | packets of under twelve bytes, and queries whatever they hold, announce nobody and are no error |
| Advertisement.HexIsInjective | src/policy/p2p.rs:517-518 | different bytes have different hexadecimal forms |
| Advertisement.NamesTellAddressesApart | src/policy/p2p.rs:517-521 | different addresses are announced under different names |

## Left out

Contracts stated weaker than one might want:

- Values.RoundTrip: speaks of encodings shorter than 2^63 bytes, the longest a byte vector can be; so do Envelopes.CallRoundTrip, Envelopes.ResponseRoundTrip and the frame lemmas for each buffer.
- ValueCodec.ReadValue: does not model running out of memory when a length prefix below 2^63 makes the reader allocate more than there is, because that depends on the machine; the panic from 2^63 on is modelled.
- Chunking.SendChunked: takes the random stream id as a parameter.
- Interleaving.FinishedMeansDelivered: supposes that the header was handled before the first chunk handler starts and that no chunk of the stream was stored before, since a chunk handled earlier is stored but not marked.
- Overlaps.MostDeliveries: counts for streams whose header is handled once, before all chunk handlers.
- PollingRuns.CursorLosesNothing: supposes a clock that does not go back, no flush, and a byte limit with room for all messages a poll may take, without which it is false (PollingLosses.PollLosesWithoutRoom). Pickup is one step.
- PollingLosses.PollLosesWithoutRoom: speaks of polls whose calls succeed and whose queued messages are different, stamped before the poll and not yet accepted, since a message that was accepted once already is not lost by being left out.
- PollingHistory.EntryTellsHistory: counters are unbounded, while those of the code wrap at 2^63 bytes.
- Cleanup.DeliveryLeavesNothing: supposes announced numbers only, or nothing stored for the stream before its header, as StreamRuns.DeliveredOnceComplete does.
- Leftovers.NothingIsLeft: supposes one handler for each chunk, since a second one may store its chunk again after the delivery.
- Packets.ResponseAnnounces: speaks of answers whose names are written out; DnsNames.CompressedNameIsRead and Advertisement.P2PPolicy.ProcessMdnsPacket cover names with pointers.
- Pickups.PickIsMaximalWithinBudget: the budget bounds the stored sizes; the brackets and commas of the bundle's JSON text come on top.
- DnsNames.ExtractDnsName: takes each pointer as a nested call on a stack with a given room; a compiler that turned the call into a jump would loop where the model overflows.
- Routing.DefaultRouter.AddPatch: the code applies a patch in a spawned task; the model takes patches in the order in which they take effect.

Taken as parameters or not modelled:

- JSON texts and base64: JSON of messages is a pair of functions, inverse and never empty where a lemma says so; JSON of values and base64 (section 4 of RFC 4648) are functions.
- Lossy UTF-8 conversion: a function that leaves valid UTF-8 as it is; what it makes of other bytes is not modelled.
- Clocks, random numbers and RPC replies: parameters. An RPC succeeds or fails in any way; a message channel that nobody reads any more (src/nodes/memory.rs:254) is not modelled.
- The `|=` of the varint decoder is written as a sum, which Varint.NextDigit justifies.
- The transport limits behind the chunk size: the list is a parameter, since the node always returns no policies.
- The packet built inside `run_policy` (src/policy/p2p.rs:715-756), a different one; the transport a discovered peer gets; ranks inside names.
- Sockets, TLS, HTTPS, UDP and the task loops: input and output only.
- Keys, encryption and certificates: calls into libraries; a public key is an opaque value.
- The filesystem node and the SQLite storage, and the contact, channel, profile and peer calls: they would add only map wrappers.
- `bytes_bytes_to_bytes` and its reader (src/api/remoting.rs:197-228), and the router's unused handlers (src/router/default.rs:67-119): they add nothing new.
