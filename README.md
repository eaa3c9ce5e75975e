# PessiTorrent core in Dafny

PessiTorrent is a small peer-to-peer file sharing system. A central
**tracker** keeps, over TCP, the list of registered nodes and the files each
one shares. A **node** publishes its files to the tracker. It asks the tracker
who holds a file, then downloads the file chunk by chunk from the other nodes
over UDP. Each chunk is checked against the SHA-1 digest the tracker sent, and
the node keeps per-peer download statistics.

This project models the core of both programs:

- **Wire formats**
  - the reflection-driven packet codec: type byte, then little-endian integers and
    length-prefixed strings and arrays (`WireCodec`);
  - the older hand-written big-endian codec of the tracker packets (`TrackerSer`);
  - the packet catalogue and its type constants (`Packets`).
- **Bitfields** packing a list of chunk indices into bytes, one bit per chunk,
  most significant bit first (`Bitfield`, `SerializationBitfield`, the
  `uint8` variant in `TrackerSer`).
- **Chunk geometry**: the chunk size chosen for a file, the chunk boundaries and
  per-chunk hashing (`ChunkGeometry`).
- **Synchronized collections**: the locked map and list (`Structures`).
- **Tracker registry**: the init, publish, request and remove handlers
  (`TrackerRegistry`).
- **Node**:
  - the download scheduler run on every tick: skip, refresh, complete, rarity
    order, the peer walk with timeouts and eviction, and dispatch (`Scheduler`);
  - the node's handlers and commands (`NodeClient`);
  - its download statistics (`Statistics`).

Imperative Go code is modelled by classes whose methods are proved against
specification functions:

- `Structures.SynchronizedMap` / `SynchronizedList`;
- `TrackerRegistry.NodeInfo` / `Tracker`;
- `TrackerSer.ByteReader`, `Buffer` and the five packet classes;
- `Statistics.NodeStatistics`;
- `NodeClient.Node`.

Loops become methods with invariants. The in-place bit setter works on an
`array`. Pure computations become functions and lemmas.

Environment inputs become parameters:

- the clock (`now`, in milliseconds);
- the SHA-1 function (`hash: seq<byte> -> Digest`);
- the order in which the Go map iteration visits the files being downloaded;
- the peer ranking. Go derives it from floating-point average speeds; here it is
  any permutation of the file's peers.

## Model

| member | source | states |
|---|---|---|
| Bitfield.SetBitValue | internal/protocol/bitfield.go:30-38 | setting a bit keeps the bitfield's length |
| Bitfield.GetAfterSet | internal/protocol/bitfield.go:30-49 | after SetBit(q), GetBit(p) holds iff p == q or it held before |
| Bitfield.SetBitOnlyTouchesItsBit | internal/protocol/bitfield.go:30-49 | SetBit changes only byte pos/8, and only by turning bit pos on |
| Bitfield.SetBitIdempotent | internal/protocol/bitfield.go:30-38 | setting the same bit twice equals setting it once |
| Bitfield.SetBitCommutes | internal/protocol/bitfield.go:30-38 | setting two bits in either order gives the same bitfield |
| Bitfield.SetBit | internal/protocol/bitfield.go:30-38 | the in-place array update equals the functional SetBitValue of the old contents |
| Bitfield.Fill | internal/protocol/bitfield.go:3-14 | setting a list of bits keeps the bitfield's length |
| Bitfield.FillBits | internal/protocol/bitfield.go:3-14 | after setting every listed bit, a bit is on iff it is listed or was on before |
| Bitfield.EncodedBits | internal/protocol/bitfield.go:3-14 | the encoding has last/8+1 bytes and bit p is on iff p is in the chunk list |
| Bitfield.EncodeBitField | internal/protocol/bitfield.go:3-14 | the loop that allocates last/8+1 bytes and sets each listed bit yields exactly the encoding above |
| Bitfield.DecodeBitField | internal/protocol/bitfield.go:16-27 | the decode loop yields the positions of the set bits, each cast to the index type. When the field fits the index type, the result is strictly ascending and holds exactly the set bits |
| Bitfield.DecodedExact | internal/protocol/bitfield.go:16-27 | decoding the first n bits yields, in ascending order, exactly the positions below n whose bit is set |
| Bitfield.AscendingUnique | internal/protocol/bitfield.go:16-27 | two strictly ascending lists with the same members are equal (the decoder's output is determined by its set) |
| Bitfield.DecodeEncode | internal/protocol/bitfield.go:3-27 | round trip: decoding the encoding of a non-empty ascending chunk list within the index type gives the list back |
| Bitfield.SevenChunksEncodeToFE | internal/protocol/bitfield.go:3-14 | chunks 0..6 encode to the single byte 0xFE |
| SerializationBitfield.EncodeBitField | internal/serialization/bitfield.go:4-15 | the older package's encoder: last/8+1 bytes, bit p on iff p is listed |
| SerializationBitfield.DecodeBitField | internal/serialization/bitfield.go:18-29 | the older package's decoder: ascending positions of the set bits when the field fits uint16 indices |
| SerializationBitfield.DecodeEncodeUint16 | internal/serialization/bitfield.go:4-29 | round trip of the older package with uint16 indices |
| SerializationBitfield.SetBitsThenGetBits | internal/common/tracker_test.go:198-215 | after setting bits 0, 5 and 10 of a ten-byte field, all three read back as set |
| ChunkGeometry.CeilDivCovers | internal/utils/hashing.go:65-71 | the rounded-up quotient covers its dividend and, for a positive dividend, is the least such |
| ChunkGeometry.ChunkSizeShape | internal/utils/hashing.go:65-71 | the chunk size is a multiple of 16000; it is 0 iff the file is empty; 65536 chunks of that size cover the file |
| ChunkGeometry.ChunkSizeMonotone | internal/utils/hashing.go:65-71 | a larger file never gets a smaller chunk size |
| ChunkGeometry.ChunkSizeExamples | internal/utils/hashing.go:65-71 | 1 GB gives 16000-byte chunks and 4.19 GB gives 64000, the two cases of internal/utils/hashing_test.go:79-80; 100 kB gives 16000 |
| ChunkGeometry.NumChunksBound | internal/utils/hashing.go:30-61 | a non-empty file has between 1 and 65536 chunks, so every chunk index fits uint16 |
| ChunkGeometry.ChunksPartition | internal/utils/hashing.go:47-60 | the chunks are non-empty, contiguous, at most chunkSize long, start at 0 and end at the file size |
| ChunkGeometry.HashFileChunks | internal/utils/hashing.go:30-61 | returns the chunk size and, for each chunk i, the hash of exactly bytes [i·size, min((i+1)·size, len)) |
| Packets.GetPacketType | internal/protocol/packets.go:17-219 | every packet reports a type byte of at most 12, except PublishChunkPacket, whose constant is undefined |
| Packets.PacketStructFromType | internal/protocol/types.go:23-54 | a byte of at most 12 selects a well-formed zero-valued packet; any other byte selects nothing |
| Packets.StructFromTypeReportsType | internal/protocol/types.go:3-54 | the struct a type byte selects reports that same byte, so the thirteen constants are distinct |
| Packets.TypeSelectsOwnKind | internal/protocol/types.go:23-54 | the byte a packet reports selects a packet of the same kind |
| Packets.NewPublishFileSuccessPacket | internal/protocol/packets.go:81-86 | a success packet for the file whose Type field is the publish type |
| Packets.NewRemoveFileSuccessPacket | internal/protocol/packets.go:88-93 | a success packet for the file whose Type field is the remove type |
| Packets.SuccessKindsDiffer | internal/protocol/packets.go:81-93 | a publish success and a remove success are never the same packet |
| Packets.NewPublishChunkPacket | internal/protocol/packets.go:47-56 | the bitfield encodes exactly the given chunks, and BitfieldSize is its byte length |
| Packets.NodeEntry | internal/protocol/packets.go:145-167 | one holder entry: address, port and the encoding of its chunk list |
| Packets.NewAnswerNodesPacket | internal/protocol/packets.go:145-167 | exactly nNodes entries, entry i built from the i-th address, port and chunk list; the file fields are copied |
| Packets.NodeEntryDecodes | internal/protocol/packets.go:145-167 | decoding a holder entry's bitfield with its BitfieldSize gives back the holder's chunk list |
| Structures.SynchronizedMap.constructor | internal/structures/sync_map.go:10-14 | a new map is empty |
| Structures.SynchronizedMap.Get | internal/structures/sync_map.go:16-22 | reports the stored value iff the key is present |
| Structures.SynchronizedMap.Put | internal/structures/sync_map.go:24-29 | the map becomes the old map with key bound to val |
| Structures.SynchronizedMap.Delete | internal/structures/sync_map.go:31-36 | the key is removed; deleting an absent key changes nothing |
| Structures.SynchronizedMap.Len | internal/structures/sync_map.go:38-43 | the number of keys |
| Structures.SynchronizedMap.Keys | internal/structures/sync_map.go:45-55 | every key exactly once, in some order |
| Structures.SynchronizedMap.Values | internal/structures/sync_map.go:57-67 | one value per key, each paired with a distinct key, in some order; every stored value is among the results |
| Structures.SynchronizedMap.Contains | internal/structures/sync_map.go:69-75 | true iff the key is present |
| Structures.SynchronizedMap.ForEach | internal/structures/sync_map.go:77-84 | the callback is applied once to every key and value, in some order; every entry's result is among the results |
| Structures.MapClient | internal/structures/sync_map.go:16-36 | Put then Delete of the same key leaves that key absent, and other keys unchanged |
| Structures.IndexOf | internal/structures/sync_list.go:21-33 | the first index holding the value |
| Structures.SwapRemoveDropsOne | internal/structures/sync_list.go:21-33 | moving the last element into slot i and truncating removes exactly one copy of s[i] and keeps the other slots except i |
| Structures.SynchronizedList.constructor | internal/structures/sync_list.go:10-12 | a new list is empty whatever its initial capacity |
| Structures.SynchronizedList.Add | internal/structures/sync_list.go:14-19 | the value is appended |
| Structures.SynchronizedList.Remove | internal/structures/sync_list.go:21-33 | the first occurrence is swap-removed; an absent value changes nothing |
| Structures.SynchronizedList.Len | internal/structures/sync_list.go:35-40 | the length |
| Structures.SynchronizedList.Contains | internal/structures/sync_list.go:42-53 | true iff some slot holds the value |
| Structures.SynchronizedList.ForEach | internal/structures/sync_list.go:55-62 | the callback is applied to every element in order |
| Structures.ListClient | internal/structures/sync_list.go:21-40 | removing a present value shortens the list by one and drops exactly one copy of it |
| Statistics.RecentExact | cmd/node/statistics.go:31-48 | a history entry counts towards the average iff it was received less than 100 s ago |
| Statistics.RecentAppend | cmd/node/statistics.go:42-48 | the window of an extended history is the old window plus the new entry when it is recent |
| Statistics.NodeStatistics.constructor | cmd/node/statistics.go:15-19 | zero totals and no history |
| Statistics.NodeStatistics.AddUploadedBytes | cmd/node/statistics.go:53-57 | only TotalUploaded changes, growing modulo 2^64 |
| Statistics.NodeStatistics.AddDownloadedChunk | cmd/node/statistics.go:59-77 | appends one entry, with the size truncated to uint16, to that peer only; TotalDownloaded grows by the full size modulo 2^64 |
| Statistics.NodeStatistics.RecentChunks | cmd/node/statistics.go:33-48 | the loop selects exactly the entries received within the 100 s window and counts them |
| Statistics.FreshChunkCounted | cmd/node/statistics.go:31-48 | a chunk recorded now counts now and no longer counts 100 s later |
| TrackerRegistry.CheckedBitfield | cmd/tracker/data.go:49-58 | a publisher holds every chunk 0..n-1 |
| TrackerRegistry.NewSharedFile | cmd/tracker/data.go:49-58 | copies the file fields and marks every chunk as held |
| TrackerRegistry.CheckedBitfieldEncodes | cmd/tracker/data.go:49-58 | the full chunk list can be encoded iff the file has a chunk; then it takes (n+7)/8 bytes and decodes back to itself |
| TrackerRegistry.NodeInfo.constructor | cmd/tracker/data.go:41-47 | a new node record shares no files |
| TrackerRegistry.NodeInfo.AddFile | cmd/tracker/data.go:60-62 | the file is bound under its name |
| TrackerRegistry.NodeInfo.RemoveFile | cmd/tracker/data.go:64-66 | the file's name is unbound |
| TrackerRegistry.NodeInfo.HasFile | cmd/tracker/data.go:68-71 | true iff the node shares a file of that name |
| TrackerRegistry.AddToSender | cmd/tracker/handlers.go:36-41 | every node whose connection is the sender's gains the shared file; the others are unchanged |
| TrackerRegistry.RemoveFromSender | cmd/tracker/handlers.go:82-86 | every node whose connection is the sender's loses the file; the others are unchanged |
| TrackerRegistry.HolderListExact | cmd/tracker/handlers.go:57-64 | the holders collected are exactly the registered nodes that share the file |
| TrackerRegistry.HolderListInOrder | cmd/tracker/handlers.go:57-64 | holders are collected in registration order |
| TrackerRegistry.ConsistentKept | cmd/tracker/handlers.go:10-87 | init, publish and remove keep the invariant that every shared file is tracked |
| TrackerRegistry.PublishTrackedRefused | cmd/tracker/handlers.go:22-29 | publishing a tracked name changes nothing and answers AlreadyExists |
| TrackerRegistry.PublishTwice | cmd/tracker/handlers.go:19-46 | a first publish succeeds and tracks the file; a second publish of the name is refused |
| TrackerRegistry.RemoveThenPublishRefused | cmd/tracker/handlers.go:79-87 | remove keeps the file tracked, so re-publishing it is refused |
| TrackerRegistry.RemoveOnlySender | cmd/tracker/handlers.go:79-87 | remove drops the file from the sender's records only |
| TrackerRegistry.InitTwiceTwoNodes | cmd/tracker/handlers.go:10-17 | two inits from the same connection register two identical node records |
| TrackerRegistry.RequestUntracked | cmd/tracker/handlers.go:71-76 | a request for an untracked file answers NotFound |
| TrackerRegistry.PublishThenRequestAnswers | cmd/tracker/handlers.go:19-77 | after a publish, a request answers the file's hashes and at least one holder, each holder's bitfield decoding to all chunks |
| TrackerRegistry.PublishedHolders | cmd/tracker/handlers.go:19-64 | after a publish, the file is tracked and every holder shares it with a full bitfield |
| TrackerRegistry.RequestEmptyFilePanics | cmd/tracker/handlers.go:57-70 | a file published with no chunks makes the holder encoding fail: the request handler panics |
| TrackerRegistry.Tracker.constructor | cmd/tracker/handlers.go:10-17 | a new tracker has no nodes and no files |
| TrackerRegistry.Tracker.HandleInit | cmd/tracker/handlers.go:10-17 | appends a fresh node record for the sender's connection and UDP port |
| TrackerRegistry.Tracker.HandlePublishFile | cmd/tracker/handlers.go:19-46 | the new registry and reply are those of the publish specification |
| TrackerRegistry.Tracker.CollectHolders | cmd/tracker/handlers.go:52-64 | the ForEach loop gathers, in order, the address, port and bitfield of each holder, with nNodes counted modulo 2^16 |
| TrackerRegistry.Tracker.HandleRequestFile | cmd/tracker/handlers.go:48-77 | the reply is the request specification's, and the registry is unchanged |
| TrackerRegistry.Tracker.HandleRemoveFile | cmd/tracker/handlers.go:79-87 | the new registry is the remove specification's |
| TrackerRegistry.Views | cmd/tracker/data.go:27-32 | the value view of the node records, one per node |
| TrackerSer.FromBE16OfBE16 | protocol/tracker_ser.go:67-102 | a uint16 written big-endian reads back unchanged |
| TrackerSer.Take | protocol/tracker_ser.go:38-63 | a read of n bytes succeeds iff n bytes remain; on failure the reader is drained |
| TrackerSer.ByteReader.constructor | protocol/tracker_ser.go:39 | the reader holds the whole input |
| TrackerSer.ByteReader.Read | protocol/tracker_ser.go:38-63 | consumes n bytes when available, otherwise drains the reader |
| TrackerSer.ByteReader.ReadU8 | protocol/tracker_ser.go:41-44 | a successful read replaces the field, a short one leaves it |
| TrackerSer.ByteReader.ReadU16 | protocol/tracker_ser.go:44-46 | reads a big-endian uint16, or leaves the field on a short read |
| TrackerSer.ByteReader.ReadArray | protocol/tracker_ser.go:48 | reads a fixed array, or leaves it on a short read |
| TrackerSer.ByteReader.ReadBytes | protocol/tracker_ser.go:58-60 | reads n bytes into a zero-filled buffer of length n |
| TrackerSer.Buffer.constructor | protocol/tracker_ser.go:16 | an empty buffer |
| TrackerSer.Buffer.Write | protocol/tracker_ser.go:15-36 | appends the bytes |
| TrackerSer.Padded | protocol/tracker_ser.go:31-33 | the name is copied into NameSize bytes, truncated or zero-padded |
| TrackerSer.PaddedExact | protocol/tracker_ser.go:31-33 | a name of exactly NameSize bytes is written unchanged |
| TrackerSer.ReadHashesOfConcat | protocol/tracker_ser.go:50-56 | reading count hashes from their concatenation gives them back |
| TrackerSer.ReadHashesOfNothing | protocol/tracker_ser.go:50-56 | reading hashes from an exhausted reader appends zero hashes |
| TrackerSer.PublishFile.constructor | protocol/tracker.go:5-11 | the zero value of the struct |
| TrackerSer.PublishFile.Serialize | protocol/tracker_ser.go:15-36 | panics iff there are fewer chunk hashes than NumberOfChunks; otherwise the bytes are type 1, NameSize, NumberOfChunks, FileHash, the first NumberOfChunks hashes, then the padded name |
| TrackerSer.PublishFile.Deserialize | protocol/tracker_ser.go:38-63 | the new struct is the parse of the data over the old one, appending the chunk hashes |
| TrackerSer.PublishFileRoundTrip | protocol/tracker_ser.go:15-63 | deserializing into a fresh struct gives the serialized struct back, up to name padding and the listed chunk count |
| TrackerSer.PublishFileFromNothing | protocol/tracker_ser.go:38-63 | empty input keeps the integers and appends NumberOfChunks zero hashes and a zeroed name |
| TrackerSer.PublishChunk.constructor | protocol/tracker.go:21-25 | the zero value of the struct |
| TrackerSer.PublishChunk.Serialize | protocol/tracker_ser.go:67-82 | type 3, a reserved zero byte, BitfieldSize big-endian, FileHash, then the bitfield |
| TrackerSer.PublishChunk.Deserialize | protocol/tracker_ser.go:84-102 | the new struct is the parse of the data over the old one |
| TrackerSer.PublishChunkRoundTrip | protocol/tracker_ser.go:67-102 | the round trip gives the struct back, with the bitfield cut to BitfieldSize |
| TrackerSer.RequestFile.constructor | protocol/tracker.go:36-39 | the zero value of the struct |
| TrackerSer.RequestFile.Serialize | protocol/tracker_ser.go:106-119 | type 4, NameSize, then the name padded to NameSize |
| TrackerSer.RequestFile.Deserialize | protocol/tracker_ser.go:121-135 | the new struct is the parse of the data over the old one |
| TrackerSer.RequestFileRoundTrip | protocol/tracker_ser.go:106-135 | the round trip gives the struct back up to name padding |
| TrackerSer.AlreadyExists.constructor | protocol/tracker.go:48-51 | the zero value of the struct |
| TrackerSer.AlreadyExists.Serialize | protocol/tracker_ser.go:139-154 | type 2, NameSize, two reserved zero bytes, then the name padded to NameSize |
| TrackerSer.AlreadyExists.Deserialize | protocol/tracker_ser.go:156-173 | the new struct is the parse of the data over the old one |
| TrackerSer.AlreadyExistsRoundTrip | protocol/tracker_ser.go:139-173 | the round trip gives the struct back up to name padding |
| TrackerSer.AnswerNodes.constructor | protocol/tracker.go:58-64 | the zero value of the struct |
| TrackerSer.AnswerNodes.Serialize | protocol/tracker_ser.go:177-196 | type 5, SequenceNumber, BitfieldSize, two reserved zero bytes, NodeIdentifier, NodePort, then the bitfield |
| TrackerSer.AnswerNodes.Deserialize | protocol/tracker_ser.go:198-220 | the new struct is the parse of the data over the old one |
| TrackerSer.AnswerNodesRoundTrip | protocol/tracker_ser.go:177-220 | the round trip gives the struct back exactly |
| TrackerSer.TypeByteIgnored | protocol/tracker_ser.go:38-220 | every Deserialize reads the type byte and discards it |
| TrackerSer.EncodeBitField | protocol/tracker_ser.go:222-234 | uint8 indices: at most 32 bytes, bit p on iff p is listed |
| TrackerSer.DecodeBitField | protocol/tracker_ser.go:236-247 | uint8 indices: ascending set bits for fields of at most 32 bytes |
| TrackerSer.DecodeEncodeUint8 | protocol/tracker_ser.go:222-247 | round trip for chunk lists below 256 |
| TrackerSer.DecodedSkips | protocol/tracker_ser.go:236-247 | a clear bit contributes nothing to the decoding |
| TrackerSer.DecodedNone | protocol/tracker_ser.go:236-247 | an all-clear prefix decodes to the empty list |
| TrackerSer.DecodeWrapsBeyond32Bytes | protocol/tracker_ser.go:236-247 | bit 256 of a 33-byte field decodes as index 0: the uint8 cast wraps |
| TrackerSer.SetBitsThenGetBits | protocol/utils_test.go:7-24 | after setting bits 0, 5 and 10, all three read back as set |
| WireCodec.Kinds | internal/protocol/serialize.go:75-98 | the Go type of each field value, one per field |
| WireCodec.Build | internal/protocol/serialize.go:55-66 | filling a zero struct with values of its field types gives a packet with the same field types |
| WireCodec.LE | internal/protocol/serialize.go:211-217 | a little-endian integer has exactly its width in bytes |
| WireCodec.FromLEBound | internal/protocol/serialize.go:211-213 | an n-byte little-endian read is below 256^n |
| WireCodec.FromLEOfLE | internal/protocol/serialize.go:211-217 | a value below 256^n written in n little-endian bytes reads back unchanged |
| WireCodec.Fit | internal/protocol/serialize.go:114-129 | copy into a fixed array: always the array's length, and the array itself when the lengths agree |
| WireCodec.ReadField | internal/protocol/serialize.go:100-135 | a successful field read yields a value of the requested Go type |
| WireCodec.ReadFieldsKinds | internal/protocol/serialize.go:55-66 | a successful struct read yields values of the struct's field types, in order |
| WireCodec.WriteFieldsStops | internal/protocol/serialize.go:23-34 | Serialize stops at the first field that fails |
| WireCodec.ReadFieldsStops | internal/protocol/serialize.go:55-66 | Deserialize stops at the first field that fails |
| WireCodec.WriteByteArray | internal/protocol/serialize.go:173-187 | writeArray of bytes emits the 4-byte element count, then the elements |
| WireCodec.WriteHashes | internal/protocol/serialize.go:173-187 | writeArray of hashes emits the count, then each hash as its own counted array |
| WireCodec.WriteUint16s | internal/protocol/serialize.go:173-187 | writeArray of uint16s emits the count, then each value in two little-endian bytes |
| WireCodec.SerializeField | internal/protocol/serialize.go:75-98 | succeeds iff the field's type is supported, with the encoding of that type |
| WireCodec.WriteAllFields | internal/protocol/serialize.go:23-34 | the field loop emits the fields' encodings up to the first failure |
| WireCodec.Serialize | internal/protocol/serialize.go:10-37 | the type byte, then the fields, or the first error |
| WireCodec.ReadByteArray | internal/protocol/serialize.go:189-209 | reads a count, then that many bytes, failing on short input |
| WireCodec.ReadHashArray | internal/protocol/serialize.go:189-209 | reads that many counted hashes, failing on short input |
| WireCodec.ReadUint16Array | internal/protocol/serialize.go:189-209 | reads that many little-endian uint16s, failing on short input |
| WireCodec.ReadHashesStops | internal/protocol/serialize.go:189-209 | a failed element read ends the array read with that failure |
| WireCodec.ReadUint16sStops | internal/protocol/serialize.go:189-209 | a failed element read ends the array read with that failure |
| WireCodec.DeserializeToField | internal/protocol/serialize.go:100-135 | the type switch reads the field the way its Go type dictates |
| WireCodec.Deserialize | internal/protocol/serialize.go:39-73 | reads the type byte, selects the struct, then reads its fields in order |
| WireCodec.DeserializeFields | internal/protocol/serialize.go:55-66 | the field loop reads the fields in order up to the first failure |
| WireCodec.ReadHashesAt | internal/protocol/serialize.go:173-209 | the hashes written by writeArray read back from where they were written |
| WireCodec.ReadUint16sAt | internal/protocol/serialize.go:173-209 | the uint16s written by writeArray read back from where they were written |
| WireCodec.ReadFieldAt | internal/protocol/serialize.go:75-135 | every field kind the reader supports reads back the value serializeField wrote |
| WireCodec.CanonicalEncodes | internal/protocol/serialize.go:75-98 | a field within its Go type's ranges always serializes |
| WireCodec.ReadFieldsAt | internal/protocol/serialize.go:23-66 | the fields written by Serialize read back in order, ending where the writing ended |
| WireCodec.WriteFieldsSucceeds | internal/protocol/serialize.go:23-34 | fields within their ranges always serialize |
| WireCodec.SameKindRebuilds | internal/protocol/serialize.go:47-66 | the struct selected by a packet's type byte, filled with the packet's fields, is the packet |
| WireCodec.DecodeSerialize | internal/protocol/serialize.go:10-73 | round trip: a serializable packet, followed by any bytes, deserializes to itself, having read exactly its serialization |
| WireCodec.PublishFileRoundTrip | internal/protocol/serialize_test.go:39-96 | a PublishFilePacket serialized and deserialized by the code as written comes back unchanged |
| WireCodec.AsWrittenRejectsSliceFields | internal/protocol/serialize.go:106-113 | as written, ChunkPacket and RequestChunksPacket never deserialize; the corrected reader returns them |
| WireCodec.SliceFieldRejected | internal/protocol/serialize.go:106-133 | as written, a []uint8 or []uint16 field ends deserialization with "unsupported type" |
| WireCodec.UnknownTypeByteCrashes | internal/protocol/serialize.go:47-53 | as written, a type byte above 12 panics |
| WireCodec.UnknownTypeByteRejected | internal/protocol/serialize.go:47-53 | the corrected reader returns an error for a type byte above 12 |
| WireCodec.AnswerNodesNotSerializable | internal/protocol/serialize.go:75-98 | an AnswerNodesPacket fails at its []NodeFileInfo field |
| WireCodec.WriteFieldsWithoutNodes | internal/protocol/serialize.go:75-98 | fields without a node list always serialize |
| WireCodec.PublishChunkNotSerializable | internal/protocol/packets.go:58-60 | PublishChunkPacket has no type byte, so nothing is written |
| Scheduler.EmptyDownload | cmd/node/commands.go:19 | the entry requestFile stores as written: no file name, not yet answered, no chunks and no peers |
| Scheduler.NewDownload | cmd/node/data.go:27-31 | a new entry carries the file's name, is not yet answered and has no chunks and no peers |
| Scheduler.Flags | cmd/node/node.go:140-150 | the downloaded flag of every chunk, in chunk order |
| Scheduler.MissingExact | cmd/node/node.go:183 | the missing chunks are ascending and exactly those not yet downloaded; none iff all are downloaded |
| Scheduler.CompleteIffNoneMissing | cmd/node/node.go:171-183 | a chunk not downloaded means the file is not complete and the chunk is missing |
| Scheduler.NothingDownloaded | cmd/node/node.go:183 | with nothing downloaded, every chunk 0..n-1 is missing |
| Scheduler.InsertByKeySorted | cmd/node/node.go:185-191 | inserting by key keeps the list sorted and adds exactly the element |
| Scheduler.RaritySortSorted | cmd/node/node.go:185-191 | the rarity sort orders by the number of holders and permutes its input |
| Scheduler.RaritySortKeepsSorted | cmd/node/node.go:185-191 | an already sorted list is left unchanged |
| Scheduler.RarestFirstExample | cmd/node/node.go:185-191 | chunks held by 1, 3 and 0 peers are ordered 2, 0, 1 |
| Scheduler.SubseqDistinct | cmd/node/node.go:203-205 | chunks popped from a list without repeats do not repeat |
| Scheduler.SubseqSorted | cmd/node/node.go:203-205 | chunks popped in order from a sorted list stay sorted |
| Scheduler.WalkRest | cmd/node/node.go:203-205 | the chunks left after a peer's turn are a suffix of those before it |
| Scheduler.WalkShape | cmd/node/node.go:200-222 | a peer's queue is extended only with chunks popped, in order, from the missing list |
| Scheduler.WalkQueues | cmd/node/node.go:203-219 | a peer queues at most 100 chunks, each one never asked or overdue with tries to spare |
| Scheduler.WalkTimeouts | cmd/node/node.go:209-217 | timeouts only grow, and the peer is evicted iff a timeout brought it to 3 or more |
| Scheduler.WalkQueuesUnrequested | cmd/node/node.go:203-219 | chunks never asked of this peer are all queued, in order |
| Scheduler.AssignRequests | cmd/node/node.go:198-223 | one request per peer in ranking order, each of at most 100 chunks the peer may be asked for |
| Scheduler.AssignSubseq | cmd/node/node.go:200-223 | the chunks assigned, in order, are a subsequence of the missing list: no chunk goes to two peers |
| Scheduler.AssignKeepsPeersLive | cmd/node/node.go:200-223 | the walk only evicts peers and changes their timeout counts |
| Scheduler.MarkAllFacts | cmd/node/node.go:240-243 | marking stamps each requested chunk with now and one more try and leaves the other chunks alone |
| Scheduler.MarkPlanKeepsPeers | cmd/node/node.go:225-228 | dispatch marks chunks but adds or drops no peer and keeps timeouts |
| Scheduler.MarkAllTimeouts | cmd/node/node.go:240-243 | marking does not change a peer's timeout count |
| Scheduler.TickFileOthers | cmd/node/node.go:156-229 | a file's turn touches no other file, no chunk flag and no pending publish |
| Scheduler.TickSkipsUnanswered | cmd/node/node.go:157-159 | a file the tracker has not answered yet is skipped entirely |
| Scheduler.TickCompletes | cmd/node/node.go:161-181 | a complete file sends a refresh, stops its writer, moves to the published files and leaves the downloads |
| Scheduler.TickRefreshes | cmd/node/node.go:161-169 | an incomplete file is refreshed at the tracker iff more than 5 s passed since the last refresh |
| Scheduler.TickSends | cmd/node/node.go:225-244 | the datagrams sent are those of the plan's non-empty requests |
| Scheduler.SentNames | cmd/node/node.go:232-244 | every RequestChunks datagram names the file it was built for |
| Scheduler.TickNamesEntry | cmd/node/node.go:225-244 | a tick only appends datagrams, each a RequestChunks for the entry's own FileName field |
| Scheduler.PlanRequests | cmd/node/node.go:183-223 | the plan asks each peer, in ranking order, only for chunks it may be asked for, at most 100 |
| Scheduler.PlanChunks | cmd/node/node.go:183-223 | the chunks planned are distinct, missing, in range and in rarity order |
| Scheduler.QueuedMeans | cmd/node/node.go:209-219 | a chunk is queued iff never asked of this peer, or overdue with fewer than 3 tries after this one |
| Scheduler.TickKeepsPeersLive | cmd/node/node.go:152-244 | after a tick, every remaining peer of the file was a peer before, with consistent records |
| Scheduler.SilentPeerPlan | cmd/node/node.go:209-217 | a peer on its last try and third timeout is evicted with nothing queued |
| Scheduler.SilentPeerEvicted | cmd/node/node.go:209-217 | after such a tick, the peer is gone from the file and nothing was sent |
| Scheduler.SinglePeerPlan | cmd/node/node.go:183-223 | a sole peer holding every missing chunk is asked for all of them |
| Scheduler.SevenChunkScenario | cmd/node/node.go:152-244 | a seven-chunk file held by one fresh peer sends one RequestChunks datagram for chunks 0..6 |
| Scheduler.SoleHolder | cmd/node/node.go:190 | with one peer, every chunk it holds has rarity 1 |
| Scheduler.OneChunkAnswer | cmd/node/handlers.go:51-68 | an answer with one chunk hash and one holder of chunk 0 leaves that holder as the only peer, never asked, with chunk 0 the one missing chunk, and keeps the entry's name |
| Scheduler.OneChunkTick | cmd/node/node.go:152-244 | for such an entry, the tick sends that holder one request for chunk 0 under the entry's own name |
| Scheduler.UnnamedDownloadAsksForNothing | cmd/node/commands.go:19 | with the entry requestFile stores, that request names the empty file, not the file asked for |
| Scheduler.NamedDownloadAsksForIt | cmd/node/data.go:27-31 | with a named entry, the request names the file asked for |
| Scheduler.SetDataChunks | cmd/node/data.go:33-37 | every answer installs the file hash and one chunk per hash, in order, with every chunk missing; the name and the peers are kept |
| Scheduler.AddNodeKeepsPeersLive | cmd/node/handlers.go:56-68 | adding a holder records exactly the chunks its bitfield announces and keeps the other peers, the chunks and the name |
| Scheduler.AnnouncedChunks | cmd/node/handlers.go:56-68 | a holder entry built by the tracker is recorded as holding exactly its chunk list |
| Scheduler.CorruptChunkRejected | cmd/node/handlers.go:109-140 | a chunk whose hash does not match changes nothing |
| Scheduler.ValidChunkAccepted | cmd/node/handlers.go:109-140 | a matching chunk is marked downloaded and written once; receiving it again changes nothing |
| Scheduler.ArrivalMonotone | cmd/node/handlers.go:109-140 | a chunk arrival never un-downloads a chunk or touches another file |
| NodeClient.TrimTrailingSlashes | cmd/node/commands.go:54 | the trimmed path is a prefix of the path and does not end in a slash |
| NodeClient.AfterLastSlashFacts | cmd/node/commands.go:54 | the last element is a slash-free suffix of the path |
| NodeClient.BaseFacts | cmd/node/commands.go:54 | the base name is never empty, contains no slash unless it is "/", and a plain name is its own base |
| NodeClient.BaseOfJoin | cmd/node/commands.go:54 | the base of dir/name is name |
| NodeClient.WalkPeer | cmd/node/node.go:203-222 | the inner loop computes the peer walk of the specification |
| NodeClient.Node.constructor | cmd/node/node.go:48-64 | empty maps and no output |
| NodeClient.Node.UpdateServerChunks | cmd/node/node.go:140-150 | one UpdateChunks packet with the file's chunk flags goes to the tracker; nothing else changes |
| NodeClient.Node.RequestChunks | cmd/node/node.go:232-244 | an empty list sends nothing; otherwise one datagram to the peer, and its chunks are marked |
| NodeClient.Node.AssignChunks | cmd/node/node.go:198-223 | the loop over the ranked peers computes the assignment of the specification |
| NodeClient.Node.Dispatch | cmd/node/node.go:225-228 | the datagrams sent and the peers marked are those of the plan |
| NodeClient.Node.TickFile | cmd/node/node.go:156-228 | one file's turn of the tick equals its specification |
| NodeClient.Node.Tick | cmd/node/node.go:152-230 | the tick equals the specification applied to each file in iteration order |
| NodeClient.Node.HandleAnswerNodes | cmd/node/handlers.go:42-71 | a download the node asked for gets the file data and every holder except the node itself |
| NodeClient.Node.HandleFileSuccess | cmd/node/handlers.go:74-91 | a publish success moves the pending file to the published files; a remove success drops it; another type changes nothing |
| NodeClient.Node.HandleAlreadyExists | cmd/node/handlers.go:94-99 | the pending file is dropped |
| NodeClient.Node.HandleNotFound | cmd/node/handlers.go:102-107 | the download entry is dropped |
| NodeClient.Node.HandleChunk | cmd/node/handlers.go:109-140 | the state follows the chunk arrival; the chunk is recorded for the sender, and its size added to the download total modulo 2^64, iff it was accepted from a known peer whose request for it has a time; the upload total never changes |
| NodeClient.Node.RequestFile | cmd/node/commands.go:12-22 | sends RequestFile and starts a download entry named after the file (the corrected entry of the findings below) |
| NodeClient.Node.RemoveFile | cmd/node/commands.go:131-142 | unpublishes the file and tells the tracker; never fails |
| NodeClient.Node.PublishFile | cmd/node/commands.go:47-76 | fails iff the file cannot be read or hashed, or is empty; otherwise the file is pending under its base name and one PublishFile packet is sent with the chunk size in its FileSize field, the file hash and the chunk hashes |

## Left out

- Locks, goroutines, connections, the UDP server, the CLI, DNS, logging and the ticker are not modelled. The model treats each handler as one atomic step. In Go, each packet's handler runs on its own goroutine (internal/transport/tcp.go:88, internal/transport/udp.go:88), and SynchronizedMap and SynchronizedList lock each call separately. So the model loses two check-then-act races:
  - a double publish: two publishes of one name can both pass `t.files.Contains` (cmd/tracker/handlers.go:23) before either `Put` (:33), so both are answered with success and the second overwrites the tracked file;
  - a double chunk write: a duplicated chunk can pass the downloaded check of handleChunkPacket (cmd/node/handlers.go:109-140) twice, outside the lock `tick` holds, and then be written twice. `Scheduler.ValidChunkAccepted`'s "written once" holds only for atomic handlers.
- The clock is a parameter `now` in milliseconds. SHA-1 is a parameter function `hash`. File contents, and whether opening or hashing a file fails, are parameters too.
- The average download speed is floating point and is left out; `Statistics.NodeStatistics.RecentChunks` models which entries it averages. The node ranking it induces is a parameter, any permutation of the file's peers.
- Go's `sort.Slice` is not stable. The rarity order is modelled by one legal outcome, a stable insertion sort by holder count.
- Go map iteration order is unspecified. The order of files in a tick is a parameter. Dispatch sends the plan's requests in ranking order, not in map order.
- `Scheduler.SetData` follows cmd/node/data.go:33-37: the hashes are replaced and the chunk list is rebuilt, all missing. The handler (cmd/node/handlers.go:51) also passes the file size and expects an error result; the size is stored, the answer marks the file as answered, and the error is the parameter `setDataOk` of `NodeClient.Node.HandleAnswerNodes`. The visible data.go:36 builds `NewSynchronizedList[bool](len(chunkHashes))`, which is an empty list with room for n flags (internal/structures/sync_list.go:10-12). One flag per hash, all missing, is the model's reading of that stale file, and it is what the handlers' later indexing by chunk needs.
- cmd/node/data.go predates the handlers that call it, so `AddNode`, `GetMissingChunks`, `GetNumberOfNodesWhichHaveChunk` and `MarkChunkAsRequested` are modelled from their uses. `MarkChunkAsRequested` stamps the request time, adds one try, and creates the record when it is absent.
- In the tick, the `NumberOfTries++` on a copied request record is lost. Only `MarkChunkAsRequested` updates the stored record, as in the code.
- The tick does not check that the peer holds a chunk before queueing it, as in the code.
- An evicted peer's already queued chunks are still sent, as in the code.
- requestFile stores `&ForDownloadFile{}`, whose file name is empty and is never set afterwards. The model keeps that entry as `Scheduler.EmptyDownload` for the finding below, and the node uses the named entry of `NewForDownloadFile` instead.
- A chunk index out of range in a ChunkPacket is dropped.
- The file writer is a log of write and stop events; the chunk is marked downloaded when it is accepted.
- handleRequestChunksPacket reads files from disk and is not modelled. publishDirectory walks the filesystem and is not modelled; `NodeClient.BaseOfJoin` states what it relies on.
- ChunkGeometry.ChunkSize: the ceiling is exact integer division. The source computes it with float64 and `math.Ceil` (internal/utils/hashing.go:65-71); the two can differ only when float64 rounding loses the quotient, for sizes far beyond any real file.
- Bitfield.EncodeBitField, SerializationBitfield.EncodeBitField and TrackerSer.EncodeBitField require `Bitfield.Encodable`: a non-empty list whose every index falls in the last element's byte or an earlier one. These are exactly the lists on which the source does not panic; the index-out-of-range panic on an empty list, or on an index past the last element's byte, is not modelled. TrackerSer.EncodeBitField also requires indices below 256, the range of its `[]uint8` argument.
- NodeClient.Node.PublishFile: an empty file is an error. `ChunkSize(0)` is 0, and Go's conversion of the NaN chunk count to an integer is platform-dependent. `ChunkGeometry.HashFileChunks` requires non-empty content for the same reason.
- The tracker's UpdateChunks and UpdateFile handlers are not part of this model. The node's UpdateChunks packet carries the chunk flags; the bool-to-bitfield encoder is not part of this model.
- The structs of types 5, 7 and 8 (UpdateChunks, UpdateFile, AnswerFileWithNodes) are not part of this model, so the codec reports them as not modelled.
- PublishChunkPacket names a type constant that types.go does not define; the model gives it no type byte.
- cmd/tracker/data.go shows `NewSharedFile`/`NewTrackedFile` without a file size while the handlers pass one; the model follows the handlers. `NewCheckedBitfield` is not part of this model; it is taken to mark every chunk held.
- The tracker derives the holder address with `TCPAddrToBytes`; it is a 4-byte value of the connection here.
- Addr: the tracker compares `conn.RemoteAddr()` interface values (cmd/tracker/handlers.go:37, :83), which is identity of the connection's address object. The model compares ip and port. The two differ when a stale node record and a new connection share the same ip:port: the model treats them as the same sender, and Go does not.
- Deserialize errors are one opaque error value each (short input, unsupported type, unknown type); the message texts are left out.

## Findings

| source | as written | input that shows it | evidently intended | confidence | as-written member | corrected member |
|---|---|---|---|---|---|---|
| internal/protocol/serialize.go:59 | `field.Addr().Interface()` hands the type switch a `*[]uint8`/`*[]uint16`, but lines 106-113 match `[]uint8`/`[]uint16`, so the default case rejects the field | any ChunkPacket or RequestChunksPacket, e.g. RequestChunksPacket("a", [1]) serialized and read back | match the pointer types and read the array through them, so both packets round-trip | high, not executed | WireCodec.SliceFieldRejected | WireCodec.DecodeSerialize |
| cmd/node/commands.go:19 | requestFile stores `&ForDownloadFile{}`, and neither SetData nor AddNode sets its FileName, so the tick's RequestChunks, the UpdateChunks to the tracker and the final publish all use the empty name | requestFile("a.txt"), an answer with one chunk and one holder, then a tick: the holder is asked for chunk 0 of "" | store `NewForDownloadFile(filename)` (cmd/node/data.go:27-31) | high, not executed | Scheduler.UnnamedDownloadAsksForNothing | Scheduler.NamedDownloadAsksForIt |
| internal/protocol/serialize.go:47-53 | for a type byte above 12, `PacketStructFromType` returns nil and the error branch calls `value.Type()` on an invalid reflect value, which panics | the single byte 13 | return the "not a struct" error | high, not executed | WireCodec.UnknownTypeByteCrashes | WireCodec.UnknownTypeByteRejected |
