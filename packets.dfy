/** The packets of the current protocol package: one constructor per packet
    struct, the packet-type constants, the dispatch from a type byte to an
    empty struct, and the constructors that compute something. The
    constructors that only copy their arguments into the struct are the
    datatype constructors themselves. */
module Packets {
  import opened Common
  import Bitfield

  /** A Go string: a sequence of bytes. */
  type Name = seq<byte>

  const InitType: byte := 0
  const PublishFileType: byte := 1
  const FileSuccessType: byte := 2
  const AlreadyExistsType: byte := 3
  const NotFoundType: byte := 4
  const UpdateChunksType: byte := 5
  const RequestFileType: byte := 6
  const UpdateFileType: byte := 7
  const AnswerFileWithNodesType: byte := 8
  const AnswerNodesType: byte := 9
  const RemoveFileType: byte := 10
  const RequestChunksType: byte := 11
  const ChunkType: byte := 12

  /** One holder of a file inside an AnswerNodes packet. */
  datatype NodeFileInfo = NodeFileInfo(ipAddr: seq<byte>, port: nat, bitfieldSize: nat, bitfield: seq<byte>)

  /** The packet structs. UpdateChunks, UpdateFile and AnswerFileWithNodes are
      declared outside this model; the first two carry what the node passes
      to their constructors, the third carries nothing here. */
  datatype Packet =
    | InitPacket(ipAddr: seq<byte>, udpPort: nat)
    | PublishFilePacket(fileName: Name, fileSize: nat, fileHash: seq<byte>, chunkHashes: seq<seq<byte>>)
    | PublishChunkPacket(bitfieldSize: nat, fileHash: seq<byte>, bitfield: seq<byte>)
    | RequestFilePacket(fileName: Name)
    | FileSuccessPacket(fileName: Name, kind: byte)
    | AlreadyExistsPacket(filename: Name)
    | NotFoundPacket(filename: Name)
    | AnswerNodesPacket(fileName: Name, fileSize: nat, fileHash: seq<byte>, chunkHashes: seq<seq<byte>>,
                        numberOfNodes: nat, nodes: seq<NodeFileInfo>)
    | RemoveFilePacket(fileName: Name)
    | RequestChunksPacket(fileName: Name, chunks: seq<nat>)
    | ChunkPacket(fileName: Name, chunk: nat, chunkContent: seq<byte>)
    | UpdateChunksPacket(fileName: Name, downloaded: seq<bool>)
    | UpdateFilePacket(fileName: Name)
    | AnswerFileWithNodesPacket

  /** Every field holds a value of its Go type: fixed arrays have their
      length and unsigned integers fit their width. */
  predicate WellFormedNode(n: NodeFileInfo)
  {
    |n.ipAddr| == 4 && n.port < U16 && n.bitfieldSize < U16
  }

  predicate Hashes(hs: seq<seq<byte>>)
  {
    forall i :: 0 <= i < |hs| ==> |hs[i]| == DigestSize
  }

  predicate WellFormed(p: Packet)
  {
    match p
    case InitPacket(ip, port) => |ip| == 4 && port < U16
    case PublishFilePacket(_, size, hash, hs) => size < U64 && |hash| == DigestSize && Hashes(hs)
    case PublishChunkPacket(n, hash, _) => n < U16 && |hash| == DigestSize
    case AnswerNodesPacket(_, size, hash, hs, n, nodes) =>
      size < U64 && |hash| == DigestSize && Hashes(hs) && n < U16 &&
      forall i :: 0 <= i < |nodes| ==> WellFormedNode(nodes[i])
    case RequestChunksPacket(_, cs) => forall i :: 0 <= i < |cs| ==> cs[i] < U16
    case ChunkPacket(_, c, _) => c < U16
    case _ => true
  }

  /** GetPacketType. PublishChunkPacket names a constant that the type table
      does not define, so it has no type byte here. */
  function GetPacketType(p: Packet): (t: Option<byte>)
    ensures t.None? <==> p.PublishChunkPacket?
    ensures t.Some? ==> t.value <= ChunkType
  {
    match p
    case InitPacket(_, _) => Some(InitType)
    case PublishFilePacket(_, _, _, _) => Some(PublishFileType)
    case PublishChunkPacket(_, _, _) => None
    case RequestFilePacket(_) => Some(RequestFileType)
    case FileSuccessPacket(_, _) => Some(FileSuccessType)
    case AlreadyExistsPacket(_) => Some(AlreadyExistsType)
    case NotFoundPacket(_) => Some(NotFoundType)
    case AnswerNodesPacket(_, _, _, _, _, _) => Some(AnswerNodesType)
    case RemoveFilePacket(_) => Some(RemoveFileType)
    case RequestChunksPacket(_, _) => Some(RequestChunksType)
    case ChunkPacket(_, _, _) => Some(ChunkType)
    case UpdateChunksPacket(_, _) => Some(UpdateChunksType)
    case UpdateFilePacket(_) => Some(UpdateFileType)
    case AnswerFileWithNodesPacket => Some(AnswerFileWithNodesType)
  }

  /** PacketStructFromType: a zero-valued struct of the kind the byte names,
      or nothing for a byte above 12. */
  function PacketStructFromType(t: byte): (p: Option<Packet>)
    ensures p.Some? <==> t <= ChunkType
    ensures p.Some? ==> WellFormed(p.value)
  {
    if t == InitType then Some(InitPacket(Zeros(4), 0))
    else if t == PublishFileType then Some(PublishFilePacket([], 0, Zeros(DigestSize), []))
    else if t == FileSuccessType then Some(FileSuccessPacket([], 0))
    else if t == AlreadyExistsType then Some(AlreadyExistsPacket([]))
    else if t == NotFoundType then Some(NotFoundPacket([]))
    else if t == UpdateChunksType then Some(UpdateChunksPacket([], []))
    else if t == RequestFileType then Some(RequestFilePacket([]))
    else if t == UpdateFileType then Some(UpdateFilePacket([]))
    else if t == AnswerFileWithNodesType then Some(AnswerFileWithNodesPacket)
    else if t == AnswerNodesType then Some(AnswerNodesPacket([], 0, Zeros(DigestSize), [], 0, []))
    else if t == RemoveFileType then Some(RemoveFilePacket([]))
    else if t == RequestChunksType then Some(RequestChunksPacket([], []))
    else if t == ChunkType then Some(ChunkPacket([], 0, []))
    else None
  }

  /** The type table and the packets agree: the struct a byte selects reports
      that same byte as its type, so the thirteen constants are distinct. */
  lemma StructFromTypeReportsType(t: byte)
    requires t <= ChunkType
    ensures PacketStructFromType(t).Some?
    ensures GetPacketType(PacketStructFromType(t).value) == Some(t)
  {
  }

  /** Conversely, every packet that has a type byte is selected by it: the
      dispatch yields a struct of the same kind. */
  lemma TypeSelectsOwnKind(p: Packet)
    requires GetPacketType(p).Some?
    ensures PacketStructFromType(GetPacketType(p).value).Some?
    ensures var q := PacketStructFromType(GetPacketType(p).value).value;
            GetPacketType(q) == GetPacketType(p)
  {
  }

  /** NewPublishFileSuccessPacket. */
  function NewPublishFileSuccessPacket(fileName: Name): (p: Packet)
    ensures p.FileSuccessPacket? && p.fileName == fileName
    ensures p.kind == GetPacketType(PublishFilePacket(fileName, 0, [], [])).value
  {
    FileSuccessPacket(fileName, PublishFileType)
  }

  /** NewRemoveFileSuccessPacket. */
  function NewRemoveFileSuccessPacket(fileName: Name): (p: Packet)
    ensures p.FileSuccessPacket? && p.fileName == fileName
    ensures p.kind == GetPacketType(RemoveFilePacket(fileName)).value
  {
    FileSuccessPacket(fileName, RemoveFileType)
  }

  /** The Type field tells the two kinds of success apart: the two
      constructors never build the same packet. */
  lemma SuccessKindsDiffer(a: Name, b: Name)
    ensures NewPublishFileSuccessPacket(a) != NewRemoveFileSuccessPacket(b)
  {
  }

  /** NewPublishChunkPacket: the bitfield is the encoding of the given chunk
      list, and BitfieldSize is its length cast to uint16. */
  function NewPublishChunkPacket(fileHash: seq<byte>, chunks: seq<nat>): (p: Packet)
    requires Bitfield.Encodable(chunks)
    ensures p.PublishChunkPacket? && p.fileHash == fileHash
    ensures |p.bitfield| == Bitfield.Last(chunks) / 8 + 1
    ensures forall x :: 0 <= x < 8 * |p.bitfield| ==> (Bitfield.GetBit(p.bitfield, x) <==> x in chunks)
    ensures Bitfield.Last(chunks) < U16 ==> p.bitfieldSize == |p.bitfield|
  {
    var b := Bitfield.Encoded(chunks);
    Bitfield.EncodedBits(chunks);
    PublishChunkPacket(|b| % U16, fileHash, b)
  }

  /** The chunk lists of the first n holders can all be encoded. */
  predicate EncodableLists(bitfields: seq<seq<nat>>, n: nat)
    requires n <= |bitfields|
  {
    forall i :: 0 <= i < n ==> Bitfield.Encodable(bitfields[i])
  }

  /** The entry NewAnswerNodesPacket builds for holder i. */
  function NodeEntry(ip: seq<byte>, port: nat, chunks: seq<nat>): (n: NodeFileInfo)
    requires Bitfield.Encodable(chunks)
    ensures n.ipAddr == ip && n.port == port
    ensures |n.bitfield| == Bitfield.Last(chunks) / 8 + 1
    ensures forall x :: 0 <= x < 8 * |n.bitfield| ==> (Bitfield.GetBit(n.bitfield, x) <==> x in chunks)
    ensures Bitfield.Last(chunks) < U16 ==> n.bitfieldSize == |n.bitfield|
  {
    var b := Bitfield.Encoded(chunks);
    Bitfield.EncodedBits(chunks);
    NodeFileInfo(ip, port, |b| % U16, b)
  }

  /** NewAnswerNodesPacket: exactly nNodes entries, entry i built from the i-th
      address, port and chunk list; the file fields are copied unchanged. */
  method NewAnswerNodesPacket(fileName: Name, fileSize: nat, fileHash: seq<byte>, chunkHashes: seq<seq<byte>>,
                              nNodes: nat, ipAddrs: seq<seq<byte>>, ports: seq<nat>, bitfields: seq<seq<nat>>)
    returns (p: Packet)
    requires nNodes <= |ipAddrs| && nNodes <= |ports| && nNodes <= |bitfields|
    requires EncodableLists(bitfields, nNodes)
    ensures p.AnswerNodesPacket?
    ensures p.fileName == fileName && p.fileSize == fileSize && p.fileHash == fileHash
    ensures p.chunkHashes == chunkHashes && p.numberOfNodes == nNodes
    ensures |p.nodes| == nNodes
    ensures forall i :: 0 <= i < nNodes ==> p.nodes[i] == NodeEntry(ipAddrs[i], ports[i], bitfields[i])
  {
    var nodes: seq<NodeFileInfo> := [];
    var i := 0;
    while i < nNodes
      invariant 0 <= i <= nNodes
      invariant |nodes| == i
      invariant forall j :: 0 <= j < i ==> nodes[j] == NodeEntry(ipAddrs[j], ports[j], bitfields[j])
    {
      var bitfield := Bitfield.EncodeBitField(bitfields[i]);
      var node := NodeFileInfo(ipAddrs[i], ports[i], |bitfield| % U16, bitfield);
      nodes := nodes + [node];
      i := i + 1;
    }
    p := AnswerNodesPacket(fileName, fileSize, fileHash, chunkHashes, nNodes, nodes);
  }

  /** A holder entry carries back exactly the chunk list it was built from:
      decoding its bitfield yields the original strictly ascending list. */
  lemma NodeEntryDecodes(ip: seq<byte>, port: nat, chunks: seq<nat>)
    requires |chunks| > 0 && Bitfield.StrictlyIncreasing(chunks) && Bitfield.Last(chunks) < U16
    ensures Bitfield.Encodable(chunks)
    ensures var n := NodeEntry(ip, port, chunks);
            Bitfield.Decoded(n.bitfield, 8 * n.bitfieldSize, Bitfield.Uint16Span) == chunks
  {
    Bitfield.DecodeEncode(chunks, Bitfield.Uint16Span);
  }
}
