/** The older node-to-tracker codec with hand-written, big-endian layouts, one
    per packet struct. Serialize appends the fields to a byte buffer in a
    fixed order; Deserialize overwrites the receiver's fields from a byte
    reader. Each `binary.Read` either fills its destination completely or
    leaves it untouched (consuming whatever bytes were left), and every error
    is ignored: Deserialize always reports success.

    Each struct is a class whose fields the methods update. Its value is
    `Value()`; the byte layout of a value is a function (`…Bytes`) and so is
    the effect of decoding bytes into a receiver (`Parse…`), and the
    round-trip lemmas relate the two. */
module TrackerSer {
  import opened Common
  import Bitfield

  /** Go's `uint16`. */
  type uint16 = x: nat | x < 0x1_0000

  /** Go's `[20]byte`. */
  type Hash = h: seq<byte> | |h| == DigestSize witness Zeros(DigestSize)

  /** Go's `[4]byte`. */
  type IPv4 = a: seq<byte> | |a| == 4 witness Zeros(4)

  // ---------------------------------------------------------------------
  // Big-endian integers

  function BE16(x: uint16): (r: seq<byte>)
    ensures |r| == 2
  {
    [(x / 256) as byte, (x % 256) as byte]
  }

  function FromBE16(b: seq<byte>): uint16
    requires |b| == 2
  {
    ByteBound(b[0]);
    ByteBound(b[1]);
    b[0] as nat * 256 + b[1] as nat
  }

  /** Reading back a big-endian `uint16` gives the value written. */
  lemma FromBE16OfBE16(x: uint16)
    ensures FromBE16(BE16(x)) == x
  {
    ByteValue(x / 256);
    ByteValue(x % 256);
  }

  // ---------------------------------------------------------------------
  // The byte reader and the byte buffer

  /** One `binary.Read` of n bytes from a reader whose unread bytes are
      `rest`: the next n bytes, or nothing when fewer remain, in which case
      the short remainder is consumed anyway. */
  function Take(rest: seq<byte>, n: nat): (r: (Option<seq<byte>>, seq<byte>))
    ensures r.0.Some? <==> n <= |rest|
    ensures r.0.Some? ==> r.0.value + r.1 == rest && |r.0.value| == n
    ensures r.0.None? ==> r.1 == []
  {
    if n <= |rest| then (Some(rest[..n]), rest[n..]) else (None, [])
  }

  /** Reading into a `uint8` field: the byte read, or the field's old value. */
  function NextU8(cur: byte, rest: seq<byte>): (byte, seq<byte>)
  {
    var (r, rest') := Take(rest, 1);
    (if r.Some? then r.value[0] else cur, rest')
  }

  /** Reading into a `uint16` field, big-endian. */
  function NextU16(cur: uint16, rest: seq<byte>): (uint16, seq<byte>)
  {
    var (r, rest') := Take(rest, 2);
    (if r.Some? then FromBE16(r.value) else cur, rest')
  }

  /** Reading into a fixed-size byte array field: as many bytes as the array
      holds, or the array's old contents. */
  function NextArray(cur: seq<byte>, rest: seq<byte>): (r: (seq<byte>, seq<byte>))
    ensures |r.0| == |cur|
  {
    var (a, rest') := Take(rest, |cur|);
    (if a.Some? then a.value else cur, rest')
  }

  /** `make([]byte, n)` followed by a read into it: the next n bytes, or n
      zero bytes when fewer remain. */
  function NextBytes(rest: seq<byte>, n: nat): (r: (seq<byte>, seq<byte>))
    ensures |r.0| == n
  {
    var (a, rest') := Take(rest, n);
    (if a.Some? then a.value else Zeros(n), rest')
  }

  /** `bytes.Reader` over the input of one Deserialize call. */
  class ByteReader {
    var rest: seq<byte>

    constructor (data: seq<byte>)
      ensures rest == data
    {
      rest := data;
    }

    /** binary.Read of n bytes. */
    method Read(n: nat) returns (r: Option<seq<byte>>)
      modifies this
      ensures (r, rest) == Take(old(rest), n)
    {
      if n <= |rest| {
        r := Some(rest[..n]);
        rest := rest[n..];
      } else {
        r := None;
        rest := [];
      }
    }

    method ReadU8(cur: byte) returns (v: byte)
      modifies this
      ensures (v, rest) == NextU8(cur, old(rest))
    {
      var r := Read(1);
      v := if r.Some? then r.value[0] else cur;
    }

    method ReadU16(cur: uint16) returns (v: uint16)
      modifies this
      ensures (v, rest) == NextU16(cur, old(rest))
    {
      var r := Read(2);
      v := if r.Some? then FromBE16(r.value) else cur;
    }

    method ReadArray(cur: seq<byte>) returns (v: seq<byte>)
      modifies this
      ensures (v, rest) == NextArray(cur, old(rest))
    {
      var r := Read(|cur|);
      v := if r.Some? then r.value else cur;
    }

    method ReadBytes(n: nat) returns (v: seq<byte>)
      modifies this
      ensures (v, rest) == NextBytes(old(rest), n)
    {
      v := Zeros(n);
      var r := Read(n);
      if r.Some? {
        v := r.value;
      }
    }
  }

  /** `bytes.Buffer`, written at the end. */
  class Buffer {
    var bytes: seq<byte>

    constructor ()
      ensures bytes == []
    {
      bytes := [];
    }

    method Write(b: seq<byte>)
      modifies this
      ensures bytes == old(bytes) + b
    {
      bytes := bytes + b;
    }
  }

  /** Concatenation regrouped to the right, the order a reader consumes it. */
  lemma Nest4<T>(a: seq<T>, b: seq<T>, c: seq<T>, d: seq<T>)
    ensures a + b + c + d == a + (b + (c + d))
  {
  }

  lemma Nest5<T>(a: seq<T>, b: seq<T>, c: seq<T>, d: seq<T>, e: seq<T>)
    ensures a + b + c + d + e == a + (b + (c + (d + e)))
  {
    Nest4(b, c, d, e);
  }

  lemma Nest6<T>(a: seq<T>, b: seq<T>, c: seq<T>, d: seq<T>, e: seq<T>, f: seq<T>)
    ensures a + b + c + d + e + f == a + (b + (c + (d + (e + f))))
  {
    Nest5(b, c, d, e, f);
  }

  lemma Nest7<T>(a: seq<T>, b: seq<T>, c: seq<T>, d: seq<T>, e: seq<T>, f: seq<T>, g: seq<T>)
    ensures a + b + c + d + e + f + g == a + (b + (c + (d + (e + (f + g)))))
  {
    Nest6(b, c, d, e, f, g);
  }

  /** Reading exactly the bytes that come next. */
  lemma TakeFront(x: seq<byte>, rest: seq<byte>)
    ensures Take(x + rest, |x|) == (Some(x), rest)
  {
    assert (x + rest)[..|x|] == x;
    assert (x + rest)[|x|..] == rest;
  }

  /** The field readers on input that starts with the field's encoding. */
  lemma SkipStep(x: seq<byte>, rest: seq<byte>)
    ensures Take(x + rest, |x|).1 == rest
  {
    TakeFront(x, rest);
  }

  lemma U8Step(cur: byte, x: byte, rest: seq<byte>)
    ensures NextU8(cur, [x] + rest) == (x, rest)
  {
    TakeFront([x], rest);
  }

  lemma U16Step(cur: uint16, x: uint16, rest: seq<byte>)
    ensures NextU16(cur, BE16(x) + rest) == (x, rest)
  {
    TakeFront(BE16(x), rest);
    FromBE16OfBE16(x);
  }

  lemma ArrayStep(cur: seq<byte>, a: seq<byte>, rest: seq<byte>)
    requires |a| == |cur|
    ensures NextArray(cur, a + rest) == (a, rest)
  {
    TakeFront(a, rest);
  }

  lemma BytesStep(a: seq<byte>, rest: seq<byte>)
    ensures NextBytes(a + rest, |a|) == (a, rest)
  {
    TakeFront(a, rest);
  }

  /** Reading the last bytes of the input leaves nothing unread. */
  lemma BytesLast(a: seq<byte>)
    ensures NextBytes(a, |a|) == (a, [])
  {
    assert a + [] == a;
    BytesStep(a, []);
  }

  // ---------------------------------------------------------------------
  // File names

  /** `make([]byte, n)` then `copy` of the name: the name cut or zero-padded
      to exactly n bytes. */
  function Padded(name: seq<byte>, n: nat): (r: seq<byte>)
    ensures |r| == n
    ensures forall i :: 0 <= i < n ==> r[i] == if i < |name| then name[i] else 0
  {
    if |name| >= n then name[..n] else name + Zeros(n - |name|)
  }

  /** A name of exactly n bytes goes on the wire unchanged. */
  lemma PaddedExact(name: seq<byte>)
    ensures Padded(name, |name|) == name
  {
  }

  // ---------------------------------------------------------------------
  // Chunk hash lists

  /** The chunk hashes written one after another. */
  function Concat(hs: seq<Hash>): (r: seq<byte>)
    ensures |r| == DigestSize * |hs|
  {
    if hs == [] then [] else Concat(hs[..|hs| - 1]) + hs[|hs| - 1]
  }

  lemma ConcatSnoc(hs: seq<Hash>, i: nat)
    requires i < |hs|
    ensures Concat(hs[..i + 1]) == Concat(hs[..i]) + hs[i]
  {
    assert hs[..i + 1][..i] == hs[..i];
  }

  /** The hashes appended by `count` rounds of the chunk loop: each round
      reads 20 bytes into a fresh zero hash and appends it, read or not. */
  function ReadHashes(rest: seq<byte>, count: nat): (seq<Hash>, seq<byte>)
  {
    if count == 0 then ([], rest)
    else
      var (hs, r) := ReadHashes(rest, count - 1);
      var (h, r') := NextBytes(r, DigestSize);
      (hs + [h], r')
  }

  /** The chunk loop reads back exactly the hashes that were written. */
  lemma {:induction false} ReadHashesOfConcat(hs: seq<Hash>, rest: seq<byte>)
    ensures ReadHashes(Concat(hs) + rest, |hs|) == (hs, rest)
  {
    if hs != [] {
      var init, h := hs[..|hs| - 1], hs[|hs| - 1];
      assert Concat(hs) + rest == Concat(init) + (h + rest);
      ReadHashesOfConcat(init, h + rest);
      TakeFront(h, rest);
      assert NextBytes(h + rest, DigestSize) == (h, rest);
      assert ReadHashes(Concat(hs) + rest, |hs|) == (init + [h], rest);
      assert init + [h] == hs;
    } else {
      assert Concat(hs) + rest == rest;
    }
  }

  /** On an exhausted reader the chunk loop still appends one all-zero hash
      per round. */
  lemma {:induction false} ReadHashesOfNothing(count: nat)
    ensures ReadHashes([], count) == (seq(count, _ => Zeros(DigestSize)), [])
  {
    if count > 0 {
      ReadHashesOfNothing(count - 1);
      assert NextBytes([], DigestSize) == (Zeros(DigestSize), []);
      assert seq(count - 1, _ => Zeros(DigestSize)) + [Zeros(DigestSize)] == seq(count, _ => Zeros(DigestSize));
    } else {
      assert seq(count, _ => Zeros(DigestSize)) == [];
    }
  }

  // ---------------------------------------------------------------------
  // PublishFile

  datatype PublishFileValue = PublishFileValue(nameSize: byte, numberOfChunks: uint16, fileHash: Hash,
                                               fileName: seq<byte>, chunkHashes: seq<Hash>)

  /** The layout: type 1, NameSize, NumberOfChunks (big-endian), the file
      hash, the first NumberOfChunks chunk hashes, the name in NameSize bytes. */
  function PublishFileBytes(v: PublishFileValue): (r: seq<byte>)
    requires v.numberOfChunks <= |v.chunkHashes|
  {
    [1] + [v.nameSize] + BE16(v.numberOfChunks) + v.fileHash
      + Concat(v.chunkHashes[..v.numberOfChunks]) + Padded(v.fileName, v.nameSize as nat)
  }

  /** The receiver after Deserialize, from its value before and the input. */
  function ParsePublishFile(st: PublishFileValue, data: seq<byte>): PublishFileValue
  {
    var (_, r0) := Take(data, 1);
    var (ns, r1) := NextU8(st.nameSize, r0);
    var (nc, r2) := NextU16(st.numberOfChunks, r1);
    var (fh, r3) := NextArray(st.fileHash, r2);
    var (hs, r4) := ReadHashes(r3, nc);
    var (name, _) := NextBytes(r4, ns as nat);
    PublishFileValue(ns, nc, fh, name, st.chunkHashes + hs)
  }

  class PublishFile {
    var NameSize: byte
    var NumberOfChunks: uint16
    var FileHash: Hash
    var FileName: seq<byte>
    var ChunkHashes: seq<Hash>

    function Value(): PublishFileValue
      reads this
    {
      PublishFileValue(NameSize, NumberOfChunks, FileHash, FileName, ChunkHashes)
    }

    /** The zero value of the struct. */
    constructor ()
      ensures Value() == PublishFileValue(0, 0, Zeros(DigestSize), [], [])
    {
      NameSize, NumberOfChunks, FileHash, FileName, ChunkHashes := 0, 0, Zeros(DigestSize), [], [];
    }

    /** Serialize indexes ChunkHashes up to NumberOfChunks: with fewer
        hashes than that it panics (index out of range), otherwise it writes
        the packet's bytes. */
    method Serialize() returns (out: seq<byte>, panics: bool)
      ensures panics <==> |ChunkHashes| < NumberOfChunks
      ensures !panics ==> out == PublishFileBytes(Value())
    {
      var buf := new Buffer();
      buf.Write([1]);
      buf.Write([NameSize]);
      buf.Write(BE16(NumberOfChunks));
      buf.Write(FileHash);
      ghost var head := buf.bytes;
      assert head == [1] + [NameSize] + BE16(NumberOfChunks) + FileHash;
      var i := 0;
      while i < NumberOfChunks
        invariant i <= NumberOfChunks && i <= |ChunkHashes|
        invariant buf.bytes == head + Concat(ChunkHashes[..i])
      {
        if i == |ChunkHashes| {
          out, panics := buf.bytes, true;
          return;
        }
        buf.Write(ChunkHashes[i]);
        ConcatSnoc(ChunkHashes, i);
        i := i + 1;
      }
      ghost var hashes := Concat(ChunkHashes[..NumberOfChunks]);
      assert buf.bytes == head + hashes;
      var stringBytes := Padded(FileName, NameSize as nat);
      buf.Write(stringBytes);
      out, panics := buf.bytes, false;
      assert out == head + hashes + stringBytes;
    }

    /** Deserialize: the type byte is read and ignored; the chunk hashes are
        appended to whatever the receiver already holds. */
    method Deserialize(data: seq<byte>)
      modifies this
      ensures Value() == ParsePublishFile(old(Value()), data)
    {
      var buf := new ByteReader(data);
      var packetType := buf.Read(1);
      NameSize := buf.ReadU8(NameSize);
      NumberOfChunks := buf.ReadU16(NumberOfChunks);
      var fh := buf.ReadArray(FileHash);
      FileHash := fh;
      ghost var r3 := buf.rest;
      ghost var before := ChunkHashes;
      ghost var fixed := (NameSize, NumberOfChunks, FileHash, FileName);
      var i := 0;
      while i < NumberOfChunks
        invariant i <= NumberOfChunks
        invariant (NameSize, NumberOfChunks, FileHash, FileName) == fixed
        invariant |ChunkHashes| >= |before| && ChunkHashes[..|before|] == before
        invariant ChunkHashes[|before|..] == ReadHashes(r3, i).0 && buf.rest == ReadHashes(r3, i).1
      {
        var newChunkHash := buf.ReadBytes(DigestSize);
        ChunkHashes := ChunkHashes + [newChunkHash];
        i := i + 1;
      }
      var fileNameBytes := buf.ReadBytes(NameSize as nat);
      FileName := fileNameBytes;
      assert ChunkHashes == before + ChunkHashes[|before|..];
    }
  }

  /** Round trip: deserializing what Serialize wrote restores every field,
      except that the name comes back cut or padded to NameSize bytes, only
      NumberOfChunks hashes are written, and the hashes read are appended to
      the ones the receiver held. For a consistent packet received into a
      fresh struct this is the packet itself. */
  lemma PublishFileRoundTrip(st: PublishFileValue, v: PublishFileValue)
    requires v.numberOfChunks <= |v.chunkHashes|
    ensures ParsePublishFile(st, PublishFileBytes(v))
         == v.(fileName := Padded(v.fileName, v.nameSize as nat),
               chunkHashes := st.chunkHashes + v.chunkHashes[..v.numberOfChunks])
    ensures |v.fileName| == v.nameSize as nat && |v.chunkHashes| == v.numberOfChunks as nat && st.chunkHashes == []
            ==> ParsePublishFile(st, PublishFileBytes(v)) == v
  {
    var hs := v.chunkHashes[..v.numberOfChunks];
    var name := Padded(v.fileName, v.nameSize as nat);
    var r4 := name;
    var r3 := Concat(hs) + r4;
    var r2 := v.fileHash + r3;
    var r1 := BE16(v.numberOfChunks) + r2;
    var r0 := [v.nameSize] + r1;
    var data := PublishFileBytes(v);
    assert data == [1] + r0 by {
      Nest6([1], [v.nameSize], BE16(v.numberOfChunks), v.fileHash, Concat(hs), name);
    }
    SkipStep([1], r0);
    U8Step(st.nameSize, v.nameSize, r1);
    U16Step(st.numberOfChunks, v.numberOfChunks, r2);
    ArrayStep(st.fileHash, v.fileHash, r3);
    ReadHashesOfConcat(hs, r4);
    BytesLast(r4);
    if |v.chunkHashes| == v.numberOfChunks as nat {
      assert hs == v.chunkHashes;
    }
  }

  /** Errors are ignored: on empty input every scalar field keeps its value,
      the name becomes NameSize zero bytes and NumberOfChunks zero hashes
      are appended. */
  lemma PublishFileFromNothing(st: PublishFileValue)
    ensures ParsePublishFile(st, [])
         == st.(fileName := Zeros(st.nameSize as nat),
                chunkHashes := st.chunkHashes + seq(st.numberOfChunks, _ => Zeros(DigestSize)))
  {
    ReadHashesOfNothing(st.numberOfChunks);
  }

  // ---------------------------------------------------------------------
  // PublishChunk

  datatype PublishChunkValue = PublishChunkValue(bitfieldSize: uint16, fileHash: Hash, bitfield: seq<byte>)

  /** The layout: type 3, a reserved zero byte, BitfieldSize (big-endian),
      the file hash and the whole bitfield. */
  function PublishChunkBytes(v: PublishChunkValue): seq<byte>
  {
    [3] + [0] + BE16(v.bitfieldSize) + v.fileHash + v.bitfield
  }

  function ParsePublishChunk(st: PublishChunkValue, data: seq<byte>): PublishChunkValue
  {
    var (_, r0) := Take(data, 1);
    var (_, r1) := Take(r0, 1);
    var (size, r2) := NextU16(st.bitfieldSize, r1);
    var (fh, r3) := NextArray(st.fileHash, r2);
    var (bitfield, _) := NextBytes(r3, size);
    PublishChunkValue(size, fh, bitfield)
  }

  class PublishChunk {
    var BitfieldSize: uint16
    var FileHash: Hash
    var Bitfield: seq<byte>

    function Value(): PublishChunkValue
      reads this
    {
      PublishChunkValue(BitfieldSize, FileHash, Bitfield)
    }

    constructor ()
      ensures Value() == PublishChunkValue(0, Zeros(DigestSize), [])
    {
      BitfieldSize, FileHash, Bitfield := 0, Zeros(DigestSize), [];
    }

    method Serialize() returns (out: seq<byte>)
      ensures out == PublishChunkBytes(Value())
    {
      var buf := new Buffer();
      buf.Write([3]);
      buf.Write([0]);
      buf.Write(BE16(BitfieldSize));
      buf.Write(FileHash);
      buf.Write(Bitfield);
      out := buf.bytes;
    }

    /** Deserialize reads exactly BitfieldSize bytes of bitfield. */
    method Deserialize(data: seq<byte>)
      modifies this
      ensures Value() == ParsePublishChunk(old(Value()), data)
    {
      var buf := new ByteReader(data);
      var packetType := buf.Read(1);
      var reserved := buf.Read(1);
      BitfieldSize := buf.ReadU16(BitfieldSize);
      var fh := buf.ReadArray(FileHash);
      FileHash := fh;
      var bitfield := buf.ReadBytes(BitfieldSize);
      Bitfield := bitfield;
    }
  }

  /** Round trip: the bitfield comes back as its first BitfieldSize bytes,
      so a packet whose BitfieldSize is the bitfield's length is restored,
      whatever the receiver held before. */
  lemma PublishChunkRoundTrip(st: PublishChunkValue, v: PublishChunkValue)
    requires v.bitfieldSize <= |v.bitfield|
    ensures ParsePublishChunk(st, PublishChunkBytes(v)) == v.(bitfield := v.bitfield[..v.bitfieldSize])
    ensures |v.bitfield| == v.bitfieldSize as nat ==> ParsePublishChunk(st, PublishChunkBytes(v)) == v
  {
    var n := v.bitfieldSize as nat;
    var bf, tail := v.bitfield[..n], v.bitfield[n..];
    var r3 := bf + tail;
    var r2 := v.fileHash + r3;
    var r1 := BE16(v.bitfieldSize) + r2;
    var r0 := [0] + r1;
    assert v.bitfield == r3;
    assert PublishChunkBytes(v) == [3] + r0 by {
      Nest5([3], [0], BE16(v.bitfieldSize), v.fileHash, v.bitfield);
    }
    SkipStep([3], r0);
    SkipStep([0], r1);
    U16Step(st.bitfieldSize, v.bitfieldSize, r2);
    ArrayStep(st.fileHash, v.fileHash, r3);
    BytesStep(bf, tail);
  }

  // ---------------------------------------------------------------------
  // RequestFile

  datatype RequestFileValue = RequestFileValue(nameSize: byte, fileName: seq<byte>)

  /** The layout: type 4, NameSize, the name in NameSize bytes. */
  function RequestFileBytes(v: RequestFileValue): seq<byte>
  {
    [4] + [v.nameSize] + Padded(v.fileName, v.nameSize as nat)
  }

  function ParseRequestFile(st: RequestFileValue, data: seq<byte>): RequestFileValue
  {
    var (_, r0) := Take(data, 1);
    var (ns, r1) := NextU8(st.nameSize, r0);
    var (name, _) := NextBytes(r1, ns as nat);
    RequestFileValue(ns, name)
  }

  class RequestFile {
    var NameSize: byte
    var FileName: seq<byte>

    function Value(): RequestFileValue
      reads this
    {
      RequestFileValue(NameSize, FileName)
    }

    constructor ()
      ensures Value() == RequestFileValue(0, [])
    {
      NameSize, FileName := 0, [];
    }

    method Serialize() returns (out: seq<byte>)
      ensures out == RequestFileBytes(Value())
    {
      var buf := new Buffer();
      buf.Write([4]);
      buf.Write([NameSize]);
      var stringBytes := Padded(FileName, NameSize as nat);
      buf.Write(stringBytes);
      out := buf.bytes;
    }

    method Deserialize(data: seq<byte>)
      modifies this
      ensures Value() == ParseRequestFile(old(Value()), data)
    {
      var buf := new ByteReader(data);
      var packetType := buf.Read(1);
      NameSize := buf.ReadU8(NameSize);
      var fileNameBytes := buf.ReadBytes(NameSize as nat);
      FileName := fileNameBytes;
    }
  }

  /** Round trip: the name comes back cut or padded to NameSize bytes; a
      name of exactly NameSize bytes is restored. */
  lemma RequestFileRoundTrip(st: RequestFileValue, v: RequestFileValue)
    ensures ParseRequestFile(st, RequestFileBytes(v)) == v.(fileName := Padded(v.fileName, v.nameSize as nat))
    ensures |v.fileName| == v.nameSize as nat ==> ParseRequestFile(st, RequestFileBytes(v)) == v
  {
    var name := Padded(v.fileName, v.nameSize as nat);
    var r0 := [v.nameSize] + name;
    assert RequestFileBytes(v) == [4] + r0;
    SkipStep([4], r0);
    U8Step(st.nameSize, v.nameSize, name);
    BytesLast(name);
  }

  // ---------------------------------------------------------------------
  // AlreadyExists

  datatype AlreadyExistsValue = AlreadyExistsValue(nameSize: byte, fileName: seq<byte>)

  /** The layout: type 2, NameSize, two reserved zero bytes, the name in
      NameSize bytes. */
  function AlreadyExistsBytes(v: AlreadyExistsValue): seq<byte>
  {
    [2] + [v.nameSize] + BE16(0) + Padded(v.fileName, v.nameSize as nat)
  }

  function ParseAlreadyExists(st: AlreadyExistsValue, data: seq<byte>): AlreadyExistsValue
  {
    var (_, r0) := Take(data, 1);
    var (ns, r1) := NextU8(st.nameSize, r0);
    var (_, r2) := Take(r1, 2);
    var (name, _) := NextBytes(r2, ns as nat);
    AlreadyExistsValue(ns, name)
  }

  class AlreadyExists {
    var NameSize: byte
    var FileName: seq<byte>

    function Value(): AlreadyExistsValue
      reads this
    {
      AlreadyExistsValue(NameSize, FileName)
    }

    constructor ()
      ensures Value() == AlreadyExistsValue(0, [])
    {
      NameSize, FileName := 0, [];
    }

    method Serialize() returns (out: seq<byte>)
      ensures out == AlreadyExistsBytes(Value())
    {
      var buf := new Buffer();
      buf.Write([2]);
      buf.Write([NameSize]);
      buf.Write(BE16(0));
      var stringBytes := Padded(FileName, NameSize as nat);
      buf.Write(stringBytes);
      out := buf.bytes;
    }

    method Deserialize(data: seq<byte>)
      modifies this
      ensures Value() == ParseAlreadyExists(old(Value()), data)
    {
      var buf := new ByteReader(data);
      var packetType := buf.Read(1);
      NameSize := buf.ReadU8(NameSize);
      var reserved := buf.Read(2);
      var fileNameBytes := buf.ReadBytes(NameSize as nat);
      FileName := fileNameBytes;
    }
  }

  /** Round trip, as for RequestFile. */
  lemma AlreadyExistsRoundTrip(st: AlreadyExistsValue, v: AlreadyExistsValue)
    ensures ParseAlreadyExists(st, AlreadyExistsBytes(v)) == v.(fileName := Padded(v.fileName, v.nameSize as nat))
    ensures |v.fileName| == v.nameSize as nat ==> ParseAlreadyExists(st, AlreadyExistsBytes(v)) == v
  {
    var name := Padded(v.fileName, v.nameSize as nat);
    var r1 := BE16(0) + name;
    var r0 := [v.nameSize] + r1;
    assert AlreadyExistsBytes(v) == [2] + r0 by {
      Nest4([2], [v.nameSize], BE16(0), name);
    }
    SkipStep([2], r0);
    U8Step(st.nameSize, v.nameSize, r1);
    SkipStep(BE16(0), name);
    BytesLast(name);
  }

  // ---------------------------------------------------------------------
  // AnswerNodes

  datatype AnswerNodesValue = AnswerNodesValue(sequenceNumber: byte, bitfieldSize: uint16, nodeIdentifier: IPv4,
                                               nodePort: uint16, bitfield: seq<byte>)

  /** The layout: type 5, SequenceNumber, BitfieldSize (big-endian), two
      reserved zero bytes, the 4-byte node address, the port (big-endian)
      and the whole bitfield. */
  function AnswerNodesBytes(v: AnswerNodesValue): seq<byte>
  {
    [5] + [v.sequenceNumber] + BE16(v.bitfieldSize) + BE16(0) + v.nodeIdentifier + BE16(v.nodePort) + v.bitfield
  }

  function ParseAnswerNodes(st: AnswerNodesValue, data: seq<byte>): AnswerNodesValue
  {
    var (_, r0) := Take(data, 1);
    var (sn, r1) := NextU8(st.sequenceNumber, r0);
    var (size, r2) := NextU16(st.bitfieldSize, r1);
    var (_, r3) := Take(r2, 2);
    var (ip, r4) := NextArray(st.nodeIdentifier, r3);
    var (port, r5) := NextU16(st.nodePort, r4);
    var (bitfield, _) := NextBytes(r5, size);
    AnswerNodesValue(sn, size, ip, port, bitfield)
  }

  class AnswerNodes {
    var SequenceNumber: byte
    var BitfieldSize: uint16
    var NodeIdentifier: IPv4
    var NodePort: uint16
    var Bitfield: seq<byte>

    function Value(): AnswerNodesValue
      reads this
    {
      AnswerNodesValue(SequenceNumber, BitfieldSize, NodeIdentifier, NodePort, Bitfield)
    }

    constructor ()
      ensures Value() == AnswerNodesValue(0, 0, Zeros(4), 0, [])
    {
      SequenceNumber, BitfieldSize, NodeIdentifier, NodePort, Bitfield := 0, 0, Zeros(4), 0, [];
    }

    method Serialize() returns (out: seq<byte>)
      ensures out == AnswerNodesBytes(Value())
    {
      var buf := new Buffer();
      buf.Write([5]);
      buf.Write([SequenceNumber]);
      buf.Write(BE16(BitfieldSize));
      buf.Write(BE16(0));
      buf.Write(NodeIdentifier);
      buf.Write(BE16(NodePort));
      buf.Write(Bitfield);
      out := buf.bytes;
    }

    method Deserialize(data: seq<byte>)
      modifies this
      ensures Value() == ParseAnswerNodes(old(Value()), data)
    {
      var buf := new ByteReader(data);
      var packetType := buf.Read(1);
      SequenceNumber := buf.ReadU8(SequenceNumber);
      BitfieldSize := buf.ReadU16(BitfieldSize);
      var reserved := buf.Read(2);
      var ip := buf.ReadArray(NodeIdentifier);
      NodeIdentifier := ip;
      NodePort := buf.ReadU16(NodePort);
      var bitfield := buf.ReadBytes(BitfieldSize);
      Bitfield := bitfield;
    }
  }

  /** Round trip: a packet whose BitfieldSize is its bitfield's length is
      restored, whatever the receiver held before. */
  lemma AnswerNodesRoundTrip(st: AnswerNodesValue, v: AnswerNodesValue)
    requires |v.bitfield| == v.bitfieldSize as nat
    ensures ParseAnswerNodes(st, AnswerNodesBytes(v)) == v
  {
    var r5 := v.bitfield;
    var r4 := BE16(v.nodePort) + r5;
    var r3 := v.nodeIdentifier + r4;
    var r2 := BE16(0) + r3;
    var r1 := BE16(v.bitfieldSize) + r2;
    var r0 := [v.sequenceNumber] + r1;
    assert AnswerNodesBytes(v) == [5] + r0 by {
      Nest7([5], [v.sequenceNumber], BE16(v.bitfieldSize), BE16(0), v.nodeIdentifier, BE16(v.nodePort), r5);
    }
    SkipStep([5], r0);
    U8Step(st.sequenceNumber, v.sequenceNumber, r1);
    U16Step(st.bitfieldSize, v.bitfieldSize, r2);
    SkipStep(BE16(0), r3);
    ArrayStep(st.nodeIdentifier, v.nodeIdentifier, r4);
    U16Step(st.nodePort, v.nodePort, r5);
    BytesLast(r5);
  }

  /** No Deserialize looks at the type byte: any first byte gives the same
      receiver. */
  lemma TypeByteIgnored(a: byte, b: byte, rest: seq<byte>,
                        pf: PublishFileValue, pc: PublishChunkValue, rf: RequestFileValue,
                        ae: AlreadyExistsValue, an: AnswerNodesValue)
    ensures ParsePublishFile(pf, [a] + rest) == ParsePublishFile(pf, [b] + rest)
    ensures ParsePublishChunk(pc, [a] + rest) == ParsePublishChunk(pc, [b] + rest)
    ensures ParseRequestFile(rf, [a] + rest) == ParseRequestFile(rf, [b] + rest)
    ensures ParseAlreadyExists(ae, [a] + rest) == ParseAlreadyExists(ae, [b] + rest)
    ensures ParseAnswerNodes(an, [a] + rest) == ParseAnswerNodes(an, [b] + rest)
  {
    TakeFront([a], rest);
    TakeFront([b], rest);
  }

  // ---------------------------------------------------------------------
  // The bitfield with `uint8` indices

  /** The index range of `uint8`. */
  const Uint8Span: nat := 256

  /** encodeBitField: last/8 + 1 bytes (at most 32) holding exactly the
      listed indices. */
  method EncodeBitField(s: seq<nat>) returns (r: seq<byte>)
    requires Bitfield.Encodable(s) && forall i :: 0 <= i < |s| ==> s[i] < Uint8Span
    ensures |r| == Bitfield.Last(s) / 8 + 1 <= 32
    ensures forall p :: 0 <= p < 8 * |r| ==> (Bitfield.GetBit(r, p) <==> p in s)
  {
    r := Bitfield.EncodeBitField(s);
  }

  /** decodeBitField: the set positions over 8 * |b| bits, ascending, each
      cast to `uint8`. */
  method DecodeBitField(b: seq<byte>) returns (r: seq<nat>)
    ensures r == Bitfield.Decoded(b, 8 * |b|, Uint8Span)
    ensures |b| <= 32 ==> Bitfield.StrictlyIncreasing(r)
    ensures |b| <= 32 ==> forall x: nat :: x in r <==> x < 8 * |b| && Bitfield.GetBit(b, x)
  {
    r := Bitfield.DecodeBitField(b, Uint8Span);
  }

  /** Decode after encode is the identity on non-empty strictly increasing
      lists of `uint8` indices. */
  lemma DecodeEncodeUint8(s: seq<nat>)
    requires |s| > 0 && Bitfield.StrictlyIncreasing(s) && Bitfield.Last(s) < Uint8Span
    ensures Bitfield.Encodable(s)
    ensures |Bitfield.Encoded(s)| <= 32
    ensures Bitfield.Decoded(Bitfield.Encoded(s), 8 * |Bitfield.Encoded(s)|, Uint8Span) == s
  {
    Bitfield.DecodeEncode(s, Uint8Span);
    Bitfield.EncodedBits(s);
  }

  /** A clear bit adds nothing to the decoded list. */
  lemma DecodedSkips(b: seq<byte>, n: nat)
    requires n < 8 * |b| && !Bitfield.GetBit(b, n)
    ensures Bitfield.Decoded(b, n + 1, Uint8Span) == Bitfield.Decoded(b, n, Uint8Span)
  {
  }

  /** With the first n bits clear, nothing has been decoded yet. */
  lemma {:induction false} DecodedNone(b: seq<byte>, n: nat)
    requires n <= 8 * |b| && forall p :: 0 <= p < n ==> !Bitfield.GetBit(b, p)
    ensures Bitfield.Decoded(b, n, Uint8Span) == []
  {
    if n > 0 {
      DecodedNone(b, n - 1);
      DecodedSkips(b, n - 1);
    }
  }

  /** Beyond 32 bytes positions wrap: a 33-byte bitfield whose only set bit
      is bit 256 decodes to [0]. */
  lemma DecodeWrapsBeyond32Bytes()
    ensures Bitfield.Decoded(Zeros(32) + [0x80], 8 * 33, Uint8Span) == [0]
  {
    var b := Zeros(32) + [0x80];
    forall p | 0 <= p < 256 ensures !Bitfield.GetBit(b, p) {
      assert b[p / 8] == 0;
    }
    DecodedNone(b, 256);
    assert Bitfield.GetBit(b, 256);
    assert Bitfield.Decoded(b, 257, Uint8Span) == [0];
    DecodedSkips(b, 257);
    DecodedSkips(b, 258);
    DecodedSkips(b, 259);
    DecodedSkips(b, 260);
    DecodedSkips(b, 261);
    DecodedSkips(b, 262);
    DecodedSkips(b, 263);
  }

  /** Setting bits 0, 5 and 10 of a ten-byte buffer reads each of them back
      as set right after it is set. */
  method SetBitsThenGetBits() returns (at0: bool, at5: bool, at10: bool)
    ensures at0 && at5 && at10
  {
    var bitfield := new byte[10](_ => 0);
    ghost var b0 := bitfield[..];
    Bitfield.SetBit(bitfield, 0);
    Bitfield.GetAfterSet(b0, 0, 0);
    at0 := Bitfield.GetBit(bitfield[..], 0);
    ghost var b1 := bitfield[..];
    Bitfield.SetBit(bitfield, 5);
    Bitfield.GetAfterSet(b1, 5, 5);
    at5 := Bitfield.GetBit(bitfield[..], 5);
    ghost var b2 := bitfield[..];
    Bitfield.SetBit(bitfield, 10);
    Bitfield.GetAfterSet(b2, 10, 10);
    at10 := Bitfield.GetBit(bitfield[..], 10);
  }
}
