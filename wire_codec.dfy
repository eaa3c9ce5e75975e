/** The little-endian, field-by-field packet codec of the current protocol
    package. A packet travels as its type byte followed by every struct field
    in declaration order: fixed-width integers at their natural width,
    strings as a u32 length and their bytes, slices and fixed byte arrays as
    a u32 element count and their elements. The source walks the fields by
    reflection; here a packet's field list is `Fields(p)`, and the decoder
    walks the field list of the zero struct the type byte selects.

    Decoding comes in two dialects. `AsWritten` follows the source: a field
    of type []uint8 or []uint16 is handed to the field decoder as a pointer,
    matches none of its slice cases and is rejected, and an unknown type byte
    makes the error report itself panic. `Corrected` decodes such slices and
    reports an unknown type byte as an error. */
module WireCodec {
  import opened Common
  import opened Packets

  /** The Go type of a struct field, as far as the codec distinguishes it. */
  datatype Kind = KU8 | KU16 | KU64 | KString | KArray4 | KArray20 | KHashList | KBytes | KUint16s | KNodes

  /** A struct field's value. */
  datatype Value =
    | Uint8(n: nat)
    | Uint16(n: nat)
    | Uint64(n: nat)
    | Str(s: seq<byte>)
    | Array4(a: seq<byte>)
    | Array20(a: seq<byte>)
    | HashList(hs: seq<seq<byte>>)
    | Bytes(a: seq<byte>)
    | Uint16s(vs: seq<nat>)
    | Nodes(ns: seq<NodeFileInfo>)

  datatype Error = EndOfInput | Unsupported | UnknownType | NoPacketType | NotModelled

  datatype Dialect = AsWritten | Corrected

  /** The result of one read: the value and the position after it. */
  datatype Read<T> = Got(value: T, next: nat) | Failed(error: Error)

  /** The result of decoding a whole packet. */
  datatype Outcome = Ok(packet: Packet, consumed: nat) | Err(error: Error) | Crash

  function KindOf(v: Value): Kind
  {
    match v
    case Uint8(_) => KU8
    case Uint16(_) => KU16
    case Uint64(_) => KU64
    case Str(_) => KString
    case Array4(_) => KArray4
    case Array20(_) => KArray20
    case HashList(_) => KHashList
    case Bytes(_) => KBytes
    case Uint16s(_) => KUint16s
    case Nodes(_) => KNodes
  }

  function Kinds(vs: seq<Value>): (ks: seq<Kind>)
    ensures |ks| == |vs| && forall i :: 0 <= i < |vs| ==> ks[i] == KindOf(vs[i])
  {
    seq(|vs|, i requires 0 <= i < |vs| => KindOf(vs[i]))
  }

  /** The packets whose struct declarations are part of this model. */
  predicate Shown(p: Packet)
  {
    !(p.UpdateChunksPacket? || p.UpdateFilePacket? || p.AnswerFileWithNodesPacket?)
  }

  /** The struct's fields, in declaration order. */
  function Fields(p: Packet): seq<Value>
    requires Shown(p)
  {
    match p
    case InitPacket(ip, port) => [Array4(ip), Uint16(port)]
    case PublishFilePacket(name, size, hash, hs) => [Str(name), Uint64(size), Array20(hash), HashList(hs)]
    case PublishChunkPacket(n, hash, b) => [Uint16(n), Array20(hash), Bytes(b)]
    case RequestFilePacket(name) => [Str(name)]
    case FileSuccessPacket(name, kind) => [Str(name), Uint8(kind as nat)]
    case AlreadyExistsPacket(name) => [Str(name)]
    case NotFoundPacket(name) => [Str(name)]
    case AnswerNodesPacket(name, size, hash, hs, n, nodes) =>
      [Str(name), Uint64(size), Array20(hash), HashList(hs), Uint16(n), Nodes(nodes)]
    case RemoveFilePacket(name) => [Str(name)]
    case RequestChunksPacket(name, cs) => [Str(name), Uint16s(cs)]
    case ChunkPacket(name, c, content) => [Str(name), Uint16(c), Bytes(content)]
  }

  /** Fills the fields of a zero struct with decoded values. */
  function Build(z: Packet, vs: seq<Value>): (p: Packet)
    requires Shown(z) && Kinds(vs) == Kinds(Fields(z))
    ensures Shown(p) && Kinds(Fields(p)) == Kinds(Fields(z))
  {
    match z
    case InitPacket(_, _) => InitPacket(vs[0].a, vs[1].n)
    case PublishFilePacket(_, _, _, _) => PublishFilePacket(vs[0].s, vs[1].n, vs[2].a, vs[3].hs)
    case PublishChunkPacket(_, _, _) => PublishChunkPacket(vs[0].n, vs[1].a, vs[2].a)
    case RequestFilePacket(_) => RequestFilePacket(vs[0].s)
    case FileSuccessPacket(_, _) => FileSuccessPacket(vs[0].s, (vs[1].n % 256) as byte)
    case AlreadyExistsPacket(_) => AlreadyExistsPacket(vs[0].s)
    case NotFoundPacket(_) => NotFoundPacket(vs[0].s)
    case AnswerNodesPacket(_, _, _, _, _, _) =>
      AnswerNodesPacket(vs[0].s, vs[1].n, vs[2].a, vs[3].hs, vs[4].n, vs[5].ns)
    case RemoveFilePacket(_) => RemoveFilePacket(vs[0].s)
    case RequestChunksPacket(_, _) => RequestChunksPacket(vs[0].s, vs[1].vs)
    case ChunkPacket(_, _, _) => ChunkPacket(vs[0].s, vs[1].n, vs[2].a)
  }

  // ---------------------------------------------------------------------
  // Fixed-width integers, little-endian

  /** The n low-order bytes of v, least significant first. A value wider than
      n bytes is truncated, as a Go integer conversion does. */
  function LE(v: nat, n: nat): (r: seq<byte>)
    ensures |r| == n
  {
    if n == 0 then [] else [(v % 256) as byte] + LE(v / 256, n - 1)
  }

  /** The value of little-endian bytes. */
  function FromLE(b: seq<byte>): nat
  {
    if b == [] then 0 else b[0] as nat + 256 * FromLE(b[1..])
  }

  /** n bytes hold a value below 256^n. */
  lemma {:induction false} FromLEBound(b: seq<byte>)
    ensures FromLE(b) < Pow256(|b|)
  {
    if b != [] {
      FromLEBound(b[1..]);
      assert FromLE(b[1..]) + 1 <= Pow256(|b| - 1);
    }
  }

  /** Reading back n little-endian bytes yields the value written, for every
      value that fits n bytes. */
  lemma {:induction false} FromLEOfLE(v: nat, n: nat)
    requires v < Pow256(n)
    ensures FromLE(LE(v, n)) == v
  {
    if n > 0 {
      var h, lo := v / 256, v % 256;
      HighBytes(v, Pow256(n - 1));
      FromLEOfLE(h, n - 1);
      var b := LE(v, n);
      ByteValue(lo);
      assert b[0] as nat == lo;
      assert b[1..] == LE(h, n - 1);
    }
  }

  lemma HighBytes(v: nat, p: nat)
    requires v < 256 * p
    ensures v / 256 < p && v == 256 * (v / 256) + v % 256
  {
  }

  lemma Widths()
    ensures Pow256(1) == 256 && Pow256(2) == U16 && Pow256(4) == U32 && Pow256(8) == U64
  {
    assert Pow256(0) == 1;
    assert Pow256(1) == 256;
    assert Pow256(2) == 0x1_0000;
    assert Pow256(3) == 0x100_0000;
    assert Pow256(4) == 0x1_0000_0000;
    assert Pow256(5) == 0x100_0000_0000;
    assert Pow256(6) == 0x1_0000_0000_0000;
    assert Pow256(7) == 0x100_0000_0000_0000;
  }

  // ---------------------------------------------------------------------
  // Writing

  /** A u32 count or length prefix: the length cast to uint32. */
  function Count(n: nat): seq<byte>
  {
    LE(n % U32, 4)
  }

  /** The chunk-hash list's elements: each a [20]byte written as an array. */
  function HashesBytes(hs: seq<seq<byte>>): seq<byte>
  {
    if hs == [] then [] else HashesBytes(hs[..|hs| - 1]) + (Count(|hs[|hs| - 1]|) + hs[|hs| - 1])
  }

  function Uint16sBytes(vs: seq<nat>): seq<byte>
  {
    if vs == [] then [] else Uint16sBytes(vs[..|vs| - 1]) + LE(vs[|vs| - 1], 2)
  }

  /** serializeField: the bytes of one field, or nothing for a field type the
      codec does not support. */
  function EncodeValue(v: Value): Option<seq<byte>>
  {
    match v
    case Uint8(n) => Some(LE(n, 1))
    case Uint16(n) => Some(LE(n, 2))
    case Uint64(n) => Some(LE(n, 8))
    case Str(s) => Some(Count(|s|) + s)
    case Array4(a) => Some(Count(|a|) + a)
    case Array20(a) => Some(Count(|a|) + a)
    case HashList(hs) => Some(Count(|hs|) + HashesBytes(hs))
    case Bytes(a) => Some(Count(|a|) + a)
    case Uint16s(vs) => Some(Count(|vs|) + Uint16sBytes(vs))
    case Nodes(_) => None
  }

  /** The fields written in order, stopping at the first unsupported one; the
      bytes already written stay written. */
  function WriteFields(vs: seq<Value>): (seq<byte>, Option<Error>)
  {
    if vs == [] then ([], None)
    else
      var (out, err) := WriteFields(vs[..|vs| - 1]);
      if err.Some? then (out, err)
      else match EncodeValue(vs[|vs| - 1])
        case None => (out, Some(Unsupported))
        case Some(b) => (out + b, None)
  }

  /** Serialize: the bytes written and the error returned, if any. */
  function Serialized(p: Packet): (seq<byte>, Option<Error>)
  {
    if !Shown(p) then ([], Some(NotModelled))
    else match GetPacketType(p)
      case None => ([], Some(NoPacketType))
      case Some(t) => var (out, err) := WriteFields(Fields(p)); ([t] + out, err)
  }

  // ---------------------------------------------------------------------
  // Reading

  /** copy(dst[:n], src) into a zeroed n-byte array: truncate or zero-pad. */
  function Fit(a: seq<byte>, n: nat): (r: seq<byte>)
    ensures |r| == n
    ensures |a| == n ==> r == a
  {
    if |a| >= n then a[..n] else a + Zeros(n - |a|)
  }

  function ReadBytes(data: seq<byte>, pos: nat, n: nat): Read<seq<byte>>
  {
    if pos + n <= |data| then Got(data[pos..pos + n], pos + n) else Failed(EndOfInput)
  }

  function ReadUint(data: seq<byte>, pos: nat, n: nat): Read<nat>
  {
    if pos + n <= |data| then Got(FromLE(data[pos..pos + n]), pos + n) else Failed(EndOfInput)
  }

  /** readString, and readArray into a byte slice: a u32 count, then that many
      bytes. */
  function ReadCounted(data: seq<byte>, pos: nat): Read<seq<byte>>
  {
    match ReadUint(data, pos, 4)
    case Failed(e) => Failed(e)
    case Got(c, q) => ReadBytes(data, q, c)
  }

  /** The first c elements of a [][20]byte: each a counted byte array copied
      into a [20]byte. */
  function ReadHashes(data: seq<byte>, pos: nat, c: nat): Read<seq<seq<byte>>>
  {
    if c == 0 then Got([], pos)
    else match ReadHashes(data, pos, c - 1)
      case Failed(e) => Failed(e)
      case Got(hs, q) =>
        match ReadCounted(data, q)
        case Failed(e) => Failed(e)
        case Got(a, r) => Got(hs + [Fit(a, DigestSize)], r)
  }

  function ReadUint16s(data: seq<byte>, pos: nat, c: nat): Read<seq<nat>>
  {
    if c == 0 then Got([], pos)
    else match ReadUint16s(data, pos, c - 1)
      case Failed(e) => Failed(e)
      case Got(vs, q) =>
        match ReadUint(data, q, 2)
        case Failed(e) => Failed(e)
        case Got(v, r) => Got(vs + [v], r)
  }

  /** deserializeToField for a field of kind k. */
  function ReadField(d: Dialect, k: Kind, data: seq<byte>, pos: nat): (r: Read<Value>)
    ensures r.Got? ==> KindOf(r.value) == k
  {
    match k
    case KU8 => (match ReadUint(data, pos, 1) case Failed(e) => Failed(e) case Got(v, q) => Got(Uint8(v), q))
    case KU16 => (match ReadUint(data, pos, 2) case Failed(e) => Failed(e) case Got(v, q) => Got(Uint16(v), q))
    case KU64 => (match ReadUint(data, pos, 8) case Failed(e) => Failed(e) case Got(v, q) => Got(Uint64(v), q))
    case KString => (match ReadCounted(data, pos) case Failed(e) => Failed(e) case Got(s, q) => Got(Str(s), q))
    case KArray4 => (match ReadCounted(data, pos) case Failed(e) => Failed(e) case Got(a, q) => Got(Array4(Fit(a, 4)), q))
    case KArray20 =>
      (match ReadCounted(data, pos) case Failed(e) => Failed(e) case Got(a, q) => Got(Array20(Fit(a, DigestSize)), q))
    case KHashList =>
      (match ReadUint(data, pos, 4)
       case Failed(e) => Failed(e)
       case Got(c, q) => (match ReadHashes(data, q, c) case Failed(e) => Failed(e) case Got(hs, r) => Got(HashList(hs), r)))
    case KBytes =>
      if d == AsWritten then Failed(Unsupported)
      else (match ReadCounted(data, pos) case Failed(e) => Failed(e) case Got(a, q) => Got(Bytes(a), q))
    case KUint16s =>
      if d == AsWritten then Failed(Unsupported)
      else (match ReadUint(data, pos, 4)
            case Failed(e) => Failed(e)
            case Got(c, q) => (match ReadUint16s(data, q, c) case Failed(e) => Failed(e) case Got(vs, r) => Got(Uint16s(vs), r)))
    case KNodes => Failed(Unsupported)
  }

  /** The fields of kinds ks read in order, stopping at the first failure. */
  function ReadFields(d: Dialect, ks: seq<Kind>, data: seq<byte>, pos: nat): Read<seq<Value>>
  {
    if ks == [] then Got([], pos)
    else match ReadFields(d, ks[..|ks| - 1], data, pos)
      case Failed(e) => Failed(e)
      case Got(vs, q) =>
        match ReadField(d, ks[|ks| - 1], data, q)
        case Failed(e) => Failed(e)
        case Got(v, r) => Got(vs + [v], r)
  }

  /** The values read have exactly the kinds asked for. */
  lemma KindsSnoc(vs: seq<Value>, v: Value)
    ensures Kinds(vs + [v]) == Kinds(vs) + [KindOf(v)]
  {
  }

  lemma {:induction false} ReadFieldsKinds(d: Dialect, ks: seq<Kind>, data: seq<byte>, pos: nat)
    ensures ReadFields(d, ks, data, pos).Got? ==> Kinds(ReadFields(d, ks, data, pos).value) == ks
  {
    if ks != [] {
      ReadFieldsKinds(d, ks[..|ks| - 1], data, pos);
      var r := ReadFields(d, ks[..|ks| - 1], data, pos);
      if r.Got? {
        var f := ReadField(d, ks[|ks| - 1], data, r.next);
        if f.Got? {
          KindsSnoc(r.value, f.value);
          assert ks == ks[..|ks| - 1] + [ks[|ks| - 1]];
        }
      }
    }
  }

  /** Deserialize: the packet read from the front of the stream and the
      number of bytes it took. */
  function Decode(d: Dialect, data: seq<byte>): Outcome
  {
    if |data| == 0 then Err(EndOfInput)
    else match PacketStructFromType(data[0])
      case None => if d == AsWritten then Crash else Err(UnknownType)
      case Some(z) =>
        if !Shown(z) then Err(NotModelled)
        else match ReadFields(d, Kinds(Fields(z)), data, 1)
          case Failed(e) => Err(e)
          case Got(vs, q) =>
            ReadFieldsKinds(d, Kinds(Fields(z)), data, 1);
            Ok(Build(z, vs), q)
  }

  // ---------------------------------------------------------------------
  // The imperative codec

  /** Once writing has failed, later fields add nothing. */
  lemma {:induction false} WriteFieldsStops(vs: seq<Value>, i: nat)
    requires i <= |vs| && WriteFields(vs[..i]).1.Some?
    ensures WriteFields(vs) == WriteFields(vs[..i])
    decreases |vs| - i
  {
    if i < |vs| {
      assert vs[..i + 1][..i] == vs[..i];
      WriteFieldsStops(vs, i + 1);
    } else {
      assert vs[..i] == vs;
    }
  }

  /** Once reading has failed, later fields are not read. */
  lemma {:induction false} ReadFieldsStops(d: Dialect, ks: seq<Kind>, data: seq<byte>, pos: nat, i: nat)
    requires i <= |ks| && ReadFields(d, ks[..i], data, pos).Failed?
    ensures ReadFields(d, ks, data, pos) == ReadFields(d, ks[..i], data, pos)
    decreases |ks| - i
  {
    if i < |ks| {
      assert ks[..i + 1][..i] == ks[..i];
      ReadFieldsStops(d, ks, data, pos, i + 1);
    } else {
      assert ks[..i] == ks;
    }
  }

  /** writeArray for a byte array or byte slice: the count, then each byte. */
  method WriteByteArray(a: seq<byte>) returns (out: seq<byte>)
    ensures out == Count(|a|) + a
  {
    var body := [];
    var i := 0;
    while i < |a|
      invariant 0 <= i <= |a|
      invariant body == a[..i]
    {
      body := body + [a[i]];
      i := i + 1;
    }
    assert body == a;
    out := Count(|a|) + body;
  }

  /** writeArray for [][20]byte: the count, then each hash as a byte array. */
  method WriteHashes(hs: seq<seq<byte>>) returns (out: seq<byte>)
    ensures out == Count(|hs|) + HashesBytes(hs)
  {
    var body := [];
    var i := 0;
    while i < |hs|
      invariant 0 <= i <= |hs|
      invariant body == HashesBytes(hs[..i])
    {
      var element := WriteByteArray(hs[i]);
      assert hs[..i + 1][..i] == hs[..i];
      body := body + element;
      i := i + 1;
    }
    assert hs[..i] == hs;
    out := Count(|hs|) + body;
  }

  /** writeArray for []uint16: the count, then each element on two bytes. */
  method WriteUint16s(vs: seq<nat>) returns (out: seq<byte>)
    ensures out == Count(|vs|) + Uint16sBytes(vs)
  {
    out := Count(|vs|);
    var i := 0;
    while i < |vs|
      invariant 0 <= i <= |vs|
      invariant out == Count(|vs|) + Uint16sBytes(vs[..i])
    {
      assert vs[..i + 1][..i] == vs[..i];
      out := out + LE(vs[i], 2);
      i := i + 1;
    }
    assert vs[..i] == vs;
  }

  /** serializeField. */
  method SerializeField(v: Value) returns (bytes: seq<byte>, ok: bool)
    ensures ok <==> EncodeValue(v).Some?
    ensures ok ==> bytes == EncodeValue(v).value
  {
    ok := true;
    match v
    case Uint8(n) => bytes := LE(n, 1);
    case Uint16(n) => bytes := LE(n, 2);
    case Uint64(n) => bytes := LE(n, 8);
    case Str(s) => bytes := Count(|s|) + s;
    case Array4(a) => bytes := WriteByteArray(a);
    case Array20(a) => bytes := WriteByteArray(a);
    case HashList(hs) => bytes := WriteHashes(hs);
    case Bytes(a) => bytes := WriteByteArray(a);
    case Uint16s(vs) => bytes := WriteUint16s(vs);
    case Nodes(_) => bytes, ok := [], false;
  }

  /** The field loop of Serialize: each field is written in order, and the
      first one that cannot be written stops the loop. */
  method WriteAllFields(fields: seq<Value>) returns (out: seq<byte>, err: Option<Error>)
    ensures (out, err) == WriteFields(fields)
  {
    out, err := [], None;
    var i := 0;
    assert fields[..0] == [];
    while i < |fields|
      invariant 0 <= i <= |fields|
      invariant WriteFields(fields[..i]) == (out, None)
    {
      assert fields[..i + 1][..i] == fields[..i];
      var bytes, ok := SerializeField(fields[i]);
      if !ok {
        WriteFieldsStops(fields, i + 1);
        return out, Some(Unsupported);
      }
      out := out + bytes;
      i := i + 1;
    }
    assert fields[..i] == fields;
  }

  /** Serialize: the type byte, then each field, stopping at the first error. */
  method Serialize(p: Packet) returns (out: seq<byte>, err: Option<Error>)
    ensures (out, err) == Serialized(p)
  {
    if !Shown(p) {
      return [], Some(NotModelled);
    }
    var t := GetPacketType(p);
    if t.None? {
      return [], Some(NoPacketType);
    }
    var body;
    body, err := WriteAllFields(Fields(p));
    out := [t.value] + body;
  }


  /** readArray into a byte slice: the count, then one byte at a time. */
  method ReadByteArray(data: seq<byte>, pos: nat) returns (r: Read<seq<byte>>)
    ensures r == ReadCounted(data, pos)
  {
    if pos + 4 > |data| {
      return Failed(EndOfInput);
    }
    var size := FromLE(data[pos..pos + 4]);
    var q := pos + 4;
    var elements: seq<byte> := [];
    var i := 0;
    while i < size
      invariant 0 <= i <= size
      invariant q + i <= |data| && elements == data[q..q + i]
    {
      if q + i + 1 > |data| {
        return Failed(EndOfInput);
      }
      elements := elements + [data[q + i]];
      i := i + 1;
    }
    return Got(elements, q + size);
  }

  /** readArray into a [][20]byte. */
  method ReadHashArray(data: seq<byte>, pos: nat, size: nat) returns (r: Read<seq<seq<byte>>>)
    ensures r == ReadHashes(data, pos, size)
  {
    var hs: seq<seq<byte>> := [];
    var q: nat := pos;
    var i: nat := 0;
    while i < size
      invariant 0 <= i <= size
      invariant ReadHashes(data, pos, i) == Got(hs, q)
    {
      var element := ReadByteArray(data, q);
      if element.Failed? {
        ReadHashesStops(data, pos, i + 1, size);
        return Failed(element.error);
      }
      hs, q := hs + [Fit(element.value, DigestSize)], element.next;
      i := i + 1;
    }
    return Got(hs, q);
  }

  /** readArray into a []uint16. */
  method ReadUint16Array(data: seq<byte>, pos: nat, size: nat) returns (r: Read<seq<nat>>)
    ensures r == ReadUint16s(data, pos, size)
  {
    var vs: seq<nat> := [];
    var q: nat := pos;
    var i: nat := 0;
    while i < size
      invariant 0 <= i <= size
      invariant ReadUint16s(data, pos, i) == Got(vs, q)
    {
      if q + 2 > |data| {
        ReadUint16sStops(data, pos, i + 1, size);
        return Failed(EndOfInput);
      }
      vs, q := vs + [FromLE(data[q..q + 2])], q + 2;
      i := i + 1;
    }
    return Got(vs, q);
  }

  lemma {:induction false} ReadHashesStops(data: seq<byte>, pos: nat, i: nat, c: nat)
    requires i <= c && ReadHashes(data, pos, i).Failed?
    ensures ReadHashes(data, pos, c) == ReadHashes(data, pos, i)
    decreases c - i
  {
    if i < c {
      ReadHashesStops(data, pos, i, c - 1);
    }
  }

  lemma {:induction false} ReadUint16sStops(data: seq<byte>, pos: nat, i: nat, c: nat)
    requires i <= c && ReadUint16s(data, pos, i).Failed?
    ensures ReadUint16s(data, pos, c) == ReadUint16s(data, pos, i)
    decreases c - i
  {
    if i < c {
      ReadUint16sStops(data, pos, i, c - 1);
    }
  }

  /** deserializeToField. */
  method DeserializeToField(d: Dialect, k: Kind, data: seq<byte>, pos: nat) returns (r: Read<Value>)
    ensures r == ReadField(d, k, data, pos)
  {
    match k
    case KU8 =>
      r := if pos + 1 <= |data| then Got(Uint8(FromLE(data[pos..pos + 1])), pos + 1) else Failed(EndOfInput);
    case KU16 =>
      r := if pos + 2 <= |data| then Got(Uint16(FromLE(data[pos..pos + 2])), pos + 2) else Failed(EndOfInput);
    case KU64 =>
      r := if pos + 8 <= |data| then Got(Uint64(FromLE(data[pos..pos + 8])), pos + 8) else Failed(EndOfInput);
    case KString =>
      // readString reads the whole string at once
      var s := ReadCounted(data, pos);
      r := if s.Failed? then Failed(s.error) else Got(Str(s.value), s.next);
    case KArray4 =>
      var a := ReadByteArray(data, pos);
      r := if a.Failed? then Failed(a.error) else Got(Array4(Fit(a.value, 4)), a.next);
    case KArray20 =>
      var a := ReadByteArray(data, pos);
      r := if a.Failed? then Failed(a.error) else Got(Array20(Fit(a.value, DigestSize)), a.next);
    case KHashList =>
      if pos + 4 > |data| {
        return Failed(EndOfInput);
      }
      var hs := ReadHashArray(data, pos + 4, FromLE(data[pos..pos + 4]));
      r := if hs.Failed? then Failed(hs.error) else Got(HashList(hs.value), hs.next);
    case KBytes =>
      if d == AsWritten {
        return Failed(Unsupported);
      }
      var a := ReadByteArray(data, pos);
      r := if a.Failed? then Failed(a.error) else Got(Bytes(a.value), a.next);
    case KUint16s =>
      if d == AsWritten {
        return Failed(Unsupported);
      }
      if pos + 4 > |data| {
        return Failed(EndOfInput);
      }
      var vs := ReadUint16Array(data, pos + 4, FromLE(data[pos..pos + 4]));
      r := if vs.Failed? then Failed(vs.error) else Got(Uint16s(vs.value), vs.next);
    case KNodes =>
      r := Failed(Unsupported);
  }

  /** Deserialize: the type byte selects a zero struct whose fields are read
      in order from the stream. */
  method Deserialize(d: Dialect, data: seq<byte>) returns (r: Outcome)
    ensures r == Decode(d, data)
  {
    if |data| == 0 {
      return Err(EndOfInput);
    }
    var struc := PacketStructFromType(data[0]);
    if struc.None? {
      if d == AsWritten {
        return Crash;
      }
      return Err(UnknownType);
    }
    var z := struc.value;
    if !Shown(z) {
      return Err(NotModelled);
    }
    var ks := Kinds(Fields(z));
    var fields := DeserializeFields(d, ks, data, 1);
    if fields.Failed? {
      return Err(fields.error);
    }
    ReadFieldsKinds(d, ks, data, 1);
    return Ok(Build(z, fields.value), fields.next);
  }

  /** The loop of Deserialize over the struct's fields, in declaration
      order, stopping at the first field that cannot be read. */
  method DeserializeFields(d: Dialect, ks: seq<Kind>, data: seq<byte>, pos: nat) returns (r: Read<seq<Value>>)
    ensures r == ReadFields(d, ks, data, pos)
  {
    var vs: seq<Value> := [];
    var q := pos;
    var i := 0;
    while i < |ks|
      invariant 0 <= i <= |ks|
      invariant ReadFields(d, ks[..i], data, pos) == Got(vs, q)
    {
      assert ks[..i + 1][..i] == ks[..i];
      var field := DeserializeToField(d, ks[i], data, q);
      if field.Failed? {
        ReadFieldsStops(d, ks, data, pos, i + 1);
        return Failed(field.error);
      }
      vs, q := vs + [field.value], field.next;
      i := i + 1;
    }
    assert ks[..i] == ks;
    return Got(vs, q);
  }

  // ---------------------------------------------------------------------
  // Round trip

  /** A value its Go type can hold, and whose lengths fit the u32 prefix. */
  predicate Canonical(v: Value)
  {
    match v
    case Uint8(n) => n < 256
    case Uint16(n) => n < U16
    case Uint64(n) => n < U64
    case Str(s) => |s| < U32
    case Array4(a) => |a| == 4
    case Array20(a) => |a| == DigestSize
    case HashList(hs) => |hs| < U32 && Hashes(hs)
    case Bytes(a) => |a| < U32
    case Uint16s(vs) => |vs| < U32 && forall i :: 0 <= i < |vs| ==> vs[i] < U16
    case Nodes(_) => false
  }

  /** The packets the codec can carry: well-formed, with a type byte and a
      shown struct, no field the writer rejects, and every length below 2^32. */
  predicate Serializable(p: Packet)
  {
    WellFormed(p) && Shown(p) && GetPacketType(p).Some? &&
    forall i :: 0 <= i < |Fields(p)| ==> Canonical(Fields(p)[i])
  }

  /** The slice fields that only the corrected dialect reads. */
  predicate ReadableIn(d: Dialect, v: Value)
  {
    d == Corrected || !(v.Bytes? || v.Uint16s?)
  }

  /** A non-empty sequence is its prefix followed by its last element. */
  lemma InitLast<T>(s: seq<T>)
    requires s != []
    ensures s[..|s| - 1] + [s[|s| - 1]] == s
  {
  }

  lemma SliceSplit(data: seq<byte>, q: nat, x: seq<byte>, y: seq<byte>)
    requires q + |x| + |y| <= |data| && data[q..q + |x| + |y|] == x + y
    ensures data[q..q + |x|] == x && data[q + |x|..q + |x| + |y|] == y
  {
    var s := data[q..q + |x| + |y|];
    assert data[q..q + |x|] == s[..|x|];
    assert data[q + |x|..q + |x| + |y|] == s[|x|..];
    assert s[..|x|] == x && s[|x|..] == y;
  }

  lemma ReadUintAt(data: seq<byte>, pos: nat, v: nat, n: nat)
    requires v < Pow256(n) && pos + n <= |data| && data[pos..pos + n] == LE(v, n)
    ensures ReadUint(data, pos, n) == Got(v, pos + n)
  {
    FromLEOfLE(v, n);
  }

  lemma ReadCountedAt(data: seq<byte>, pos: nat, a: seq<byte>)
    requires |a| < U32 && pos + 4 + |a| <= |data| && data[pos..pos + 4 + |a|] == Count(|a|) + a
    ensures ReadCounted(data, pos) == Got(a, pos + 4 + |a|)
  {
    var x := Count(|a|);
    SliceSplit(data, pos, x, a);
    ReadCountAt(data, pos, |a|);
  }

  /** One more hash read after the first |hs|. */
  lemma ReadHashesSnoc(data: seq<byte>, q: nat, hs: seq<seq<byte>>, h: seq<byte>, p1: nat, p2: nat)
    requires ReadHashes(data, q, |hs|) == Got(hs, p1)
    requires ReadCounted(data, p1) == Got(h, p2) && |h| == DigestSize
    ensures ReadHashes(data, q, |hs| + 1) == Got(hs + [h], p2)
  {
  }

  lemma ReadUint16sSnoc(data: seq<byte>, q: nat, vs: seq<nat>, v: nat, p1: nat, p2: nat)
    requires ReadUint16s(data, q, |vs|) == Got(vs, p1)
    requires ReadUint(data, p1, 2) == Got(v, p2)
    ensures ReadUint16s(data, q, |vs| + 1) == Got(vs + [v], p2)
  {
  }

  lemma HashesBytesSnoc(hs: seq<seq<byte>>)
    requires hs != []
    ensures HashesBytes(hs) == HashesBytes(hs[..|hs| - 1]) + (Count(|hs[|hs| - 1]|) + hs[|hs| - 1])
    ensures |HashesBytes(hs)| == |HashesBytes(hs[..|hs| - 1])| + 4 + |hs[|hs| - 1]|
  {
  }

  /** Reading one more hash that is written where the first |hs| end. */
  lemma ReadHashStep(data: seq<byte>, q: nat, hs: seq<seq<byte>>, h: seq<byte>, p1: nat)
    requires ReadHashes(data, q, |hs|) == Got(hs, p1) && |h| == DigestSize
    requires At(data, p1, Count(|h|) + h)
    ensures ReadHashes(data, q, |hs| + 1) == Got(hs + [h], p1 + 4 + |h|)
  {
    ReadCountedAt(data, p1, h);
    ReadHashesSnoc(data, q, hs, h, p1, p1 + 4 + |h|);
  }

  /** All but the last of a list of digests are digests. */
  lemma HashesInit(hs: seq<seq<byte>>)
    requires hs != [] && Hashes(hs)
    ensures Hashes(hs[..|hs| - 1]) && |hs[|hs| - 1]| == DigestSize
  {
    var init := hs[..|hs| - 1];
    forall i | 0 <= i < |init| ensures |init[i]| == DigestSize {
      assert init[i] == hs[i];
    }
  }

  /** w is written in data from position q on. */
  predicate At(data: seq<byte>, q: nat, w: seq<byte>)
  {
    q + |w| <= |data| && data[q..q + |w|] == w
  }

  /** Bytes written at q split into their two parts. */
  lemma AtSplit(data: seq<byte>, q: nat, x: seq<byte>, y: seq<byte>)
    requires At(data, q, x + y)
    ensures At(data, q, x) && At(data, q + |x|, y)
  {
    SliceSplit(data, q, x, y);
  }

  /** The bytes of all but the last hash are a prefix of the bytes of all
      of them. */
  lemma HashesBytesHead(data: seq<byte>, q: nat, hs: seq<seq<byte>>)
    requires hs != [] && At(data, q, HashesBytes(hs))
    ensures At(data, q, HashesBytes(hs[..|hs| - 1]))
  {
    HashesBytesSnoc(hs);
    AtSplit(data, q, HashesBytes(hs[..|hs| - 1]), Count(|hs[|hs| - 1]|) + hs[|hs| - 1]);
  }

  /** The counted last hash follows the bytes of the others. */
  lemma HashesBytesTail(data: seq<byte>, q: nat, hs: seq<seq<byte>>)
    requires hs != [] && At(data, q, HashesBytes(hs))
    ensures At(data, q + |HashesBytes(hs[..|hs| - 1])|, Count(|hs[|hs| - 1]|) + hs[|hs| - 1])
  {
    HashesBytesSnoc(hs);
    AtSplit(data, q, HashesBytes(hs[..|hs| - 1]), Count(|hs[|hs| - 1]|) + hs[|hs| - 1]);
  }

  lemma {:induction false} ReadHashesAt(data: seq<byte>, q: nat, hs: seq<seq<byte>>)
    requires Hashes(hs) && At(data, q, HashesBytes(hs))
    ensures ReadHashes(data, q, |hs|) == Got(hs, q + |HashesBytes(hs)|)
  {
    if hs != [] {
      var init, h := hs[..|hs| - 1], hs[|hs| - 1];
      HashesInit(hs);
      HashesBytesSnoc(hs);
      HashesBytesHead(data, q, hs);
      HashesBytesTail(data, q, hs);
      ReadHashesAt(data, q, init);
      ReadHashStep(data, q, init, h, q + |HashesBytes(init)|);
      InitLast(hs);
    }
  }

  lemma {:induction false} ReadUint16sAt(data: seq<byte>, q: nat, vs: seq<nat>)
    requires forall i :: 0 <= i < |vs| ==> vs[i] < U16
    requires q + |Uint16sBytes(vs)| <= |data| && data[q..q + |Uint16sBytes(vs)|] == Uint16sBytes(vs)
    ensures ReadUint16s(data, q, |vs|) == Got(vs, q + |Uint16sBytes(vs)|)
  {
    if vs != [] {
      var init, v := vs[..|vs| - 1], vs[|vs| - 1];
      var x, y := Uint16sBytes(init), LE(v, 2);
      assert Uint16sBytes(vs) == x + y;
      SliceSplit(data, q, x, y);
      ReadUint16sAt(data, q, init);
      Widths();
      ReadUintAt(data, q + |x|, v, 2);
      ReadUint16sSnoc(data, q, init, v, q + |x|, q + |x| + 2);
      InitLast(vs);
    }
  }

  lemma ReadCountAt(data: seq<byte>, pos: nat, n: nat)
    requires n < U32 && pos + 4 <= |data| && data[pos..pos + 4] == Count(n)
    ensures ReadUint(data, pos, 4) == Got(n, pos + 4)
  {
    assert n % U32 == n;
    Widths();
    ReadUintAt(data, pos, n, 4);
  }

  lemma ReadHashListAt(data: seq<byte>, pos: nat, hs: seq<seq<byte>>)
    requires |hs| < U32 && Hashes(hs)
    requires var e := Count(|hs|) + HashesBytes(hs); pos + |e| <= |data| && data[pos..pos + |e|] == e
    ensures ReadUint(data, pos, 4) == Got(|hs|, pos + 4)
    ensures ReadHashes(data, pos + 4, |hs|) == Got(hs, pos + 4 + |HashesBytes(hs)|)
  {
    var x, y := Count(|hs|), HashesBytes(hs);
    SliceSplit(data, pos, x, y);
    ReadCountAt(data, pos, |hs|);
    ReadHashesAt(data, pos + 4, hs);
  }

  lemma ReadUint16ListAt(data: seq<byte>, pos: nat, vs: seq<nat>)
    requires |vs| < U32 && forall i :: 0 <= i < |vs| ==> vs[i] < U16
    requires var e := Count(|vs|) + Uint16sBytes(vs); pos + |e| <= |data| && data[pos..pos + |e|] == e
    ensures ReadUint(data, pos, 4) == Got(|vs|, pos + 4)
    ensures ReadUint16s(data, pos + 4, |vs|) == Got(vs, pos + 4 + |Uint16sBytes(vs)|)
  {
    var x, y := Count(|vs|), Uint16sBytes(vs);
    SliceSplit(data, pos, x, y);
    ReadCountAt(data, pos, |vs|);
    ReadUint16sAt(data, pos + 4, vs);
  }

  /** One field written by serializeField is read back by deserializeToField
      unchanged, ending just after its bytes. */
  lemma ReadFieldAt(d: Dialect, v: Value, data: seq<byte>, pos: nat, e: seq<byte>)
    requires Canonical(v) && ReadableIn(d, v)
    requires EncodeValue(v) == Some(e) && pos + |e| <= |data| && data[pos..pos + |e|] == e
    ensures ReadField(d, KindOf(v), data, pos) == Got(v, pos + |e|)
  {
    if v.Uint8? || v.Uint16? || v.Uint64? {
      ReadIntFieldAt(d, v, data, pos, e);
    } else if v.Str? || v.Array4? || v.Array20? || v.Bytes? {
      ReadCountedFieldAt(d, v, data, pos, e);
    } else {
      ReadListFieldAt(d, v, data, pos, e);
    }
  }

  lemma ReadIntFieldAt(d: Dialect, v: Value, data: seq<byte>, pos: nat, e: seq<byte>)
    requires v.Uint8? || v.Uint16? || v.Uint64?
    requires Canonical(v) && EncodeValue(v) == Some(e) && pos + |e| <= |data| && data[pos..pos + |e|] == e
    ensures ReadField(d, KindOf(v), data, pos) == Got(v, pos + |e|)
  {
    Widths();
    match v
    case Uint8(n) => ReadUintAt(data, pos, n, 1);
    case Uint16(n) => ReadUintAt(data, pos, n, 2);
    case Uint64(n) => ReadUintAt(data, pos, n, 8);
  }

  lemma ReadCountedFieldAt(d: Dialect, v: Value, data: seq<byte>, pos: nat, e: seq<byte>)
    requires v.Str? || v.Array4? || v.Array20? || v.Bytes?
    requires Canonical(v) && ReadableIn(d, v)
    requires EncodeValue(v) == Some(e) && pos + |e| <= |data| && data[pos..pos + |e|] == e
    ensures ReadField(d, KindOf(v), data, pos) == Got(v, pos + |e|)
  {
    match v
    case Str(s) =>
      ReadCountedAt(data, pos, s);
      assert ReadCounted(data, pos) == Got(s, pos + |e|);
    case Array4(a) =>
      ReadCountedAt(data, pos, a);
      assert ReadCounted(data, pos) == Got(a, pos + |e|) && Fit(a, 4) == a;
    case Array20(a) =>
      ReadCountedAt(data, pos, a);
      assert ReadCounted(data, pos) == Got(a, pos + |e|) && Fit(a, DigestSize) == a;
    case Bytes(a) =>
      ReadCountedAt(data, pos, a);
      assert ReadCounted(data, pos) == Got(a, pos + |e|);
  }

  lemma ReadListFieldAt(d: Dialect, v: Value, data: seq<byte>, pos: nat, e: seq<byte>)
    requires v.HashList? || v.Uint16s?
    requires Canonical(v) && ReadableIn(d, v)
    requires EncodeValue(v) == Some(e) && pos + |e| <= |data| && data[pos..pos + |e|] == e
    ensures ReadField(d, KindOf(v), data, pos) == Got(v, pos + |e|)
  {
    if v.HashList? {
      ReadHashListFieldAt(d, v.hs, data, pos);
    } else {
      ReadUint16sFieldAt(d, v.vs, data, pos);
    }
  }

  lemma ReadHashListFieldAt(d: Dialect, hs: seq<seq<byte>>, data: seq<byte>, pos: nat)
    requires |hs| < U32 && Hashes(hs)
    requires var e := Count(|hs|) + HashesBytes(hs); pos + |e| <= |data| && data[pos..pos + |e|] == e
    ensures ReadField(d, KHashList, data, pos) == Got(HashList(hs), pos + 4 + |HashesBytes(hs)|)
  {
    ReadHashListAt(data, pos, hs);
  }

  lemma ReadUint16sFieldAt(d: Dialect, vs: seq<nat>, data: seq<byte>, pos: nat)
    requires |vs| < U32 && (forall i :: 0 <= i < |vs| ==> vs[i] < U16) && d == Corrected
    requires var e := Count(|vs|) + Uint16sBytes(vs); pos + |e| <= |data| && data[pos..pos + |e|] == e
    ensures ReadField(d, KUint16s, data, pos) == Got(Uint16s(vs), pos + 4 + |Uint16sBytes(vs)|)
  {
    ReadUint16ListAt(data, pos, vs);
    var q := pos + 4;
    assert ReadUint(data, pos, 4) == Got(|vs|, q);
    assert ReadUint16s(data, q, |vs|) == Got(vs, q + |Uint16sBytes(vs)|);
  }


  lemma CanonicalEncodes(v: Value)
    requires Canonical(v)
    ensures EncodeValue(v).Some?
  {
  }


  lemma WriteFieldsSnoc(vs: seq<Value>, v: Value)
    requires WriteFields(vs).1 == None && EncodeValue(v).Some?
    ensures WriteFields(vs + [v]) == (WriteFields(vs).0 + EncodeValue(v).value, None)
  {
    assert (vs + [v])[..|vs|] == vs;
  }

  /** The bytes of all fields are those of all but the last, then the last
      one's: each part sits at its own place in the stream. */
  lemma WrittenSplit(vs: seq<Value>, data: seq<byte>, pos: nat)
    requires vs != [] && EncodeValue(vs[|vs| - 1]).Some? && WriteFields(vs[..|vs| - 1]).1 == None
    requires var w := WriteFields(vs).0; pos + |w| <= |data| && data[pos..pos + |w|] == w
    ensures var w, e := WriteFields(vs[..|vs| - 1]).0, EncodeValue(vs[|vs| - 1]).value;
            WriteFields(vs) == (w + e, None) &&
            pos + |w| + |e| <= |data| && data[pos..pos + |w|] == w && data[pos + |w|..pos + |w| + |e|] == e
  {
    var init, v := vs[..|vs| - 1], vs[|vs| - 1];
    WriteFieldsSnoc(init, v);
    assert init + [v] == vs;
    SliceSplit(data, pos, WriteFields(init).0, EncodeValue(v).value);
  }

  /** Reading the fields of a list whose last one is written right after
      the others: given the prefix read back, the last field is read back
      after it. */
  lemma ReadFieldsExtend(d: Dialect, vs: seq<Value>, data: seq<byte>, pos: nat, p1: nat, e: seq<byte>)
    requires vs != [] && Canonical(vs[|vs| - 1]) && ReadableIn(d, vs[|vs| - 1])
    requires ReadFields(d, Kinds(vs[..|vs| - 1]), data, pos) == Got(vs[..|vs| - 1], p1)
    requires EncodeValue(vs[|vs| - 1]) == Some(e) && p1 + |e| <= |data| && data[p1..p1 + |e|] == e
    ensures ReadFields(d, Kinds(vs), data, pos) == Got(vs, p1 + |e|)
  {
    ReadFieldAt(d, vs[|vs| - 1], data, p1, e);
    ReadFieldsStep(d, vs, data, pos, p1, p1 + |e|);
  }

  lemma ReadFieldsStep(d: Dialect, vs: seq<Value>, data: seq<byte>, pos: nat, p1: nat, p2: nat)
    requires vs != []
    requires ReadFields(d, Kinds(vs[..|vs| - 1]), data, pos) == Got(vs[..|vs| - 1], p1)
    requires ReadField(d, KindOf(vs[|vs| - 1]), data, p1) == Got(vs[|vs| - 1], p2)
    ensures ReadFields(d, Kinds(vs), data, pos) == Got(vs, p2)
  {
    var init, v := vs[..|vs| - 1], vs[|vs| - 1];
    var ks := Kinds(vs);
    assert ks[..|ks| - 1] == Kinds(init);
    assert init + [v] == vs;
  }


  /** Every field canonical, stated field by field from the last one back. */
  predicate AllCanonical(vs: seq<Value>)
  {
    vs == [] || (AllCanonical(vs[..|vs| - 1]) && Canonical(vs[|vs| - 1]))
  }

  lemma {:induction false} AllCanonicalOfEach(vs: seq<Value>)
    requires forall i :: 0 <= i < |vs| ==> Canonical(vs[i])
    ensures AllCanonical(vs)
  {
    if vs != [] {
      var init := vs[..|vs| - 1];
      assert forall i :: 0 <= i < |init| ==> init[i] == vs[i];
      AllCanonicalOfEach(init);
    }
  }

  /** The hypotheses of the round trip carry over from the fields to all
      but the last of them. */
  lemma FieldsPrefix(d: Dialect, vs: seq<Value>, data: seq<byte>, pos: nat)
    requires vs != [] && AllCanonical(vs) && forall i :: 0 <= i < |vs| ==> ReadableIn(d, vs[i])
    requires var w := WriteFields(vs).0; pos + |w| <= |data| && data[pos..pos + |w|] == w
    ensures var init := vs[..|vs| - 1];
            AllCanonical(init) && (forall i :: 0 <= i < |init| ==> ReadableIn(d, init[i])) &&
            var w := WriteFields(init).0; pos + |w| <= |data| && data[pos..pos + |w|] == w
  {
    var init := vs[..|vs| - 1];
    assert forall i :: 0 <= i < |init| ==> init[i] == vs[i];
    WriteFieldsSucceeds(init);
    CanonicalEncodes(vs[|vs| - 1]);
    WrittenSplit(vs, data, pos);
  }

  /** With all but the last field read back, the last one is too. */
  lemma FieldsLast(d: Dialect, vs: seq<Value>, data: seq<byte>, pos: nat)
    requires vs != [] && AllCanonical(vs) && ReadableIn(d, vs[|vs| - 1])
    requires var w := WriteFields(vs).0; pos + |w| <= |data| && data[pos..pos + |w|] == w
    requires var init := vs[..|vs| - 1];
             ReadFields(d, Kinds(init), data, pos) == Got(init, pos + |WriteFields(init).0|)
    ensures WriteFields(vs).1 == None
    ensures ReadFields(d, Kinds(vs), data, pos) == Got(vs, pos + |WriteFields(vs).0|)
  {
    var init, v := vs[..|vs| - 1], vs[|vs| - 1];
    WriteFieldsSucceeds(init);
    CanonicalEncodes(v);
    WrittenSplit(vs, data, pos);
    var w, e := WriteFields(init).0, EncodeValue(v).value;
    ReadFieldsExtend(d, vs, data, pos, pos + |w|, e);
  }

  /** The fields written by WriteFields are read back in order by ReadFields. */
  lemma {:induction false} ReadFieldsAt(d: Dialect, vs: seq<Value>, data: seq<byte>, pos: nat)
    requires AllCanonical(vs) && forall i :: 0 <= i < |vs| ==> ReadableIn(d, vs[i])
    requires var w := WriteFields(vs).0; pos + |w| <= |data| && data[pos..pos + |w|] == w
    ensures WriteFields(vs).1 == None
    ensures ReadFields(d, Kinds(vs), data, pos) == Got(vs, pos + |WriteFields(vs).0|)
  {
    if vs == [] {
      assert Kinds(vs) == [];
    } else {
      FieldsPrefix(d, vs, data, pos);
      ReadFieldsAt(d, vs[..|vs| - 1], data, pos);
      assert ReadableIn(d, vs[|vs| - 1]);
      FieldsLast(d, vs, data, pos);
    }
  }

  /** Every field of a serializable packet is written without error. */
  lemma {:induction false} WriteFieldsSucceeds(vs: seq<Value>)
    requires AllCanonical(vs)
    ensures WriteFields(vs).1 == None
  {
    if vs != [] {
      WriteFieldsSucceeds(vs[..|vs| - 1]);
      CanonicalEncodes(vs[|vs| - 1]);
    }
  }

  /** The struct the type byte selects has the fields of the packet that
      carried it, and filling it with that packet's fields rebuilds it. */
  lemma SameKindRebuilds(p: Packet)
    requires Shown(p) && GetPacketType(p).Some?
    ensures PacketStructFromType(GetPacketType(p).value).Some?
    ensures var z := PacketStructFromType(GetPacketType(p).value).value;
            Shown(z) && Kinds(Fields(z)) == Kinds(Fields(p)) && Build(z, Fields(p)) == p
  {
    if p.InitPacket? || p.PublishFilePacket? || p.FileSuccessPacket? || p.AnswerNodesPacket? {
      RebuildsWide(p);
    } else {
      RebuildsNarrow(p);
    }
  }

  lemma RebuildsWide(p: Packet)
    requires p.InitPacket? || p.PublishFilePacket? || p.FileSuccessPacket? || p.AnswerNodesPacket?
    ensures PacketStructFromType(GetPacketType(p).value).Some?
    ensures var z := PacketStructFromType(GetPacketType(p).value).value;
            Shown(z) && Kinds(Fields(z)) == Kinds(Fields(p)) && Build(z, Fields(p)) == p
  {
    match p
    case InitPacket(_, _) =>
    case PublishFilePacket(_, _, _, _) =>
    case FileSuccessPacket(_, k) => ByteOfNat(k);
    case AnswerNodesPacket(_, _, _, _, _, _) =>
  }

  lemma RebuildsNarrow(p: Packet)
    requires Shown(p) && GetPacketType(p).Some?
    requires !(p.InitPacket? || p.PublishFilePacket? || p.FileSuccessPacket? || p.AnswerNodesPacket?)
    ensures PacketStructFromType(GetPacketType(p).value).Some?
    ensures var z := PacketStructFromType(GetPacketType(p).value).value;
            Shown(z) && Kinds(Fields(z)) == Kinds(Fields(p)) && Build(z, Fields(p)) == p
  {
    match p
    case RequestFilePacket(_) =>
    case AlreadyExistsPacket(_) =>
    case NotFoundPacket(_) =>
    case RemoveFilePacket(_) =>
    case RequestChunksPacket(_, _) =>
    case ChunkPacket(_, _, _) =>
  }

  /** Serialize never fails on a serializable packet, and Deserialize reads it
      back from the front of any stream, consuming exactly its bytes. The
      source's own decoder does so for every packet without a []uint8 or
      []uint16 field; the corrected decoder for all of them. */
  lemma DecodeSerialize(d: Dialect, p: Packet, rest: seq<byte>)
    requires Serializable(p)
    requires forall i :: 0 <= i < |Fields(p)| ==> ReadableIn(d, Fields(p)[i])
    ensures Serialized(p).1 == None
    ensures Decode(d, Serialized(p).0 + rest) == Ok(p, |Serialized(p).0|)
  {
    var t := GetPacketType(p).value;
    var fs := Fields(p);
    AllCanonicalOfEach(fs);
    WriteFieldsSucceeds(fs);
    var w := WriteFields(fs).0;
    assert Serialized(p) == ([t] + w, None);
    var data := [t] + w + rest;
    assert data[1..1 + |w|] == w;
    ReadFieldsAt(d, fs, data, 1);
    SameKindRebuilds(p);
    var z := PacketStructFromType(t).value;
    assert data[0] == t;
    assert Decode(d, data) == Ok(Build(z, fs), 1 + |w|);
  }

  /** The round trip of the repository's serialization test: a PublishFile
      packet comes back with its name, size, hash and chunk hashes. */
  lemma PublishFileRoundTrip(name: Name, size: nat, hash: seq<byte>, hs: seq<seq<byte>>)
    requires |name| < U32 && size < U64 && |hash| == DigestSize && Hashes(hs) && |hs| < U32
    ensures var p := PublishFilePacket(name, size, hash, hs);
            Serialized(p).1 == None && Decode(AsWritten, Serialized(p).0) == Ok(p, |Serialized(p).0|)
  {
    var p := PublishFilePacket(name, size, hash, hs);
    assert Serialized(p).0 + [] == Serialized(p).0;
    DecodeSerialize(AsWritten, p, []);
  }

  /** The source's decoder never returns a Chunk or RequestChunks packet:
      although Serialize writes one without error, reading it back fails at
      its slice field. */
  lemma AsWrittenRejectsSliceFields(p: Packet, rest: seq<byte>)
    requires Serializable(p) && (p.ChunkPacket? || p.RequestChunksPacket?)
    ensures Serialized(p).1 == None
    ensures Decode(AsWritten, Serialized(p).0 + rest) == Err(Unsupported)
    ensures Decode(Corrected, Serialized(p).0 + rest) == Ok(p, |Serialized(p).0|)
  {
    DecodeSerialize(Corrected, p, rest);
    var t := GetPacketType(p).value;
    var fs := Fields(p);
    AllCanonicalOfEach(fs);
    var w := WriteFields(fs).0;
    var data := [t] + w + rest;
    assert data[1..1 + |w|] == w;
    SliceFieldRejected(fs, data);
    SameKindRebuilds(p);
    var z := PacketStructFromType(t).value;
    assert data[0] == t;
  }

  /** Fields ending in a slice field: the source's decoder reads all the
      others back and then stops at the slice field. */
  lemma SliceFieldRejected(fs: seq<Value>, data: seq<byte>)
    requires fs != [] && AllCanonical(fs) && (fs[|fs| - 1].Bytes? || fs[|fs| - 1].Uint16s?)
    requires forall i :: 0 <= i < |fs| - 1 ==> ReadableIn(AsWritten, fs[i])
    requires var w := WriteFields(fs).0; 1 + |w| <= |data| && data[1..1 + |w|] == w
    ensures ReadFields(AsWritten, Kinds(fs), data, 1) == Failed(Unsupported)
  {
    var k := |fs| - 1;
    var init, v := fs[..k], fs[k];
    assert forall i :: 0 <= i < |init| ==> init[i] == fs[i];
    WriteFieldsSucceeds(init);
    CanonicalEncodes(v);
    WrittenSplit(fs, data, 1);
    ReadFieldsAt(AsWritten, init, data, 1);
    SliceUnreadable(v, data, 1 + |WriteFields(init).0|);
    ReadFieldsFailStep(AsWritten, fs, data, 1, 1 + |WriteFields(init).0|);
  }

  /** The source's decoder has no case for a slice field. */
  lemma SliceUnreadable(v: Value, data: seq<byte>, pos: nat)
    requires v.Bytes? || v.Uint16s?
    ensures ReadField(AsWritten, KindOf(v), data, pos) == Failed(Unsupported)
  {
  }

  /** Given the prefix read back, a last field that cannot be read fails the
      whole read with its error. */
  lemma ReadFieldsFailStep(d: Dialect, fs: seq<Value>, data: seq<byte>, pos: nat, p1: nat)
    requires fs != []
    requires ReadFields(d, Kinds(fs[..|fs| - 1]), data, pos) == Got(fs[..|fs| - 1], p1)
    requires ReadField(d, KindOf(fs[|fs| - 1]), data, p1).Failed?
    ensures ReadFields(d, Kinds(fs), data, pos) == Failed(ReadField(d, KindOf(fs[|fs| - 1]), data, p1).error)
  {
    var ks := Kinds(fs);
    assert ks[..|ks| - 1] == Kinds(fs[..|fs| - 1]);
  }


  /** A type byte above 12 makes the source's decoder panic: no struct is
      selected and the error branch asks an invalid value for its type. */
  lemma UnknownTypeByteCrashes(t: byte, rest: seq<byte>)
    requires t > ChunkType
    ensures Decode(AsWritten, [t] + rest) == Crash
  {
  }

  /** The corrected decoder reports an unknown type byte as an error. */
  lemma UnknownTypeByteRejected(t: byte, rest: seq<byte>)
    requires t > ChunkType
    ensures Decode(Corrected, [t] + rest) == Err(UnknownType)
  {
  }

  /** An AnswerNodes packet cannot be serialized: its []NodeFileInfo field
      is not a supported type, so writing stops with an error after the five
      fields before it. */
  lemma AnswerNodesNotSerializable(p: Packet)
    requires p.AnswerNodesPacket?
    ensures Serialized(p).1 == Some(Unsupported)
  {
    var fs := Fields(p);
    WriteFieldsWithoutNodes(fs[..5]);
    assert fs[..|fs| - 1] == fs[..5];
  }

  /** Only a []NodeFileInfo field stops the writer. */
  lemma {:induction false} WriteFieldsWithoutNodes(vs: seq<Value>)
    requires forall i :: 0 <= i < |vs| ==> !vs[i].Nodes?
    ensures WriteFields(vs).1 == None
  {
    if vs != [] {
      var init := vs[..|vs| - 1];
      assert forall i :: 0 <= i < |init| ==> init[i] == vs[i];
      WriteFieldsWithoutNodes(init);
    }
  }

  /** A PublishChunk packet has no type byte, so nothing is written. */
  lemma PublishChunkNotSerializable(p: Packet)
    requires p.PublishChunkPacket?
    ensures Serialized(p) == ([], Some(NoPacketType))
  {
  }
}
