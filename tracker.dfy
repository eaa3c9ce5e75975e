/** The tracker's registry: the files it tracks, keyed by name, and the list
    of registered nodes, each with the files it shares. The handlers run one
    packet at a time against this state; the reply each one enqueues on the
    sender's connection is its result.

    `Registry` is the registry as a value and the `…Spec` functions are the
    handlers' effects on it. The classes below are the source's objects,
    updated in place, and their methods are proved to have exactly the
    effects the `…Spec` functions describe. The lemmas are about the
    `…Spec` functions. */
module TrackerRegistry {
  import opened Common
  import Bitfield
  import opened Packets

  /** A file as the tracker records it when a publish is accepted. */
  datatype TrackedFile = TrackedFile(fileName: Name, fileSize: nat, fileHash: Digest, chunkHashes: seq<Digest>)

  /** A file as one node shares it: the file's data and the chunks that node
      holds, as a list of chunk indices. */
  datatype SharedFile = SharedFile(fileName: Name, fileSize: nat, fileHash: Digest, chunkHashes: seq<Digest>,
                                   bitfield: seq<nat>)

  /** The chunk list of a node that holds every one of n chunks: 0, 1, ...,
      n-1 in ascending order. (The helper that builds it is not part of this
      model; the older node code in the repository builds the same list for
      a file it publishes.) */
  function CheckedBitfield(n: nat): (r: seq<nat>)
    ensures |r| == n && forall i :: 0 <= i < n ==> r[i] == i
  {
    seq(n, i => i)
  }

  /** NewSharedFile: the file data copied unchanged, and a bitfield that
      depends on the number of chunk hashes only. */
  function NewSharedFile(fileName: Name, fileSize: nat, fileHash: Digest, chunkHashes: seq<Digest>): (f: SharedFile)
    ensures f.fileName == fileName && f.fileSize == fileSize && f.fileHash == fileHash
    ensures f.chunkHashes == chunkHashes
    ensures f.bitfield == CheckedBitfield(|chunkHashes|)
  {
    SharedFile(fileName, fileSize, fileHash, chunkHashes, CheckedBitfield(|chunkHashes|))
  }

  /** The full chunk list of a file of 1 to 65536 chunks can be encoded: it
      takes ceil(n/8) bytes and decodes back to itself. A file without
      chunks has an empty list, which EncodeBitField cannot encode. */
  lemma CheckedBitfieldEncodes(n: nat)
    ensures Bitfield.Encodable(CheckedBitfield(n)) <==> n > 0
    ensures 0 < n <= Bitfield.Uint16Span ==>
              Bitfield.Encodable(CheckedBitfield(n)) &&
              |Bitfield.Encoded(CheckedBitfield(n))| == (n + 7) / 8 &&
              Bitfield.Decoded(Bitfield.Encoded(CheckedBitfield(n)), 8 * |Bitfield.Encoded(CheckedBitfield(n))|,
                               Bitfield.Uint16Span) == CheckedBitfield(n)
  {
    var s := CheckedBitfield(n);
    if n > 0 {
      assert Bitfield.Last(s) == n - 1;
      assert Bitfield.StrictlyIncreasing(s);
      if n <= Bitfield.Uint16Span {
        Bitfield.DecodeEncode(s, Bitfield.Uint16Span);
        Bitfield.EncodedBits(s);
      }
    }
  }

  /** A registered node: the connection it registered on, the UDP port it
      serves chunks on, and the files it shares, by name. */
  class NodeInfo {
    const conn: Addr
    const udpPort: nat
    var files: map<Name, SharedFile>

    /** NewNodeInfo: the given connection and port, sharing nothing. */
    constructor (conn: Addr, udpPort: nat)
      ensures this.conn == conn && this.udpPort == udpPort && files == map[]
    {
      this.conn := conn;
      this.udpPort := udpPort;
      files := map[];
    }

    /** AddFile: the file is stored under its own name, replacing an earlier
        entry of that name. */
    method AddFile(file: SharedFile)
      modifies this
      ensures files == old(files)[file.fileName := file]
    {
      files := files[file.fileName := file];
    }

    /** RemoveFile: the entry named like the file is gone. */
    method RemoveFile(file: SharedFile)
      modifies this
      ensures files == old(files) - {file.fileName}
    {
      files := files - {file.fileName};
    }

    /** HasFile: whether an entry of that name exists. */
    method HasFile(fileName: Name) returns (has: bool)
      ensures has <==> fileName in files
    {
      has := fileName in files;
    }
  }

  /** A node's state as a value. */
  datatype NodeView = NodeView(conn: Addr, udpPort: nat, files: map<Name, SharedFile>)

  /** The address, UDP port and chunk list of each holder of a name, in
      holder order. */
  predicate Collected(hs: seq<NodeView>, name: Name, ipAddrs: seq<seq<byte>>, ports: seq<nat>, bitfields: seq<seq<nat>>)
  {
    |ipAddrs| == |ports| == |bitfields| == |hs| &&
    forall j :: 0 <= j < |hs| ==>
      name in hs[j].files && ipAddrs[j] == hs[j].conn.ip && ports[j] == hs[j].udpPort &&
      bitfields[j] == hs[j].files[name].bitfield
  }

  lemma CollectedSnoc(hs: seq<NodeView>, name: Name, ipAddrs: seq<seq<byte>>, ports: seq<nat>, bitfields: seq<seq<nat>>,
                      h: NodeView)
    requires Collected(hs, name, ipAddrs, ports, bitfields) && name in h.files
    ensures Collected(hs + [h], name, ipAddrs + [h.conn.ip], ports + [h.udpPort], bitfields + [h.files[name].bitfield])
  {
  }

  /** The whole registry as a value: tracked files and nodes in list order. */
  datatype Registry = Registry(files: map<Name, TrackedFile>, nodes: seq<NodeView>)

  /** What a handler does on the sender's connection: enqueue one packet,
      nothing, or panic (EncodeBitField indexing an empty list). */
  datatype Reply = Send(packet: Packet) | NoReply | Panic

  /** handleInitPacket: a fresh node with no files is appended; an earlier
      registration from the same connection is not looked for. */
  function InitSpec(r: Registry, conn: Addr, udpPort: nat): Registry
  {
    r.(nodes := r.nodes + [NodeView(conn, udpPort, map[])])
  }

  /** The node list after every node registered on `sender` has stored sf. */
  function AddToSender(ns: seq<NodeView>, sender: Addr, sf: SharedFile): (r: seq<NodeView>)
    ensures |r| == |ns|
    ensures forall i :: 0 <= i < |ns| ==>
              r[i] == if ns[i].conn == sender then ns[i].(files := ns[i].files[sf.fileName := sf]) else ns[i]
  {
    seq(|ns|, i requires 0 <= i < |ns| =>
      if ns[i].conn == sender then ns[i].(files := ns[i].files[sf.fileName := sf]) else ns[i])
  }

  /** The node list after every node registered on `sender` has dropped the
      entry `name`. */
  function RemoveFromSender(ns: seq<NodeView>, sender: Addr, name: Name): (r: seq<NodeView>)
    ensures |r| == |ns|
    ensures forall i :: 0 <= i < |ns| ==>
              r[i] == if ns[i].conn == sender then ns[i].(files := ns[i].files - {name}) else ns[i]
  {
    seq(|ns|, i requires 0 <= i < |ns| =>
      if ns[i].conn == sender then ns[i].(files := ns[i].files - {name}) else ns[i])
  }

  /** handlePublishFilePacket: a name already tracked is answered with
      AlreadyExists and nothing changes; otherwise the file is tracked, every
      node on the sender's connection shares it with all chunks, and the
      sender is told the publish succeeded. */
  function PublishSpec(r: Registry, name: Name, size: nat, hash: Digest, chunkHashes: seq<Digest>, sender: Addr)
    : (Registry, Reply)
  {
    if name in r.files then (r, Send(AlreadyExistsPacket(name)))
    else
      var tracked := TrackedFile(name, size, hash, chunkHashes);
      var shared := NewSharedFile(name, size, hash, chunkHashes);
      (Registry(r.files[name := tracked], AddToSender(r.nodes, sender, shared)),
       Send(NewPublishFileSuccessPacket(name)))
  }

  /** handleRemoveFilePacket: the name is dropped from the nodes on the
      sender's connection only; the tracked file stays and nothing is sent. */
  function RemoveSpec(r: Registry, name: Name, sender: Addr): Registry
  {
    r.(nodes := RemoveFromSender(r.nodes, sender, name))
  }

  /** The nodes that share `name`, in list order. */
  function HolderList(ns: seq<NodeView>, name: Name): seq<NodeView>
  {
    if ns == [] then []
    else HolderList(ns[..|ns| - 1], name) + (if name in ns[|ns| - 1].files then [ns[|ns| - 1]] else [])
  }

  predicate HoldersEncodable(hs: seq<NodeView>, name: Name, n: nat)
    requires n <= |hs| && forall i :: 0 <= i < |hs| ==> name in hs[i].files
  {
    forall i :: 0 <= i < n ==> Bitfield.Encodable(hs[i].files[name].bitfield)
  }

  /** handleRequestFilePacket: NotFound for an untracked name; otherwise an
      AnswerNodes packet with the tracked file's data and one entry per
      sharing node, counted in a uint16 (so only the first count mod 2^16
      holders are listed). A listed holder whose chunk list is empty makes
      the bitfield encoder panic. */
  function RequestSpec(r: Registry, name: Name): Reply
  {
    if name !in r.files then Send(NotFoundPacket(name))
    else
      var f := r.files[name];
      var hs := HolderList(r.nodes, name);
      HolderListExact(r.nodes, name);
      var n := |hs| % U16;
      if !HoldersEncodable(hs, name, n) then Panic
      else Send(AnswerNodesPacket(f.fileName, f.fileSize, f.fileHash, f.chunkHashes, n,
                                  seq(n, i requires 0 <= i < n =>
                                    NodeEntry(hs[i].conn.ip, hs[i].udpPort, hs[i].files[name].bitfield))))
  }

  /** The holder list holds exactly the nodes that share the name, each at
      most as often as in the node list, so never more than the list. */
  lemma {:induction false} HolderListExact(ns: seq<NodeView>, name: Name)
    ensures |HolderList(ns, name)| <= |ns|
    ensures forall i :: 0 <= i < |HolderList(ns, name)| ==> name in HolderList(ns, name)[i].files
    ensures forall v :: v in HolderList(ns, name) <==> v in ns && name in v.files
  {
    if ns != [] {
      var init := ns[..|ns| - 1];
      HolderListExact(init, name);
      assert ns == init + [ns[|ns| - 1]];
    }
  }

  /** Holders are listed in the order of the node list: the holders of a
      list made of two parts are those of the first part, then those of the
      second. */
  lemma {:induction false} HolderListInOrder(ns: seq<NodeView>, ms: seq<NodeView>, name: Name)
    ensures HolderList(ns + ms, name) == HolderList(ns, name) + HolderList(ms, name)
  {
    if ms == [] {
      assert ns + ms == ns;
    } else {
      var init := ms[..|ms| - 1];
      HolderListInOrder(ns, init, name);
      assert (ns + ms)[..|ns + ms| - 1] == ns + init;
    }
  }

  /** What every node shares is a tracked file, with the chunk list of a
      node that holds all of it. Registration, publishing and removal keep
      this true. */
  ghost predicate Consistent(r: Registry)
  {
    forall i, name :: 0 <= i < |r.nodes| && name in r.nodes[i].files ==>
      name in r.files &&
      r.nodes[i].files[name] == NewSharedFile(name, r.files[name].fileSize, r.files[name].fileHash,
                                              r.files[name].chunkHashes)
  }

  lemma ConsistentKept(r: Registry, name: Name, size: nat, hash: Digest, chunkHashes: seq<Digest>, sender: Addr,
                       conn: Addr, port: nat)
    requires Consistent(r)
    ensures Consistent(InitSpec(r, conn, port))
    ensures Consistent(PublishSpec(r, name, size, hash, chunkHashes, sender).0)
    ensures Consistent(RemoveSpec(r, name, sender))
  {
    var r1 := InitSpec(r, conn, port);
    assert forall i :: 0 <= i < |r.nodes| ==> r1.nodes[i] == r.nodes[i];
  }

  /** Publishing a name that is already tracked is refused with
      AlreadyExists and changes nothing. */
  lemma PublishTrackedRefused(r: Registry, name: Name, size: nat, hash: Digest, chunkHashes: seq<Digest>, sender: Addr)
    requires name in r.files
    ensures PublishSpec(r, name, size, hash, chunkHashes, sender) == (r, Send(AlreadyExistsPacket(name)))
  {
  }

  /** The same name published twice: accepted the first time, AlreadyExists
      the second, whoever sends it. */
  lemma PublishTwice(r: Registry, name: Name, size: nat, hash: Digest, chunkHashes: seq<Digest>, sender: Addr,
                     size2: nat, hash2: Digest, chunkHashes2: seq<Digest>, sender2: Addr)
    requires name !in r.files
    ensures PublishSpec(r, name, size, hash, chunkHashes, sender).1 == Send(NewPublishFileSuccessPacket(name))
    ensures var r1 := PublishSpec(r, name, size, hash, chunkHashes, sender).0;
            name in r1.files &&
            PublishSpec(r1, name, size2, hash2, chunkHashes2, sender2) == (r1, Send(AlreadyExistsPacket(name)))
  {
  }

  /** Removal does not untrack a file: publishing the name again after a
      remove is still refused with AlreadyExists. */
  lemma RemoveThenPublishRefused(r: Registry, name: Name, size: nat, hash: Digest, chunkHashes: seq<Digest>,
                                 sender: Addr)
    requires name in r.files
    ensures RemoveSpec(r, name, sender).files == r.files
    ensures PublishSpec(RemoveSpec(r, name, sender), name, size, hash, chunkHashes, sender).1
            == Send(AlreadyExistsPacket(name))
  {
  }

  /** After a remove, no node on the sender's connection shares the name,
      and every other node is as it was. */
  lemma RemoveOnlySender(r: Registry, name: Name, sender: Addr)
    ensures forall i :: 0 <= i < |r.nodes| ==>
              var v := RemoveSpec(r, name, sender).nodes[i];
              (r.nodes[i].conn == sender ==> name !in v.files) &&
              (r.nodes[i].conn != sender ==> v == r.nodes[i])
  {
  }

  /** Registering twice from the same connection yields two nodes. */
  lemma InitTwiceTwoNodes(r: Registry, conn: Addr, port: nat)
    ensures var r2 := InitSpec(InitSpec(r, conn, port), conn, port);
            |r2.nodes| == |r.nodes| + 2 && r2.nodes[|r.nodes|] == r2.nodes[|r.nodes| + 1] &&
            r2.nodes[..|r.nodes|] == r.nodes && r2.files == r.files
  {
  }

  /** A request for an untracked name gets NotFound. */
  lemma RequestUntracked(r: Registry, name: Name)
    requires name !in r.files
    ensures RequestSpec(r, name) == Send(NotFoundPacket(name))
  {
  }

  /** After a node registered on the sender's connection publishes a new
      file with at least one chunk, a request for it is answered with
      AnswerNodes naming at least that node, and decoding its entry's
      bitfield lists every chunk. */
  lemma PublishThenRequestAnswers(r: Registry, name: Name, size: nat, hash: Digest, chunkHashes: seq<Digest>,
                                  sender: Addr, k: nat)
    requires Consistent(r) && name !in r.files
    requires 0 < |chunkHashes| <= Bitfield.Uint16Span && |r.nodes| < U16
    requires k < |r.nodes| && r.nodes[k].conn == sender
    ensures var r1 := PublishSpec(r, name, size, hash, chunkHashes, sender).0;
            var reply := RequestSpec(r1, name);
            reply.Send? && reply.packet.AnswerNodesPacket? &&
            reply.packet.fileName == name && reply.packet.chunkHashes == chunkHashes &&
            reply.packet.numberOfNodes >= 1 &&
            forall i :: 0 <= i < |reply.packet.nodes| ==>
              Bitfield.Decoded(reply.packet.nodes[i].bitfield, 8 * reply.packet.nodes[i].bitfieldSize,
                               Bitfield.Uint16Span) == CheckedBitfield(|chunkHashes|)
  {
    var r1 := PublishSpec(r, name, size, hash, chunkHashes, sender).0;
    var hs := HolderList(r1.nodes, name);
    var bits := CheckedBitfield(|chunkHashes|);
    PublishedHolders(r, name, size, hash, chunkHashes, sender, k);
    CheckedBitfieldEncodes(|chunkHashes|);
    assert HoldersEncodable(hs, name, |hs|);
    var reply := RequestSpec(r1, name);
    assert reply.packet.nodes == seq(|hs|, i requires 0 <= i < |hs| => NodeEntry(hs[i].conn.ip, hs[i].udpPort, bits));
    forall i | 0 <= i < |reply.packet.nodes|
      ensures Bitfield.Decoded(reply.packet.nodes[i].bitfield, 8 * reply.packet.nodes[i].bitfieldSize,
                               Bitfield.Uint16Span) == bits
    {
      NodeEntryDecodes(hs[i].conn.ip, hs[i].udpPort, bits);
    }
  }

  /** After such a publish, the holders of the name are at least one and at
      most 2^16 - 1 nodes, each with the full chunk list. */
  lemma PublishedHolders(r: Registry, name: Name, size: nat, hash: Digest, chunkHashes: seq<Digest>,
                         sender: Addr, k: nat)
    requires Consistent(r) && name !in r.files && |r.nodes| < U16
    requires k < |r.nodes| && r.nodes[k].conn == sender
    ensures var r1 := PublishSpec(r, name, size, hash, chunkHashes, sender).0;
            var hs := HolderList(r1.nodes, name);
            name in r1.files && r1.files[name] == TrackedFile(name, size, hash, chunkHashes) &&
            1 <= |hs| < U16 && |hs| % U16 == |hs| &&
            forall i :: 0 <= i < |hs| ==> name in hs[i].files && hs[i].files[name].bitfield == CheckedBitfield(|chunkHashes|)
  {
    var r1 := PublishSpec(r, name, size, hash, chunkHashes, sender).0;
    ConsistentKept(r, name, size, hash, chunkHashes, sender, sender, 0);
    var hs := HolderList(r1.nodes, name);
    HolderListExact(r1.nodes, name);
    assert r1.nodes[k] in hs;
    forall i | 0 <= i < |hs| ensures hs[i].files[name].bitfield == CheckedBitfield(|chunkHashes|) {
      assert hs[i] in r1.nodes;
      var j :| 0 <= j < |r1.nodes| && r1.nodes[j] == hs[i];
    }
  }

  /** A request for a tracked file without chunks, shared by some node,
      panics. */
  lemma RequestEmptyFilePanics(r: Registry, name: Name)
    requires Consistent(r) && name in r.files && |r.files[name].chunkHashes| == 0
    requires exists i :: 0 <= i < |r.nodes| && name in r.nodes[i].files
    requires |r.nodes| < U16
    ensures RequestSpec(r, name) == Panic
  {
    var hs := HolderList(r.nodes, name);
    HolderListExact(r.nodes, name);
    var i :| 0 <= i < |r.nodes| && name in r.nodes[i].files;
    assert r.nodes[i] in hs;
    assert hs[0] in r.nodes;
    var j :| 0 <= j < |r.nodes| && r.nodes[j] == hs[0];
    assert hs[0].files[name].bitfield == [];
    assert !HoldersEncodable(hs, name, |hs| % U16);
  }

  /** The tracker: the tracked files by name and the list of registered
      nodes. Each registration allocates a new node, so the list never holds
      the same node twice. */
  class Tracker {
    var files: map<Name, TrackedFile>
    var nodes: seq<NodeInfo>

    ghost predicate Valid()
      reads this
    {
      forall i, j :: 0 <= i < j < |nodes| ==> nodes[i] != nodes[j]
    }

    ghost function View(): Registry
      reads this, nodes
    {
      Registry(files, Views(nodes))
    }

    constructor ()
      ensures Valid() && View() == Registry(map[], [])
    {
      files := map[];
      nodes := [];
    }

    /** handleInitPacket. */
    method HandleInit(udpPort: nat, sender: Addr)
      requires Valid()
      modifies this
      ensures Valid() && View() == InitSpec(old(View()), sender, udpPort)
      ensures fresh(nodes[|nodes| - 1])
    {
      var newNode := new NodeInfo(sender, udpPort);
      nodes := nodes + [newNode];
      assert Views(nodes) == Views(old(nodes)) + [NodeView(sender, udpPort, map[])];
    }

    /** handlePublishFilePacket. */
    method HandlePublishFile(name: Name, size: nat, hash: Digest, chunkHashes: seq<Digest>, sender: Addr)
      returns (reply: Reply)
      requires Valid()
      modifies this, nodes
      ensures Valid() && nodes == old(nodes)
      ensures (View(), reply) == PublishSpec(old(View()), name, size, hash, chunkHashes, sender)
    {
      if name in files {
        reply := Send(AlreadyExistsPacket(name));
        return;
      }
      var file := TrackedFile(name, size, hash, chunkHashes);
      files := files[name := file];
      var shared := NewSharedFile(name, size, hash, chunkHashes);
      var i := 0;
      while i < |nodes|
        invariant 0 <= i <= |nodes| && nodes == old(nodes) && files == old(files)[name := file]
        invariant forall j :: 0 <= j < |nodes| ==>
                    nodes[j].files == if j < i && nodes[j].conn == sender
                                      then old(nodes[j].files)[name := shared] else old(nodes[j].files)
      {
        if nodes[i].conn == sender {
          nodes[i].AddFile(shared);
        }
        i := i + 1;
      }
      reply := Send(NewPublishFileSuccessPacket(name));
      assert Views(nodes) == AddToSender(old(View()).nodes, sender, shared);
    }

    /** The holder loop of handleRequestFilePacket: the address, UDP port
        and chunk list of every node sharing the name, in node order, and
        their number counted in a uint16. */
    method CollectHolders(name: Name) returns (nNodes: nat, ipAddrs: seq<seq<byte>>, ports: seq<nat>, bitfields: seq<seq<nat>>)
      ensures var hs := HolderList(Views(nodes), name);
              nNodes == |hs| % U16 && Collected(hs, name, ipAddrs, ports, bitfields)
    {
      ghost var ns := Views(nodes);
      nNodes := 0;
      ipAddrs, ports, bitfields := [], [], [];
      ghost var holders: seq<NodeView> := [];
      var i := 0;
      while i < |nodes|
        invariant 0 <= i <= |nodes|
        invariant holders == HolderList(ns[..i], name)
        invariant nNodes == |holders| % U16
        invariant Collected(holders, name, ipAddrs, ports, bitfields)
      {
        ghost var v := ns[i];
        assert v == NodeView(nodes[i].conn, nodes[i].udpPort, nodes[i].files);
        assert ns[..i + 1][..i] == ns[..i] && ns[..i + 1][i] == v;
        assert HolderList(ns[..i + 1], name) == holders + (if name in v.files then [v] else []);
        if name in nodes[i].files {
          var file := nodes[i].files[name];
          CollectedSnoc(holders, name, ipAddrs, ports, bitfields, v);
          nNodes := (nNodes + 1) % U16;
          ipAddrs := ipAddrs + [nodes[i].conn.ip];
          ports := ports + [nodes[i].udpPort];
          bitfields := bitfields + [file.bitfield];
          holders := holders + [v];
        }
        i := i + 1;
      }
      assert ns[..i] == ns;
    }

    /** handleRequestFilePacket: reads the registry and changes nothing. */
    method HandleRequestFile(name: Name) returns (reply: Reply)
      ensures reply == RequestSpec(View(), name)
    {
      if name !in files {
        reply := Send(NotFoundPacket(name));
        return;
      }
      var nNodes, ipAddrs, ports, bitfields := CollectHolders(name);
      ghost var hs := HolderList(Views(nodes), name);
      HolderListExact(Views(nodes), name);
      var file := files[name];
      if !EncodableLists(bitfields, nNodes) {
        assert !HoldersEncodable(hs, name, nNodes);
        reply := Panic;
        return;
      }
      var packet := NewAnswerNodesPacket(file.fileName, file.fileSize, file.fileHash, file.chunkHashes,
                                         nNodes, ipAddrs, ports, bitfields);
      assert packet.nodes == seq(nNodes, i requires 0 <= i < nNodes =>
                                   NodeEntry(hs[i].conn.ip, hs[i].udpPort, hs[i].files[name].bitfield));
      reply := Send(packet);
    }

    /** handleRemoveFilePacket. */
    method HandleRemoveFile(name: Name, sender: Addr)
      requires Valid()
      modifies nodes
      ensures View() == RemoveSpec(old(View()), name, sender)
    {
      var i := 0;
      while i < |nodes|
        invariant 0 <= i <= |nodes|
        invariant forall j :: 0 <= j < |nodes| ==>
                    nodes[j].files == if j < i && nodes[j].conn == sender
                                      then old(nodes[j].files) - {name} else old(nodes[j].files)
      {
        if nodes[i].conn == sender {
          nodes[i].files := nodes[i].files - {name};
        }
        i := i + 1;
      }
      assert Views(nodes) == RemoveFromSender(old(View()).nodes, sender, name);
    }
  }

  /** The nodes' states as values, in list order. */
  ghost function Views(ns: seq<NodeInfo>): (vs: seq<NodeView>)
    reads ns
    ensures |vs| == |ns|
    ensures forall i :: 0 <= i < |ns| ==> vs[i] == NodeView(ns[i].conn, ns[i].udpPort, ns[i].files)
  {
    seq(|ns|, i requires 0 <= i < |ns| reads ns => NodeView(ns[i].conn, ns[i].udpPort, ns[i].files))
  }
}
