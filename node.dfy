/** A peer node: its published, pending and downloading files, the scheduler
    tick that requests chunks, the handlers for the tracker's replies and for
    arriving chunks, and the user's commands. Sockets are replaced by
    outboxes: packets for the tracker, datagrams for peers and work for the
    file writers are appended to sequences. */
module NodeClient {
  import opened Common
  import opened Packets
  import opened Scheduler
  import opened Statistics
  import ChunkGeometry

  // ---------------------------------------------------------------------
  // File names

  const Slash: byte := 0x2F
  const Dot: byte := 0x2E

  function TrimTrailingSlashes(p: Name): (r: Name)
    ensures |r| <= |p| && r == p[..|r|]
    ensures r != [] ==> r[|r| - 1] != Slash
  {
    if |p| > 0 && p[|p| - 1] == Slash then TrimTrailingSlashes(p[..|p| - 1]) else p
  }

  /** The part of p after its last slash. */
  function AfterLastSlash(p: Name): Name
  {
    if p == [] || p[|p| - 1] == Slash then [] else AfterLastSlash(p[..|p| - 1]) + [p[|p| - 1]]
  }

  /** Unix `filepath.Base`: the last element of the path, with trailing
      slashes removed; "." for the empty path and "/" for a path of slashes
      only. */
  function Base(path: Name): Name
  {
    if path == [] then [Dot]
    else
      var t := TrimTrailingSlashes(path);
      if t == [] then [Slash] else AfterLastSlash(t)
  }

  lemma {:induction false} AfterLastSlashFacts(p: Name)
    ensures Slash !in AfterLastSlash(p)
    ensures |AfterLastSlash(p)| <= |p| && AfterLastSlash(p) == p[|p| - |AfterLastSlash(p)|..]
    ensures Slash !in p ==> AfterLastSlash(p) == p
  {
    if p != [] && p[|p| - 1] != Slash {
      var init := p[..|p| - 1];
      AfterLastSlashFacts(init);
      assert p == init + [p[|p| - 1]];
      if Slash !in p {
        assert Slash !in init;
      }
    }
  }

  /** The base name holds no slash unless it is "/", is never empty, is a
      suffix of the path with trailing slashes removed, and is the whole
      name when the path has no slash. */
  lemma BaseFacts(path: Name)
    ensures Base(path) != []
    ensures Base(path) != [Slash] ==> Slash !in Base(path)
    ensures Slash !in path && path != [] ==> Base(path) == path
  {
    if path != [] {
      var t := TrimTrailingSlashes(path);
      AfterLastSlashFacts(t);
      if t != [] {
        assert t[|t| - 1] != Slash;
        assert AfterLastSlash(t) == AfterLastSlash(t[..|t| - 1]) + [t[|t| - 1]];
      }
    }
  }

  /** The base name of "dir/name" is "name". */
  lemma {:induction false} BaseOfJoin(dir: Name, name: Name)
    requires name != [] && Slash !in name
    ensures Base(dir + [Slash] + name) == name
  {
    var p := dir + [Slash] + name;
    assert p[|p| - 1] == name[|name| - 1];
    assert TrimTrailingSlashes(p) == p;
    JoinSuffix(dir + [Slash], name);
  }

  lemma {:induction false} JoinSuffix(head: Name, name: Name)
    requires head != [] && head[|head| - 1] == Slash && Slash !in name
    ensures AfterLastSlash(head + name) == name
    decreases |name|
  {
    if name == [] {
      assert head + name == head;
    } else {
      var init := name[..|name| - 1];
      assert Slash !in init;
      JoinSuffix(head, init);
      assert (head + name)[..|head + name| - 1] == head + init;
      assert name == init + [name[|name| - 1]];
    }
  }

  /** The PublishFile packet for the file at `path` with content c: its base
      name, the chunk size in the size field, the digest of the whole
      content, and one digest per chunk. */
  ghost predicate PublishPacketFor(p: Packet, path: Name, c: seq<byte>, hash: seq<byte> -> Digest)
  {
    |c| > 0 &&
    (ChunkGeometry.NumChunksBound(|c|);
    var size := ChunkGeometry.ChunkSize(|c|);
    var n := ChunkGeometry.NumChunks(|c|, size);
    p.PublishFilePacket? && p.fileName == Base(path) && p.fileSize == size && p.fileHash == hash(c) &&
    |p.chunkHashes| == n &&
    forall i :: 0 <= i < n ==>
      ChunkGeometry.ChunkStart(i, size) <= ChunkGeometry.ChunkEnd(i, n, size, |c|) <= |c| &&
      p.chunkHashes[i] == hash(c[ChunkGeometry.ChunkStart(i, size)..ChunkGeometry.ChunkEnd(i, n, size, |c|)]))
  }

  /** The effect of handleAnswerNodesPacket's holder loop: AddNode for each
      holder in order, skipping the one with this node's own address and UDP
      port. */
  function AddHolders(f: ForDownloadFile, holders: seq<NodeFileInfo>, udpPort: nat, localIp: seq<byte>): ForDownloadFile
    decreases |holders|
  {
    if holders == [] then f
    else
      var h := holders[0];
      AddHolders(if udpPort != h.port || localIp != h.ipAddr then AddNode(f, Addr(h.ipAddr, h.port), h.bitfield) else f,
                 holders[1..], udpPort, localIp)
  }

  // ---------------------------------------------------------------------
  // The node

  /** The inner loop of the tick for one peer: pop missing chunks until none
      is left or 100 are queued. A removal the walk triggers is applied by
      the caller. */
  method WalkPeer(p: Peer, missing: seq<nat>, now: int) returns (w: Walk)
    ensures w == PeerWalk(p, p.timeouts, false, missing, now, [])
  {
    var timeouts: nat, evicted, queued: seq<nat>, rest := p.timeouts, false, [], missing;
    while |rest| > 0 && |queued| < MaxChunksPerRequest
      invariant PeerWalk(p, timeouts, evicted, rest, now, queued) == PeerWalk(p, p.timeouts, false, missing, now, [])
      decreases |rest|
    {
      var chunk := rest[0];
      rest := rest[1..];
      if chunk !in p.chunks || PassedAtLeast(now, p.chunks[chunk].timeLastRequested, ChunkRequestTimeout) {
        var tries := Tries(p, chunk) + 1;
        if tries >= MaxTriesPerChunk {
          timeouts := timeouts + 1;
          if timeouts >= MaxNodeTimeouts {
            evicted := true;
          }
        } else {
          queued := queued + [chunk];
        }
      }
    }
    w := Walk(timeouts, evicted, queued, rest);
  }

  class Node {
    const udpPort: nat
    /** The IPv4 address of the node's side of the tracker connection. */
    const localIp: seq<byte>
    const stats: NodeStatistics

    var published: map<Name, Option<File>>
    var pending: map<Name, File>
    var forDownload: map<Name, ForDownloadFile>
    var toTracker: seq<Packet>
    var datagrams: seq<Datagram>
    var writer: seq<WriterEvent>

    function State(): NodeState
      reads this
    {
      NodeState(published, pending, forDownload, toTracker, datagrams, writer)
    }

    /** The statistics keep their bounds, every download entry carries the
        name it is stored under, and every peer of every download has timed
        out fewer than 3 times. */
    ghost predicate Valid()
      reads this, stats
    {
      stats.Valid() && (forall n :: n in forDownload ==> forDownload[n].fileName == n) &&
      forall n :: n in forDownload ==> PeersLive(forDownload[n].nodes)
    }

    /** NewNode: all maps empty, nothing sent. */
    constructor (udpPort: nat, localIp: seq<byte>)
      ensures Valid() && fresh(stats)
      ensures this.udpPort == udpPort && this.localIp == localIp
      ensures State() == NodeState(map[], map[], map[], [], [], [])
    {
      this.udpPort := udpPort;
      this.localIp := localIp;
      stats := new NodeStatistics();
      published, pending, forDownload := map[], map[], map[];
      toTracker, datagrams, writer := [], [], [];
    }

    /** updateServerChunks: the file's downloaded flags, in chunk order, go
        to the tracker in an UpdateChunks packet. */
    method UpdateServerChunks(file: ForDownloadFile)
      modifies this
      ensures toTracker == old(toTracker) + [UpdateChunksPacket(file.fileName, Flags(file.chunks))]
      ensures published == old(published) && pending == old(pending) && forDownload == old(forDownload)
      ensures datagrams == old(datagrams) && writer == old(writer)
    {
      var bitfield: seq<bool> := [];
      var i := 0;
      while i < |file.chunks|
        invariant 0 <= i <= |file.chunks|
        invariant |bitfield| == i && forall k :: 0 <= k < i ==> bitfield[k] == file.chunks[k].downloaded
      {
        bitfield := bitfield + [file.chunks[i].downloaded];
        i := i + 1;
      }
      assert bitfield == Flags(file.chunks);
      toTracker := toTracker + [UpdateChunksPacket(file.fileName, bitfield)];
    }

    /** RequestChunks: an empty list sends nothing; otherwise one datagram
        names all the chunks, and each of them is marked as requested for
        the peer, if it is still one of the file's peers. */
    method RequestChunks(chunkIndexes: seq<nat>, to: Addr, fileName: Name, nodes: map<Addr, Peer>, now: int)
      returns (marked: map<Addr, Peer>)
      modifies this
      ensures datagrams == old(datagrams) +
                           (if chunkIndexes == [] then [] else [Datagram(to, RequestChunksPacket(fileName, chunkIndexes))])
      ensures marked == if chunkIndexes != [] && to in nodes then nodes[to := MarkAll(nodes[to], chunkIndexes, now)]
                        else nodes
      ensures published == old(published) && pending == old(pending) && forDownload == old(forDownload)
      ensures toTracker == old(toTracker) && writer == old(writer)
    {
      marked := nodes;
      if |chunkIndexes| <= 0 {
        return;
      }
      datagrams := datagrams + [Datagram(to, RequestChunksPacket(fileName, chunkIndexes))];
      if to in nodes {
        var peer := nodes[to];
        var i := 0;
        while i < |chunkIndexes|
          invariant 0 <= i <= |chunkIndexes|
          invariant MarkAll(peer, chunkIndexes[i..], now) == MarkAll(nodes[to], chunkIndexes, now)
        {
          assert chunkIndexes[i..][1..] == chunkIndexes[i + 1..];
          peer := MarkRequested(peer, chunkIndexes[i], now);
          i := i + 1;
        }
        marked := nodes[to := peer];
      }
    }

    /** The tick's walks for one file: each ranked peer in turn pops chunks
        from what the previous peers left of the rarity-ordered missing
        list; a peer that reached 3 timeouts is removed. */
    static method AssignChunks(snap: map<Addr, Peer>, ranking: seq<Addr>, missing: seq<nat>, now: int)
      returns (plan: Plan)
      requires forall i :: 0 <= i < |ranking| ==> ranking[i] in snap
      ensures plan == Assign(snap, ranking, missing, now, snap, [])
    {
      var nodes := snap;
      var requests: seq<Request> := [];
      var rest := missing;
      var i := 0;
      while i < |ranking|
        invariant 0 <= i <= |ranking|
        invariant Assign(snap, ranking[i..], rest, now, nodes, requests) == Assign(snap, ranking, missing, now, snap, [])
      {
        var a := ranking[i];
        var w := WalkPeer(snap[a], rest, now);
        if w.evicted {
          nodes := nodes - {a};
        } else {
          nodes := nodes[a := snap[a].(timeouts := w.timeouts)];
        }
        requests := requests + [Request(a, w.queued)];
        rest := w.rest;
        assert ranking[i..][1..] == ranking[i + 1..];
        i := i + 1;
      }
      assert ranking[i..] == [];
      plan := Plan(nodes, requests);
    }

    /** The dispatch loop of the tick: RequestChunks for every request of the
        plan, in order. */
    method Dispatch(fileName: Name, requests: seq<Request>, nodes: map<Addr, Peer>, now: int)
      returns (marked: map<Addr, Peer>)
      modifies this
      ensures datagrams == old(datagrams) + Sent(fileName, requests)
      ensures marked == MarkPlan(requests, nodes, now)
      ensures published == old(published) && pending == old(pending) && forDownload == old(forDownload)
      ensures toTracker == old(toTracker) && writer == old(writer)
    {
      marked := nodes;
      var j := 0;
      assert requests[0..] == requests;
      while j < |requests|
        invariant 0 <= j <= |requests|
        invariant MarkPlan(requests[j..], marked, now) == MarkPlan(requests, nodes, now)
        invariant datagrams + Sent(fileName, requests[j..]) == old(datagrams) + Sent(fileName, requests)
        invariant published == old(published) && pending == old(pending) && forDownload == old(forDownload)
        invariant toTracker == old(toTracker) && writer == old(writer)
      {
        var r := requests[j];
        assert requests[j..] == [r] + requests[j + 1..];
        marked := RequestChunks(r.chunks, r.peer, fileName, marked, now);
        j := j + 1;
      }
      assert requests[j..] == [];
    }

    /** The tick's work on one file. */
    method TickFile(name: Name, now: int, ranking: seq<Addr>)
      requires Valid() && name in forDownload && IsRanking(ranking, forDownload[name].nodes)
      modifies this
      ensures Valid()
      ensures State() == TickFileSpec(old(State()), name, now, ranking)
    {
      ghost var s0 := State();
      var file := forDownload[name];
      if !file.updatedByTracker {
        return;
      }
      ghost var f := file;
      var complete := IsFileDownloaded(file);
      if PassedMoreThan(now, file.lastServerChunksUpdate, UpdateServerChunksInterval) || complete {
        file := file.(lastServerChunksUpdate := At(now));
        UpdateServerChunks(file);
        toTracker := toTracker + [UpdateFilePacket(name)];
        assert toTracker == s0.toTracker + RefreshPackets(f, name);
      }
      if complete {
        writer := writer + [StopWriter(name)];
        published := published[file.fileName := Some(File(file.fileName, file.filePath))];
        forDownload := forDownload - {name};
        return;
      }
      var missing := RaritySort(Missing(file.chunks), Rarity(file.nodes));
      var plan := AssignChunks(file.nodes, ranking, missing, now);
      assert plan == PlanFor(f, now, ranking);
      var marked := Dispatch(file.fileName, plan.requests, plan.nodes, now);
      forDownload := forDownload[name := file.(nodes := marked)];
      TickKeepsPeersLive(s0, name, now, ranking);
    }

    /** tick: every file being downloaded, in the order the map is walked
        (Go leaves that order unspecified), each with a ranking of its peers
        (the source ranks them by measured speed). */
    method Tick(now: int, order: seq<Name>, rankings: map<Name, seq<Addr>>)
      requires Valid()
      requires Distinct(order) && forall n :: n in order <==> n in forDownload
      requires forall n :: n in forDownload ==> n in rankings && IsRanking(rankings[n], forDownload[n].nodes)
      modifies this
      ensures Valid()
      ensures State() == TickSpec(old(State()), order, now, rankings)
    {
      var i := 0;
      assert order[0..] == order;
      while i < |order|
        invariant 0 <= i <= |order|
        invariant Valid()
        invariant TickSpec(State(), order[i..], now, rankings) == TickSpec(old(State()), order, now, rankings)
        invariant forall j :: i <= j < |order| ==> order[j] in forDownload && forDownload[order[j]] == old(forDownload)[order[j]]
      {
        var name := order[i];
        ghost var s := State();
        TickFileOthers(s, name, now, rankings[name]);
        TickFile(name, now, rankings[name]);
        assert order[i..][1..] == order[i + 1..];
        forall j | i + 1 <= j < |order|
          ensures order[j] in forDownload && forDownload[order[j]] == old(forDownload)[order[j]]
        {
          assert order[j] != name;
        }
        i := i + 1;
      }
      assert order[i..] == [];
    }

    // -------------------------------------------------------------------
    // Handlers for the tracker's replies

    /** handleAnswerNodesPacket: nothing happens for a file no longer being
        downloaded or when SetData fails; otherwise the metadata is set and
        every listed holder is added as a peer, except one with this node's
        own address and UDP port. */
    method HandleAnswerNodes(fileName: Name, fileSize: nat, fileHash: Digest, chunkHashes: seq<Digest>,
                             holders: seq<NodeFileInfo>, setDataOk: bool)
      requires Valid()
      modifies this
      ensures Valid()
      ensures published == old(published) && pending == old(pending) && toTracker == old(toTracker)
      ensures datagrams == old(datagrams) && writer == old(writer)
      ensures fileName !in old(forDownload) || !setDataOk ==> forDownload == old(forDownload)
      ensures fileName in old(forDownload) && setDataOk ==>
                forDownload == old(forDownload)[fileName := AddHolders(SetData(old(forDownload)[fileName], fileHash, chunkHashes, fileSize),
                                                                holders, udpPort, localIp)]
    {
      if fileName !in forDownload {
        return;
      }
      var file := forDownload[fileName];
      if !setDataOk {
        return;
      }
      file := SetData(file, fileHash, chunkHashes, fileSize);
      ghost var set0 := file;
      assert holders[0..] == holders;
      var i := 0;
      while i < |holders|
        invariant 0 <= i <= |holders|
        invariant PeersLive(file.nodes) && file.fileName == fileName
        invariant AddHolders(file, holders[i..], udpPort, localIp) == AddHolders(set0, holders, udpPort, localIp)
        invariant State() == old(State())
      {
        var h := holders[i];
        assert holders[i..][1..] == holders[i + 1..];
        if udpPort != h.port || localIp != h.ipAddr {
          AddNodeKeepsPeersLive(file, Addr(h.ipAddr, h.port), h.bitfield);
          file := AddNode(file, Addr(h.ipAddr, h.port), h.bitfield);
        }
        i := i + 1;
      }
      assert holders[i..] == [];
      forDownload := forDownload[fileName := file];
    }

    /** handleFileSuccessPacket: a publish confirmation moves the pending
        entry to published (an entry that was not pending is published as
        nil) and clears it from pending; a remove confirmation clears the
        name from published; any other kind changes nothing. */
    method HandleFileSuccess(fileName: Name, kind: byte)
      modifies this
      ensures kind == PublishFileType ==>
                published == old(published)[fileName := if fileName in old(pending) then Some(old(pending)[fileName]) else None] &&
                pending == old(pending) - {fileName}
      ensures kind == RemoveFileType ==> published == old(published) - {fileName} && pending == old(pending)
      ensures kind != PublishFileType && kind != RemoveFileType ==> published == old(published) && pending == old(pending)
      ensures forDownload == old(forDownload) && toTracker == old(toTracker)
      ensures datagrams == old(datagrams) && writer == old(writer)
    {
      if kind == PublishFileType {
        var file := if fileName in pending then Some(pending[fileName]) else None;
        published := published[fileName := file];
        pending := pending - {fileName};
      } else if kind == RemoveFileType {
        published := published - {fileName};
      }
    }

    /** handleAlreadyExistsPacket: the tracker refused the publish, so the
        name leaves pending. */
    method HandleAlreadyExists(fileName: Name)
      modifies this
      ensures pending == old(pending) - {fileName}
      ensures published == old(published) && forDownload == old(forDownload) && toTracker == old(toTracker)
      ensures datagrams == old(datagrams) && writer == old(writer)
    {
      pending := pending - {fileName};
    }

    /** handleNotFoundPacket: the tracker knows no such file, so the download
        is dropped. */
    method HandleNotFound(fileName: Name)
      requires Valid()
      modifies this
      ensures Valid()
      ensures forDownload == old(forDownload) - {fileName}
      ensures published == old(published) && pending == old(pending) && toTracker == old(toTracker)
      ensures datagrams == old(datagrams) && writer == old(writer)
    {
      forDownload := forDownload - {fileName};
    }

    // -------------------------------------------------------------------
    // Handler for peers' datagrams

    /** handleChunkPacket: the chunk is dropped, or marked downloaded and
        written (ChunkArrival); when it is accepted and the sender's request
        for it has a real time, one entry is added to the sender's download
        statistics. */
    method HandleChunk(fileName: Name, chunk: nat, content: seq<byte>, sender: Addr, now: int,
                       hash: seq<byte> -> Digest)
      requires Valid() && |content| < U64
      modifies this, stats
      ensures Valid()
      ensures State() == ChunkArrival(old(State()), fileName, chunk, content, hash)
      ensures var at := RequestedAt(old(State()), fileName, chunk, content, sender, hash);
              if at.Some? then
                stats.History(sender) == old(stats.History(sender)) + [DownloadedChunk(|content| % U16, now, at.value)] &&
                (forall a :: a != sender ==> stats.History(a) == old(stats.History(a))) &&
                stats.totalDownloaded == (old(stats.totalDownloaded) + |content|) % U64
              else stats.nodeMap == old(stats.nodeMap) && stats.totalDownloaded == old(stats.totalDownloaded)
      ensures stats.totalUploaded == old(stats.totalUploaded)
    {
      ghost var s0 := State();
      if fileName !in forDownload {
        return;
      }
      var file := forDownload[fileName];
      if chunk >= |file.chunks| || file.chunks[chunk].downloaded {
        return;
      }
      if file.chunks[chunk].hash != hash(content) {
        return;
      }
      if sender in file.nodes {
        var peer := file.nodes[sender];
        if chunk in peer.chunks && peer.chunks[chunk].timeLastRequested.At? {
          stats.AddDownloadedChunk(sender, |content|, peer.chunks[chunk].timeLastRequested.ms, now);
        }
      }
      file := file.(chunks := file.chunks[chunk := file.chunks[chunk].(downloaded := true)]);
      forDownload := forDownload[fileName := file];
      writer := writer + [WriteChunk(fileName, chunk, content)];
    }

    // -------------------------------------------------------------------
    // Commands

    /** requestFile: the request goes to the tracker and a fresh download
        entry, named after the file, replaces whatever the name had. */
    method RequestFile(fileName: Name)
      requires Valid()
      modifies this
      ensures Valid()
      ensures toTracker == old(toTracker) + [RequestFilePacket(fileName)]
      ensures forDownload == old(forDownload)[fileName := NewDownload(fileName)]
      ensures published == old(published) && pending == old(pending)
      ensures datagrams == old(datagrams) && writer == old(writer)
    {
      toTracker := toTracker + [RequestFilePacket(fileName)];
      forDownload := forDownload[fileName := NewDownload(fileName)];
    }

    /** removeFile: the name leaves published at once, before any reply,
        and the removal goes to the tracker; it never fails. */
    method RemoveFile(fileName: Name) returns (err: bool)
      modifies this
      ensures !err
      ensures published == old(published) - {fileName}
      ensures toTracker == old(toTracker) + [RemoveFilePacket(fileName)]
      ensures pending == old(pending) && forDownload == old(forDownload)
      ensures datagrams == old(datagrams) && writer == old(writer)
    {
      published := published - {fileName};
      toTracker := toTracker + [RemoveFilePacket(fileName)];
      err := false;
    }

    /** publishFile: `content` is None when the file cannot be opened, and
        the two flags say whether the whole-file and per-chunk hashing read
        the file without error. On any failure nothing changes. Otherwise the
        file goes to pending under its base name and a PublishFile packet is
        sent, whose size field is the chunk size. */
    method PublishFile(path: Name, content: Option<seq<byte>>, hashFileOk: bool, hashChunksOk: bool,
                       hash: seq<byte> -> Digest)
      returns (err: bool)
      modifies this
      ensures err <==> content.None? || !hashFileOk || !hashChunksOk || |content.value| == 0
      ensures err ==> pending == old(pending) && toTracker == old(toTracker)
      ensures !err ==>
                pending == old(pending)[Base(path) := File(Base(path), path)] &&
                |toTracker| == |old(toTracker)| + 1 && toTracker[..|old(toTracker)|] == old(toTracker) &&
                PublishPacketFor(toTracker[|old(toTracker)|], path, content.value, hash)
      ensures published == old(published) && forDownload == old(forDownload)
      ensures datagrams == old(datagrams) && writer == old(writer)
    {
      if content.None? {
        return true;
      }
      var fileName := Base(path);
      if !hashFileOk {
        return true;
      }
      var fileHash := hash(content.value);
      if !hashChunksOk || |content.value| == 0 {
        return true;
      }
      var fileSize, chunkHashes := ChunkGeometry.HashFileChunks(content.value, hash);
      pending := pending[fileName := File(fileName, path)];
      var packet := PublishFilePacket(fileName, fileSize, fileHash, chunkHashes);
      assert PublishPacketFor(packet, path, content.value, hash);
      toTracker := toTracker + [packet];
      err := false;
    }
  }
}
