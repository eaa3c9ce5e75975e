/** Per-peer download statistics of a node: the bytes it uploaded and
    downloaded in total, and for each peer address the chunks received from
    it. Times are milliseconds on one clock; the clock itself is a
    parameter. */
module Statistics {
  import opened Common

  /** A window of 100 s: only chunks received more recently count towards a
      peer's average speed. */
  const RelevantTime: int := 100_000

  /** One chunk received from a peer. The size is kept as a uint16. */
  datatype DownloadedChunk = DownloadedChunk(chunkSize: nat, received: int, requested: int)

  /** The entries received less than RelevantTime before `now`, in order. */
  function Recent(entries: seq<DownloadedChunk>, now: int): seq<DownloadedChunk>
  {
    if entries == [] then []
    else
      var last := entries[|entries| - 1];
      Recent(entries[..|entries| - 1], now) + (if now - last.received < RelevantTime then [last] else [])
  }

  /** An entry counts towards the average exactly when it was received
      within the window, and the window keeps the order of the history. */
  lemma {:induction false} RecentExact(entries: seq<DownloadedChunk>, now: int)
    ensures |Recent(entries, now)| <= |entries|
    ensures forall e :: e in Recent(entries, now) <==> e in entries && now - e.received < RelevantTime
  {
    if entries != [] {
      var init := entries[..|entries| - 1];
      RecentExact(init, now);
      assert entries == init + [entries[|entries| - 1]];
    }
  }

  /** The window of a history extended by one entry is the window of the
      history, extended by that entry when it is recent. */
  lemma RecentAppend(entries: seq<DownloadedChunk>, e: DownloadedChunk, now: int)
    ensures Recent(entries + [e], now) == Recent(entries, now) + (if now - e.received < RelevantTime then [e] else [])
  {
    assert (entries + [e])[..|entries|] == entries;
  }

  class NodeStatistics {
    var totalUploaded: nat
    var totalDownloaded: nat
    var nodeMap: map<Addr, seq<DownloadedChunk>>

    /** The totals are uint64 values and every stored size a uint16. */
    ghost predicate Valid()
      reads this
    {
      totalUploaded < U64 && totalDownloaded < U64 &&
      forall a, i :: a in nodeMap && 0 <= i < |nodeMap[a]| ==> nodeMap[a][i].chunkSize < U16
    }

    /** NewNodeStatistics: zero totals and no history. */
    constructor ()
      ensures Valid() && totalUploaded == 0 && totalDownloaded == 0 && nodeMap == map[]
    {
      totalUploaded, totalDownloaded, nodeMap := 0, 0, map[];
    }

    /** The history of a peer; a peer never seen has an empty one. */
    function History(addr: Addr): seq<DownloadedChunk>
      reads this
    {
      if addr in nodeMap then nodeMap[addr] else []
    }

    /** addUploadedBytes: only TotalUploaded changes, growing by `bytes`
        modulo 2^64. */
    method AddUploadedBytes(bytes: nat)
      requires Valid() && bytes < U64
      modifies this
      ensures Valid()
      ensures totalUploaded == (old(totalUploaded) + bytes) % U64
      ensures totalDownloaded == old(totalDownloaded) && nodeMap == old(nodeMap)
    {
      totalUploaded := (totalUploaded + bytes) % U64;
    }

    /** addDownloadedChunk: one entry is appended to the peer's history, with
        the size truncated to uint16, while TotalDownloaded grows by the full
        size modulo 2^64; other peers' histories are unchanged. */
    method AddDownloadedChunk(addr: Addr, chunkSize: nat, requested: int, received: int)
      requires Valid() && chunkSize < U64
      modifies this
      ensures Valid()
      ensures History(addr) == old(History(addr)) + [DownloadedChunk(chunkSize % U16, received, requested)]
      ensures forall a :: a != addr ==> History(a) == old(History(a))
      ensures nodeMap.Keys == old(nodeMap.Keys) + {addr}
      ensures totalDownloaded == (old(totalDownloaded) + chunkSize) % U64
      ensures totalUploaded == old(totalUploaded)
    {
      var val := if addr in nodeMap then nodeMap[addr] else [];
      val := val + [DownloadedChunk(chunkSize % U16, received, requested)];
      totalDownloaded := (totalDownloaded + chunkSize) % U64;
      nodeMap := nodeMap[addr := val];
    }

    /** The qualifying part of getAverageDownloadSpeed's loop: the entries of
        the peer's history received less than 100 s before `now`, in order,
        and their number. The speeds are floating point and left out. */
    method RecentChunks(addr: Addr, now: int) returns (relevant: seq<DownloadedChunk>, speedCount: nat)
      ensures relevant == Recent(History(addr), now) && speedCount == |relevant|
      ensures forall e :: e in relevant <==> e in History(addr) && now - e.received < RelevantTime
    {
      var downloadedChunks := History(addr);
      relevant, speedCount := [], 0;
      var i := 0;
      while i < |downloadedChunks|
        invariant 0 <= i <= |downloadedChunks|
        invariant relevant == Recent(downloadedChunks[..i], now) && speedCount == |relevant|
      {
        var chunk := downloadedChunks[i];
        assert downloadedChunks[..i + 1] == downloadedChunks[..i] + [chunk];
        RecentAppend(downloadedChunks[..i], chunk, now);
        if now - chunk.received < RelevantTime {
          relevant := relevant + [chunk];
          speedCount := speedCount + 1;
        }
        i := i + 1;
      }
      assert downloadedChunks[..i] == downloadedChunks;
      RecentExact(downloadedChunks, now);
    }
  }

  /** A chunk recorded now is counted by an average taken now, and is no
      longer counted 100 s later. */
  lemma FreshChunkCounted(entries: seq<DownloadedChunk>, size: nat, requested: int, now: int)
    ensures DownloadedChunk(size, now, requested) in Recent(entries + [DownloadedChunk(size, now, requested)], now)
    ensures DownloadedChunk(size, now, requested) !in Recent(entries + [DownloadedChunk(size, now, requested)],
                                                             now + RelevantTime)
  {
    RecentExact(entries + [DownloadedChunk(size, now, requested)], now);
    RecentExact(entries + [DownloadedChunk(size, now, requested)], now + RelevantTime);
  }
}
