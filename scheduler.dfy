/** The node's download state and the decisions of one scheduler tick, as
    values and functions. The Node class (module NodeClient) runs the same
    steps imperatively and is proved to produce exactly these results.

    Times are milliseconds on the node's clock, read once per call. A chunk
    digest is computed by a hash function given as a parameter (SHA-1 in the
    source). */
module Scheduler {
  import opened Common
  import Bitfield
  import opened Packets

  const UpdateServerChunksInterval: int := 5_000
  const MaxChunksPerRequest: nat := 100
  const ChunkRequestTimeout: int := 500
  const MaxTriesPerChunk: nat := 3
  const MaxNodeTimeouts: nat := 3

  /** A point in time, or Go's zero time, which lies before every clock
      reading: any duration has passed since it. */
  datatype Time = Zero | At(ms: int)

  /** `now.Sub(t) >= d`. */
  predicate PassedAtLeast(now: int, t: Time, d: int)
  {
    t.Zero? || now - t.ms >= d
  }

  /** `now.Sub(t) > d`. */
  predicate PassedMoreThan(now: int, t: Time, d: int)
  {
    t.Zero? || now - t.ms > d
  }

  /** What the node remembers about its requests for one chunk to one peer. */
  datatype RequestState = RequestState(timeLastRequested: Time, numberOfTries: nat)

  /** A peer of one download: the chunks its advertised bitfield lists, the
      request state per chunk, and how often it has timed out. */
  datatype Peer = Peer(held: set<nat>, chunks: map<nat, RequestState>, timeouts: nat)

  datatype ChunkInfo = ChunkInfo(hash: Digest, downloaded: bool)

  /** A file being downloaded. `updatedByTracker` becomes true once the
      tracker's answer has supplied the chunk hashes. */
  datatype ForDownloadFile = ForDownloadFile(fileName: Name, filePath: Name, updatedByTracker: bool,
                                             lastServerChunksUpdate: Time, fileHash: Digest, fileSize: nat,
                                             chunks: seq<ChunkInfo>, nodes: map<Addr, Peer>)

  /** `&ForDownloadFile{}`: every field at its zero value. */
  function EmptyDownload(): (f: ForDownloadFile)
    ensures f.fileName == [] && !f.updatedByTracker && f.chunks == [] && f.nodes == map[]
  {
    ForDownloadFile([], [], false, Zero, [], 0, [], map[])
  }

  /** `NewForDownloadFile(name)`: an entry that carries the file's own name,
      every other field at its zero value. */
  function NewDownload(name: Name): (f: ForDownloadFile)
    ensures f.fileName == name && !f.updatedByTracker && f.chunks == [] && f.nodes == map[]
  {
    EmptyDownload().(fileName := name)
  }

  /** A file the node can serve. */
  datatype File = File(fileName: Name, path: Name)

  /** A datagram sent to a peer. */
  datatype Datagram = Datagram(to: Addr, packet: Packet)

  /** What the node hands to a file's writer. */
  datatype WriterEvent = WriteChunk(file: Name, chunk: nat, content: seq<byte>) | StopWriter(file: Name)

  /** The node's maps and everything it has sent: packets on the tracker
      connection, datagrams to peers, and work for the file writers. A
      published entry of None is a nil *File. */
  datatype NodeState = NodeState(published: map<Name, Option<File>>, pending: map<Name, File>,
                                 forDownload: map<Name, ForDownloadFile>, toTracker: seq<Packet>,
                                 datagrams: seq<Datagram>, writer: seq<WriterEvent>)

  // ---------------------------------------------------------------------
  // Completion and missing chunks

  predicate IsFileDownloaded(f: ForDownloadFile)
  {
    forall i :: 0 <= i < |f.chunks| ==> f.chunks[i].downloaded
  }

  /** The downloaded flags, in chunk order. */
  function Flags(cs: seq<ChunkInfo>): (r: seq<bool>)
    ensures |r| == |cs| && forall i :: 0 <= i < |cs| ==> r[i] == cs[i].downloaded
  {
    seq(|cs|, i requires 0 <= i < |cs| => cs[i].downloaded)
  }

  /** The indices of the chunks not yet downloaded, ascending. */
  function Missing(cs: seq<ChunkInfo>): seq<nat>
  {
    if cs == [] then []
    else Missing(cs[..|cs| - 1]) + (if cs[|cs| - 1].downloaded then [] else [|cs| - 1])
  }

  /** The missing list holds exactly the chunks not downloaded. */
  lemma {:induction false} MissingMembers(cs: seq<ChunkInfo>)
    ensures forall c: nat :: c in Missing(cs) <==> c < |cs| && !cs[c].downloaded
  {
    if cs != [] {
      var init := cs[..|cs| - 1];
      MissingMembers(init);
      assert forall i :: 0 <= i < |init| ==> init[i] == cs[i];
    }
  }

  /** The missing list is ascending. */
  lemma {:induction false} MissingAscending(cs: seq<ChunkInfo>)
    ensures Bitfield.StrictlyIncreasing(Missing(cs))
  {
    if cs != [] {
      var init := cs[..|cs| - 1];
      MissingAscending(init);
      MissingMembers(init);
      var m := Missing(init);
      if !cs[|cs| - 1].downloaded {
        assert Missing(cs) == m + [|cs| - 1];
        forall i | 0 <= i < |m| ensures m[i] < |cs| - 1 {
          assert m[i] in m;
        }
      }
    }
  }

  /** The missing list is ascending and holds exactly the chunks not
      downloaded; it is empty exactly when the file is complete. */
  lemma MissingExact(cs: seq<ChunkInfo>)
    ensures Bitfield.StrictlyIncreasing(Missing(cs))
    ensures forall c: nat :: c in Missing(cs) <==> c < |cs| && !cs[c].downloaded
    ensures Missing(cs) == [] <==> forall i :: 0 <= i < |cs| ==> cs[i].downloaded
  {
    MissingAscending(cs);
    MissingMembers(cs);
    if Missing(cs) != [] {
      assert Missing(cs)[0] in Missing(cs);
    }
  }

  /** A file with N chunks is complete exactly when all N flags are set:
      one chunk short is incomplete. */
  lemma CompleteIffNoneMissing(f: ForDownloadFile, k: nat)
    requires k < |f.chunks| && !f.chunks[k].downloaded
    ensures !IsFileDownloaded(f)
    ensures k in Missing(f.chunks)
  {
    MissingExact(f.chunks);
  }

  /** With nothing downloaded yet, every chunk is missing, in index order. */
  lemma {:induction false} NothingDownloaded(cs: seq<ChunkInfo>)
    requires forall i :: 0 <= i < |cs| ==> !cs[i].downloaded
    ensures Missing(cs) == seq(|cs|, i => i)
  {
    if cs != [] {
      var init := cs[..|cs| - 1];
      NothingDownloaded(init);
      assert seq(|cs|, i => i) == seq(|init|, i => i) + [|cs| - 1];
    }
  }

  // ---------------------------------------------------------------------
  // Rarity

  /** The number of peers whose bitfield lists chunk c. */
  function HolderCount(nodes: map<Addr, Peer>, c: nat): nat
  {
    |set a | a in nodes.Keys && c in nodes[a].held|
  }

  /** The sort key of the rarity order. */
  function Rarity(nodes: map<Addr, Peer>): nat -> nat
  {
    (c: nat) => HolderCount(nodes, c)
  }

  predicate SortedBy(s: seq<nat>, key: nat -> nat)
  {
    forall i, j :: 0 <= i < j < |s| ==> key(s[i]) <= key(s[j])
  }

  /** x inserted into a sorted list after every element whose key is not
      larger. */
  function InsertByKey(x: nat, s: seq<nat>, key: nat -> nat): seq<nat>
  {
    if s == [] || key(s[|s| - 1]) <= key(x) then s + [x]
    else InsertByKey(x, s[..|s| - 1], key) + [s[|s| - 1]]
  }

  /** The missing chunks ordered by holder count. The source calls an
      unstable library sort; this stable insertion sort yields one of the
      orders it may produce. */
  function RaritySort(s: seq<nat>, key: nat -> nat): seq<nat>
  {
    if s == [] then [] else InsertByKey(s[|s| - 1], RaritySort(s[..|s| - 1], key), key)
  }

  lemma {:induction false} InsertByKeySorted(x: nat, s: seq<nat>, key: nat -> nat)
    requires SortedBy(s, key)
    ensures SortedBy(InsertByKey(x, s, key), key)
    ensures multiset(InsertByKey(x, s, key)) == multiset(s) + multiset{x}
    ensures |InsertByKey(x, s, key)| == |s| + 1
  {
    if s == [] || key(s[|s| - 1]) <= key(x) {
      SortedAppend(s, x, key);
    } else {
      var init, last := s[..|s| - 1], s[|s| - 1];
      assert s == init + [last];
      assert SortedBy(init, key);
      InsertByKeySorted(x, init, key);
      var r := InsertByKey(x, init, key);
      forall i | 0 <= i < |r| ensures key(r[i]) <= key(last) {
        assert r[i] in multiset(r);
        if r[i] != x {
          assert r[i] in multiset(init);
          var k :| 0 <= k < |init| && init[k] == r[i];
          assert s[k] == r[i];
        }
      }
      SortedAppend(r, last, key);
    }
  }

  lemma SortedAppend(r: seq<nat>, x: nat, key: nat -> nat)
    requires SortedBy(r, key)
    requires forall i :: 0 <= i < |r| ==> key(r[i]) <= key(x)
    ensures SortedBy(r + [x], key)
  {
    forall i, j | 0 <= i < j < |r| + 1 ensures key((r + [x])[i]) <= key((r + [x])[j]) {
      if j < |r| {
        assert (r + [x])[i] == r[i] && (r + [x])[j] == r[j];
      }
    }
  }

  /** The rarity order is a permutation of its input, sorted by key. */
  lemma {:induction false} RaritySortSorted(s: seq<nat>, key: nat -> nat)
    ensures SortedBy(RaritySort(s, key), key)
    ensures multiset(RaritySort(s, key)) == multiset(s)
    ensures |RaritySort(s, key)| == |s|
  {
    if s != [] {
      var init := s[..|s| - 1];
      RaritySortSorted(init, key);
      InsertByKeySorted(s[|s| - 1], RaritySort(init, key), key);
      assert s == init + [s[|s| - 1]];
    }
  }

  /** A list already in rarity order is left as it is. */
  lemma {:induction false} RaritySortKeepsSorted(s: seq<nat>, key: nat -> nat)
    requires SortedBy(s, key)
    ensures RaritySort(s, key) == s
  {
    if s != [] {
      var init := s[..|s| - 1];
      assert SortedBy(init, key);
      RaritySortKeepsSorted(init, key);
      if init != [] {
        assert key(init[|init| - 1]) <= key(s[|s| - 1]);
      }
      assert init + [s[|s| - 1]] == s;
    }
  }

  /** Chunks 0, 1 and 2 held by one, three and no peers are scheduled in the
      order 2, 0, 1: the rarest first. */
  lemma RarestFirstExample(key: nat -> nat)
    requires key(0) == 1 && key(1) == 3 && key(2) == 0
    ensures RaritySort([0, 1, 2], key) == [2, 0, 1]
  {
    assert [0, 1, 2][..2] == [0, 1];
    assert [0, 1][..1] == [0];
    assert [0][..0] == [];
    assert RaritySort([0], key) == [0];
    assert RaritySort([0, 1], key) == [0, 1];
    assert [0, 1][..1] == [0];
    assert InsertByKey(2, [0], key) == InsertByKey(2, [], key) + [0];
    assert InsertByKey(2, [0, 1], key) == InsertByKey(2, [0], key) + [1];
  }

  // ---------------------------------------------------------------------
  // Subsequences

  /** xs is ys with some elements left out. */
  predicate Subseq(xs: seq<nat>, ys: seq<nat>)
    decreases |ys|
  {
    xs == [] || (ys != [] && ((xs[0] == ys[0] && Subseq(xs[1..], ys[1..])) || Subseq(xs, ys[1..])))
  }

  lemma {:induction false} SubseqMembers(xs: seq<nat>, ys: seq<nat>)
    requires Subseq(xs, ys)
    ensures forall x :: x in xs ==> x in ys
    decreases |ys|
  {
    if xs != [] {
      if xs[0] == ys[0] && Subseq(xs[1..], ys[1..]) {
        SubseqMembers(xs[1..], ys[1..]);
        assert xs == [xs[0]] + xs[1..];
      } else {
        SubseqMembers(xs, ys[1..]);
      }
    }
  }

  lemma {:induction false} SubseqExtend(xs: seq<nat>, ys: seq<nat>, zs: seq<nat>)
    requires Subseq(xs, zs)
    ensures Subseq(xs, ys + zs)
    decreases |ys|
  {
    if ys != [] && xs != [] {
      SubseqExtend(xs, ys[1..], zs);
      assert (ys + zs)[1..] == ys[1..] + zs;
      assert Subseq(xs, (ys + zs)[1..]);
    } else if ys == [] {
      assert ys + zs == zs;
    }
  }

  lemma {:induction false} SubseqAppend(a: seq<nat>, x: seq<nat>, b: seq<nat>, y: seq<nat>)
    requires Subseq(a, x) && Subseq(b, y)
    ensures Subseq(a + b, x + y)
    decreases |x|
  {
    if a == [] {
      SubseqExtend(b, x, y);
      assert a + b == b;
    } else if a[0] == x[0] && Subseq(a[1..], x[1..]) {
      SubseqAppend(a[1..], x[1..], b, y);
      assert (a + b)[1..] == a[1..] + b && (x + y)[1..] == x[1..] + y;
    } else {
      SubseqAppend(a, x[1..], b, y);
      assert (x + y)[1..] == x[1..] + y;
    }
  }

  lemma {:induction false} SubseqDistinct(xs: seq<nat>, ys: seq<nat>)
    requires Subseq(xs, ys) && Distinct(ys)
    ensures Distinct(xs)
    decreases |ys|
  {
    if xs != [] {
      assert Distinct(ys[1..]);
      if xs[0] == ys[0] && Subseq(xs[1..], ys[1..]) {
        SubseqDistinct(xs[1..], ys[1..]);
        SubseqMembers(xs[1..], ys[1..]);
        forall i, j | 0 <= i < j < |xs| ensures xs[i] != xs[j] {
          if i == 0 {
            assert xs[j] == xs[1..][j - 1];
            assert xs[j] in ys[1..];
          } else {
            assert xs[i] == xs[1..][i - 1] && xs[j] == xs[1..][j - 1];
          }
        }
      } else {
        SubseqDistinct(xs, ys[1..]);
      }
    }
  }

  lemma {:induction false} SubseqSorted(xs: seq<nat>, ys: seq<nat>, key: nat -> nat)
    requires Subseq(xs, ys) && SortedBy(ys, key)
    ensures SortedBy(xs, key)
    decreases |ys|
  {
    if xs != [] {
      assert SortedBy(ys[1..], key);
      if xs[0] == ys[0] && Subseq(xs[1..], ys[1..]) {
        SubseqSorted(xs[1..], ys[1..], key);
        SubseqMembers(xs[1..], ys[1..]);
        forall i, j | 0 <= i < j < |xs| ensures key(xs[i]) <= key(xs[j]) {
          if i == 0 {
            assert xs[j] == xs[1..][j - 1];
            assert xs[j] in ys[1..];
            var k :| 0 <= k < |ys[1..]| && ys[1..][k] == xs[j];
            assert ys[k + 1] == xs[j];
          } else {
            assert xs[i] == xs[1..][i - 1] && xs[j] == xs[1..][j - 1];
          }
        }
      } else {
        SubseqSorted(xs, ys[1..], key);
      }
    }
  }

  // ---------------------------------------------------------------------
  // Assignment

  function Tries(p: Peer, c: nat): nat
  {
    if c in p.chunks then p.chunks[c].numberOfTries else 0
  }

  /** What happens to chunk c when it is popped for peer p. */
  datatype Decision = Queue | Drop | TimeOut

  /** A chunk never requested from the peer, or last requested at least
      500 ms ago, is retried: with the incremented try count below 3 it is
      queued, otherwise it counts as a timeout of the peer. A chunk
      requested less than 500 ms ago is dropped for this tick. */
  function Decide(p: Peer, c: nat, now: int): Decision
  {
    var last := if c in p.chunks then p.chunks[c].timeLastRequested else Zero;
    if PassedAtLeast(now, last, ChunkRequestTimeout) || c !in p.chunks then
      if Tries(p, c) + 1 >= MaxTriesPerChunk then TimeOut else Queue
    else Drop
  }

  /** The result of walking one peer: its timeout count, whether it was
      removed from the file, the chunks queued for it, and the missing
      chunks not yet popped. */
  datatype Walk = Walk(timeouts: nat, evicted: bool, queued: seq<nat>, rest: seq<nat>)

  /** The inner loop of the tick for one peer: pop missing chunks until none
      is left or 100 are queued for the peer. Each timeout increments the
      peer's count and removes the peer once the count reaches 3. */
  function PeerWalk(p: Peer, timeouts: nat, evicted: bool, missing: seq<nat>, now: int, queued: seq<nat>): Walk
    decreases |missing|
  {
    if |missing| == 0 || |queued| >= MaxChunksPerRequest then Walk(timeouts, evicted, queued, missing)
    else match Decide(p, missing[0], now)
      case Queue => PeerWalk(p, timeouts, evicted, missing[1..], now, queued + [missing[0]])
      case Drop => PeerWalk(p, timeouts, evicted, missing[1..], now, queued)
      case TimeOut => PeerWalk(p, timeouts + 1, evicted || timeouts + 1 >= MaxNodeTimeouts, missing[1..], now, queued)
  }

  /** One step of a walk that has chunks left and room for more. */
  lemma WalkStep(p: Peer, t: nat, ev: bool, missing: seq<nat>, now: int, queued: seq<nat>)
    requires |missing| > 0 && |queued| < MaxChunksPerRequest
    ensures var d := Decide(p, missing[0], now);
            PeerWalk(p, t, ev, missing, now, queued) ==
            PeerWalk(p, if d == TimeOut then t + 1 else t, if d == TimeOut then ev || t + 1 >= MaxNodeTimeouts else ev,
                     missing[1..], now, if d == Queue then queued + [missing[0]] else queued)
  {
  }

  /** A walk consumes a prefix of the missing list. */
  lemma {:induction false} WalkRest(p: Peer, t: nat, ev: bool, missing: seq<nat>, now: int, queued: seq<nat>)
    ensures var w := PeerWalk(p, t, ev, missing, now, queued);
            |w.rest| <= |missing| && w.rest == missing[|missing| - |w.rest|..]
    decreases |missing|
  {
    if |missing| > 0 && |queued| < MaxChunksPerRequest {
      var d := Decide(p, missing[0], now);
      var t', ev', queued' := if d == TimeOut then t + 1 else t, if d == TimeOut then ev || t + 1 >= MaxNodeTimeouts else ev,
                              if d == Queue then queued + [missing[0]] else queued;
      WalkStep(p, t, ev, missing, now, queued);
      WalkRest(p, t', ev', missing[1..], now, queued');
    }
  }

  /** What one walk pops and queues: a prefix of the missing list is
      consumed, and the chunks queued are a subsequence of that prefix,
      appended after the ones already queued. */
  lemma {:induction false} WalkShape(p: Peer, t: nat, ev: bool, missing: seq<nat>, now: int, queued: seq<nat>)
    ensures var w := PeerWalk(p, t, ev, missing, now, queued);
            |w.rest| <= |missing| && w.rest == missing[|missing| - |w.rest|..] &&
            |queued| <= |w.queued| && w.queued[..|queued|] == queued &&
            Subseq(w.queued[|queued|..], missing[..|missing| - |w.rest|])
    decreases |missing|
  {
    var w := PeerWalk(p, t, ev, missing, now, queued);
    WalkRest(p, t, ev, missing, now, queued);
    if |missing| == 0 || |queued| >= MaxChunksPerRequest {
      assert w.queued[|queued|..] == [];
    } else {
      var c, m := missing[0], missing[1..];
      var k := |missing| - |w.rest|;
      var d := Decide(p, c, now);
      var t', ev', queued' := if d == TimeOut then t + 1 else t, if d == TimeOut then ev || t + 1 >= MaxNodeTimeouts else ev,
                              if d == Queue then queued + [c] else queued;
      WalkStep(p, t, ev, missing, now, queued);
      WalkShape(p, t', ev', m, now, queued');
      assert missing[..k][1..] == m[..|m| - |w.rest|];
      if d == Queue {
        assert w.queued[|queued|..] == [c] + w.queued[|queued| + 1..];
        assert w.queued[..|queued| + 1][..|queued|] == w.queued[..|queued|];
      }
    }
  }

  /** A walk queues at most 100 chunks, each one whose decision is Queue. */
  lemma {:induction false} WalkQueues(p: Peer, t: nat, ev: bool, missing: seq<nat>, now: int, queued: seq<nat>)
    requires |queued| <= MaxChunksPerRequest
    ensures var w := PeerWalk(p, t, ev, missing, now, queued);
            |w.queued| <= MaxChunksPerRequest &&
            forall c :: c in w.queued ==> c in queued || Decide(p, c, now) == Queue
    decreases |missing|
  {
    if |missing| > 0 && |queued| < MaxChunksPerRequest {
      var c, m := missing[0], missing[1..];
      var d := Decide(p, c, now);
      var t', ev', queued' := if d == TimeOut then t + 1 else t, if d == TimeOut then ev || t + 1 >= MaxNodeTimeouts else ev,
                              if d == Queue then queued + [c] else queued;
      WalkStep(p, t, ev, missing, now, queued);
      WalkQueues(p, t', ev', m, now, queued');
    }
  }

  /** A walk only ever increments the timeout count, and removes the peer
      exactly when the count goes up to 3 or more. */
  lemma {:induction false} WalkTimeouts(p: Peer, t: nat, ev: bool, missing: seq<nat>, now: int, queued: seq<nat>)
    ensures var w := PeerWalk(p, t, ev, missing, now, queued);
            t <= w.timeouts && (w.evicted <==> ev || (t < w.timeouts && MaxNodeTimeouts <= w.timeouts))
    decreases |missing|
  {
    if |missing| > 0 && |queued| < MaxChunksPerRequest {
      var c, m := missing[0], missing[1..];
      var d := Decide(p, c, now);
      var t', ev', queued' := if d == TimeOut then t + 1 else t, if d == TimeOut then ev || t + 1 >= MaxNodeTimeouts else ev,
                              if d == Queue then queued + [c] else queued;
      WalkStep(p, t, ev, missing, now, queued);
      WalkTimeouts(p, t', ev', m, now, queued');
    }
  }

  /** A peer that has never been asked for any of the missing chunks gets
      all of them, when they are at most 100. */
  lemma {:induction false} WalkQueuesUnrequested(p: Peer, t: nat, ev: bool, missing: seq<nat>, now: int,
                                                 queued: seq<nat>)
    requires forall c :: c in missing ==> c !in p.chunks
    requires |queued| + |missing| <= MaxChunksPerRequest
    ensures PeerWalk(p, t, ev, missing, now, queued) == Walk(t, ev, queued + missing, [])
    decreases |missing|
  {
    if missing != [] {
      assert missing[0] in missing;
      assert forall c :: c in missing[1..] ==> c in missing;
      WalkQueuesUnrequested(p, t, ev, missing[1..], now, queued + [missing[0]]);
      assert queued + [missing[0]] + missing[1..] == queued + missing;
    } else {
      assert queued + missing == queued;
    }
  }

  /** The chunks queued for one peer. */
  datatype Request = Request(peer: Addr, chunks: seq<nat>)

  /** The file's peers after the walks, and the queued chunks per peer. */
  datatype Plan = Plan(nodes: map<Addr, Peer>, requests: seq<Request>)

  /** The peers in ranked order each walk the missing list, which shrinks as
      chunks are popped. `snap` is the peers' state when the tick began. */
  function Assign(snap: map<Addr, Peer>, ranking: seq<Addr>, missing: seq<nat>, now: int,
                  nodes: map<Addr, Peer>, requests: seq<Request>): Plan
    requires forall i :: 0 <= i < |ranking| ==> ranking[i] in snap
    decreases |ranking|
  {
    if ranking == [] then Plan(nodes, requests)
    else
      var a := ranking[0];
      var p := snap[a];
      var w := PeerWalk(p, p.timeouts, false, missing, now, []);
      var nodes' := if w.evicted then nodes - {a} else nodes[a := p.(timeouts := w.timeouts)];
      Assign(snap, ranking[1..], w.rest, now, nodes', requests + [Request(a, w.queued)])
  }

  /** All chunks of a plan's requests, in order. */
  function Flatten(rs: seq<Request>): seq<nat>
  {
    if rs == [] then [] else rs[0].chunks + Flatten(rs[1..])
  }

  /** One step of the assignment: the first ranked peer walks the missing
      list, and the rest of the ranking walks what it left. */
  lemma AssignStep(snap: map<Addr, Peer>, ranking: seq<Addr>, missing: seq<nat>, now: int,
                   nodes: map<Addr, Peer>, requests: seq<Request>)
    requires forall i :: 0 <= i < |ranking| ==> ranking[i] in snap
    requires ranking != []
    ensures var a := ranking[0];
            var p := snap[a];
            var w := PeerWalk(p, p.timeouts, false, missing, now, []);
            Assign(snap, ranking, missing, now, nodes, requests) ==
            Assign(snap, ranking[1..], w.rest, now, if w.evicted then nodes - {a} else nodes[a := p.(timeouts := w.timeouts)],
                   requests + [Request(a, w.queued)])
  {
  }

  /** One request per ranked peer, in ranked order, each with at most 100
      chunks whose decision for that peer is Queue. */
  ghost predicate Follows(rs: seq<Request>, snap: map<Addr, Peer>, ranking: seq<Addr>, now: int)
  {
    |rs| == |ranking| &&
    forall i :: 0 <= i < |rs| ==>
      rs[i].peer == ranking[i] && ranking[i] in snap && |rs[i].chunks| <= MaxChunksPerRequest &&
      forall c :: c in rs[i].chunks ==> Decide(snap[ranking[i]], c, now) == Queue
  }

  lemma FollowsCons(r: Request, rs: seq<Request>, snap: map<Addr, Peer>, ranking: seq<Addr>, now: int)
    requires ranking != [] && ranking[0] in snap && r.peer == ranking[0] && |r.chunks| <= MaxChunksPerRequest
    requires forall c :: c in r.chunks ==> Decide(snap[ranking[0]], c, now) == Queue
    requires Follows(rs, snap, ranking[1..], now)
    ensures Follows([r] + rs, snap, ranking, now)
  {
    forall i | 0 <= i < |[r] + rs|
      ensures ([r] + rs)[i].peer == ranking[i] && ranking[i] in snap && |([r] + rs)[i].chunks| <= MaxChunksPerRequest &&
              forall c :: c in ([r] + rs)[i].chunks ==> Decide(snap[ranking[i]], c, now) == Queue
    {
      if i > 0 {
        assert ([r] + rs)[i] == rs[i - 1] && ranking[i] == ranking[1..][i - 1];
      }
    }
  }

  /** The walks append one request per ranked peer to those already made. */
  lemma {:induction false} AssignRequests(snap: map<Addr, Peer>, ranking: seq<Addr>, missing: seq<nat>, now: int,
                                          nodes: map<Addr, Peer>, requests: seq<Request>)
    requires forall i :: 0 <= i < |ranking| ==> ranking[i] in snap
    ensures var pl := Assign(snap, ranking, missing, now, nodes, requests);
            |requests| <= |pl.requests| && pl.requests[..|requests|] == requests &&
            Follows(pl.requests[|requests|..], snap, ranking, now)
    decreases |ranking|
  {
    var pl := Assign(snap, ranking, missing, now, nodes, requests);
    if ranking == [] {
      assert pl.requests[..|requests|] == requests;
    } else {
      var a := ranking[0];
      var p := snap[a];
      var w := PeerWalk(p, p.timeouts, false, missing, now, []);
      WalkQueues(p, p.timeouts, false, missing, now, []);
      var nodes' := if w.evicted then nodes - {a} else nodes[a := p.(timeouts := w.timeouts)];
      var requests' := requests + [Request(a, w.queued)];
      AssignStep(snap, ranking, missing, now, nodes, requests);
      AssignRequests(snap, ranking[1..], w.rest, now, nodes', requests');
      NextAfterPrefix(pl.requests, requests, Request(a, w.queued));
      FollowsCons(Request(a, w.queued), pl.requests[|requests'|..], snap, ranking, now);
      assert pl.requests[..|requests'|][..|requests|] == requests;
    }
  }

  /** A sequence that starts with pre + [r] continues after pre with r. */
  lemma NextAfterPrefix<T>(rs: seq<T>, pre: seq<T>, r: T)
    requires |pre| + 1 <= |rs| && rs[..|pre| + 1] == pre + [r]
    ensures rs[|pre|..] == [r] + rs[|pre| + 1..]
  {
    assert rs[|pre|] == rs[..|pre| + 1][|pre|];
  }

  /** All queued chunks together, in plan order, form a subsequence of the
      missing list. */
  lemma {:induction false} AssignSubseq(snap: map<Addr, Peer>, ranking: seq<Addr>, missing: seq<nat>, now: int,
                                        nodes: map<Addr, Peer>, requests: seq<Request>)
    requires forall i :: 0 <= i < |ranking| ==> ranking[i] in snap
    ensures var pl := Assign(snap, ranking, missing, now, nodes, requests);
            |requests| <= |pl.requests| && Subseq(Flatten(pl.requests[|requests|..]), missing)
    decreases |ranking|
  {
    var pl := Assign(snap, ranking, missing, now, nodes, requests);
    if ranking == [] {
      assert pl.requests[|requests|..] == [];
    } else {
      var a := ranking[0];
      var p := snap[a];
      var w := PeerWalk(p, p.timeouts, false, missing, now, []);
      WalkShape(p, p.timeouts, false, missing, now, []);
      var nodes' := if w.evicted then nodes - {a} else nodes[a := p.(timeouts := w.timeouts)];
      var requests' := requests + [Request(a, w.queued)];
      AssignStep(snap, ranking, missing, now, nodes, requests);
      AssignRequests(snap, ranking[1..], w.rest, now, nodes', requests');
      AssignSubseq(snap, ranking[1..], w.rest, now, nodes', requests');
      var tail := pl.requests[|requests'|..];
      NextAfterPrefix(pl.requests, requests, Request(a, w.queued));
      assert Flatten(pl.requests[|requests|..]) == w.queued + Flatten(tail);
      var k := |missing| - |w.rest|;
      assert w.queued[0..] == w.queued;
      SubseqAppend(w.queued, missing[..k], Flatten(tail), w.rest);
      assert missing[..k] + w.rest == missing;
    }
  }

  /** Every peer of a file has timed out fewer than 3 times: a peer is
      removed as soon as its count reaches 3. */
  predicate PeersLive(nodes: map<Addr, Peer>)
  {
    forall a :: a in nodes ==> nodes[a].timeouts < MaxNodeTimeouts
  }

  /** The walks keep every remaining peer below the timeout limit, add no
      peer, and change nothing about a peer but its timeout count. */
  lemma {:induction false} AssignKeepsPeersLive(snap: map<Addr, Peer>, ranking: seq<Addr>, missing: seq<nat>,
                                                now: int, nodes: map<Addr, Peer>, requests: seq<Request>)
    requires forall i :: 0 <= i < |ranking| ==> ranking[i] in snap
    requires PeersLive(snap) && PeersLive(nodes)
    requires forall a :: a in nodes ==> a in snap && nodes[a].held == snap[a].held && nodes[a].chunks == snap[a].chunks
    ensures var pl := Assign(snap, ranking, missing, now, nodes, requests);
            PeersLive(pl.nodes) &&
            forall a :: a in pl.nodes ==>
              a in snap && pl.nodes[a].held == snap[a].held && pl.nodes[a].chunks == snap[a].chunks
    decreases |ranking|
  {
    if ranking != [] {
      var a := ranking[0];
      var p := snap[a];
      var w := PeerWalk(p, p.timeouts, false, missing, now, []);
      WalkShape(p, p.timeouts, false, missing, now, []);
      WalkQueues(p, p.timeouts, false, missing, now, []);
      WalkTimeouts(p, p.timeouts, false, missing, now, []);
      var nodes' := if w.evicted then nodes - {a} else nodes[a := p.(timeouts := w.timeouts)];
      assert !w.evicted ==> w.timeouts < MaxNodeTimeouts;
      AssignKeepsPeersLive(snap, ranking[1..], w.rest, now, nodes', requests + [Request(a, w.queued)]);
    }
  }

  // ---------------------------------------------------------------------
  // Dispatch

  /** MarkChunkAsRequested: the chunk's request time becomes now and its try
      count grows by one (a chunk never requested starts from zero). */
  function MarkRequested(p: Peer, c: nat, now: int): Peer
  {
    p.(chunks := p.chunks[c := RequestState(At(now), Tries(p, c) + 1)])
  }

  function MarkAll(p: Peer, cs: seq<nat>, now: int): Peer
    decreases |cs|
  {
    if cs == [] then p else MarkAll(MarkRequested(p, cs[0], now), cs[1..], now)
  }

  /** Marking a list of distinct chunks stamps each of them with now and one
      more try, and leaves every other chunk, the held set and the timeout
      count alone. */
  lemma {:induction false} MarkAllFacts(p: Peer, cs: seq<nat>, now: int)
    requires Distinct(cs)
    ensures var q := MarkAll(p, cs, now);
            q.held == p.held && q.timeouts == p.timeouts &&
            q.chunks.Keys == p.chunks.Keys + (set c | c in cs) &&
            (forall c :: c in cs ==> q.chunks[c] == RequestState(At(now), Tries(p, c) + 1)) &&
            (forall c :: c in p.chunks && c !in cs ==> q.chunks[c] == p.chunks[c])
    decreases |cs|
  {
    if cs != [] {
      var p1 := MarkRequested(p, cs[0], now);
      assert Distinct(cs[1..]);
      MarkAllFacts(p1, cs[1..], now);
      assert cs[0] !in cs[1..];
      assert forall c :: c in cs[1..] ==> Tries(p1, c) == Tries(p, c);
      assert forall c :: c in cs <==> c == cs[0] || c in cs[1..];
    }
  }

  /** RequestChunks applied to the plan, request by request: a non-empty
      request marks its chunks for that peer, if the peer is still one of
      the file's peers. */
  function MarkPlan(rs: seq<Request>, nodes: map<Addr, Peer>, now: int): map<Addr, Peer>
  {
    if rs == [] then nodes
    else
      var r := rs[0];
      MarkPlan(rs[1..], if r.chunks != [] && r.peer in nodes then nodes[r.peer := MarkAll(nodes[r.peer], r.chunks, now)]
                        else nodes, now)
  }

  /** One RequestChunks datagram per non-empty request, in plan order. */
  function Sent(fileName: Name, rs: seq<Request>): seq<Datagram>
  {
    if rs == [] then []
    else (if rs[0].chunks == [] then [] else [Datagram(rs[0].peer, RequestChunksPacket(fileName, rs[0].chunks))])
         + Sent(fileName, rs[1..])
  }

  /** Marking never adds or removes a peer, nor changes a timeout count. */
  lemma {:induction false} MarkPlanKeepsPeers(rs: seq<Request>, nodes: map<Addr, Peer>, now: int)
    ensures MarkPlan(rs, nodes, now).Keys == nodes.Keys
    ensures forall a :: a in nodes ==> MarkPlan(rs, nodes, now)[a].timeouts == nodes[a].timeouts
  {
    if rs != [] {
      var r := rs[0];
      var n1 := if r.chunks != [] && r.peer in nodes then nodes[r.peer := MarkAll(nodes[r.peer], r.chunks, now)]
                else nodes;
      if r.chunks != [] && r.peer in nodes {
        MarkAllTimeouts(nodes[r.peer], r.chunks, now);
      }
      MarkPlanKeepsPeers(rs[1..], n1, now);
    }
  }

  lemma {:induction false} MarkAllTimeouts(p: Peer, cs: seq<nat>, now: int)
    ensures MarkAll(p, cs, now).timeouts == p.timeouts
    decreases |cs|
  {
    if cs != [] {
      MarkAllTimeouts(MarkRequested(p, cs[0], now), cs[1..], now);
    }
  }

  // ---------------------------------------------------------------------
  // One tick, for one file

  /** The tick's peer order: each of the file's peers exactly once. The
      source sorts by measured speed in floating point; any order is
      allowed here. */
  ghost predicate IsRanking(ranking: seq<Addr>, nodes: map<Addr, Peer>)
  {
    Distinct(ranking) && forall a :: a in ranking <==> a in nodes
  }

  /** The chunk update and the file update sent to the tracker. */
  function RefreshPackets(f: ForDownloadFile, name: Name): seq<Packet>
  {
    [UpdateChunksPacket(f.fileName, Flags(f.chunks)), UpdateFilePacket(name)]
  }

  /** The missing chunks, rarest first, and the walks of the ranked peers. */
  function PlanFor(f: ForDownloadFile, now: int, ranking: seq<Addr>): Plan
    requires forall i :: 0 <= i < |ranking| ==> ranking[i] in f.nodes
  {
    Assign(f.nodes, ranking, RaritySort(Missing(f.chunks), Rarity(f.nodes)), now, f.nodes, [])
  }

  /** The tick's work on the file under `name`. */
  function TickFileSpec(s: NodeState, name: Name, now: int, ranking: seq<Addr>): NodeState
    requires name in s.forDownload
    requires forall i :: 0 <= i < |ranking| ==> ranking[i] in s.forDownload[name].nodes
  {
    var f := s.forDownload[name];
    if !f.updatedByTracker then s
    else
      var refresh := PassedMoreThan(now, f.lastServerChunksUpdate, UpdateServerChunksInterval) || IsFileDownloaded(f);
      var f1 := if refresh then f.(lastServerChunksUpdate := At(now)) else f;
      var out := if refresh then s.toTracker + RefreshPackets(f, name) else s.toTracker;
      if IsFileDownloaded(f) then
        s.(published := s.published[f.fileName := Some(File(f.fileName, f.filePath))],
           forDownload := s.forDownload - {name}, toTracker := out, writer := s.writer + [StopWriter(name)])
      else
        var plan := PlanFor(f, now, ranking);
        s.(forDownload := s.forDownload[name := f1.(nodes := MarkPlan(plan.requests, plan.nodes, now))],
           toTracker := out, datagrams := s.datagrams + Sent(f.fileName, plan.requests))
  }

  /** A whole tick: the files in the order the map is walked, each with its
      own peer ranking. */
  ghost function TickSpec(s: NodeState, order: seq<Name>, now: int, rankings: map<Name, seq<Addr>>): NodeState
    decreases |order|
  {
    if order == [] then s
    else
      var n := order[0];
      var s' := if n in s.forDownload && n in rankings && IsRanking(rankings[n], s.forDownload[n].nodes)
                then TickFileSpec(s, n, now, rankings[n]) else s;
      TickSpec(s', order[1..], now, rankings)
  }

  /** A file's tick touches no other download, and never changes a chunk
      flag or the published entries of other names. */
  lemma TickFileOthers(s: NodeState, name: Name, now: int, ranking: seq<Addr>)
    requires name in s.forDownload
    requires forall i :: 0 <= i < |ranking| ==> ranking[i] in s.forDownload[name].nodes
    ensures var s' := TickFileSpec(s, name, now, ranking);
            s'.forDownload.Keys <= s.forDownload.Keys &&
            (forall n :: n in s.forDownload && n != name ==> n in s'.forDownload && s'.forDownload[n] == s.forDownload[n]) &&
            (name in s'.forDownload ==> s'.forDownload[name].chunks == s.forDownload[name].chunks) &&
            s'.pending == s.pending
  {
  }

  /** A file the tracker has not answered for yet is skipped entirely. */
  lemma TickSkipsUnanswered(s: NodeState, name: Name, now: int, ranking: seq<Addr>)
    requires name in s.forDownload && !s.forDownload[name].updatedByTracker
    requires forall i :: 0 <= i < |ranking| ==> ranking[i] in s.forDownload[name].nodes
    ensures TickFileSpec(s, name, now, ranking) == s
  {
  }

  /** A complete file gets a final update to the tracker, its writer is
      stopped, it moves from the downloads to the published files, and no
      chunk is requested. */
  lemma TickCompletes(s: NodeState, name: Name, now: int, ranking: seq<Addr>)
    requires name in s.forDownload
    requires forall i :: 0 <= i < |ranking| ==> ranking[i] in s.forDownload[name].nodes
    requires var f := s.forDownload[name]; f.updatedByTracker && Missing(f.chunks) == []
    ensures var f, s' := s.forDownload[name], TickFileSpec(s, name, now, ranking);
            name !in s'.forDownload && s'.published[f.fileName] == Some(File(f.fileName, f.filePath)) &&
            s'.toTracker == s.toTracker + RefreshPackets(f, name) &&
            s'.writer == s.writer + [StopWriter(name)] && s'.datagrams == s.datagrams
  {
    MissingExact(s.forDownload[name].chunks);
  }

  /** An incomplete file stays; the tracker is updated exactly when more
      than 5 s have passed since the last update, and then the update time
      becomes now; the chunk flags do not change. */
  lemma TickRefreshes(s: NodeState, name: Name, now: int, ranking: seq<Addr>)
    requires name in s.forDownload
    requires forall i :: 0 <= i < |ranking| ==> ranking[i] in s.forDownload[name].nodes
    requires var f := s.forDownload[name]; f.updatedByTracker && Missing(f.chunks) != []
    ensures var f, s' := s.forDownload[name], TickFileSpec(s, name, now, ranking);
            var refresh := PassedMoreThan(now, f.lastServerChunksUpdate, UpdateServerChunksInterval);
            name in s'.forDownload && s'.forDownload[name].chunks == f.chunks &&
            s'.published == s.published && s'.writer == s.writer &&
            s'.toTracker == (if refresh then s.toTracker + RefreshPackets(f, name) else s.toTracker) &&
            s'.forDownload[name].lastServerChunksUpdate == (if refresh then At(now) else f.lastServerChunksUpdate)
  {
    MissingExact(s.forDownload[name].chunks);
  }

  /** The datagrams of one tick for an incomplete file: one RequestChunks
      datagram, naming the file, per request of the plan with something
      queued. */
  lemma TickSends(s: NodeState, name: Name, now: int, ranking: seq<Addr>)
    requires name in s.forDownload && IsRanking(ranking, s.forDownload[name].nodes)
    requires var f := s.forDownload[name]; f.updatedByTracker && Missing(f.chunks) != []
    ensures var f := s.forDownload[name];
            TickFileSpec(s, name, now, ranking).datagrams == s.datagrams + Sent(f.fileName, PlanFor(f, now, ranking).requests)
  {
    MissingExact(s.forDownload[name].chunks);
  }

  /** Every datagram of a plan asks for chunks of the file it was given. */
  lemma {:induction false} SentNames(fileName: Name, rs: seq<Request>)
    ensures forall d :: d in Sent(fileName, rs) ==> d.packet.RequestChunksPacket? && d.packet.fileName == fileName
  {
    if rs != [] {
      SentNames(fileName, rs[1..]);
    }
  }

  /** A file's tick only appends datagrams, and each one asks for chunks of
      the file under the entry's own `fileName` field, not under the key the
      entry is stored at. */
  lemma TickNamesEntry(s: NodeState, name: Name, now: int, ranking: seq<Addr>)
    requires name in s.forDownload
    requires forall i :: 0 <= i < |ranking| ==> ranking[i] in s.forDownload[name].nodes
    ensures var s' := TickFileSpec(s, name, now, ranking);
            |s.datagrams| <= |s'.datagrams| && s'.datagrams[..|s.datagrams|] == s.datagrams &&
            forall k :: |s.datagrams| <= k < |s'.datagrams| ==>
              s'.datagrams[k].packet.RequestChunksPacket? && s'.datagrams[k].packet.fileName == s.forDownload[name].fileName
  {
    var f := s.forDownload[name];
    var s' := TickFileSpec(s, name, now, ranking);
    if f.updatedByTracker && !IsFileDownloaded(f) {
      var sent := Sent(f.fileName, PlanFor(f, now, ranking).requests);
      assert s'.datagrams == s.datagrams + sent;
      SentNames(f.fileName, PlanFor(f, now, ranking).requests);
      forall k | |s.datagrams| <= k < |s'.datagrams|
        ensures s'.datagrams[k].packet.RequestChunksPacket? && s'.datagrams[k].packet.fileName == f.fileName
      {
        assert s'.datagrams[k] == sent[k - |s.datagrams|];
      }
    }
  }

  /** The plan of one tick asks each ranked peer, in ranked order, for at
      most 100 chunks, each one the peer was never asked for or was asked
      for at least 500 ms ago with fewer than 2 tries. */
  lemma PlanRequests(f: ForDownloadFile, now: int, ranking: seq<Addr>)
    requires IsRanking(ranking, f.nodes)
    ensures Follows(PlanFor(f, now, ranking).requests, f.nodes, ranking, now)
  {
    var missing := RaritySort(Missing(f.chunks), Rarity(f.nodes));
    AssignRequests(f.nodes, ranking, missing, now, f.nodes, []);
    assert PlanFor(f, now, ranking).requests[0..] == PlanFor(f, now, ranking).requests;
  }

  /** The rarity-ordered missing list has no repeats and holds exactly the
      chunks not downloaded. */
  lemma RarityOrderedMissing(cs: seq<ChunkInfo>, key: nat -> nat)
    ensures Distinct(RaritySort(Missing(cs), key)) && SortedBy(RaritySort(Missing(cs), key), key)
    ensures forall c :: c in RaritySort(Missing(cs), key) ==> c < |cs| && !cs[c].downloaded
  {
    var missing := RaritySort(Missing(cs), key);
    MissingAscending(cs);
    MissingMembers(cs);
    RaritySortSorted(Missing(cs), key);
    AscendingDistinct(Missing(cs));
    PermutationDistinct(Missing(cs), missing);
    forall c | c in missing ensures c < |cs| && !cs[c].downloaded {
      assert c in multiset(missing);
      assert c in Missing(cs);
    }
  }

  /** Any subsequence of the rarity-ordered missing list is made of
      distinct missing chunks in rarity order. */
  lemma SubseqOfMissing(flat: seq<nat>, cs: seq<ChunkInfo>, key: nat -> nat)
    requires Subseq(flat, RaritySort(Missing(cs), key))
    ensures Distinct(flat) && SortedBy(flat, key)
    ensures forall c :: c in flat ==> c < |cs| && !cs[c].downloaded
  {
    var missing := RaritySort(Missing(cs), key);
    RarityOrderedMissing(cs, key);
    SubseqDistinct(flat, missing);
    SubseqSorted(flat, missing, key);
    SubseqMembers(flat, missing);
  }

  /** The chunks requested in one tick are all distinct, all missing, and in
      rarity order: no chunk is asked of two peers at once. */
  lemma PlanChunks(f: ForDownloadFile, now: int, ranking: seq<Addr>)
    requires IsRanking(ranking, f.nodes)
    ensures var flat := Flatten(PlanFor(f, now, ranking).requests);
            Distinct(flat) && SortedBy(flat, Rarity(f.nodes)) &&
            forall c :: c in flat ==> c < |f.chunks| && !f.chunks[c].downloaded
  {
    var missing := RaritySort(Missing(f.chunks), Rarity(f.nodes));
    AssignSubseq(f.nodes, ranking, missing, now, f.nodes, []);
    var plan := PlanFor(f, now, ranking);
    assert plan.requests[0..] == plan.requests;
    SubseqOfMissing(Flatten(plan.requests), f.chunks, Rarity(f.nodes));
  }

  /** A chunk the walk queues for a peer was never requested from it, or
      was last requested at least 500 ms ago and has been tried fewer than
      two times: no chunk is requested from one peer a third time. */
  lemma QueuedMeans(p: Peer, c: nat, now: int)
    requires Decide(p, c, now) == Queue
    ensures c !in p.chunks ||
            (PassedAtLeast(now, p.chunks[c].timeLastRequested, ChunkRequestTimeout) &&
             p.chunks[c].numberOfTries + 1 < MaxTriesPerChunk)
  {
  }

  lemma AscendingDistinct(s: seq<nat>)
    requires Bitfield.StrictlyIncreasing(s)
    ensures Distinct(s)
  {
    forall i, j | 0 <= i < j < |s| ensures s[i] != s[j] {
      assert s[i] < s[j];
    }
  }

  /** A permutation of a list without repetitions has none either. */
  lemma PermutationDistinct(s: seq<nat>, t: seq<nat>)
    requires multiset(s) == multiset(t) && Distinct(s)
    ensures Distinct(t)
  {
    forall i, j | 0 <= i < j < |t| ensures t[i] != t[j] {
      if t[i] == t[j] {
        var x := t[i];
        assert multiset(t)[x] >= 2 by {
          assert t == t[..i] + [t[i]] + t[i + 1..j] + [t[j]] + t[j + 1..];
          assert multiset(t) == multiset(t[..i]) + multiset{x} + multiset(t[i + 1..j]) + multiset{x} + multiset(t[j + 1..]);
        }
        DistinctCount(s, x);
      }
    }
  }

  lemma {:induction false} DistinctCount(s: seq<nat>, x: nat)
    requires Distinct(s)
    ensures multiset(s)[x] <= 1
  {
    if s != [] {
      assert Distinct(s[1..]);
      DistinctCount(s[1..], x);
      assert s == [s[0]] + s[1..];
      if s[0] == x {
        assert x !in s[1..];
      }
    }
  }

  /** The tick keeps every remaining peer of the file below 3 timeouts, so
      a peer whose count reached 3 is no longer among the file's peers and
      the next tick asks it for nothing. Peers are never added. */
  lemma TickKeepsPeersLive(s: NodeState, name: Name, now: int, ranking: seq<Addr>)
    requires name in s.forDownload && IsRanking(ranking, s.forDownload[name].nodes)
    requires PeersLive(s.forDownload[name].nodes)
    ensures var s' := TickFileSpec(s, name, now, ranking);
            name in s'.forDownload ==>
              PeersLive(s'.forDownload[name].nodes) &&
              s'.forDownload[name].nodes.Keys <= s.forDownload[name].nodes.Keys
  {
    var f := s.forDownload[name];
    if f.updatedByTracker && !IsFileDownloaded(f) {
      var key := Rarity(f.nodes);
      var missing := RaritySort(Missing(f.chunks), key);
      AssignKeepsPeersLive(f.nodes, ranking, missing, now, f.nodes, []);
      var plan := PlanFor(f, now, ranking);
      MarkPlanKeepsPeers(plan.requests, plan.nodes, now);
    }
  }

  /** A peer that already timed out twice, asked twice for the only missing
      chunk at least 500 ms ago, times out a third time in the walk: the
      plan removes it and queues nothing for it. */
  lemma SilentPeerPlan(f: ForDownloadFile, now: int, a: Addr, c: nat, t: int)
    requires Missing(f.chunks) == [c] && f.nodes.Keys == {a}
    requires f.nodes[a].timeouts == 2 && c in f.nodes[a].chunks
    requires f.nodes[a].chunks[c] == RequestState(At(t), 2) && now - t >= ChunkRequestTimeout
    ensures PlanFor(f, now, [a]) == Plan(f.nodes - {a}, [Request(a, [])])
  {
    var p := f.nodes[a];
    var key := Rarity(f.nodes);
    assert RaritySort([c], key) == [c] by {
      assert [c][..0] == [];
      assert RaritySort([], key) == [];
    }
    assert Decide(p, c, now) == TimeOut;
    assert PeerWalk(p, 2, false, [c], now, []) == PeerWalk(p, 3, true, [], now, []);
    var w := PeerWalk(p, 2, false, [c], now, []);
    assert w == Walk(3, true, [], []);
    assert [a][1..] == [];
    assert [] + [Request(a, w.queued)] == [Request(a, [])];
    assert PlanFor(f, now, [a]) == Assign(f.nodes, [], [], now, f.nodes - {a}, [Request(a, [])]);
  }

  /** At the next tick such a peer is gone from the file and is sent
      nothing. */
  lemma SilentPeerEvicted(s: NodeState, name: Name, now: int, a: Addr, c: nat, t: int)
    requires name in s.forDownload
    requires var f := s.forDownload[name];
             f.updatedByTracker && Missing(f.chunks) == [c] && f.nodes.Keys == {a} &&
             f.nodes[a].timeouts == 2 && c in f.nodes[a].chunks &&
             f.nodes[a].chunks[c] == RequestState(At(t), 2) && now - t >= ChunkRequestTimeout
    ensures var s' := TickFileSpec(s, name, now, [a]);
            name in s'.forDownload && a !in s'.forDownload[name].nodes && s'.datagrams == s.datagrams
  {
    var f := s.forDownload[name];
    MissingExact(f.chunks);
    SilentPeerPlan(f, now, a, c, t);
    var rs := [Request(a, [])];
    assert MarkPlan(rs, f.nodes - {a}, now) == MarkPlan([], f.nodes - {a}, now);
    assert Sent(f.fileName, rs) == [] + Sent(f.fileName, []);
  }

  /** One peer holding every missing chunk and never asked for any: with at
      most 100 chunks missing, the plan asks it for all of them, in index
      order. */
  lemma SinglePeerPlan(f: ForDownloadFile, now: int, a: Addr)
    requires f.nodes.Keys == {a} && f.nodes[a].chunks == map[]
    requires forall c :: c in Missing(f.chunks) ==> c in f.nodes[a].held
    requires |Missing(f.chunks)| <= MaxChunksPerRequest
    ensures PlanFor(f, now, [a]).requests == [Request(a, Missing(f.chunks))]
  {
    var missing := Missing(f.chunks);
    SoleHolderSorted(f.nodes, a, missing);
    RaritySortKeepsSorted(missing, Rarity(f.nodes));
    assert PlanFor(f, now, [a]) == Assign(f.nodes, [a], missing, now, f.nodes, []);
    var p := f.nodes[a];
    WalkQueuesUnrequested(p, p.timeouts, false, missing, now, []);
    assert [] + missing == missing;
    var w := PeerWalk(p, p.timeouts, false, missing, now, []);
    assert w == Walk(p.timeouts, false, missing, []);
    assert [a][1..] == [];
    assert Assign(f.nodes, [a], missing, now, f.nodes, []) ==
           Assign(f.nodes, [], [], now, f.nodes[a := p.(timeouts := w.timeouts)], [Request(a, missing)]);
  }

  lemma SoleHolderSorted(nodes: map<Addr, Peer>, a: Addr, s: seq<nat>)
    requires nodes.Keys == {a}
    requires forall c :: c in s ==> c in nodes[a].held
    ensures SortedBy(s, Rarity(nodes))
  {
    forall i, j | 0 <= i < j < |s| ensures Rarity(nodes)(s[i]) <= Rarity(nodes)(s[j]) {
      assert s[i] in s && s[j] in s;
      SoleHolder(nodes, a, s[i]);
      SoleHolder(nodes, a, s[j]);
    }
  }

  /** Seven chunks, none downloaded, one peer holding them all and never
      asked for any: a single tick sends that peer one datagram naming all
      seven chunks. */
  lemma SevenChunkScenario(s: NodeState, name: Name, now: int, a: Addr)
    requires name in s.forDownload
    requires var f := s.forDownload[name];
             f.updatedByTracker && |f.chunks| == 7 && (forall i :: 0 <= i < 7 ==> !f.chunks[i].downloaded) &&
             f.nodes == map[a := Peer({0, 1, 2, 3, 4, 5, 6}, map[], 0)]
    ensures TickFileSpec(s, name, now, [a]).datagrams ==
            s.datagrams + [Datagram(a, RequestChunksPacket(s.forDownload[name].fileName, [0, 1, 2, 3, 4, 5, 6]))]
  {
    var f := s.forDownload[name];
    NothingDownloaded(f.chunks);
    assert Missing(f.chunks) == [0, 1, 2, 3, 4, 5, 6];
    SinglePeerPlan(f, now, a);
    var rs := [Request(a, [0, 1, 2, 3, 4, 5, 6])];
    assert Sent(f.fileName, rs) == [Datagram(a, RequestChunksPacket(f.fileName, [0, 1, 2, 3, 4, 5, 6]))] + Sent(f.fileName, []);
    assert !IsFileDownloaded(f) by { assert !f.chunks[0].downloaded; }
  }

  /** An answer with a single chunk hash and one holder of chunk 0, applied
      to an entry without peers: that holder is the only peer, holding chunk
      0 and never asked, and chunk 0 is the one missing chunk. */
  lemma OneChunkAnswer(base: ForDownloadFile, a: Addr, h: Digest, c: Digest, size: nat)
    requires base.nodes == map[]
    ensures var f := AddNode(SetData(base, h, [c], size), a, NodeEntry(a.ip, a.port, [0]).bitfield);
            f.fileName == base.fileName && f.updatedByTracker && f.nodes == map[a := Peer({0}, map[], 0)] &&
            |f.chunks| == 1 && !f.chunks[0].downloaded && Missing(f.chunks) == [0]
  {
    AnnouncedChunks(SetData(base, h, [c], size), a, [0]);
    assert (set x | x in [0]) == {0};
    SetDataChunks(base, h, [c], size);
  }

  /** A one-chunk entry whose only peer holds the chunk and was never asked:
      the tick sends that peer one datagram asking for chunk 0 under the
      entry's own name. */
  lemma OneChunkTick(s: NodeState, name: Name, now: int, a: Addr)
    requires name in s.forDownload
    requires var f := s.forDownload[name];
             f.updatedByTracker && f.nodes == map[a := Peer({0}, map[], 0)] &&
             |f.chunks| == 1 && !f.chunks[0].downloaded && Missing(f.chunks) == [0]
    ensures TickFileSpec(s, name, now, [a]).datagrams ==
            s.datagrams + [Datagram(a, RequestChunksPacket(s.forDownload[name].fileName, [0]))]
  {
    var f := s.forDownload[name];
    SinglePeerPlan(f, now, a);
    var rs := [Request(a, [0])];
    assert Sent(f.fileName, rs) == [Datagram(a, RequestChunksPacket(f.fileName, [0]))] + Sent(f.fileName, []);
    assert !IsFileDownloaded(f);
  }

  /** As written, requestFile stores `&ForDownloadFile{}`, whose name is
      empty, and neither SetData nor AddNode sets it: after an answer with
      one holder, the tick asks that holder for chunks of the file named "",
      not of the file requested. */
  lemma UnnamedDownloadAsksForNothing(s: NodeState, name: Name, now: int, a: Addr, h: Digest, c: Digest, size: nat)
    requires name != []
    requires name in s.forDownload
    requires s.forDownload[name] == AddNode(SetData(EmptyDownload(), h, [c], size), a, NodeEntry(a.ip, a.port, [0]).bitfield)
    ensures var ds := TickFileSpec(s, name, now, [a]).datagrams;
            ds == s.datagrams + [Datagram(a, RequestChunksPacket([], [0]))] && ds[|ds| - 1].packet.fileName != name
  {
    OneChunkAnswer(EmptyDownload(), a, h, c, size);
    OneChunkTick(s, name, now, a);
  }

  /** With the entry made by `NewForDownloadFile(name)`, the same answer and
      tick ask the holder for chunk 0 of the file requested. */
  lemma NamedDownloadAsksForIt(s: NodeState, name: Name, now: int, a: Addr, h: Digest, c: Digest, size: nat)
    requires name in s.forDownload
    requires s.forDownload[name] == AddNode(SetData(NewDownload(name), h, [c], size), a, NodeEntry(a.ip, a.port, [0]).bitfield)
    ensures TickFileSpec(s, name, now, [a]).datagrams == s.datagrams + [Datagram(a, RequestChunksPacket(name, [0]))]
  {
    OneChunkAnswer(NewDownload(name), a, h, c, size);
    OneChunkTick(s, name, now, a);
  }

  lemma SoleHolder(nodes: map<Addr, Peer>, a: Addr, c: nat)
    requires nodes.Keys == {a} && c in nodes[a].held
    ensures Rarity(nodes)(c) == 1
  {
    assert (set b | b in nodes.Keys && c in nodes[b].held) == {a};
  }

  // ---------------------------------------------------------------------
  // The tracker's answer

  /** The chunk indices a peer's bitfield lists, each read as a uint16. */
  function HeldChunks(bitfield: seq<byte>): set<nat>
  {
    set x | x in Bitfield.Decoded(bitfield, 8 * |bitfield|, Bitfield.Uint16Span)
  }

  /** SetData: the tracker's metadata is installed and the file counts as
      answered. The chunk list is rebuilt from the chunk hashes with nothing
      downloaded, on every answer. */
  function SetData(f: ForDownloadFile, fileHash: Digest, chunkHashes: seq<Digest>, fileSize: nat): ForDownloadFile
  {
    f.(fileHash := fileHash, fileSize := fileSize, updatedByTracker := true,
       chunks := seq(|chunkHashes|, i requires 0 <= i < |chunkHashes| => ChunkInfo(chunkHashes[i], false)))
  }

  /** Every answer yields one chunk per hash, in order, none downloaded; the
      name and the peers stay as they were. */
  lemma SetDataChunks(f: ForDownloadFile, fileHash: Digest, chunkHashes: seq<Digest>, fileSize: nat)
    ensures var g := SetData(f, fileHash, chunkHashes, fileSize);
            g.updatedByTracker && g.nodes == f.nodes && g.fileName == f.fileName &&
            g.fileHash == fileHash && g.fileSize == fileSize &&
            |g.chunks| == |chunkHashes| && Missing(g.chunks) == seq(|chunkHashes|, i => i) &&
            forall i :: 0 <= i < |chunkHashes| ==> g.chunks[i].hash == chunkHashes[i]
  {
    var g := SetData(f, fileHash, chunkHashes, fileSize);
    NothingDownloaded(g.chunks);
  }

  /** AddNode: a new peer starts with the listed chunks, no request state
      and no timeouts; a known peer gets its listed chunks replaced and keeps
      the rest. */
  function AddNode(f: ForDownloadFile, addr: Addr, bitfield: seq<byte>): ForDownloadFile
  {
    var held := HeldChunks(bitfield);
    f.(nodes := f.nodes[addr := if addr in f.nodes then f.nodes[addr].(held := held) else Peer(held, map[], 0)])
  }

  /** Adding a peer keeps every peer below the timeout limit and touches no
      other peer. */
  lemma AddNodeKeepsPeersLive(f: ForDownloadFile, addr: Addr, bitfield: seq<byte>)
    requires PeersLive(f.nodes)
    ensures var g := AddNode(f, addr, bitfield);
            PeersLive(g.nodes) && g.nodes.Keys == f.nodes.Keys + {addr} && g.chunks == f.chunks && g.fileName == f.fileName &&
            g.nodes[addr].held == HeldChunks(bitfield) &&
            forall a :: a in f.nodes && a != addr ==> g.nodes[a] == f.nodes[a]
  {
  }

  /** A peer announced with a bitfield built from an ascending list of
      uint16 chunk indices is believed to hold exactly those chunks. */
  lemma AnnouncedChunks(f: ForDownloadFile, addr: Addr, chunks: seq<nat>)
    requires |chunks| > 0 && Bitfield.StrictlyIncreasing(chunks) && Bitfield.Last(chunks) < U16
    ensures Bitfield.Encodable(chunks)
    ensures AddNode(f, addr, NodeEntry(addr.ip, addr.port, chunks).bitfield).nodes[addr].held == set x | x in chunks
  {
    NodeEntryDecodes(addr.ip, addr.port, chunks);
    var n := NodeEntry(addr.ip, addr.port, chunks);
    assert n.bitfieldSize == |n.bitfield|;
  }

  // ---------------------------------------------------------------------
  // Chunk arrival

  /** A chunk passes handleChunkPacket's filters: its file is being
      downloaded, the index names one of the file's chunks, the chunk is not
      downloaded yet, and the content has the chunk's digest. */
  predicate Accepted(s: NodeState, name: Name, chunk: nat, content: seq<byte>, hash: seq<byte> -> Digest)
  {
    name in s.forDownload && chunk < |s.forDownload[name].chunks| &&
    !s.forDownload[name].chunks[chunk].downloaded && s.forDownload[name].chunks[chunk].hash == hash(content)
  }

  /** handleChunkPacket's effect on the node's state: a chunk that passes the
      filters is marked downloaded and handed to the file's writer; any
      other is dropped. */
  function ChunkArrival(s: NodeState, name: Name, chunk: nat, content: seq<byte>, hash: seq<byte> -> Digest): NodeState
  {
    if !Accepted(s, name, chunk, content, hash) then s
    else
      var f := s.forDownload[name];
      s.(forDownload := s.forDownload[name := f.(chunks := f.chunks[chunk := f.chunks[chunk].(downloaded := true)])],
         writer := s.writer + [WriteChunk(name, chunk, content)])
  }

  /** The request time recorded in the statistics for an accepted chunk: only
      when the sender is one of the file's peers and the chunk was requested
      from it at a real (non-zero) time. */
  function RequestedAt(s: NodeState, name: Name, chunk: nat, content: seq<byte>, sender: Addr,
                       hash: seq<byte> -> Digest): Option<int>
  {
    if Accepted(s, name, chunk, content, hash) && sender in s.forDownload[name].nodes &&
       chunk in s.forDownload[name].nodes[sender].chunks &&
       s.forDownload[name].nodes[sender].chunks[chunk].timeLastRequested.At?
    then Some(s.forDownload[name].nodes[sender].chunks[chunk].timeLastRequested.ms)
    else None
  }

  /** Content with the wrong digest leaves the chunk not downloaded and is
      never written: the whole state is unchanged. */
  lemma CorruptChunkRejected(s: NodeState, name: Name, chunk: nat, content: seq<byte>, hash: seq<byte> -> Digest)
    requires name in s.forDownload && chunk < |s.forDownload[name].chunks|
    requires s.forDownload[name].chunks[chunk].hash != hash(content)
    ensures ChunkArrival(s, name, chunk, content, hash) == s
    ensures !s.forDownload[name].chunks[chunk].downloaded ==>
              !ChunkArrival(s, name, chunk, content, hash).forDownload[name].chunks[chunk].downloaded
  {
  }

  /** A valid chunk not yet downloaded is marked downloaded and written once;
      only its own flag changes. A second arrival of it is then dropped. */
  lemma ValidChunkAccepted(s: NodeState, name: Name, chunk: nat, content: seq<byte>, hash: seq<byte> -> Digest)
    requires name in s.forDownload && chunk < |s.forDownload[name].chunks|
    requires !s.forDownload[name].chunks[chunk].downloaded
    requires s.forDownload[name].chunks[chunk].hash == hash(content)
    ensures var s' := ChunkArrival(s, name, chunk, content, hash);
            var f, f' := s.forDownload[name], s'.forDownload[name];
            |f'.chunks| == |f.chunks| && f'.chunks[chunk].downloaded &&
            (forall i :: 0 <= i < |f.chunks| && i != chunk ==> f'.chunks[i] == f.chunks[i]) &&
            s'.writer == s.writer + [WriteChunk(name, chunk, content)] &&
            ChunkArrival(s', name, chunk, content, hash) == s'
  {
  }

  /** Arrivals never clear a downloaded flag, never change a chunk's hash,
      and never touch another file. */
  lemma ArrivalMonotone(s: NodeState, name: Name, chunk: nat, content: seq<byte>, hash: seq<byte> -> Digest)
    ensures var s' := ChunkArrival(s, name, chunk, content, hash);
            s'.forDownload.Keys == s.forDownload.Keys &&
            (forall n :: n in s.forDownload && n != name ==> s'.forDownload[n] == s.forDownload[n]) &&
            (name in s.forDownload ==>
               var f, f' := s.forDownload[name], s'.forDownload[name];
               |f'.chunks| == |f.chunks| &&
               forall i :: 0 <= i < |f.chunks| ==>
                 f'.chunks[i].hash == f.chunks[i].hash && (f.chunks[i].downloaded ==> f'.chunks[i].downloaded))
  {
  }
}
