/** Chunk geometry: how big a file's chunks are and which byte range each
    chunk covers. A chunk index must fit 16 bits, so the chunk size grows in
    steps of 16000 bytes as soon as 65536 chunks of the current size would
    not cover the file. */
module ChunkGeometry {
  import opened Common

  const ChunkBlockSize: nat := 16000
  const ChunkCountMultiplier: nat := 65536

  /** Ceiling of a / d, computed exactly on integers. */
  function CeilDiv(a: nat, d: nat): nat
    requires d > 0
  {
    (a + d - 1) / d
  }

  /** ChunkSize: ceil(fileSize / (65536 * 16000)) * 16000. The source goes
      through float64; here the ceiling is exact. */
  function ChunkSize(fileSize: nat): nat
  {
    CeilDiv(fileSize, ChunkCountMultiplier * ChunkBlockSize) * ChunkBlockSize
  }

  lemma CeilDivCovers(a: nat, d: nat)
    requires d > 0
    ensures d * CeilDiv(a, d) >= a
    ensures a > 0 ==> CeilDiv(a, d) > 0
    ensures a > 0 ==> d * (CeilDiv(a, d) - 1) < a
  {
    var q := (a + d - 1) / d;
    var r := (a + d - 1) % d;
    assert a + d - 1 == d * q + r;
    if a > 0 {
      DivMonotone(d, a + d - 1, d);
      assert d * (q - 1) == d * q - d;
    }
  }

  lemma Cancel(d: nat, a: nat, b: nat)
    requires d > 0 && d * a < d * b
    ensures a < b
  {
  }

  lemma DivBelow(x: nat, d: nat, k: nat)
    requires d > 0 && x < d * k
    ensures x / d < k
  {
    assert d * (x / d) <= x;
    Cancel(d, x / d, k);
  }

  lemma DivMonotone(x: nat, y: nat, d: nat)
    requires x <= y && d > 0
    ensures x / d <= y / d
  {
    assert y < d * (y / d + 1);
    DivBelow(x, d, y / d + 1);
  }

  lemma MulMonotone(d: nat, a: nat, b: nat)
    requires a <= b
    ensures d * a <= d * b
  {
  }

  /** The chunk size is a whole number of 16000-byte blocks; it is zero
      exactly for the empty file; and 65536 chunks of it always cover the
      file, so every chunk index fits in 16 bits. */
  lemma ChunkSizeShape(fileSize: nat)
    ensures ChunkSize(fileSize) % ChunkBlockSize == 0
    ensures ChunkSize(fileSize) == 0 <==> fileSize == 0
    ensures ChunkCountMultiplier * ChunkSize(fileSize) >= fileSize
  {
    var D := ChunkCountMultiplier * ChunkBlockSize;
    var q := CeilDiv(fileSize, D);
    CeilDivCovers(fileSize, D);
    assert ChunkCountMultiplier * ChunkSize(fileSize) == D * q;
    if fileSize == 0 {
      assert q == 0;
    }
  }

  /** A larger file never gets a smaller chunk size. */
  lemma ChunkSizeMonotone(a: nat, b: nat)
    requires a <= b
    ensures ChunkSize(a) <= ChunkSize(b)
  {
    var D := ChunkCountMultiplier * ChunkBlockSize;
    DivMonotone(a + D - 1, b + D - 1, D);
    MulMonotone(ChunkBlockSize, CeilDiv(a, D), CeilDiv(b, D));
  }

  /** The two file sizes checked by the repository's tests. */
  lemma ChunkSizeExamples()
    ensures ChunkSize(1000000000) == 16000
    ensures ChunkSize(4190000000) == 64000
    ensures ChunkSize(100000) == 16000
  {
  }

  /** Number of chunks of a file: ceil(fileSize / chunkSize). */
  function NumChunks(fileSize: nat, chunkSize: nat): nat
    requires chunkSize > 0
  {
    CeilDiv(fileSize, chunkSize)
  }

  /** A non-empty file never has more than 65536 chunks, and has at least one. */
  lemma NumChunksBound(fileSize: nat)
    requires fileSize > 0
    ensures ChunkSize(fileSize) > 0
    ensures 0 < NumChunks(fileSize, ChunkSize(fileSize)) <= ChunkCountMultiplier
  {
    var cs := ChunkSize(fileSize);
    ChunkSizeShape(fileSize);
    CeilDivCovers(fileSize, cs);
    assert fileSize + cs - 1 < cs * (ChunkCountMultiplier + 1);
    DivBelow(fileSize + cs - 1, cs, ChunkCountMultiplier + 1);
  }

  /** First byte of chunk i; also the file offset at which the file writer
      stores chunk i. */
  function ChunkStart(i: nat, chunkSize: nat): nat
  {
    i * chunkSize
  }

  /** One past the last byte of chunk i among n chunks: the last chunk runs
      to the end of the content. */
  function ChunkEnd(i: nat, n: nat, chunkSize: nat, size: nat): nat
  {
    if i == n - 1 then size else (i + 1) * chunkSize
  }

  /** The chunk ranges partition the content: they start at 0, each one
      begins where the previous ended, each is non-empty and at most one
      chunk long, and the last one ends at the end of the content. */
  lemma ChunksPartition(size: nat, chunkSize: nat, i: nat)
    requires size > 0 && chunkSize > 0
    requires i < NumChunks(size, chunkSize)
    ensures ChunkStart(0, chunkSize) == 0
    ensures ChunkStart(i, chunkSize) < ChunkEnd(i, NumChunks(size, chunkSize), chunkSize, size) <= size
    ensures ChunkEnd(i, NumChunks(size, chunkSize), chunkSize, size) - ChunkStart(i, chunkSize) <= chunkSize
    ensures i + 1 < NumChunks(size, chunkSize) ==>
              ChunkEnd(i, NumChunks(size, chunkSize), chunkSize, size) == ChunkStart(i + 1, chunkSize)
    ensures i + 1 == NumChunks(size, chunkSize) ==> ChunkEnd(i, NumChunks(size, chunkSize), chunkSize, size) == size
  {
    var n := NumChunks(size, chunkSize);
    CeilDivCovers(size, chunkSize);
    assert chunkSize * (n - 1) < size;
    MulMonotone(chunkSize, i, n - 1);
    assert i * chunkSize < size;
    if i < n - 1 {
      MulMonotone(chunkSize, i + 1, n - 1);
      assert (i + 1) * chunkSize == i * chunkSize + chunkSize;
    } else {
      assert chunkSize * n >= size;
      assert chunkSize * n == chunkSize * i + chunkSize;
    }
  }

  /** HashFileChunks on content already read: it returns the chunk size (not
      the file size) and replaces the destination with one digest per chunk,
      the digest of exactly that chunk's byte range. `hash` is SHA-1. */
  method HashFileChunks(content: seq<byte>, hash: seq<byte> -> Digest) returns (chunkSize: nat, dest: seq<Digest>)
    requires |content| > 0
    ensures chunkSize == ChunkSize(|content|) && chunkSize > 0
    ensures |dest| == NumChunks(|content|, chunkSize) <= ChunkCountMultiplier
    ensures forall i :: 0 <= i < |dest| ==>
              ChunkStart(i, chunkSize) < ChunkEnd(i, |dest|, chunkSize, |content|) <= |content| &&
              dest[i] == hash(content[ChunkStart(i, chunkSize)..ChunkEnd(i, |dest|, chunkSize, |content|)])
  {
    chunkSize := ChunkSize(|content|);
    NumChunksBound(|content|);
    var numChunks := NumChunks(|content|, chunkSize);
    var chunkHashes := new Digest[numChunks];
    var i := 0;
    while i < numChunks
      invariant 0 <= i <= numChunks
      invariant forall j :: 0 <= j < i ==>
                  ChunkStart(j, chunkSize) < ChunkEnd(j, numChunks, chunkSize, |content|) <= |content| &&
                  chunkHashes[j] == hash(content[ChunkStart(j, chunkSize)..ChunkEnd(j, numChunks, chunkSize, |content|)])
    {
      ChunksPartition(|content|, chunkSize, i);
      ghost var start, end := ChunkStart(i, chunkSize), ChunkEnd(i, numChunks, chunkSize, |content|);
      if i == numChunks - 1 {
        chunkHashes[i] := hash(content[i * chunkSize..]);
        assert content[i * chunkSize..] == content[start..end];
      } else {
        chunkHashes[i] := hash(content[i * chunkSize..(i + 1) * chunkSize]);
        assert content[i * chunkSize..(i + 1) * chunkSize] == content[start..end];
      }
      i := i + 1;
    }
    dest := chunkHashes[..];
  }
}
