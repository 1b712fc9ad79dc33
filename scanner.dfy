// The chunked scanner of pdfencryption.go: the fixed "/Encrypt" keyword,
// the chunk size derived from the processor count, the layout of chunks
// over the buffer and the any-of aggregation of per-chunk searches.

module Scanner {
  import opened Matcher

  /** The keyword "/Encrypt" as its ASCII bytes. */
  const EncryptKeyword: seq<byte> := [47, 69, 110, 99, 114, 121, 112, 116]

  /** Oversubscription factor: chunks per processor. */
  const Multiplier: int := 2

  /** EncryptKeyword spells "/Encrypt" byte for byte. */
  lemma EncryptKeywordIsAscii()
    ensures |EncryptKeyword| == |"/Encrypt"|
    ensures forall t :: 0 <= t < |EncryptKeyword| ==> EncryptKeyword[t] == "/Encrypt"[t] as int
  {
  }

  // ---------------------------------------------------------------------------
  // Chunk size and chunk layout

  /** The chunk size for a buffer of `fileSize` bytes on `cpus` processors:
      the floor of fileSize / (cpus * Multiplier), raised to 1 when that
      quotient is 0. */
  function CalculateChunkSize(fileSize: nat, cpus: int): (c: int)
    requires cpus >= 1
    ensures c >= 1
    ensures fileSize < cpus * Multiplier ==> c == 1
    ensures fileSize >= cpus * Multiplier ==>
              c * (cpus * Multiplier) <= fileSize < (c + 1) * (cpus * Multiplier)
  {
    var totalThreads := cpus * Multiplier;
    var chunkSize := fileSize / totalThreads;
    if chunkSize == 0 then 1 else chunkSize
  }

  /** The chunk offsets from, from + c, from + 2c, ... that lie below n, in
      the order the source's loop visits them. */
  function Offsets(n: nat, c: int, from: int): (offs: seq<int>)
    requires c >= 1 && 0 <= from
    ensures |offs| == 0 <==> from >= n
    ensures |offs| > 0 ==> offs[0] == from && offs[|offs| - 1] + c >= n
    ensures forall o :: o in offs ==> from <= o < n
    decreases n - from
  {
    if from >= n then [] else [from] + Offsets(n, c, from + c)
  }

  /** The offsets at which the chunked scan starts one search each: none for
      an empty buffer, otherwise starting at 0. */
  function ChunkOffsets(n: nat, c: int): (offs: seq<int>)
    requires c >= 1
    ensures |offs| == 0 <==> n == 0
    ensures n > 0 ==> offs[0] == 0
  {
    Offsets(n, c, 0)
  }

  /** End of the chunk starting at `o`: o + c, clipped to the buffer length n. */
  function ChunkEnd(n: nat, c: int, o: int): (e: int)
    ensures e <= n && e <= o + c
    ensures o <= n && c >= 0 ==> o <= e
    ensures e == n || e == o + c
  {
    if o + c > n then n else o + c
  }

  /** The chunk starting at `o` holds position q. */
  ghost predicate Covers(n: nat, c: int, o: int, q: int)
  {
    o <= q < ChunkEnd(n, c, o)
  }

  /** Some chunk of the layout over [0, n) holds position q. */
  ghost predicate InSomeChunk(n: nat, c: int, q: int)
    requires c >= 1
  {
    exists o :: o in ChunkOffsets(n, c) && Covers(n, c, o, q)
  }

  /** The bytes of the chunk starting at `o`: at most c of them, exactly c
      when the chunk fits in the buffer, each the buffer's byte at o + t. */
  ghost function Chunk(bytes: seq<byte>, c: int, o: int): (chunk: seq<byte>)
    requires c >= 1 && 0 <= o <= |bytes|
    ensures |chunk| == (if o + c <= |bytes| then c else |bytes| - o)
    ensures forall t :: 0 <= t < |chunk| ==> chunk[t] == bytes[o + t]
  {
    bytes[o..ChunkEnd(|bytes|, c, o)]
  }

  /** Consecutive offsets lie exactly c apart. */
  lemma {:induction false} OffsetsStep(n: nat, c: int, from: int, i: int)
    requires c >= 1 && 0 <= from
    requires 0 <= i < |Offsets(n, c, from)| - 1
    ensures Offsets(n, c, from)[i + 1] == Offsets(n, c, from)[i] + c
    decreases i
  {
    if i > 0 {
      OffsetsStep(n, c, from + c, i - 1);
    }
  }

  /** Offsets further apart in the sequence lie at least c apart. */
  lemma {:induction false} OffsetsIncrease(n: nat, c: int, from: int, i: int, k: int)
    requires c >= 1 && 0 <= from
    requires 0 <= i < k < |Offsets(n, c, from)|
    ensures Offsets(n, c, from)[i] + c <= Offsets(n, c, from)[k]
    decreases k - i
  {
    OffsetsStep(n, c, from, i);
    if k > i + 1 {
      OffsetsIncrease(n, c, from, i + 1, k);
    }
  }

  /** Every position q in [from, n) lies in the chunk at some offset. */
  lemma {:induction false} OffsetsCover(n: nat, c: int, from: int, q: int)
    requires c >= 1 && 0 <= from <= q < n
    ensures exists i :: 0 <= i < |Offsets(n, c, from)| && Covers(n, c, Offsets(n, c, from)[i], q)
    decreases n - from
  {
    var offs := Offsets(n, c, from);
    if q < from + c {
      assert Covers(n, c, offs[0], q);
    } else {
      OffsetsCover(n, c, from + c, q);
      var i :| 0 <= i < |Offsets(n, c, from + c)| && Covers(n, c, Offsets(n, c, from + c)[i], q);
      assert offs[i + 1] == Offsets(n, c, from + c)[i];
    }
  }

  /** The chunks of size c laid out over [0, n) tile it exactly: there are
      none when n == 0; the first starts at 0; each one but the last has
      length c and ends where the next begins; the last is non-empty and
      ends at n; every position lies in exactly one chunk. */
  lemma ChunksTile(n: nat, c: int)
    requires c >= 1
    ensures var offs := ChunkOffsets(n, c);
      && (|offs| == 0 <==> n == 0)
      && (n > 0 ==> offs[0] == 0)
      && (forall i :: 0 <= i < |offs| - 1 ==>
            ChunkEnd(n, c, offs[i]) == offs[i + 1] && ChunkEnd(n, c, offs[i]) - offs[i] == c)
      && (|offs| > 0 ==> offs[|offs| - 1] < ChunkEnd(n, c, offs[|offs| - 1]) == n)
      && (forall q :: 0 <= q < n ==> InSomeChunk(n, c, q))
      && (forall i, k, q ::
            0 <= i < |offs| && 0 <= k < |offs| && Covers(n, c, offs[i], q) && Covers(n, c, offs[k], q)
            ==> i == k)
  {
    var offs := ChunkOffsets(n, c);
    forall i | 0 <= i < |offs| - 1
      ensures ChunkEnd(n, c, offs[i]) == offs[i + 1] && ChunkEnd(n, c, offs[i]) - offs[i] == c
    {
      OffsetsStep(n, c, 0, i);
      assert offs[i + 1] in offs;
    }
    if |offs| > 0 {
      assert offs[|offs| - 1] in offs;
    }
    forall q | 0 <= q < n
      ensures InSomeChunk(n, c, q)
    {
      OffsetsCover(n, c, 0, q);
      var i :| 0 <= i < |offs| && Covers(n, c, offs[i], q);
      assert offs[i] in offs;
    }
    forall i, k, q | 0 <= i < |offs| && 0 <= k < |offs| &&
        Covers(n, c, offs[i], q) && Covers(n, c, offs[k], q)
      ensures i == k
    {
      if i < k {
        OffsetsIncrease(n, c, 0, i, k);
      } else if k < i {
        OffsetsIncrease(n, c, 0, k, i);
      }
    }
  }

  // ---------------------------------------------------------------------------
  // Parallel result versus whole-buffer result

  /** The chunk starting at `o`, searched on its own, contains the keyword. */
  ghost predicate ChunkContains(bytes: seq<byte>, c: int, o: int, keyword: seq<byte>)
    requires c >= 1
  {
    0 <= o <= |bytes| && Occurs(Chunk(bytes, c, o), keyword)
  }

  /** What the chunked scan computes: some chunk of the layout contains the
      keyword. */
  ghost predicate SomeChunkContains(bytes: seq<byte>, c: int, keyword: seq<byte>)
    requires c >= 1
  {
    exists o :: o in ChunkOffsets(|bytes|, c) && ChunkContains(bytes, c, o, keyword)
  }

  /** An occurrence inside the slice [lo, hi) is an occurrence in the whole
      buffer that lies inside [lo, hi). */
  lemma OccursInSlice(bytes: seq<byte>, lo: int, hi: int, keyword: seq<byte>)
    requires 0 <= lo <= hi <= |bytes|
    requires Occurs(bytes[lo..hi], keyword)
    ensures exists p :: MatchesAt(bytes, keyword, p) && lo <= p && p + |keyword| <= hi
  {
    var p :| MatchesAt(bytes[lo..hi], keyword, p);
    AlignmentMatches(bytes[lo..hi], keyword, p);
    AlignmentMatches(bytes, keyword, lo + p);
  }

  /** A hit in some chunk is a hit in the whole buffer. */
  lemma ChunkHitImpliesWholeHit(bytes: seq<byte>, c: int, keyword: seq<byte>)
    requires c >= 1
    requires SomeChunkContains(bytes, c, keyword)
    ensures Occurs(bytes, keyword)
  {
    var o :| o in ChunkOffsets(|bytes|, c) && ChunkContains(bytes, c, o, keyword);
    OccursInSlice(bytes, o, ChunkEnd(|bytes|, c, o), keyword);
  }

  /** An occurrence that does not straddle a chunk boundary, lying wholly
      inside the chunk at offset o, is found by the chunked scan. */
  lemma WithinChunkIsFound(bytes: seq<byte>, c: int, keyword: seq<byte>, o: int, p: int)
    requires c >= 1
    requires o in ChunkOffsets(|bytes|, c)
    requires MatchesAt(bytes, keyword, p) && o <= p && p + |keyword| <= ChunkEnd(|bytes|, c, o)
    ensures SomeChunkContains(bytes, c, keyword)
  {
    var chunk := Chunk(bytes, c, o);
    assert chunk[p - o..p - o + |keyword|] == bytes[p..p + |keyword|];
    assert MatchesAt(chunk, keyword, p - o);
    assert ChunkContains(bytes, c, o, keyword);
  }

  /** The chunks do not overlap, so an occurrence split across a boundary is
      missed: "/Encrypt" alone on one processor gets chunk size 4 and is cut
      into "/Enc" and "rypt", neither of which contains the keyword, while
      the whole buffer does. */
  lemma BoundaryOccurrenceIsMissed()
    ensures CalculateChunkSize(|EncryptKeyword|, 1) == 4
    ensures Occurs(EncryptKeyword, EncryptKeyword)
    ensures !SomeChunkContains(EncryptKeyword, CalculateChunkSize(|EncryptKeyword|, 1), EncryptKeyword)
  {
    assert MatchesAt(EncryptKeyword, EncryptKeyword, 0);
    var c := CalculateChunkSize(|EncryptKeyword|, 1);
    forall o | o in ChunkOffsets(|EncryptKeyword|, c)
      ensures !ChunkContains(EncryptKeyword, c, o, EncryptKeyword)
    {
      assert |Chunk(EncryptKeyword, c, o)| <= c;
    }
  }

  /** A chunk shorter than the keyword cannot contain it, so with chunk size
      c < |EncryptKeyword| the chunked scan finds nothing, whatever the buffer. */
  lemma ShortChunksMissKeyword(bytes: seq<byte>, c: int)
    requires 1 <= c < |EncryptKeyword|
    ensures !SomeChunkContains(bytes, c, EncryptKeyword)
  {
  }

  /** Hence the chunked scan returns false for every buffer shorter than
      |EncryptKeyword| * cpus * Multiplier (16 bytes per processor). */
  lemma SmallBuffersAlwaysMissed(bytes: seq<byte>, cpus: int)
    requires cpus >= 1
    requires |bytes| < |EncryptKeyword| * (cpus * Multiplier)
    ensures !SomeChunkContains(bytes, CalculateChunkSize(|bytes|, cpus), EncryptKeyword)
  {
    ShortChunksMissKeyword(bytes, CalculateChunkSize(|bytes|, cpus));
  }

  // ---------------------------------------------------------------------------
  // Entry points

  /** The body of one search task: clip the chunk at `offset` to the buffer
      and search it for the keyword. */
  method SearchChunk(bytes: seq<byte>, chunkSize: int, offset: int) returns (hit: bool)
    requires chunkSize >= 1 && 0 <= offset < |bytes|
    ensures hit <==> ChunkContains(bytes, chunkSize, offset, EncryptKeyword)
  {
    var fileSize := |bytes|;
    var endOffset := offset + chunkSize;
    if endOffset > fileSize {
      endOffset := fileSize;
    }
    var chunk := bytes[offset..endOffset];
    ghost var at;
    hit, at := ContainsKeyword(chunk, EncryptKeyword);
  }

  /** The chunked scan, run sequentially: one search per chunk at offsets
      0, c, 2c, ... below |bytes|, results combined by logical or. `cpus`
      stands for the processor count the source asks the runtime for. */
  method IsPasswordProtected(bytes: seq<byte>, cpus: int) returns (protected: bool)
    requires cpus >= 1
    ensures protected <==>
              SomeChunkContains(bytes, CalculateChunkSize(|bytes|, cpus), EncryptKeyword)
    ensures protected ==> Occurs(bytes, EncryptKeyword)
    ensures |bytes| == 0 ==> !protected
  {
    var fileSize := |bytes|;
    var chunkSize := CalculateChunkSize(fileSize, cpus);
    protected := false;
    var offset := 0;
    ghost var done: seq<int> := [];
    while offset < fileSize
      invariant 0 <= offset
      invariant ChunkOffsets(fileSize, chunkSize) == done + Offsets(fileSize, chunkSize, offset)
      invariant protected <==> exists o :: o in done && ChunkContains(bytes, chunkSize, o, EncryptKeyword)
      decreases fileSize - offset
    {
      var hit := SearchChunk(bytes, chunkSize, offset);
      assert Offsets(fileSize, chunkSize, offset) == [offset] + Offsets(fileSize, chunkSize, offset + chunkSize);
      protected := protected || hit;
      done := done + [offset];
      offset := offset + chunkSize;
    }
    if protected {
      ChunkHitImpliesWholeHit(bytes, chunkSize, EncryptKeyword);
    }
  }

  /** The unchunked scan: true exactly when "/Encrypt" occurs in `bytes`. */
  method IsPasswordProtectedSimple(bytes: seq<byte>) returns (protected: bool)
    ensures protected <==> Occurs(bytes, EncryptKeyword)
  {
    ghost var at;
    protected, at := ContainsKeyword(bytes, EncryptKeyword);
  }
}
