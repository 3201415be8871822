/** Delta synchronisation (src/core/delta_engine.cpp): what an upload has to send, and how little that is after an edit. */
module Delta {
  import opened Content
  import opened Chunking
  import opened ChunkLaws

  datatype DeltaInfo = DeltaInfo(newChunks: seq<ChunkInfo>, existingChunks: seq<ChunkInfo>, bytesToTransfer: nat)

  ghost function HashSet(hashes: seq<Digest>): set<Digest> {
    set h | h in hashes
  }

  function Hashes(chunks: seq<ChunkInfo>): (hs: seq<Digest>)
    ensures |hs| == |chunks|
    ensures forall i :: 0 <= i < |chunks| ==> hs[i] == chunks[i].hash
  {
    seq(|chunks|, i requires 0 <= i < |chunks| => chunks[i].hash)
  }

  /** The chunks whose hash is, or is not, among the known ones, in file order. */
  ghost function Select(chunks: seq<ChunkInfo>, known: set<Digest>, want: bool): seq<ChunkInfo> {
    if chunks == [] then []
    else (if (chunks[0].hash in known) == want then [chunks[0]] else []) + Select(chunks[1..], known, want)
  }

  /** The bytes that have to travel. */
  ghost function BytesSent(chunks: seq<ChunkInfo>, known: set<Digest>): nat {
    if chunks == [] then 0
    else (if chunks[0].hash in known then 0 else chunks[0].size) + BytesSent(chunks[1..], known)
  }

  ghost predicate IsDelta(delta: DeltaInfo, chunks: seq<ChunkInfo>, known: set<Digest>) {
    && delta.newChunks == Select(chunks, known, false)
    && delta.existingChunks == Select(chunks, known, true)
    && delta.bytesToTransfer == BytesSent(chunks, known)
  }

  lemma SelectStep(chunks: seq<ChunkInfo>, known: set<Digest>)
    requires chunks != []
    ensures var mine := chunks[0].hash in known;
            && Select(chunks, known, mine) == [chunks[0]] + Select(chunks[1..], known, mine)
            && Select(chunks, known, !mine) == Select(chunks[1..], known, !mine)
  {
  }

  lemma SelectNothing(known: set<Digest>, want: bool)
    ensures Select([], known, want) == []
  {
  }

  lemma {:induction false} SelectAppend(chunks: seq<ChunkInfo>, c: ChunkInfo, known: set<Digest>, want: bool)
    ensures Select(chunks + [c], known, want) ==
            Select(chunks, known, want) + (if (c.hash in known) == want then [c] else [])
  {
    hide Select;
    SelectNothing(known, want);
    if chunks == [] {
      assert chunks + [c] == [c] && [c][1..] == [];
      SelectStep([c], known);
    } else {
      SelectAppend(chunks[1..], c, known, want);
      SelectStep(chunks, known);
      SelectStep(chunks + [c], known);
      assert (chunks + [c])[1..] == chunks[1..] + [c];
    }
  }

  lemma {:induction false} SentConcat(xs: seq<ChunkInfo>, ys: seq<ChunkInfo>, known: set<Digest>)
    ensures BytesSent(xs + ys, known) == BytesSent(xs, known) + BytesSent(ys, known)
  {
    if xs == [] {
      assert xs + ys == ys;
    } else {
      SentConcat(xs[1..], ys, known);
      assert (xs + ys)[1..] == xs[1..] + ys;
    }
  }

  lemma SentOne(c: ChunkInfo, known: set<Digest>)
    ensures BytesSent([c], known) == if c.hash in known then 0 else c.size
  {
    assert [c][1..] == [];
  }

  lemma {:induction false} SelectedHashes(chunks: seq<ChunkInfo>, known: set<Digest>, want: bool)
    ensures forall c :: c in Select(chunks, known, want) ==> (c.hash in known) == want
  {
    if chunks != [] {
      SelectedHashes(chunks[1..], known, want);
    }
  }

  lemma {:induction false} SentIsNew(chunks: seq<ChunkInfo>, known: set<Digest>)
    ensures BytesSent(chunks, known) == TotalSize(Select(chunks, known, false))
    ensures TotalSize(chunks) == BytesSent(chunks, known) + TotalSize(Select(chunks, known, true))
  {
    if chunks != [] {
      SentIsNew(chunks[1..], known);
      SelectStep(chunks, known);
      var c, rest := chunks[0], Select(chunks[1..], known, chunks[0].hash in known);
      assert ([c] + rest)[1..] == rest;
      assert TotalSize([c] + rest) == c.size + TotalSize(rest);
    }
  }

  lemma {:induction false} SelectMultiset(chunks: seq<ChunkInfo>, known: set<Digest>)
    ensures multiset(chunks) == multiset(Select(chunks, known, false)) + multiset(Select(chunks, known, true))
  {
    if chunks != [] {
      hide Select;
      SelectMultiset(chunks[1..], known);
      var c, rest, mine := chunks[0], chunks[1..], chunks[0].hash in known;
      assert chunks == [c] + rest;
      SelectStep(chunks, known);
      assert multiset([c] + Select(rest, known, mine)) == multiset{c} + multiset(Select(rest, known, mine));
    }
  }

  /** Nothing is lost or sent twice: new and existing chunks make up the file, and the count is that of the new ones. */
  lemma DeltaPartitions(delta: DeltaInfo, chunks: seq<ChunkInfo>, known: set<Digest>)
    requires IsDelta(delta, chunks, known)
    ensures multiset(chunks) == multiset(delta.newChunks) + multiset(delta.existingChunks)
    ensures delta.bytesToTransfer == TotalSize(delta.newChunks) == TotalSize(chunks) - TotalSize(delta.existingChunks)
    ensures forall c :: c in delta.newChunks ==> c.hash !in known
    ensures forall c :: c in delta.existingChunks ==> c.hash in known
  {
    hide Select, BytesSent, TotalSize;
    SelectMultiset(chunks, known);
    SentIsNew(chunks, known);
    SelectedHashes(chunks, known, false);
    SelectedHashes(chunks, known, true);
  }

  ghost predicate OffsetsAscend(chunks: seq<ChunkInfo>) {
    forall i, j :: 0 <= i < j < |chunks| ==> chunks[i].offset < chunks[j].offset
  }

  lemma {:induction false} SelectKeepsOrder(chunks: seq<ChunkInfo>, known: set<Digest>, want: bool)
    requires OffsetsAscend(chunks)
    ensures OffsetsAscend(Select(chunks, known, want))
    ensures forall c :: c in Select(chunks, known, want) ==> c in chunks
  {
    hide Select;
    SelectNothing(known, want);
    if chunks != [] {
      SelectStep(chunks, known);
      SelectKeepsOrder(chunks[1..], known, want);
      var rest := Select(chunks[1..], known, want);
      forall c | c in rest
        ensures chunks[0].offset < c.offset
      {
        var i :| 0 <= i < |chunks[1..]| && chunks[1..][i] == c;
        assert chunks[i + 1] == c;
      }
      forall j | 0 <= j < |rest|
        ensures chunks[0].offset < rest[j].offset
      {
        assert rest[j] in rest;
      }
    }
  }

  lemma {:induction false} ChunksAscend(z: Sizes, sha: Hasher, s: Bytes, at: nat)
    ensures OffsetsAscend(Chunks(z, sha, s, at))
    ensures forall c :: c in Chunks(z, sha, s, at) ==> c.offset >= at
    decreases |s|
  {
    hide FirstCut;
    if s != [] {
      var k := FirstCut(z, s);
      ChunksAscend(z, sha, s[k..], at + k);
      var rest := Chunks(z, sha, s[k..], at + k);
      forall j | 0 <= j < |rest|
        ensures rest[j].offset > at
      {
        assert rest[j] in rest;
      }
    }
  }

  /** Both lists of a file's delta are in file order. */
  lemma DeltaInFileOrder(z: Sizes, sha: Hasher, data: Bytes, delta: DeltaInfo, known: set<Digest>)
    requires IsDelta(delta, Chunks(z, sha, data, 0), known)
    ensures OffsetsAscend(delta.newChunks) && OffsetsAscend(delta.existingChunks)
  {
    hide Select, Chunks, BytesSent;
    ChunksAscend(z, sha, data, 0);
    SelectKeepsOrder(Chunks(z, sha, data, 0), known, false);
    SelectKeepsOrder(Chunks(z, sha, data, 0), known, true);
  }

  /** What the destination file holds after the chunks are written from a buffer, and whether all of them fitted. */
  function Written(chunks: seq<ChunkInfo>, data: Bytes, from: nat): (r: (nat, bool))
    requires from <= |data|
    ensures from <= r.0 <= |data|
  {
    if chunks == [] then (from, true)
    else if from + chunks[0].size > |data| then (from, false)
    else Written(chunks[1..], data, from + chunks[0].size)
  }

  lemma {:induction false} WrittenAppend(chunks: seq<ChunkInfo>, c: ChunkInfo, data: Bytes, from: nat)
    requires from <= |data| && Written(chunks, data, from).1
    ensures Written(chunks + [c], data, from) ==
            var n := Written(chunks, data, from).0;
            if n + c.size > |data| then (n, false) else (n + c.size, true)
  {
    if chunks == [] {
      assert [c][1..] == [];
    } else {
      WrittenAppend(chunks[1..], c, data, from + chunks[0].size);
      assert (chunks + [c])[1..] == chunks[1..] + [c];
    }
  }

  lemma {:induction false} WrittenStops(xs: seq<ChunkInfo>, ys: seq<ChunkInfo>, data: Bytes, from: nat)
    requires from <= |data| && !Written(xs, data, from).1
    ensures Written(xs + ys, data, from) == Written(xs, data, from)
  {
    assert (xs + ys)[1..] == xs[1..] + ys;
    if from + xs[0].size <= |data| {
      WrittenStops(xs[1..], ys, data, from + xs[0].size);
    }
  }

  /** All chunks fit exactly when their sizes add up to no more than the buffer; then exactly that many bytes are written. */
  lemma {:induction false} WrittenTotal(chunks: seq<ChunkInfo>, data: Bytes, from: nat)
    requires from <= |data|
    ensures Written(chunks, data, from).1 <==> from + TotalSize(chunks) <= |data|
    ensures Written(chunks, data, from).1 ==> Written(chunks, data, from).0 == from + TotalSize(chunks)
  {
    if chunks != [] && from + chunks[0].size <= |data| {
      WrittenTotal(chunks[1..], data, from + chunks[0].size);
    }
  }

  class DeltaEngine {
    const chunker: Chunker

    constructor (chunker: Chunker)
      ensures this.chunker == chunker
    {
      this.chunker := chunker;
    }

    method ComputeDelta(file: Bytes, serverChunkHashes: seq<Digest>) returns (delta: DeltaInfo)
      requires chunker.sizes.Valid()
      modifies chunker
      ensures IsDelta(delta, Chunks(chunker.sizes, chunker.sha, file, 0), HashSet(serverChunkHashes))
    {
      delta := DeltaInfo([], [], 0);
      var localChunks := chunker.ChunkData(file);
      var serverSet := set h | h in serverChunkHashes;
      ghost var known := HashSet(serverChunkHashes);
      for i := 0 to |localChunks|
        invariant IsDelta(delta, localChunks[..i], known)
      {
        var chunk := localChunks[i];
        assert localChunks[..i + 1] == localChunks[..i] + [chunk];
        SelectAppend(localChunks[..i], chunk, known, false);
        SelectAppend(localChunks[..i], chunk, known, true);
        SentConcat(localChunks[..i], [chunk], known);
        SentOne(chunk, known);
        if chunk.hash !in serverSet {
          delta := delta.(newChunks := delta.newChunks + [chunk], bytesToTransfer := delta.bytesToTransfer + chunk.size);
        } else {
          delta := delta.(existingChunks := delta.existingChunks + [chunk]);
        }
      }
      assert localChunks[..|localChunks|] == localChunks;
    }

    /** `file` is what the destination holds when the call returns, on failure as well. */
    method ApplyDelta(chunks: seq<ChunkInfo>, chunkData: Bytes) returns (ok: bool, file: Bytes)
      ensures ok == (TotalSize(chunks) <= |chunkData|)
      ensures ok ==> file == chunkData[..TotalSize(chunks)]
      ensures file == chunkData[..Written(chunks, chunkData, 0).0]
    {
      WrittenTotal(chunks, chunkData, 0);
      file := [];
      var dataOffset := 0;
      for i := 0 to |chunks|
        invariant 0 <= dataOffset <= |chunkData| && file == chunkData[..dataOffset]
        invariant Written(chunks[..i], chunkData, 0) == (dataOffset, true)
      {
        var chunk := chunks[i];
        assert chunks[..i + 1] == chunks[..i] + [chunk];
        WrittenAppend(chunks[..i], chunk, chunkData, 0);
        if dataOffset + chunk.size > |chunkData| {
          assert chunks == chunks[..i + 1] + chunks[i + 1..];
          WrittenStops(chunks[..i + 1], chunks[i + 1..], chunkData, 0);
          return false, file;
        }
        file := file + chunkData[dataOffset..dataOffset + chunk.size];
        dataOffset := dataOffset + chunk.size;
      }
      assert chunks[..|chunks|] == chunks;
      return true, file;
    }
  }

  /** Writing a file's own chunks from its own bytes gives the file back. */
  lemma ApplyOwnChunks(z: Sizes, sha: Hasher, data: Bytes)
    ensures Written(Chunks(z, sha, data, 0), data, 0) == (|data|, true)
  {
    ChunksTotal(z, sha, data, 0);
    WrittenTotal(Chunks(z, sha, data, 0), data, 0);
  }

  // ---- How much an edit costs -----------------------------------------------------

  lemma {:induction false} KnownCostNothing(chunks: seq<ChunkInfo>, known: set<Digest>)
    requires forall i :: 0 <= i < |chunks| ==> chunks[i].hash in known
    ensures BytesSent(chunks, known) == 0
  {
    if chunks != [] {
      KnownCostNothing(chunks[1..], known);
    }
  }

  lemma {:induction false} SentAtMostAll(chunks: seq<ChunkInfo>, known: set<Digest>)
    ensures BytesSent(chunks, known) <= TotalSize(chunks)
  {
    if chunks != [] {
      SentAtMostAll(chunks[1..], known);
    }
  }

  lemma InHashSet(chunks: seq<ChunkInfo>, i: nat)
    requires i < |chunks|
    ensures chunks[i].hash in HashSet(Hashes(chunks))
  {
    assert Hashes(chunks)[i] == chunks[i].hash;
  }

  /** The hashes the server has after storing file a. */
  ghost function KnownFrom(z: Sizes, sha: Hasher, a: Bytes): set<Digest> {
    HashSet(Hashes(Chunks(z, sha, a, 0)))
  }

  /** Everything before a cut in the shared prefix is already known. */
  lemma SharedPrefixIsFree(z: Sizes, sha: Hasher, a: Bytes, b: Bytes, p: nat, c: nat)
    requires SharePrefix(a, b, p)
    requires IsCut(z, b, c) && c <= p && c < |b|
    ensures BytesSent(Before(z, sha, b, 0, c), KnownFrom(z, sha, a)) == 0
  {
    hide IsCut, Chunks, Before, BytesSent, HashSet;
    CutInSharedPrefix(z, b, a, p, c);
    SameBefore(z, sha, b, a, 0, p, c);
    SplitAtCut(z, sha, a, 0, c);
    var x := Chunks(z, sha, a, 0);
    var before := Before(z, sha, b, 0, c);
    forall i | 0 <= i < |before|
      ensures before[i].hash in KnownFrom(z, sha, a)
    {
      InHashSet(x, i);
      assert x[i] == before[i];
    }
    KnownCostNothing(before, KnownFrom(z, sha, a));
  }

  /** Everything after a resynchronisation is already known. */
  lemma SharedSuffixIsFree(z: Sizes, sha: Hasher, p: Bytes, q: Bytes, s: Bytes)
    requires IsCut(z, p + s, |p|)
    ensures BytesSent(Chunks(z, sha, s, |q|), KnownFrom(z, sha, p + s)) == 0
  {
    hide IsCut, Chunks, Before, BytesSent, HashSet;
    SplitAtSeam(z, sha, p, s);
    ShiftOnly(z, sha, s, |p|, |q|);
    var x, n := Chunks(z, sha, p + s, 0), |Before(z, sha, p + s, 0, |p|)|;
    var mine, theirs := Chunks(z, sha, s, |q|), Chunks(z, sha, s, |p|);
    forall i | 0 <= i < |mine|
      ensures mine[i].hash in KnownFrom(z, sha, p + s)
    {
      assert SameChunk(theirs[i], mine[i], |q| - |p|);
      assert x[n + i] == theirs[i];
      InHashSet(x, n + i);
    }
    KnownCostNothing(mine, KnownFrom(z, sha, p + s));
  }

  /** The last cut of s at or before p: the chunk holding position p starts there. */
  lemma {:induction false} LastCutBefore(z: Sizes, s: Bytes, p: nat) returns (c: nat)
    requires z.Valid() && p < |s|
    ensures IsCut(z, s, c) && c <= p < c + z.max && c < |s|
    decreases |s|
  {
    c := 0;
    CutBounds(z, s);
    var k := FirstCut(z, s);
    if k <= p {
      var d := LastCutBefore(z, s[k..], p - k);
      c := k + d;
    }
  }

  /** Between two cuts the chunks make up exactly the bytes between them. */
  lemma {:induction false} CutOfRest(z: Sizes, s: Bytes, c: nat, d: nat)
    requires IsCut(z, s, c) && IsCut(z, s, d) && c <= d && c <= |s|
    ensures IsCut(z, s[c..], d - c)
    decreases |s|
  {
    hide FirstCut;
    if c == 0 {
      assert s[0..] == s;
    } else {
      var k := FirstCut(z, s);
      CutOfRest(z, s[k..], c - k, d - k);
      assert s[k..][c - k..] == s[c..];
    }
  }

  /** The chunks of b split at two of its cuts. */
  lemma SentBetweenCuts(z: Sizes, sha: Hasher, b: Bytes, c: nat, d: nat, known: set<Digest>)
    requires IsCut(z, b, c) && IsCut(z, b, d) && c <= d <= |b|
    requires BytesSent(Before(z, sha, b, 0, c), known) == 0
    requires BytesSent(Chunks(z, sha, b[d..], d), known) == 0
    ensures BytesSent(Chunks(z, sha, b, 0), known) <= d - c
  {
    hide IsCut, Chunks, Before, BytesSent;
    var rest := b[c..];
    SplitAtCut(z, sha, b, 0, c);
    CutOfRest(z, b, c, d);
    SplitAtCut(z, sha, rest, c, d - c);
    assert rest[d - c..] == b[d..];
    var mid := Before(z, sha, rest, c, d - c);
    SentConcat(Before(z, sha, b, 0, c), Chunks(z, sha, rest, c), known);
    SentConcat(mid, Chunks(z, sha, b[d..], d), known);
    SentAtMostAll(mid, known);
    BeforeTotal(z, sha, rest, c, d - c);
  }

  /**
    * The cost of an edit. m is replaced by n between a prefix and a non-empty suffix; when both files
    * have a cut the same t bytes into the suffix, less than |n| + t + max bytes have to be sent.
    */
  lemma EditCost(z: Sizes, sha: Hasher, p: Bytes, m: Bytes, n: Bytes, s: Bytes, t: nat)
    requires z.Valid() && s != [] && t <= |s|
    requires IsCut(z, p + m + s, |p| + |m| + t)
    requires IsCut(z, p + n + s, |p| + |n| + t)
    ensures BytesSent(Chunks(z, sha, p + n + s, 0), KnownFrom(z, sha, p + m + s)) < |n| + t + z.max
  {
    hide IsCut, Chunks, Before, BytesSent, KnownFrom;
    var a, b := p + m + s, p + n + s;
    var u, v, w := p + m + s[..t], p + n + s[..t], s[t..];
    assert a == u + w && b == v + w;
    var c := LastCutBefore(z, b, |p|);
    assert SharePrefix(a, b, |p|);
    SharedPrefixIsFree(z, sha, a, b, |p|, c);
    SharedSuffixIsFree(z, sha, u, v, w);
    assert b[|v|..] == w;
    SentBetweenCuts(z, sha, b, c, |v|, KnownFrom(z, sha, a));
  }

  /** With the sizes the program is built with, an edit re-sends less than a megabyte beyond what it wrote and passed over. */
  lemma StandardEditCost(sha: Hasher, p: Bytes, m: Bytes, n: Bytes, s: Bytes, t: nat)
    requires s != [] && t <= |s|
    requires IsCut(STANDARD, p + m + s, |p| + |m| + t)
    requires IsCut(STANDARD, p + n + s, |p| + |n| + t)
    ensures BytesSent(Chunks(STANDARD, sha, p + n + s, 0), KnownFrom(STANDARD, sha, p + m + s)) < |n| + t + 1048576
  {
    hide IsCut, Chunks, BytesSent, KnownFrom;
    StandardSizes();
    EditCost(STANDARD, sha, p, m, n, s, t);
  }

  /** If nothing before a cut is sent, at most the rest is. */
  lemma SentAfterCut(z: Sizes, sha: Hasher, b: Bytes, c: nat, known: set<Digest>)
    requires IsCut(z, b, c) && c <= |b| && BytesSent(Before(z, sha, b, 0, c), known) == 0
    ensures BytesSent(Chunks(z, sha, b, 0), known) <= |b| - c
  {
    hide IsCut, Chunks, Before, BytesSent;
    SplitAtCut(z, sha, b, 0, c);
    SentConcat(Before(z, sha, b, 0, c), Chunks(z, sha, b[c..], c), known);
    SentAtMostAll(Chunks(z, sha, b[c..], c), known);
    ChunksTotal(z, sha, b[c..], c);
  }

  /** The last chunk starts at a cut and reaches the end. */
  lemma LastChunk(z: Sizes, sha: Hasher, a: Bytes) returns (last: ChunkInfo)
    requires z.Valid() && a != []
    ensures var cs := Chunks(z, sha, a, 0);
            cs != [] && last == cs[|cs| - 1]
    ensures IsCut(z, a, last.offset) && last.offset + last.size == |a| && 0 < last.size <= z.max
  {
    hide FirstCut, Before, IsCut;
    var cs := Chunks(z, sha, a, 0);
    var i := |cs| - 1;
    last := cs[i];
    ChunksTile(z, sha, a);
    ChunkTiles(z, sha, a, i);
    ChunkSizes(z, sha, a, i);
    LastOffsetIsCut(z, sha, a);
  }

  /** Appending x to a file re-sends at most x and the file's last chunk. */
  lemma AppendCost(z: Sizes, sha: Hasher, a: Bytes, x: Bytes)
    requires z.Valid() && a != []
    ensures var cs := Chunks(z, sha, a, 0);
            && cs != []
            && BytesSent(Chunks(z, sha, a + x, 0), KnownFrom(z, sha, a)) <= |x| + cs[|cs| - 1].size <= |x| + z.max
  {
    hide IsCut, Before, BytesSent, KnownFrom, Chunks;
    var last := LastChunk(z, sha, a);
    var b, c := a + x, last.offset;
    assert SharePrefix(a, b, |a|);
    CutInSharedPrefix(z, a, b, |a|, c);
    SharedPrefixIsFree(z, sha, a, b, |a|, c);
    SentAfterCut(z, sha, b, c, KnownFrom(z, sha, a));
  }

  lemma LastOffsetIsCut(z: Sizes, sha: Hasher, a: Bytes)
    requires a != []
    ensures var cs := Chunks(z, sha, a, 0);
            cs != [] && IsCut(z, a, cs[|cs| - 1].offset)
  {
    hide FirstCut, Before;
    var cs := Chunks(z, sha, a, 0);
    var i := |cs| - 1;
    ChunksTile(z, sha, a);
    if i > 0 {
      ChunkTiles(z, sha, a, i - 1);
      ChunkEndIsCut(z, sha, a, 0, i - 1);
    }
  }
}
