/** Content-defined chunking (src/common/chunker.cpp): the cut rule, the recursive reading of it, and the one-pass loop. */
module Chunking {
  import opened Content
  import opened RollingHashes

  datatype ChunkInfo = ChunkInfo(offset: nat, size: nat, hash: Digest)

  datatype ChunkStats = ChunkStats(totalChunks: nat, minSize: nat, maxSize: nat, avgSize: real)

  /** Minimum, normalised and maximum chunk size. */
  datatype Sizes = Sizes(min: nat, norm: nat, max: nat) {
    predicate Valid() {
      0 < min <= norm <= max
    }
  }

  const MIN_CHUNK_SIZE: nat := 4 * 1024
  const AVG_CHUNK_SIZE: nat := 64 * 1024
  const MAX_CHUNK_SIZE: nat := 1024 * 1024
  const MASK: nat := 0x1_0000 - 1

  /** The sizes the program is built with. */
  const STANDARD: Sizes := Sizes(MIN_CHUNK_SIZE, MIN_CHUNK_SIZE + (AVG_CHUNK_SIZE - MIN_CHUNK_SIZE) / 2, MAX_CHUNK_SIZE)

  lemma StandardSizes()
    ensures STANDARD.Valid() && STANDARD == Sizes(4096, 34816, 1048576)
  {
  }

  // ---- Bit masks -----------------------------------------------------------

  /** Bitwise and of two unsigned numbers. */
  function BitAnd(x: nat, y: nat): nat {
    if x == 0 || y == 0 then 0
    else (if x % 2 == 1 && y % 2 == 1 then 1 else 0) + 2 * BitAnd(x / 2, y / 2)
  }

  function Pow2(n: nat): (p: nat)
    ensures p > 0
  {
    if n == 0 then 1 else 2 * Pow2(n - 1)
  }

  lemma HalfRemainder(x: nat, m: nat)
    requires m > 0
    ensures x % (2 * m) == x % 2 + 2 * ((x / 2) % m)
  {
    var q, r := (x / 2) / m, (x / 2) % m;
    assert x / 2 == q * m + r;
    assert x == q * (2 * m) + (2 * r + x % 2);
    RemainderUnique(x, 2 * m, q, 2 * r + x % 2);
  }

  lemma AtLeastOnce(d: int, m: nat)
    requires d >= 1
    ensures d * m >= m
  {
  }

  lemma Subtract(a: int, b: int, m: int)
    ensures (a - b) * m == a * m - b * m
  {
  }

  lemma RemainderUnique(x: nat, m: nat, q: int, r: nat)
    requires m > 0 && r < m && x == q * m + r
    ensures x % m == r
  {
    var p := x / m;
    assert x == p * m + x % m;
    Subtract(p, q, m);
    Subtract(q, p, m);
    if p > q {
      AtLeastOnce(p - q, m);
    } else if q > p {
      AtLeastOnce(q - p, m);
    }
  }

  lemma AndWithOdd(x: nat, m: nat)
    requires m > 0
    ensures BitAnd(x, 2 * m - 1) == x % 2 + 2 * BitAnd(x / 2, m - 1)
  {
    assert (2 * m - 1) / 2 == m - 1 && (2 * m - 1) % 2 == 1;
  }

  /** Masking with n low ones is the remainder by 2^n. */
  lemma {:induction false} LowMaskIsRemainder(x: nat, n: nat)
    ensures BitAnd(x, Pow2(n) - 1) == x % Pow2(n)
    decreases n
  {
    if n > 0 {
      hide BitAnd;
      var m := Pow2(n - 1);
      LowMaskIsRemainder(x / 2, n - 1);
      HalfRemainder(x, m);
      AndWithOdd(x, m);
    }
  }

  lemma MaskTests(h: nat)
    ensures BitAnd(h, MASK / 2) == h % 0x8000
    ensures BitAnd(h, MASK) == h % 0x1_0000
  {
    hide BitAnd;
    assert Pow2(15) == 0x8000;
    assert Pow2(16) == 0x1_0000;
    LowMaskIsRemainder(h, 15);
    LowMaskIsRemainder(h, 16);
  }

  // ---- The cut rule and its recursive reading ---------------------------------

  /** The hash test that applies to a chunk of k bytes. */
  predicate Boundary(z: Sizes, h: nat, k: nat) {
    || (z.min <= k < z.norm && h % 0x8000 == 0)
    || (k >= z.norm && h % 0x1_0000 == 0)
  }

  /** A chunk starting where s starts ends after k bytes. */
  predicate EndsChunk(z: Sizes, s: Bytes, k: nat)
    requires 1 <= k <= |s|
  {
    Boundary(z, PolyHash(s[..k]), k) || k >= z.max || k == |s|
  }

  function SearchCut(z: Sizes, s: Bytes, from: nat): (k: nat)
    requires 1 <= from <= |s|
    ensures from <= k <= |s|
    decreases |s| - from
  {
    if EndsChunk(z, s, from) then from else SearchCut(z, s, from + 1)
  }

  /** The length at which the first chunk of s ends. */
  function FirstCut(z: Sizes, s: Bytes): (k: nat)
    requires s != []
    ensures 1 <= k <= |s|
  {
    SearchCut(z, s, 1)
  }

  ghost predicate IsLeastCut(z: Sizes, s: Bytes, from: nat, k: nat) {
    1 <= from <= k <= |s| && EndsChunk(z, s, k) && forall j :: from <= j < k ==> !EndsChunk(z, s, j)
  }

  lemma {:induction false} SearchCutIsLeast(z: Sizes, s: Bytes, from: nat)
    requires 1 <= from <= |s|
    ensures IsLeastCut(z, s, from, SearchCut(z, s, from))
    decreases |s| - from
  {
    if !EndsChunk(z, s, from) {
      SearchCutIsLeast(z, s, from + 1);
    }
  }

  /** The first chunk ends at the least length the rule allows. */
  lemma FirstCutIsLeast(z: Sizes, s: Bytes)
    requires s != []
    ensures IsLeastCut(z, s, 1, FirstCut(z, s))
  {
    SearchCutIsLeast(z, s, 1);
  }

  lemma FirstCutUnique(z: Sizes, s: Bytes, k: nat)
    requires IsLeastCut(z, s, 1, k)
    ensures FirstCut(z, s) == k
  {
    FirstCutIsLeast(z, s);
  }

  /** The cut rule of the program, with its numbers: a chunk that starts where s starts can end after k bytes. */
  predicate StandardEnd(s: Bytes, k: nat)
    requires k <= |s|
  {
    var h := Value(s[..k]) % 1_000_000_009;
    || (4096 <= k < 34816 && h % 0x8000 == 0)
    || (34816 <= k && h % 0x1_0000 == 0)
    || k >= 1048576
    || k == |s|
  }

  /** With the program's own sizes, the first chunk ends at the least length this rule allows, and at no other. */
  lemma StandardCut(s: Bytes, k: nat)
    requires s != []
    ensures FirstCut(STANDARD, s) == k <==>
            1 <= k <= |s| && StandardEnd(s, k) && forall j :: 1 <= j < k ==> !StandardEnd(s, j)
  {
    hide Value;
    var c := FirstCut(STANDARD, s);
    FirstCutIsLeast(STANDARD, s);
    forall j | 1 <= j <= |s|
      ensures StandardEnd(s, j) <==> EndsChunk(STANDARD, s, j)
    {
    }
    if 1 <= k <= |s| && StandardEnd(s, k) && forall j :: 1 <= j < k ==> !StandardEnd(s, j) {
      assert c >= k;
      assert k >= c;
    }
  }

  /** Cut the first chunk off, then chunk the rest on its own. */
  function Chunks(z: Sizes, sha: Hasher, s: Bytes, at: nat): seq<ChunkInfo>
    decreases |s|
  {
    if s == [] then []
    else
      var k := FirstCut(z, s);
      [ChunkInfo(at, k, sha(s[..k]))] + Chunks(z, sha, s[k..], at + k)
  }

  function TotalSize(chunks: seq<ChunkInfo>): nat {
    if chunks == [] then 0 else chunks[0].size + TotalSize(chunks[1..])
  }

  lemma {:induction false} TotalSizeConcat(xs: seq<ChunkInfo>, ys: seq<ChunkInfo>)
    ensures TotalSize(xs + ys) == TotalSize(xs) + TotalSize(ys)
  {
    if xs == [] {
      assert xs + ys == ys;
    } else {
      TotalSizeConcat(xs[1..], ys);
      assert (xs + ys)[1..] == xs[1..] + ys;
    }
  }

  lemma {:induction false} ChunksTotal(z: Sizes, sha: Hasher, s: Bytes, at: nat)
    ensures TotalSize(Chunks(z, sha, s, at)) == |s|
    decreases |s|
  {
    if s != [] {
      var k := FirstCut(z, s);
      ChunksTotal(z, sha, s[k..], at + k);
      var head := [ChunkInfo(at, k, sha(s[..k]))];
      assert Chunks(z, sha, s, at)[1..] == Chunks(z, sha, s[k..], at + k);
    }
  }

  // ---- Statistics ---------------------------------------------------------------

  /** The statistics describe the chunks: attained least and greatest size, count, and mean size. */
  ghost predicate TrueStats(stats: ChunkStats, chunks: seq<ChunkInfo>, n: nat) {
    && stats.totalChunks == |chunks|
    && SizeRange(chunks, stats.minSize, stats.maxSize)
    && (if chunks == [] then stats.avgSize == 0.0 else stats.avgSize == n as real / |chunks| as real)
  }

  ghost predicate SizeRange(chunks: seq<ChunkInfo>, lo: nat, hi: nat) {
    if chunks == [] then lo == hi == 0
    else
      && (forall c :: c in chunks ==> lo <= c.size <= hi)
      && (exists c :: c in chunks && c.size == lo)
      && (exists c :: c in chunks && c.size == hi)
  }

  lemma SizeRangeGrows(chunks: seq<ChunkInfo>, lo: nat, hi: nat, c: ChunkInfo)
    requires SizeRange(chunks, lo, hi) && c.size > 0
    requires chunks != [] ==> lo > 0
    ensures SizeRange(chunks + [c], if lo == 0 || c.size < lo then c.size else lo, if c.size > hi then c.size else hi)
  {
    var lo' := if lo == 0 || c.size < lo then c.size else lo;
    var hi' := if c.size > hi then c.size else hi;
    var more := chunks + [c];
    assert more[|chunks|] == c;
    if lo' == lo && chunks != [] {
      var d :| d in chunks && d.size == lo;
      assert d in more;
    }
    if hi' == hi && chunks != [] {
      var d :| d in chunks && d.size == hi;
      assert d in more;
    }
  }

  // ---- Loop steps ---------------------------------------------------------------

  /** The open chunk data[start..i] has met no cut yet. */
  ghost predicate NoCutYet(z: Sizes, data: Bytes, start: nat, i: nat)
    requires start <= i <= |data|
  {
    forall j :: 1 <= j <= i - start ==> !EndsChunk(z, data[start..], j)
  }

  /** The masked hash tests, the maximum and the end of the data together are the cut rule for the open chunk. */
  lemma TestIsCutRule(z: Sizes, data: Bytes, start: nat, i: nat, h: nat)
    requires start <= i < |data| && h == PolyHash(data[start..i + 1])
    ensures EndsChunk(z, data[start..], i + 1 - start) ==
            (MaskTest(z, h, i + 1 - start) || i + 1 - start >= z.max || i == |data| - 1)
  {
    MaskTests(h);
    assert data[start..][..i + 1 - start] == data[start..i + 1];
  }

  lemma AppendToSlice(data: Bytes, start: nat, i: nat)
    requires start <= i < |data|
    ensures AppendHash(PolyHash(data[start..i]), data[i]) == PolyHash(data[start..i + 1])
  {
    AppendIsPoly(data[start..i], data[i]);
    assert data[start..i] + [data[i]] == data[start..i + 1];
  }

  /** At the first cut the recursive reading splits off exactly the open chunk. */
  lemma CutStep(z: Sizes, sha: Hasher, data: Bytes, start: nat, i: nat)
    requires start <= i < |data| && NoCutYet(z, data, start, i)
    requires EndsChunk(z, data[start..], i + 1 - start)
    ensures Chunks(z, sha, data[start..], start) ==
            [ChunkInfo(start, i + 1 - start, sha(data[start..i + 1]))] + Chunks(z, sha, data[i + 1..], i + 1)
  {
    var rest, k := data[start..], i + 1 - start;
    FirstCutUnique(z, rest, k);
    assert rest[..k] == data[start..i + 1];
    assert rest[k..] == data[i + 1..];
  }

  /** What is pushed so far, followed by the chunking of what is left. */
  function Resumed(z: Sizes, sha: Hasher, data: Bytes, chunks: seq<ChunkInfo>, start: nat): seq<ChunkInfo>
    requires start <= |data|
  {
    chunks + Chunks(z, sha, data[start..], start)
  }

  /** Pushing the open chunk at its cut leaves the total chunking unchanged. */
  lemma ResumedStep(z: Sizes, sha: Hasher, data: Bytes, chunks: seq<ChunkInfo>, start: nat, i: nat)
    requires start <= i < |data| && NoCutYet(z, data, start, i)
    requires EndsChunk(z, data[start..], i + 1 - start)
    ensures Resumed(z, sha, data, chunks + [ChunkInfo(start, i + 1 - start, sha(data[start..i + 1]))], i + 1)
         == Resumed(z, sha, data, chunks, start)
  {
    CutStep(z, sha, data, start, i);
    var c, tail := ChunkInfo(start, i + 1 - start, sha(data[start..i + 1])), Chunks(z, sha, data[i + 1..], i + 1);
    assert chunks + ([c] + tail) == (chunks + [c]) + tail;
  }

  /** The loop's locals, with the running hash. */
  datatype Locals = Locals(start: nat, chunks: seq<ChunkInfo>, minSize: nat, maxSize: nat, totalSize: nat, hash: nat)

  ghost predicate LoopInv(z: Sizes, sha: Hasher, data: Bytes, i: nat, v: Locals) {
    && v.start <= i <= |data|
    && v.hash == PolyHash(data[v.start..i])
    && NoCutYet(z, data, v.start, i)
    && Resumed(z, sha, data, v.chunks, v.start) == Chunks(z, sha, data, 0)
    && SizeRange(v.chunks, v.minSize, v.maxSize)
    && (v.chunks != [] ==> v.minSize > 0)
    && v.totalSize == v.start
    && (i > 0 && i == |data| ==> v.start == i && v.chunks != [])
  }

  lemma NoData(z: Sizes, sha: Hasher)
    ensures Chunks(z, sha, [], 0) == [] && TrueStats(ChunkStats(0, 0, 0, 0.0), [], 0)
  {
  }

  lemma LoopStart(z: Sizes, sha: Hasher, data: Bytes)
    ensures LoopInv(z, sha, data, 0, Locals(0, [], 0, 0, 0, 0))
  {
    assert data[0..] == data && data[0..0] == [];
  }

  /** The masked hash test of the loop. */
  ghost predicate MaskTest(z: Sizes, h: nat, k: nat) {
    if z.min <= k < z.norm then BitAnd(h, MASK / 2) == 0
    else if k >= z.norm then BitAnd(h, MASK) == 0
    else false
  }

  lemma LoopNoCut(z: Sizes, sha: Hasher, data: Bytes, i: nat, v: Locals, h: nat)
    requires i < |data| && LoopInv(z, sha, data, i, v) && h == AppendHash(v.hash, data[i])
    requires !(MaskTest(z, h, i + 1 - v.start) || i + 1 - v.start >= z.max || i == |data| - 1)
    ensures LoopInv(z, sha, data, i + 1, v.(hash := h))
  {
    hide Resumed, Chunks, SizeRange, BitAnd, AppendHash;
    AppendToSlice(data, v.start, i);
    TestIsCutRule(z, data, v.start, i, h);
  }

  lemma LoopCut(z: Sizes, sha: Hasher, data: Bytes, i: nat, v: Locals, h: nat)
    requires i < |data| && LoopInv(z, sha, data, i, v) && h == AppendHash(v.hash, data[i])
    requires MaskTest(z, h, i + 1 - v.start) || i + 1 - v.start >= z.max || i == |data| - 1
    ensures var c := ChunkInfo(v.start, i + 1 - v.start, sha(data[v.start..i + 1]));
            LoopInv(z, sha, data, i + 1, Locals(i + 1, v.chunks + [c],
                                                if v.minSize == 0 || c.size < v.minSize then c.size else v.minSize,
                                                if c.size > v.maxSize then c.size else v.maxSize,
                                                v.totalSize + c.size, 0))
  {
    hide Resumed, Chunks, SizeRange, EndsChunk, BitAnd, AppendHash;
    AppendToSlice(data, v.start, i);
    TestIsCutRule(z, data, v.start, i, h);
    ResumedStep(z, sha, data, v.chunks, v.start, i);
    SizeRangeGrows(v.chunks, v.minSize, v.maxSize, ChunkInfo(v.start, i + 1 - v.start, sha(data[v.start..i + 1])));
    assert data[i + 1..i + 1] == [];
  }

  lemma LoopEnd(z: Sizes, sha: Hasher, data: Bytes, v: Locals)
    requires data != [] && LoopInv(z, sha, data, |data|, v)
    ensures v.chunks == Chunks(z, sha, data, 0) && v.chunks != []
    ensures TrueStats(ChunkStats(|v.chunks|, v.minSize, v.maxSize, v.totalSize as real / |v.chunks| as real), v.chunks, |data|)
  {
    assert data[|data|..] == [];
  }

  // ---- The loop -------------------------------------------------------------------

  class Chunker {
    const sizes: Sizes
    const sha: Hasher
    var lastStats: ChunkStats

    constructor (sizes: Sizes, sha: Hasher)
      ensures this.sizes == sizes && this.sha == sha
    {
      this.sizes := sizes;
      this.sha := sha;
      lastStats := ChunkStats(0, 0, 0, 0.0);
    }

    /** One pass over the data with an incremental hash that restarts at every cut. */
    method ChunkData(data: Bytes) returns (chunks: seq<ChunkInfo>)
      requires sizes.Valid()
      modifies this`lastStats
      ensures chunks == Chunks(sizes, sha, data, 0)
      ensures TrueStats(lastStats, chunks, |data|)
    {
      hide LoopInv, Chunks, TrueStats, PolyHash, BitAnd, AppendHash;
      chunks := [];
      if data == [] {
        lastStats := ChunkStats(0, 0, 0, 0.0);
        NoData(sizes, sha);
        return;
      }
      LoopStart(sizes, sha, data);
      var rolling := new RollingHash(48);
      var chunkStart: nat, minSize: nat, maxSize: nat, totalSize: nat := 0, 0, 0, 0;
      var i := 0;
      while i < |data|
        invariant 0 <= chunkStart <= i <= |data|
        invariant rolling.Valid() && fresh(rolling)
        invariant LoopInv(sizes, sha, data, i, Locals(chunkStart, chunks, minSize, maxSize, totalSize, rolling.hash))
      {
        ghost var v := Locals(chunkStart, chunks, minSize, maxSize, totalSize, rolling.hash);
        rolling.Append(data[i]);
        var chunkSize := i + 1 - chunkStart;
        var isBoundary := false;
        var maxSizeReached := chunkSize >= sizes.max;
        var isLastByte := i == |data| - 1;
        if chunkSize >= sizes.min && chunkSize < sizes.norm {
          isBoundary := BitAnd(rolling.hash, MASK / 2) == 0;
        } else if chunkSize >= sizes.norm {
          isBoundary := BitAnd(rolling.hash, MASK) == 0;
        }
        if isBoundary || maxSizeReached || isLastByte {
          LoopCut(sizes, sha, data, i, v, rolling.hash);
          var chunkData := data[chunkStart..i + 1];
          var chunk := ChunkInfo(chunkStart, |chunkData|, sha(chunkData));
          chunks := chunks + [chunk];
          if minSize == 0 || chunk.size < minSize {
            minSize := chunk.size;
          }
          if chunk.size > maxSize {
            maxSize := chunk.size;
          }
          totalSize := totalSize + chunk.size;
          chunkStart := i + 1;
          rolling.Reset();
        } else {
          LoopNoCut(sizes, sha, data, i, v, rolling.hash);
        }
        i := i + 1;
      }
      LoopEnd(sizes, sha, data, Locals(chunkStart, chunks, minSize, maxSize, totalSize, rolling.hash));
      lastStats := ChunkStats(|chunks|, minSize, maxSize,
                              if chunks == [] then 0.0 else totalSize as real / |chunks| as real);
    }
  }
}
