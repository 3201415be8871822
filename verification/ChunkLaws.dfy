/** What content-defined chunking is for: tiling, counts, resynchronisation and prefix stability. */
module ChunkLaws {
  import opened Content
  import opened RollingHashes
  import opened Chunking

  // ---- Tiling -----------------------------------------------------------------

  /** Chunks in a row without gap or overlap, covering the data and naming its pieces. */
  ghost predicate Tiles(chunks: seq<ChunkInfo>, sha: Hasher, data: Bytes) {
    && (data == [] ==> chunks == [])
    && (data != [] ==> chunks != [] && chunks[0].offset == 0)
    && (forall i :: 0 <= i < |chunks| ==> IsTile(chunks, sha, data, i))
  }

  ghost predicate IsTile(chunks: seq<ChunkInfo>, sha: Hasher, data: Bytes, i: nat)
    requires i < |chunks|
  {
    var c := chunks[i];
    && c.size > 0
    && c.offset + c.size == (if i + 1 < |chunks| then chunks[i + 1].offset else |data|)
    && c.offset + c.size <= |data|
    && c.hash == sha(data[c.offset..c.offset + c.size])
  }

  /** c is the first chunk of what s holds from c's offset on, when s itself starts at offset `at`. */
  ghost predicate IsPiece(z: Sizes, sha: Hasher, s: Bytes, at: nat, c: ChunkInfo) {
    && at <= c.offset < at + |s|
    && c.size == FirstCut(z, s[c.offset - at..])
    && c.hash == sha(s[c.offset - at..][..c.size])
  }

  lemma PieceOfRest(z: Sizes, sha: Hasher, s: Bytes, at: nat, k: nat, c: ChunkInfo)
    requires k <= |s| && IsPiece(z, sha, s[k..], at + k, c)
    ensures IsPiece(z, sha, s, at, c)
  {
    assert s[k..][c.offset - (at + k)..] == s[c.offset - at..];
  }

  lemma {:induction false} ChunkIsPiece(z: Sizes, sha: Hasher, s: Bytes, at: nat, i: nat)
    requires i < |Chunks(z, sha, s, at)|
    ensures IsPiece(z, sha, s, at, Chunks(z, sha, s, at)[i])
    decreases |s|
  {
    hide FirstCut;
    var k := FirstCut(z, s);
    if i == 0 {
      assert s[0..] == s;
    } else {
      ChunkIsPiece(z, sha, s[k..], at + k, i - 1);
      PieceOfRest(z, sha, s, at, k, Chunks(z, sha, s, at)[i]);
    }
  }

  /** Where the i-th chunk ends: at the start of the next one, or with the data. */
  lemma {:induction false} ChunkEnd(z: Sizes, sha: Hasher, s: Bytes, at: nat, i: nat)
    requires i < |Chunks(z, sha, s, at)|
    ensures var cs := Chunks(z, sha, s, at);
            cs[i].offset + cs[i].size == if i + 1 < |cs| then cs[i + 1].offset else at + |s|
    decreases |s|
  {
    hide FirstCut;
    var k := FirstCut(z, s);
    if i > 0 {
      ChunkEnd(z, sha, s[k..], at + k, i - 1);
    }
  }

  lemma ChunksTile(z: Sizes, sha: Hasher, data: Bytes)
    ensures Tiles(Chunks(z, sha, data, 0), sha, data)
  {
    hide FirstCut;
    var cs := Chunks(z, sha, data, 0);
    forall i | 0 <= i < |cs|
      ensures IsTile(cs, sha, data, i)
    {
      ChunkTiles(z, sha, data, i);
    }
  }

  lemma ChunkTiles(z: Sizes, sha: Hasher, data: Bytes, i: nat)
    requires i < |Chunks(z, sha, data, 0)|
    ensures IsTile(Chunks(z, sha, data, 0), sha, data, i)
  {
    hide FirstCut;
    var c := Chunks(z, sha, data, 0)[i];
    ChunkIsPiece(z, sha, data, 0, i);
    ChunkEnd(z, sha, data, 0, i);
    assert data[c.offset..][..c.size] == data[c.offset..c.offset + c.size];
  }

  /** Every chunk of the program's chunking has the least length the cut rule allows where it starts. */
  lemma StandardChunks(sha: Hasher, data: Bytes, i: nat)
    requires i < |Chunks(STANDARD, sha, data, 0)|
    ensures var c := Chunks(STANDARD, sha, data, 0)[i];
            && c.offset < |data| && 1 <= c.size <= |data| - c.offset
            && StandardEnd(data[c.offset..], c.size)
            && forall j :: 1 <= j < c.size ==> !StandardEnd(data[c.offset..], j)
  {
    hide FirstCut, StandardEnd;
    var c := Chunks(STANDARD, sha, data, 0)[i];
    ChunkIsPiece(STANDARD, sha, data, 0, i);
    StandardCut(data[c.offset..], c.size);
  }

  /** Every chunk is at most the maximum, and every chunk but the last at least the minimum. */
  lemma ChunkSizes(z: Sizes, sha: Hasher, data: Bytes, i: nat)
    requires z.Valid() && i < |Chunks(z, sha, data, 0)|
    ensures Chunks(z, sha, data, 0)[i].size <= z.max
    ensures i + 1 < |Chunks(z, sha, data, 0)| ==> Chunks(z, sha, data, 0)[i].size >= z.min
  {
    var c := Chunks(z, sha, data, 0)[i];
    ChunkIsPiece(z, sha, data, 0, i);
    CutBounds(z, data[c.offset..]);
    ChunkTiles(z, sha, data, i);
    if i + 1 < |Chunks(z, sha, data, 0)| {
      ChunkIsPiece(z, sha, data, 0, i + 1);
    }
  }

  lemma CutBounds(z: Sizes, s: Bytes)
    requires z.Valid() && s != []
    ensures FirstCut(z, s) <= z.max
    ensures FirstCut(z, s) < |s| ==> FirstCut(z, s) >= z.min
  {
    FirstCutIsLeast(z, s);
    if FirstCut(z, s) > z.max {
      assert EndsChunk(z, s, z.max);
    }
  }

  // ---- The pieces of a file ----------------------------------------------------------

  /** The bytes of each chunk. */
  function Pieces(z: Sizes, s: Bytes): seq<Bytes>
    decreases |s|
  {
    if s == [] then []
    else [s[..FirstCut(z, s)]] + Pieces(z, s[FirstCut(z, s)..])
  }

  lemma {:induction false} PiecesOfChunks(z: Sizes, sha: Hasher, s: Bytes, at: nat)
    ensures |Pieces(z, s)| == |Chunks(z, sha, s, at)|
    ensures forall i :: 0 <= i < |Pieces(z, s)| ==>
              Pieces(z, s)[i] != [] && sha(Pieces(z, s)[i]) == Chunks(z, sha, s, at)[i].hash
    decreases |s|
  {
    hide FirstCut;
    if s != [] {
      var k := FirstCut(z, s);
      PiecesOfChunks(z, sha, s[k..], at + k);
    }
  }

  lemma {:induction false} PiecesMakeTheFile(z: Sizes, s: Bytes)
    ensures Flatten(Pieces(z, s)) == s
    decreases |s|
  {
    hide FirstCut;
    if s != [] {
      var k := FirstCut(z, s);
      PiecesMakeTheFile(z, s[k..]);
      assert s[..k] + s[k..] == s;
      assert Pieces(z, s)[1..] == Pieces(z, s[k..]);
    }
  }

  // ---- Counts -------------------------------------------------------------------

  lemma OneMore(n: int, size: int)
    ensures (n + 1) * size == n * size + size
  {
  }

  /** n bytes make between ceil(n / max) and ceil(n / min) chunks. */
  lemma {:induction false} CountBounds(z: Sizes, sha: Hasher, s: Bytes, at: nat)
    requires z.Valid()
    ensures var count := |Chunks(z, sha, s, at)|;
            count * z.max >= |s| && (count > 0 ==> (count - 1) * z.min < |s|)
    decreases |s|
  {
    hide FirstCut;
    if s != [] {
      var k := FirstCut(z, s);
      CutBounds(z, s);
      CountBounds(z, sha, s[k..], at + k);
      OneMore(|Chunks(z, sha, s[k..], at + k)|, z.max);
      OneMore(|Chunks(z, sha, s[k..], at + k)| - 1, z.min);
    }
  }

  ghost predicate AllZero(s: Bytes) {
    forall i :: 0 <= i < |s| ==> s[i] == 0
  }

  lemma {:induction false} ZeroValue(s: Bytes)
    requires AllZero(s)
    ensures Value(s) == 0
  {
    if s != [] {
      ZeroValue(s[..|s| - 1]);
    }
  }

  lemma ZeroCut(z: Sizes, s: Bytes)
    requires z.Valid() && s != [] && AllZero(s)
    ensures FirstCut(z, s) == if |s| < z.min then |s| else z.min
  {
    var k := if |s| < z.min then |s| else z.min;
    ZeroValue(s[..k]);
    FirstCutUnique(z, s, k);
  }

  /** All-zero data meets the upper bound: it is cut at every minimum size. */
  lemma {:induction false} ZeroDataMeetsUpperBound(z: Sizes, sha: Hasher, s: Bytes, at: nat)
    requires z.Valid() && AllZero(s)
    ensures var count := |Chunks(z, sha, s, at)|;
            count * z.min >= |s| && (count > 0 ==> (count - 1) * z.min < |s|)
    decreases |s|
  {
    if s != [] {
      ZeroCut(z, s);
      var k := FirstCut(z, s);
      ZeroDataMeetsUpperBound(z, sha, s[k..], at + k);
      OneMore(|Chunks(z, sha, s[k..], at + k)|, z.min);
      OneMore(|Chunks(z, sha, s[k..], at + k)| - 1, z.min);
    }
  }

  // ---- Cuts -----------------------------------------------------------------------

  /** c bytes into s a chunk ends, or s starts. */
  predicate IsCut(z: Sizes, s: Bytes, c: nat)
    decreases |s|
  {
    c == 0 || (s != [] && FirstCut(z, s) <= c && IsCut(z, s[FirstCut(z, s)..], c - FirstCut(z, s)))
  }

  /** The chunks of s that lie before a cut c. */
  function Before(z: Sizes, sha: Hasher, s: Bytes, at: nat, c: nat): seq<ChunkInfo>
    requires IsCut(z, s, c)
    decreases |s|
  {
    if c == 0 then []
    else
      var k := FirstCut(z, s);
      [ChunkInfo(at, k, sha(s[..k]))] + Before(z, sha, s[k..], at + k, c - k)
  }

  lemma {:induction false} CutInRange(z: Sizes, s: Bytes, c: nat)
    requires IsCut(z, s, c)
    ensures c <= |s|
    decreases |s|
  {
    if c > 0 {
      CutInRange(z, s[FirstCut(z, s)..], c - FirstCut(z, s));
    }
  }

  /** At a cut, chunking splits: what comes after it is the chunking of the rest of the bytes on their own. */
  lemma {:induction false} SplitAtCut(z: Sizes, sha: Hasher, s: Bytes, at: nat, c: nat)
    requires IsCut(z, s, c)
    ensures c <= |s|
    ensures Chunks(z, sha, s, at) == Before(z, sha, s, at, c) + Chunks(z, sha, s[c..], at + c)
    decreases |s|
  {
    hide FirstCut;
    CutInRange(z, s, c);
    if c == 0 {
      assert s[0..] == s;
    } else {
      var k := FirstCut(z, s);
      SplitAtCut(z, sha, s[k..], at + k, c - k);
      assert s[k..][c - k..] == s[c..];
      Reassociate(ChunkInfo(at, k, sha(s[..k])), Before(z, sha, s[k..], at + k, c - k), Chunks(z, sha, s[c..], at + c));
    }
  }

  lemma Reassociate(c: ChunkInfo, xs: seq<ChunkInfo>, ys: seq<ChunkInfo>)
    ensures [c] + (xs + ys) == ([c] + xs) + ys
  {
  }

  lemma {:induction false} BeforeTotal(z: Sizes, sha: Hasher, s: Bytes, at: nat, c: nat)
    requires IsCut(z, s, c)
    ensures TotalSize(Before(z, sha, s, at, c)) == c
  {
    hide FirstCut;
    SplitAtCut(z, sha, s, at, c);
    TotalSizeConcat(Before(z, sha, s, at, c), Chunks(z, sha, s[c..], at + c));
    ChunksTotal(z, sha, s, at);
    ChunksTotal(z, sha, s[c..], at + c);
  }

  /** The end of the i-th chunk is a cut with i + 1 chunks before it. */
  lemma {:induction false} ChunkEndIsCut(z: Sizes, sha: Hasher, s: Bytes, at: nat, i: nat)
    requires i < |Chunks(z, sha, s, at)|
    ensures var c := Chunks(z, sha, s, at)[i];
            && c.offset + c.size > at && IsCut(z, s, c.offset + c.size - at)
            && |Before(z, sha, s, at, c.offset + c.size - at)| == i + 1
    decreases |s|
  {
    hide FirstCut;
    var k := FirstCut(z, s);
    if i == 0 {
      assert IsCut(z, s[k..], 0);
    } else {
      ChunkEndIsCut(z, sha, s[k..], at + k, i - 1);
    }
  }

  lemma {:induction false} CutEndsChunk(z: Sizes, sha: Hasher, s: Bytes, at: nat, c: nat) returns (i: nat)
    requires IsCut(z, s, c) && c > 0
    ensures i < |Chunks(z, sha, s, at)|
    ensures Chunks(z, sha, s, at)[i].offset + Chunks(z, sha, s, at)[i].size == at + c
    decreases |s|
  {
    hide FirstCut;
    i := 0;
    var k := FirstCut(z, s);
    if c > k {
      i := CutEndsChunk(z, sha, s[k..], at + k, c - k);
      i := i + 1;
    }
  }

  /** The cuts are the start and the ends of the chunks, and nothing else. */
  lemma CutsAreChunkEnds(z: Sizes, sha: Hasher, s: Bytes, at: nat, c: nat)
    ensures var cs := Chunks(z, sha, s, at);
            IsCut(z, s, c) <==> c == 0 || exists i :: 0 <= i < |cs| && cs[i].offset + cs[i].size == at + c
  {
    hide FirstCut;
    var cs := Chunks(z, sha, s, at);
    if c > 0 && IsCut(z, s, c) {
      var i := CutEndsChunk(z, sha, s, at, c);
    }
    if i :| 0 <= i < |cs| && cs[i].offset + cs[i].size == at + c {
      ChunkEndIsCut(z, sha, s, at, i);
    }
  }

  // ---- Resynchronisation ------------------------------------------------------------

  ghost predicate SameButShifted(a: seq<ChunkInfo>, b: seq<ChunkInfo>, delta: int) {
    && |a| == |b|
    && forall i :: 0 <= i < |a| ==> SameChunk(a[i], b[i], delta)
  }

  ghost predicate SameChunk(a: ChunkInfo, b: ChunkInfo, delta: int) {
    a.size == b.size && a.hash == b.hash && b.offset - a.offset == delta
  }

  /** Where a chunking starts changes its offsets only. */
  lemma {:induction false} ShiftOnly(z: Sizes, sha: Hasher, s: Bytes, at: nat, at': nat)
    ensures SameButShifted(Chunks(z, sha, s, at), Chunks(z, sha, s, at'), at' - at)
    decreases |s|
  {
    hide FirstCut;
    if s != [] {
      var k := FirstCut(z, s);
      ShiftOnly(z, sha, s[k..], at + k, at' + k);
    }
  }

  lemma SplitAtSeam(z: Sizes, sha: Hasher, p: Bytes, s: Bytes)
    requires IsCut(z, p + s, |p|)
    ensures Chunks(z, sha, p + s, 0) == Before(z, sha, p + s, 0, |p|) + Chunks(z, sha, s, |p|)
  {
    hide FirstCut, IsCut, Chunks, Before;
    var t := p + s;
    assert t[|p|..] == s;
    SplitAtCut(z, sha, t, 0, |p|);
  }

  /**
    * Resynchronisation. Once both files have a cut where the common suffix starts, all later chunks
    * agree in size and hash, and their offsets differ by the difference of the prefixes.
    */
  lemma Resynchronise(z: Sizes, sha: Hasher, p: Bytes, q: Bytes, s: Bytes)
    requires IsCut(z, p + s, |p|) && IsCut(z, q + s, |q|)
    ensures Chunks(z, sha, p + s, 0) == Before(z, sha, p + s, 0, |p|) + Chunks(z, sha, s, |p|)
    ensures Chunks(z, sha, q + s, 0) == Before(z, sha, q + s, 0, |q|) + Chunks(z, sha, s, |q|)
    ensures SameButShifted(Chunks(z, sha, s, |p|), Chunks(z, sha, s, |q|), |q| - |p|)
    ensures TotalSize(Chunks(z, sha, s, |p|)) == |s|
  {
    hide FirstCut;
    SplitAtSeam(z, sha, p, s);
    SplitAtSeam(z, sha, q, s);
    ShiftOnly(z, sha, s, |p|, |q|);
    ChunksTotal(z, sha, s, |p|);
  }

  // ---- Prefix stability -----------------------------------------------------------

  ghost predicate SharePrefix(a: Bytes, b: Bytes, p: nat) {
    p <= |a| && p <= |b| && forall j :: 0 <= j < p ==> a[j] == b[j]
  }

  lemma TailsSharePrefix(a: Bytes, b: Bytes, p: nat, k: nat)
    requires SharePrefix(a, b, p) && k <= p
    ensures SharePrefix(a[k..], b[k..], p - k)
  {
  }

  lemma TakenPrefix(a: Bytes, b: Bytes, p: nat, k: nat)
    requires SharePrefix(a, b, p) && k <= p
    ensures a[..k] == b[..k]
  {
  }

  lemma SameFirstCut(z: Sizes, a: Bytes, b: Bytes, p: nat)
    requires SharePrefix(a, b, p)
    requires a != [] && FirstCut(z, a) <= p && FirstCut(z, a) < |a|
    ensures b != [] && FirstCut(z, b) == FirstCut(z, a)
  {
    var k := FirstCut(z, a);
    FirstCutIsLeast(z, a);
    forall j | 1 <= j <= k
      ensures a[..j] == b[..j]
    {
      TakenPrefix(a, b, p, j);
    }
    forall j | 1 <= j < k
      ensures !EndsChunk(z, b, j)
    {
      assert !EndsChunk(z, a, j);
      assert j < |b|;
    }
    assert EndsChunk(z, b, k);
    FirstCutUnique(z, b, k);
  }

  lemma {:induction false} CutInSharedPrefix(z: Sizes, a: Bytes, b: Bytes, p: nat, c: nat)
    requires SharePrefix(a, b, p)
    requires IsCut(z, a, c) && c <= p && c < |a|
    ensures IsCut(z, b, c)
    decreases |a|
  {
    hide FirstCut;
    if c > 0 {
      var k := FirstCut(z, a);
      SameFirstCut(z, a, b, p);
      TailsSharePrefix(a, b, p, k);
      CutInSharedPrefix(z, a[k..], b[k..], p - k, c - k);
    }
  }

  /** A cut inside a shared prefix, before the end of the first file, has the same chunks before it in both files. */
  lemma {:induction false} SameBefore(z: Sizes, sha: Hasher, a: Bytes, b: Bytes, at: nat, p: nat, c: nat)
    requires SharePrefix(a, b, p)
    requires IsCut(z, a, c) && IsCut(z, b, c) && c <= p && c < |a|
    ensures Before(z, sha, b, at, c) == Before(z, sha, a, at, c)
    decreases |a|
  {
    hide FirstCut;
    if c > 0 {
      var k := FirstCut(z, a);
      SameFirstCut(z, a, b, p);
      TailsSharePrefix(a, b, p, k);
      SameBefore(z, sha, a[k..], b[k..], at + k, p - k, c - k);
      TakenPrefix(a, b, p, k);
    }
  }

  lemma IndexIntoSplit(whole: seq<ChunkInfo>, before: seq<ChunkInfo>, after: seq<ChunkInfo>, i: nat)
    requires whole == before + after && i < |before|
    ensures i < |whole| && whole[i] == before[i]
  {
  }

  /** The i-th chunk is the last one before the cut where it ends. */
  lemma ChunkBeforeItsEnd(z: Sizes, sha: Hasher, s: Bytes, c: nat, i: nat)
    requires IsCut(z, s, c) && i < |Before(z, sha, s, 0, c)|
    ensures i < |Chunks(z, sha, s, 0)| && Chunks(z, sha, s, 0)[i] == Before(z, sha, s, 0, c)[i]
  {
    hide *;
    SplitAtCut(z, sha, s, 0, c);
    IndexIntoSplit(Chunks(z, sha, s, 0), Before(z, sha, s, 0, c), Chunks(z, sha, s[c..], 0 + c), i);
  }

  /** Cutting a file of known end into its chunks, at one of those ends. */
  lemma EndOfChunk(z: Sizes, sha: Hasher, s: Bytes, i: nat, e: nat)
    requires i < |Chunks(z, sha, s, 0)| && e == Chunks(z, sha, s, 0)[i].offset + Chunks(z, sha, s, 0)[i].size
    ensures IsCut(z, s, e) && |Before(z, sha, s, 0, e)| == i + 1
    ensures Before(z, sha, s, 0, e)[i] == Chunks(z, sha, s, 0)[i]
  {
    hide *;
    ChunkEndIsCut(z, sha, s, 0, i);
    ChunkBeforeItsEnd(z, sha, s, e, i);
  }

  /** Prefix stability, chunk by chunk: what ends in the shared prefix before the file's end is found again in place. */
  lemma PrefixStability(z: Sizes, sha: Hasher, a: Bytes, b: Bytes, p: nat, i: nat, e: nat)
    requires SharePrefix(a, b, p)
    requires i < |Chunks(z, sha, a, 0)| && e == Chunks(z, sha, a, 0)[i].offset + Chunks(z, sha, a, 0)[i].size
    requires e <= p && e < |a|
    ensures i < |Chunks(z, sha, b, 0)| && Chunks(z, sha, b, 0)[i] == Chunks(z, sha, a, 0)[i]
  {
    hide *;
    EndOfChunk(z, sha, a, i, e);
    CutInSharedPrefix(z, a, b, p, e);
    SameBefore(z, sha, a, b, 0, p, e);
    ChunkBeforeItsEnd(z, sha, b, e, i);
  }
}
