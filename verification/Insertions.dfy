/**
  * What an insertion does to the chunks of a file. The program's README says that it changes one or two of them; it does so
  * only once the chunkings meet again at a cut, and they need not: for any sizes some file has no chunk left after one byte
  * is inserted at its start.
  */
module Insertions {
  import opened Content
  import opened RollingHashes
  import opened Chunking
  import opened ChunkLaws
  import opened Delta

  // ---- When the chunks of a suffix survive --------------------------------------------------

  ghost predicate EndsWith(xs: seq<ChunkInfo>, ys: seq<ChunkInfo>) {
    |ys| <= |xs| && xs[|xs| - |ys|..] == ys
  }

  /** A file whose later chunks are those of a non-empty suffix has a cut where the suffix starts. */
  lemma TailStartsAtCut(z: Sizes, sha: Hasher, q: Bytes, s: Bytes)
    requires s != [] && EndsWith(Chunks(z, sha, q + s, 0), Chunks(z, sha, s, |q|))
    ensures IsCut(z, q + s, |q|)
  {
    hide FirstCut, IsCut;
    var whole, tail := Chunks(z, sha, q + s, 0), Chunks(z, sha, s, |q|);
    var i := |whole| - |tail|;
    assert whole[i] == tail[0] && tail[0].offset == |q|;
    if i == 0 {
      ChunksTile(z, sha, q + s);
      CutsAreChunkEnds(z, sha, q + s, 0, 0);
    } else {
      ChunkEnd(z, sha, q + s, 0, i - 1);
      CutsAreChunkEnds(z, sha, q + s, 0, |q|);
    }
  }

  /** A chunk that starts where q starts and goes on behind it ends after k bytes. */
  predicate Forced(z: Sizes, q: Bytes, k: nat)
    requires 1 <= k <= |q|
  {
    Boundary(z, PolyHash(q[..k]), k) || k >= z.max
  }

  /** The least such length from `from` on, or 0 when there is none. */
  function SearchForced(z: Sizes, q: Bytes, from: nat): (k: nat)
    requires 1 <= from
    ensures k == 0 || from <= k <= |q|
    decreases |q| + 1 - from
  {
    if from > |q| then 0 else if Forced(z, q, from) then from else SearchForced(z, q, from + 1)
  }

  /** Chunking q leaves no chunk open at its end, whatever follows. This reads the bytes of q only. */
  predicate Closed(z: Sizes, q: Bytes)
    decreases |q|
  {
    q == [] || (var k := SearchForced(z, q, 1); k > 0 && Closed(z, q[k..]))
  }

  lemma {:induction false} SearchForcedIsCut(z: Sizes, q: Bytes, s: Bytes, from: nat)
    requires s != [] && 1 <= from <= |q| + 1
    ensures var k := SearchForced(z, q, from);
            if k > 0 then SearchCut(z, q + s, from) == k else SearchCut(z, q + s, from) > |q|
    decreases |q| + 1 - from
  {
    hide PolyHash, Boundary;
    if from <= |q| {
      assert (q + s)[..from] == q[..from];
      SearchForcedIsCut(z, q, s, from + 1);
    }
  }

  /** Whether the chunking of q + s has a cut between the two depends on q alone. */
  lemma {:induction false} SeamIsCutIff(z: Sizes, q: Bytes, s: Bytes)
    requires s != []
    ensures IsCut(z, q + s, |q|) <==> Closed(z, q)
    decreases |q|
  {
    hide SearchCut, SearchForced;
    if q != [] {
      SearchForcedIsCut(z, q, s, 1);
      var k := SearchForced(z, q, 1);
      if k > 0 {
        SeamIsCutIff(z, q[k..], s);
        assert (q + s)[k..] == q[k..] + s;
      }
    }
  }

  /**
    * After p is replaced by q in front of s, the chunks that made up s reappear, moved by the difference of the two,
    * if and only if chunking q leaves no chunk open at its end.
    */
  lemma SuffixSurvivesIff(z: Sizes, sha: Hasher, p: Bytes, q: Bytes, s: Bytes)
    requires s != [] && Closed(z, p)
    ensures EndsWith(Chunks(z, sha, p + s, 0), Chunks(z, sha, s, |p|))
    ensures SameButShifted(Chunks(z, sha, s, |p|), Chunks(z, sha, s, |q|), |q| - |p|)
    ensures EndsWith(Chunks(z, sha, q + s, 0), Chunks(z, sha, s, |q|)) <==> Closed(z, q)
  {
    hide FirstCut, IsCut, Closed, Chunks, Before, SameButShifted;
    SeamIsCutIff(z, p, s);
    SeamIsCutIff(z, q, s);
    SplitAtSeam(z, sha, p, s);
    ShiftOnly(z, sha, s, |p|, |q|);
    if IsCut(z, q + s, |q|) {
      SplitAtSeam(z, sha, q, s);
    }
    if EndsWith(Chunks(z, sha, q + s, 0), Chunks(z, sha, s, |q|)) {
      TailStartsAtCut(z, sha, q, s);
    }
  }

  // ---- A file that no chunk of survives ---------------------------------------------------------

  /** A place in a chunk: the hash of its bytes so far, and how many they are. */
  datatype Place = Place(hash: nat, len: nat)

  const AT_START := Place(0, 0)

  function Advance(max: nat, at: Place, b: byte): Place {
    if at.len + 1 == max then AT_START else Place(AppendHash(at.hash, b), at.len + 1)
  }

  /** Read from `at` on, s meets no hash boundary, and the first byte of each chunk is high or low as said. */
  predicate Quiet(max: nat, s: Bytes, at: Place, high: bool) {
    s == [] || (&& AppendHash(at.hash, s[0]) % 0x8000 != 0
                && (at.len == 0 ==> (s[0] >= 128) == high)
                && Quiet(max, s[1..], Advance(max, at, s[0]), high))
  }

  /** With no hash boundary on the way, the first chunk runs to the maximum or to the end. */
  lemma {:induction false} QuietFirst(max: nat, pre: Bytes, s: Bytes, high: bool)
    requires |pre| < max && pre + s != [] && Quiet(max, s, Place(PolyHash(pre), |pre|), high)
    requires forall j :: 1 <= j <= |pre| ==> PolyHash(pre[..j]) % 0x8000 != 0
    ensures var t := pre + s;
            var k := if |t| < max then |t| else max;
            && (forall j :: 1 <= j <= k ==> PolyHash(t[..j]) % 0x8000 != 0)
            && Quiet(max, t[k..], AT_START, high)
    decreases |s|
  {
    hide PolyHash, AppendHash;
    if s == [] {
      assert pre + s == pre;
    } else {
      var pre' := pre + [s[0]];
      AppendIsPoly(pre, s[0]);
      assert pre' + s[1..] == pre + s;
      forall j | 1 <= j <= |pre'|
        ensures PolyHash(pre'[..j]) % 0x8000 != 0
      {
        assert j <= |pre| ==> pre'[..j] == pre[..j];
        assert j > |pre| ==> pre'[..j] == pre';
      }
      if |pre'| < max {
        QuietFirst(max, pre', s[1..], high);
      } else {
        forall j | 1 <= j <= max
          ensures PolyHash((pre + s)[..j]) % 0x8000 != 0
        {
          assert (pre + s)[..j] == pre'[..j];
        }
        assert (pre + s)[max..] == s[1..];
      }
    }
  }

  lemma QuietCut(z: Sizes, t: Bytes, high: bool)
    requires z.Valid() && t != [] && Quiet(z.max, t, AT_START, high)
    ensures FirstCut(z, t) == if |t| < z.max then |t| else z.max
    ensures Quiet(z.max, t[FirstCut(z, t)..], AT_START, high) && (t[0] >= 128) == high
  {
    var k := if |t| < z.max then |t| else z.max;
    assert [] + t == t;
    QuietFirst(z.max, [], t, high);
    forall j | 1 <= j < k
      ensures !EndsChunk(z, t, j)
    {
      Finer(PolyHash(t[..j]));
    }
    FirstCutUnique(z, t, k);
  }

  lemma Finer(h: nat)
    ensures h % 0x1_0000 == 0 ==> h % 0x8000 == 0
  {
    var q := h / 0x1_0000;
    if h == 0x1_0000 * q {
      RemainderUnique(h, 0x8000, 2 * q, 0);
    }
  }

  lemma {:induction false} QuietPieces(z: Sizes, t: Bytes, high: bool)
    requires z.Valid() && Quiet(z.max, t, AT_START, high)
    ensures forall i :: 0 <= i < |Pieces(z, t)| ==> Pieces(z, t)[i] != [] && (Pieces(z, t)[i][0] >= 128) == high
    decreases |t|
  {
    hide FirstCut, Quiet;
    if t != [] {
      QuietCut(z, t, high);
      QuietPieces(z, t[FirstCut(z, t)..], high);
    }
  }

  // ---- Such a file exists ------------------------------------------------------------------------

  /** Adding d to a remainder adds d, or starts again below d. */
  lemma NextRemainder(v: nat, d: nat)
    requires d < MOD
    ensures (v + d) % MOD == v % MOD + d || (v + d) % MOD < d
  {
    var r, q := v % MOD, v / MOD;
    if r + d < MOD {
      RemainderUnique(v + d, MOD, q, r + d);
    } else {
      RemainderUnique(v + d, MOD, q + 1, r + d - MOD);
    }
  }

  lemma TooClose(x: nat, y: nat)
    requires x < y <= x + 2 && x % 0x8000 == 0
    ensures y % 0x8000 != 0
  {
    RemainderUnique(y, 0x8000, x / 0x8000, y - x);
  }

  /** Of two different bytes near each other at most one meets a boundary. */
  lemma Apart(h: nat, b: byte, d: nat)
    requires 1 <= d <= 2 && b + d < 256
    ensures AppendHash(h, b) % 0x8000 != 0 || AppendHash(h, b + d) % 0x8000 != 0
  {
    var v := h * PRIME + b;
    NextRemainder(v, d);
    if v % MOD % 0x8000 == 0 && (v + d) % MOD == v % MOD + d {
      TooClose(v % MOD, (v + d) % MOD);
    }
  }

  /** A byte of the given half that meets no boundary from either of two places. */
  function Choose(g: nat, h: nat, high: bool): (b: byte)
    ensures (b >= 128) == high
    ensures AppendHash(g, b) % 0x8000 != 0 && AppendHash(h, b) % 0x8000 != 0
  {
    var base: byte := if high then 128 else 0;
    Apart(g, base, 1);
    Apart(g, base, 2);
    Apart(g, base + 1, 1);
    Apart(h, base, 1);
    Apart(h, base, 2);
    Apart(h, base + 1, 1);
    if AppendHash(g, base) % 0x8000 != 0 && AppendHash(h, base) % 0x8000 != 0 then base
    else if AppendHash(g, base + 1) % 0x8000 != 0 && AppendHash(h, base + 1) % 0x8000 != 0 then base + 1
    else base + 2
  }

  /** n bytes quiet both from `a`, with high first bytes, and from `b`, one byte further in its chunk, with low ones. */
  function Build(max: nat, n: nat, a: Place, b: Place): (s: Bytes)
    requires max >= 2 && a.len < max && b.len == (if a.len + 1 == max then 0 else a.len + 1)
    ensures |s| == n && Quiet(max, s, a, true) && Quiet(max, s, b, false)
    decreases n
  {
    if n == 0 then []
    else
      var c := Choose(a.hash, b.hash, a.len == 0);
      var rest := Build(max, n - 1, Advance(max, a, c), Advance(max, b, c));
      assert ([c] + rest)[1..] == rest;
      [c] + rest
  }

  lemma {:induction false} NothingKnown(chunks: seq<ChunkInfo>, known: set<Digest>)
    requires forall i :: 0 <= i < |chunks| ==> chunks[i].hash !in known
    ensures BytesSent(chunks, known) == TotalSize(chunks)
  {
    if chunks != [] {
      NothingKnown(chunks[1..], known);
    }
  }

  ghost function AllPieces(z: Sizes, a: Bytes, b: Bytes): set<Bytes> {
    (set x | x in Pieces(z, a)) + (set x | x in Pieces(z, b))
  }

  /** Files without a piece in common share no chunk, so all of the second has to be sent. */
  lemma NoPieceShared(z: Sizes, sha: Hasher, a: Bytes, b: Bytes)
    requires forall x :: x in Pieces(z, a) ==> x !in Pieces(z, b)
    requires InjectiveOn(sha, AllPieces(z, a, b))
    ensures BytesSent(Chunks(z, sha, b, 0), KnownFrom(z, sha, a)) == |b|
  {
    hide FirstCut, Pieces, Chunks, BytesSent;
    var as', bs := Chunks(z, sha, a, 0), Chunks(z, sha, b, 0);
    PiecesOfChunks(z, sha, a, 0);
    PiecesOfChunks(z, sha, b, 0);
    forall i | 0 <= i < |bs|
      ensures bs[i].hash !in KnownFrom(z, sha, a)
    {
      forall j | 0 <= j < |as'|
        ensures Hashes(as')[j] != bs[i].hash
      {
        var x, y := Pieces(z, a)[j], Pieces(z, b)[i];
        assert x in AllPieces(z, a, b) && y in AllPieces(z, a, b);
      }
    }
    NothingKnown(bs, KnownFrom(z, sha, a));
    ChunksTotal(z, sha, b, 0);
  }

  /**
    * For any sizes and any length there is a file of which no chunk survives one byte inserted at its start: the whole
    * new file has to be sent again.
    */
  lemma InsertionCanChangeEverything(z: Sizes, sha: Hasher, n: nat) returns (a: Bytes)
    requires z.Valid() && z.max >= 2
    ensures |a| == n
    ensures InjectiveOn(sha, AllPieces(z, a, [1] + a)) ==>
              BytesSent(Chunks(z, sha, [1] + a, 0), KnownFrom(z, sha, a)) == n + 1
  {
    var first := Place(1, 1);
    a := Build(z.max, n, AT_START, first);
    var b := [1] + a;
    assert b[1..] == a && AppendHash(0, 1) == 1;
    assert Quiet(z.max, b, AT_START, false);
    QuietPieces(z, a, true);
    QuietPieces(z, b, false);
    if InjectiveOn(sha, AllPieces(z, a, b)) {
      NoPieceShared(z, sha, a, b);
    }
  }
}
