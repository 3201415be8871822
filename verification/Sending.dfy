/**
  * What senders put on the wire: the messages of an upload in file order, what they cost, and two ways of sending that the
  * server does not accept.
  */
module Sending {
  import opened Content
  import opened Chunking
  import opened ChunkLaws
  import opened Delta
  import opened Tables
  import opened Store
  import opened StoreLaws
  import opened Uploading

  /** The message for chunk i, without its bytes when its hash is among the known ones. */
  ghost function Message(z: Sizes, sha: Hasher, key: Key, content: Bytes, known: set<Digest>, i: nat): Step
    requires i < Count(z, content)
  {
    var piece := Pieces(z, content)[i];
    StoreChunk(key, i, if sha(piece) in known then [] else piece, sha(piece))
  }

  /** The messages for the first n chunks, leaving out chunks with a hash in `skip` altogether. */
  ghost function Messages(z: Sizes, sha: Hasher, key: Key, content: Bytes, known: set<Digest>, skip: set<Digest>, n: nat): seq<Step>
    requires n <= Count(z, content)
  {
    if n == 0 then []
    else
      Messages(z, sha, key, content, known, skip, n - 1) +
      (if sha(Pieces(z, content)[n - 1]) in skip then [] else [Message(z, sha, key, content, known, n - 1)])
  }

  /** One message for every chunk. */
  ghost function FullStream(z: Sizes, sha: Hasher, key: Key, content: Bytes, known: set<Digest>): seq<Step> {
    Messages(z, sha, key, content, known, {}, Count(z, content))
  }

  /** Messages for the new chunks of a delta only. */
  ghost function NewStream(z: Sizes, sha: Hasher, key: Key, content: Bytes, known: set<Digest>): seq<Step> {
    Messages(z, sha, key, content, known, known, Count(z, content))
  }

  lemma DropLast(steps: seq<Step>, last: Step)
    ensures (steps + [last])[..|steps + [last]| - 1] == steps
  {
  }

  lemma LastOfNext(steps: seq<Step>, step: Step, key: Key, i: int)
    requires step.StoreChunk?
    ensures LastUpload(steps + [step], key, i) ==
            if step.key == key && step.index == i then Some(step.hash) else LastUpload(steps, key, i)
  {
    DropLast(steps, step);
  }

  /** Which chunks messages are about. */
  lemma {:induction false} SentIff(z: Sizes, sha: Hasher, key: Key, content: Bytes, known: set<Digest>, skip: set<Digest>, n: nat,
                                   other: Key, i: int)
    requires n <= Count(z, content)
    ensures LastUpload(Messages(z, sha, key, content, known, skip, n), other, i).Some? <==>
            other == key && 0 <= i < n && sha(Pieces(z, content)[i]) !in skip
    decreases n
  {
    hide Pieces, LastUpload;
    if n == 0 {
      NothingSent(other, i);
    } else {
      SentIff(z, sha, key, content, known, skip, n - 1, other, i);
      var before := Messages(z, sha, key, content, known, skip, n - 1);
      LastOfNext(before, Message(z, sha, key, content, known, n - 1), other, i);
      assert before + [] == before;
    }
  }

  lemma NothingSent(key: Key, i: int)
    ensures LastUpload([], key, i) == None
  {
  }

  /** Stored hashes stay stored. */
  lemma KnownStays(sha: Hasher, s0: State, steps: seq<Step>, known: set<Digest>)
    requires known <= s0.blobs.Keys
    ensures known <= Run(sha, s0, steps).blobs.Keys
  {
    hide Run, FirstUpload;
    forall h | h in known
      ensures h in Run(sha, s0, steps).blobs
    {
      BlobHistory(sha, s0, steps, h);
    }
  }

  lemma AllowedNext(z: Sizes, sha: Hasher, s0: State, plan: map<Key, Bytes>, steps: seq<Step>, step: Step)
    requires AllAllowed(z, sha, s0, plan, steps) && Allowed(z, sha, Run(sha, s0, steps), plan, step)
    ensures AllAllowed(z, sha, s0, plan, steps + [step])
  {
    hide Allowed, Run;
    DropLast(steps, step);
  }

  lemma MessageIsAllowed(z: Sizes, sha: Hasher, s: State, plan: map<Key, Bytes>, key: Key, known: set<Digest>, i: nat)
    requires key in plan && i < Count(z, plan[key]) && known <= s.blobs.Keys
    ensures Allowed(z, sha, s, plan, Message(z, sha, key, plan[key], known, i))
  {
    hide Pieces;
  }

  /** A sender that leaves out only what the server has stays within the plan. */
  lemma {:induction false} MessagesAllowed(z: Sizes, sha: Hasher, s0: State, plan: map<Key, Bytes>, key: Key,
                                           known: set<Digest>, skip: set<Digest>, n: nat)
    requires key in plan && n <= Count(z, plan[key]) && known <= s0.blobs.Keys
    ensures AllAllowed(z, sha, s0, plan, Messages(z, sha, key, plan[key], known, skip, n))
    decreases n
  {
    hide Pieces, Allowed, Run, Message, AllAllowed;
    if n > 0 {
      MessagesAllowed(z, sha, s0, plan, key, known, skip, n - 1);
      var before := Messages(z, sha, key, plan[key], known, skip, n - 1);
      if sha(Pieces(z, plan[key])[n - 1]) in skip {
        assert before + [] == before;
      } else {
        KnownStays(sha, s0, before, known);
        MessageIsAllowed(z, sha, Run(sha, s0, before), plan, key, known, n - 1);
        AllowedNext(z, sha, s0, plan, before, Message(z, sha, key, plan[key], known, n - 1));
      }
    } else {
      NothingAllowed(z, sha, s0, plan);
    }
  }

  lemma NothingAllowed(z: Sizes, sha: Hasher, s0: State, plan: map<Key, Bytes>)
    ensures AllAllowed(z, sha, s0, plan, [])
  {
  }

  // ---- What the messages cost ---------------------------------------------------------------------

  ghost function Carried(steps: seq<Step>): nat {
    if steps == [] then 0
    else
      var last := steps[|steps| - 1];
      Carried(steps[..|steps| - 1]) + if last.StoreChunk? then |last.data| else 0
  }

  lemma CarriedNext(steps: seq<Step>, step: Step)
    requires step.StoreChunk?
    ensures Carried(steps + [step]) == Carried(steps) + |step.data|
  {
    DropLast(steps, step);
  }

  lemma {:induction false} PieceSizes(z: Sizes, sha: Hasher, s: Bytes, at: nat)
    ensures |Pieces(z, s)| == |Chunks(z, sha, s, at)|
    ensures forall i :: 0 <= i < |Pieces(z, s)| ==> |Pieces(z, s)[i]| == Chunks(z, sha, s, at)[i].size
    decreases |s|
  {
    hide FirstCut;
    if s != [] {
      PieceSizes(z, sha, s[FirstCut(z, s)..], at + FirstCut(z, s));
    }
  }

  lemma {:induction false} CarriedBy(z: Sizes, sha: Hasher, key: Key, content: Bytes, known: set<Digest>, skip: set<Digest>, n: nat)
    requires n <= Count(z, content) == |Chunks(z, sha, content, 0)| && skip <= known
    ensures Carried(Messages(z, sha, key, content, known, skip, n)) == BytesSent(Chunks(z, sha, content, 0)[..n], known)
    decreases n
  {
    hide Pieces, Chunks, BytesSent, Carried;
    var cs := Chunks(z, sha, content, 0);
    if n == 0 {
      NothingCarried(known);
      assert cs[..0] == [];
    } else {
      CarriedBy(z, sha, key, content, known, skip, n - 1);
      PieceSizes(z, sha, content, 0);
      PiecesOfChunks(z, sha, content, 0);
      assert cs[..n] == cs[..n - 1] + [cs[n - 1]];
      SentConcat(cs[..n - 1], [cs[n - 1]], known);
      SentOne(cs[n - 1], known);
      var before := Messages(z, sha, key, content, known, skip, n - 1);
      CarriedNext(before, Message(z, sha, key, content, known, n - 1));
      assert before + [] == before;
    }
  }

  lemma NothingCarried(known: set<Digest>)
    ensures Carried([]) == 0 && BytesSent([], known) == 0
  {
  }

  /** The messages carry exactly the bytes the delta counted, whether or not known chunks get an empty one. */
  lemma MessagesCarryTheDelta(z: Sizes, sha: Hasher, key: Key, content: Bytes, known: set<Digest>, delta: DeltaInfo)
    requires IsDelta(delta, Chunks(z, sha, content, 0), known)
    ensures Carried(FullStream(z, sha, key, content, known)) == delta.bytesToTransfer
    ensures Carried(NewStream(z, sha, key, content, known)) == delta.bytesToTransfer
  {
    hide Pieces, Chunks, BytesSent, Carried, Select, Messages;
    PiecesOfChunks(z, sha, content, 0);
    CarriedBy(z, sha, key, content, known, {}, Count(z, content));
    CarriedBy(z, sha, key, content, known, known, Count(z, content));
    var cs := Chunks(z, sha, content, 0);
    assert cs[..|cs|] == cs;
  }

  // ---- A first upload -------------------------------------------------------------------------------

  /** The store after one file was sent in full to an empty one, and finalized. */
  ghost function AfterUpload(z: Sizes, sha: Hasher, key: Key, content: Bytes, now: int): State {
    Run(sha, EMPTY, FullStream(z, sha, key, content, {}) + [Finalize(key, Count(z, content), now)])
  }

  ghost function PieceSet(z: Sizes, content: Bytes): set<Bytes> {
    set x | x in Pieces(z, content)
  }

  /** Sending a file stores its pieces and nothing else. */
  lemma {:induction false} BlobsArePieces(z: Sizes, sha: Hasher, key: Key, content: Bytes, n: nat)
    requires n <= Count(z, content)
    ensures var blobs := Run(sha, EMPTY, Messages(z, sha, key, content, {}, {}, n)).blobs;
            && (forall h :: h in blobs ==> blobs[h] in PieceSet(z, content))
            && (forall i :: 0 <= i < n ==> sha(Pieces(z, content)[i]) in blobs)
    decreases n
  {
    hide Pieces, Apply, Run;
    if n == 0 {
      RunNone(sha, EMPTY);
    } else {
      BlobsArePieces(z, sha, key, content, n - 1);
      var before, m := Messages(z, sha, key, content, {}, {}, n - 1), Message(z, sha, key, content, {}, n - 1);
      RunOneMore(sha, EMPTY, before, m);
      BlobsOfStep(sha, Run(sha, EMPTY, before), m);
    }
  }

  lemma RunNone(sha: Hasher, s: State)
    ensures Run(sha, s, []) == s
  {
  }

  /** What a first upload leaves: its file, the rows 0 to count - 1 of its own path, and the pieces as chunk files. */
  lemma AfterUploadHolds(z: Sizes, sha: Hasher, key: Key, content: Bytes, now: int)
    ensures var s := AfterUpload(z, sha, key, content, now);
            && (InjectiveOn(sha, PieceSet(z, content)) ==> Delivered(sha, s, key, content, now))
            && HonestBlobs(sha, s)
            && (forall h :: h in s.blobs ==> s.blobs[h] in PieceSet(z, content))
            && (forall i :: 0 <= i < Count(z, content) ==> sha(Pieces(z, content)[i]) in s.blobs)
  {
    hide Pieces, Apply, Run, Messages, AllAllowed, Delivered;
    var steps, plan := FullStream(z, sha, key, content, {}), map[key := content];
    var last := Finalize(key, Count(z, content), now);
    BlobsArePieces(z, sha, key, content, Count(z, content));
    RunOneMore(sha, EMPTY, steps, last);
    BlobsOfStep(sha, Run(sha, EMPTY, steps), last);
    MessagesAllowed(z, sha, EMPTY, plan, key, {}, {}, Count(z, content));
    RunKeepsHonest(z, sha, EMPTY, plan, steps);
    FullStreamSendsAll(z, sha, key, content, {});
    EmptyHasNoRows(key);
    if InjectiveOn(sha, PieceSet(z, content)) {
      UploadDelivers(z, sha, EMPTY, plan, steps, PieceSet(z, content), key, now);
    }
  }

  lemma EmptyHasNoRows(key: Key)
    ensures forall i :: Row(EMPTY, key, i) == None
  {
  }

  lemma FullStreamSendsAll(z: Sizes, sha: Hasher, key: Key, content: Bytes, known: set<Digest>)
    ensures AllSent(z, key, content, FullStream(z, sha, key, content, known))
  {
    hide Pieces, Messages, LastUpload;
    forall i | 0 <= i < Count(z, content)
      ensures LastUpload(FullStream(z, sha, key, content, known), key, i).Some?
    {
      SentIff(z, sha, key, content, known, {}, Count(z, content), key, i);
    }
  }

  /** A first upload leaves a row for each of its chunks, and none for any other path. */
  lemma RowsOfUpload(z: Sizes, sha: Hasher, key: Key, content: Bytes, now: int, other: Key, i: int)
    ensures Row(AfterUpload(z, sha, key, content, now), other, i).Some? <==> other == key && 0 <= i < Count(z, content)
  {
    hide Pieces, Messages, LastUpload, Row, Run, Apply;
    var steps, last := FullStream(z, sha, key, content, {}), Finalize(key, Count(z, content), now);
    RunOneMore(sha, EMPTY, steps, last);
    RowOfStep(sha, Run(sha, EMPTY, steps), last, other, i);
    RowHistory(sha, EMPTY, steps, other, i);
    EmptyHasNoRows(other);
    SentIff(z, sha, key, content, {}, {}, Count(z, content), other, i);
  }

  // ---- Uploading a shorter file over a longer one ------------------------------------------------------

  /** A file is delivered; then one with fewer chunks is sent in full to the same path, and finalizing it fails. */
  lemma ShrinkingFails(z: Sizes, sha: Hasher, key: Key, a: Bytes, b: Bytes, known: set<Digest>, now: int)
    requires Count(z, b) < Count(z, a) && known <= AfterUpload(z, sha, key, a, now).blobs.Keys
    ensures InjectiveOn(sha, PieceSet(z, a)) ==> Delivered(sha, AfterUpload(z, sha, key, a, now), key, a, now)
    ensures !Finalizes(Run(sha, AfterUpload(z, sha, key, a, now), FullStream(z, sha, key, b, known)), key, Count(z, b))
  {
    hide Pieces, Messages, Run, Delivered, AllAllowed, AfterUpload, Row, FullStream, FileChunks, Assembled;
    var s1, plan := AfterUpload(z, sha, key, a, now), map[key := b];
    AfterUploadHolds(z, sha, key, a, now);
    RowsOfUpload(z, sha, key, a, now, key, Count(z, a) - 1);
    FullStreamAllowed(z, sha, s1, plan, key, known);
    FullStreamSendsAll(z, sha, key, b, known);
    CountCheckIff(z, sha, s1, plan, FullStream(z, sha, key, b, known), key);
    assert !NoStaleRow(z, s1, key, b);
  }

  lemma FullStreamAllowed(z: Sizes, sha: Hasher, s0: State, plan: map<Key, Bytes>, key: Key, known: set<Digest>)
    requires key in plan && known <= s0.blobs.Keys
    ensures AllAllowed(z, sha, s0, plan, FullStream(z, sha, key, plan[key], known))
  {
    hide Pieces, Messages, AllAllowed;
    MessagesAllowed(z, sha, s0, plan, key, known, {}, Count(z, plan[key]));
  }

  /** There are such files for any sizes: all-zero ones of a little more than a minimum chunk, and of one byte. */
  lemma ShorterFileExists(z: Sizes) returns (a: Bytes, b: Bytes)
    requires z.Valid()
    ensures |a| == z.min + 1 && |b| == 1 && 0 < Count(z, b) < Count(z, a)
  {
    hide Pieces, Chunks;
    var sha: Hasher := x => "";
    a, b := seq(z.min + 1, i => 0), [0];
    ZeroDataMeetsUpperBound(z, sha, a, 0);
    ZeroDataMeetsUpperBound(z, sha, b, 0);
    CountBounds(z, sha, b, 0);
    PiecesOfChunks(z, sha, a, 0);
    PiecesOfChunks(z, sha, b, 0);
    AtMostOne(Count(z, b), z.min);
  }

  lemma AtMostOne(count: nat, min: nat)
    requires min > 0 && (count > 0 ==> (count - 1) * min < 1)
    ensures count <= 1
  {
    if count > 1 {
      AtLeastOnce(count - 1, min);
    }
  }

  // ---- Sending new chunks alone ---------------------------------------------------------------------------

  /** On a path without rows, messages for new chunks alone pass the count check exactly when every chunk is new. */
  lemma NewChunksAloneIff(z: Sizes, sha: Hasher, s0: State, key: Key, content: Bytes, known: set<Digest>)
    requires known <= s0.blobs.Keys && forall i :: Row(s0, key, i) == None
    ensures |RowHashes(Run(sha, s0, NewStream(z, sha, key, content, known)), key)| == Count(z, content) <==>
            forall i :: 0 <= i < Count(z, content) ==> sha(Pieces(z, content)[i]) !in known
  {
    hide Pieces, Messages, Run, AllAllowed, AllSent, Row, FileChunks, LastUpload;
    var plan := map[key := content];
    MessagesAllowed(z, sha, s0, plan, key, known, known, Count(z, content));
    EveryChunkNeedsAMessage(z, sha, s0, plan, NewStream(z, sha, key, content, known), key);
    NewStreamSends(z, sha, key, content, known);
  }

  lemma NewStreamSends(z: Sizes, sha: Hasher, key: Key, content: Bytes, known: set<Digest>)
    ensures AllSent(z, key, content, NewStream(z, sha, key, content, known)) <==>
            forall i :: 0 <= i < Count(z, content) ==> sha(Pieces(z, content)[i]) !in known
  {
    hide Pieces, NewStream, LastUpload;
    var steps := NewStream(z, sha, key, content, known);
    if i :| 0 <= i < Count(z, content) && sha(Pieces(z, content)[i]) in known {
      NewStreamSendsIff(z, sha, key, content, known, i);
      assert !LastUpload(steps, key, i).Some?;
    } else {
      forall i | 0 <= i < Count(z, content)
        ensures LastUpload(steps, key, i).Some?
      {
        NewStreamSendsIff(z, sha, key, content, known, i);
      }
      assert AllSent(z, key, content, steps);
    }
  }

  lemma NewStreamSendsIff(z: Sizes, sha: Hasher, key: Key, content: Bytes, known: set<Digest>, i: int)
    ensures LastUpload(NewStream(z, sha, key, content, known), key, i).Some? <==>
            0 <= i < Count(z, content) && sha(Pieces(z, content)[i]) !in known
  {
    hide Pieces, Messages, LastUpload;
    SentIff(z, sha, key, content, known, known, Count(z, content), key, i);
  }

  /**
    * A file is delivered, then copied to another path. With an empty message per chunk the copy costs no byte and is
    * delivered; with messages for new chunks alone finalizing it fails.
    */
  lemma CopyingAFile(z: Sizes, sha: Hasher, k1: Key, k2: Key, a: Bytes, t1: int, t2: int)
    requires k1 != k2 && a != []
    ensures var s1 := AfterUpload(z, sha, k1, a, t1);
            var full := FullStream(z, sha, k2, a, s1.blobs.Keys);
            && Carried(full) == 0
            && (InjectiveOn(sha, PieceSet(z, a)) ==>
                  Delivered(sha, Run(sha, s1, full + [Finalize(k2, Count(z, a), t2)]), k2, a, t2))
    ensures var s1 := AfterUpload(z, sha, k1, a, t1);
            !Finalizes(Run(sha, s1, NewStream(z, sha, k2, a, s1.blobs.Keys)), k2, Count(z, a))
  {
    hide Pieces, Messages, Run, Delivered, AllAllowed, AfterUpload, Row, FullStream, NewStream, FileChunks, Assembled, Carried;
    var s1 := AfterUpload(z, sha, k1, a, t1);
    AfterUploadHolds(z, sha, k1, a, t1);
    forall i
      ensures Row(s1, k2, i) == None
    {
      RowsOfUpload(z, sha, k1, a, t1, k2, i);
    }
    HasAPiece(z, a);
    assert sha(Pieces(z, a)[0]) in s1.blobs.Keys;
    NewChunksAloneIff(z, sha, s1, k2, a, s1.blobs.Keys);
    CopyCostsNothing(z, sha, k2, a, s1.blobs.Keys);
    if InjectiveOn(sha, PieceSet(z, a)) {
      CopyDelivered(z, sha, s1, k2, a, t2);
    }
  }

  lemma HasAPiece(z: Sizes, a: Bytes)
    requires a != []
    ensures Count(z, a) > 0
  {
    hide FirstCut;
  }

  lemma CopyCostsNothing(z: Sizes, sha: Hasher, key: Key, a: Bytes, known: set<Digest>)
    requires forall i :: 0 <= i < Count(z, a) ==> sha(Pieces(z, a)[i]) in known
    ensures Carried(FullStream(z, sha, key, a, known)) == 0
  {
    hide Pieces, Chunks, Messages, BytesSent, Carried;
    var cs := Chunks(z, sha, a, 0);
    PiecesOfChunks(z, sha, a, 0);
    forall i | 0 <= i < |cs|
      ensures cs[i].hash in known
    {
      assert cs[i].hash == sha(Pieces(z, a)[i]);
    }
    KnownCostNothing(cs, known);
    CarriedBy(z, sha, key, a, known, {}, Count(z, a));
    assert cs[..|cs|] == cs;
  }

  lemma CopyDelivered(z: Sizes, sha: Hasher, s1: State, key: Key, a: Bytes, now: int)
    requires HonestBlobs(sha, s1) && InjectiveOn(sha, PieceSet(z, a)) && forall i :: Row(s1, key, i) == None
    requires forall h :: h in s1.blobs ==> s1.blobs[h] in PieceSet(z, a)
    requires forall i :: 0 <= i < Count(z, a) ==> sha(Pieces(z, a)[i]) in s1.blobs
    ensures Delivered(sha, Run(sha, s1, FullStream(z, sha, key, a, s1.blobs.Keys) + [Finalize(key, Count(z, a), now)]), key, a, now)
  {
    hide Pieces, Messages, Run, Delivered, AllAllowed, Row, FullStream, HonestBlobs;
    var steps, plan := FullStream(z, sha, key, a, s1.blobs.Keys), map[key := a];
    FullStreamAllowed(z, sha, s1, plan, key, s1.blobs.Keys);
    FullStreamSendsAll(z, sha, key, a, s1.blobs.Keys);
    CopyStoresNothing(z, sha, s1, key, a);
    UploadDelivers(z, sha, s1, plan, steps, PieceSet(z, a), key, now);
  }

  lemma CopyStoresNothing(z: Sizes, sha: Hasher, s: State, key: Key, a: Bytes)
    requires forall i :: 0 <= i < Count(z, a) ==> sha(Pieces(z, a)[i]) in s.blobs
    ensures Run(sha, s, FullStream(z, sha, key, a, s.blobs.Keys)).blobs == s.blobs
  {
    hide Pieces, Run, Messages;
    NothingNew(z, sha, s, key, a, s.blobs.Keys, Count(z, a));
  }

  /** Messages about chunks the store has add none. */
  lemma {:induction false} NothingNew(z: Sizes, sha: Hasher, s: State, key: Key, content: Bytes, known: set<Digest>, n: nat)
    requires n <= Count(z, content)
    requires forall i :: 0 <= i < Count(z, content) ==> sha(Pieces(z, content)[i]) in s.blobs
    ensures Run(sha, s, Messages(z, sha, key, content, known, {}, n)).blobs == s.blobs
    decreases n
  {
    hide Pieces, Apply, Run;
    if n == 0 {
      RunNone(sha, s);
    } else {
      NothingNew(z, sha, s, key, content, known, n - 1);
      var before, m := Messages(z, sha, key, content, known, {}, n - 1), Message(z, sha, key, content, known, n - 1);
      RunOneMore(sha, s, before, m);
      BlobsOfStep(sha, Run(sha, s, before), m);
    }
  }

  // ---- Two copies at once -----------------------------------------------------------------------------

  /** The first n chunks of a file sent to two paths in turn, with their bytes the first time only. */
  ghost function SideBySide(z: Sizes, sha: Hasher, k1: Key, k2: Key, a: Bytes, n: nat): seq<Step>
    requires n <= Count(z, a)
  {
    if n == 0 then []
    else
      SideBySide(z, sha, k1, k2, a, n - 1) +
      [Message(z, sha, k1, a, {}, n - 1)] + [Message(z, sha, k2, a, {sha(Pieces(z, a)[n - 1])}, n - 1)]
  }

  /** The second path's messages rely on bytes the first path's have brought in the same run. */
  lemma {:induction false} SideBySideAllowed(z: Sizes, sha: Hasher, k1: Key, k2: Key, a: Bytes, n: nat)
    requires n <= Count(z, a)
    ensures AllAllowed(z, sha, EMPTY, map[k1 := a, k2 := a], SideBySide(z, sha, k1, k2, a, n))
    ensures forall h :: h in Run(sha, EMPTY, SideBySide(z, sha, k1, k2, a, n)).blobs ==>
              Run(sha, EMPTY, SideBySide(z, sha, k1, k2, a, n)).blobs[h] in PieceSet(z, a)
    decreases n
  {
    hide Pieces, Run, Apply, AllAllowed;
    var plan := map[k1 := a, k2 := a];
    if n == 0 {
      NothingAllowed(z, sha, EMPTY, plan);
      RunNone(sha, EMPTY);
    } else {
      SideBySideAllowed(z, sha, k1, k2, a, n - 1);
      var before := SideBySide(z, sha, k1, k2, a, n - 1);
      var m1, m2 := Message(z, sha, k1, a, {}, n - 1), Message(z, sha, k2, a, {sha(Pieces(z, a)[n - 1])}, n - 1);
      AllowedNext(z, sha, EMPTY, plan, before, m1);
      RunOneMore(sha, EMPTY, before, m1);
      BlobsOfStep(sha, Run(sha, EMPTY, before), m1);
      AllowedNext(z, sha, EMPTY, plan, before + [m1], m2);
      RunOneMore(sha, EMPTY, before + [m1], m2);
      BlobsOfStep(sha, Run(sha, EMPTY, before + [m1]), m2);
    }
  }

  lemma {:induction false} SideBySideSent(z: Sizes, sha: Hasher, k1: Key, k2: Key, a: Bytes, n: nat, key: Key, i: int)
    requires n <= Count(z, a) && (key == k1 || key == k2) && 0 <= i < n
    ensures LastUpload(SideBySide(z, sha, k1, k2, a, n), key, i).Some?
    decreases n
  {
    hide Pieces, LastUpload;
    var before := SideBySide(z, sha, k1, k2, a, n - 1);
    var m1, m2 := Message(z, sha, k1, a, {}, n - 1), Message(z, sha, k2, a, {sha(Pieces(z, a)[n - 1])}, n - 1);
    LastOfNext(before, m1, key, i);
    LastOfNext(before + [m1], m2, key, i);
    if i < n - 1 {
      SideBySideSent(z, sha, k1, k2, a, n - 1, key, i);
    }
  }

  lemma {:induction false} SideBySideCarries(z: Sizes, sha: Hasher, k1: Key, k2: Key, a: Bytes, n: nat)
    requires n <= Count(z, a)
    ensures Carried(SideBySide(z, sha, k1, k2, a, n)) == |Flatten(Pieces(z, a)[..n])|
    decreases n
  {
    hide Pieces, Carried, Flatten;
    if n == 0 {
      NothingCarried({});
      assert Pieces(z, a)[..0] == [];
      FlattenNext([], []);
    } else {
      SideBySideCarries(z, sha, k1, k2, a, n - 1);
      var before := SideBySide(z, sha, k1, k2, a, n - 1);
      var m1, m2 := Message(z, sha, k1, a, {}, n - 1), Message(z, sha, k2, a, {sha(Pieces(z, a)[n - 1])}, n - 1);
      CarriedNext(before, m1);
      CarriedNext(before + [m1], m2);
      assert Pieces(z, a)[..n] == Pieces(z, a)[..n - 1] + [Pieces(z, a)[n - 1]];
      FlattenNext(Pieces(z, a)[..n - 1], Pieces(z, a)[n - 1]);
    }
  }

  lemma {:induction false} FlattenNext(parts: seq<Bytes>, part: Bytes)
    ensures |Flatten(parts + [part])| == |Flatten(parts)| + |part|
    ensures Flatten([]) == []
  {
    if parts == [] {
      assert [part][1..] == [];
    } else {
      FlattenNext(parts[1..], part);
      assert (parts + [part])[1..] == parts[1..] + [part];
    }
  }

  /** Two copies of a file uploaded at the same time cost the bytes of one, and both can be finalized. */
  lemma TwoCopiesAtOnce(z: Sizes, sha: Hasher, k1: Key, k2: Key, a: Bytes, key: Key, now: int)
    requires InjectiveOn(sha, PieceSet(z, a)) && (key == k1 || key == k2)
    ensures var steps := SideBySide(z, sha, k1, k2, a, Count(z, a));
            && Carried(steps) == |a|
            && Delivered(sha, Run(sha, EMPTY, steps + [Finalize(key, Count(z, a), now)]), key, a, now)
  {
    hide Pieces, Run, AllAllowed, LastUpload, Delivered, SideBySide, Carried, Flatten;
    var steps, plan := SideBySide(z, sha, k1, k2, a, Count(z, a)), map[k1 := a, k2 := a];
    SideBySideAllowed(z, sha, k1, k2, a, Count(z, a));
    SideBySideCarries(z, sha, k1, k2, a, Count(z, a));
    assert Pieces(z, a)[..|Pieces(z, a)|] == Pieces(z, a);
    PiecesMakeTheFile(z, a);
    forall i | 0 <= i < Count(z, a)
      ensures LastUpload(steps, key, i).Some?
    {
      SideBySideSent(z, sha, k1, k2, a, Count(z, a), key, i);
    }
    EmptyHasNoRows(key);
    UploadDelivers(z, sha, EMPTY, plan, steps, PieceSet(z, a), key, now);
  }
}
