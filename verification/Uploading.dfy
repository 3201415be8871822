/**
  * Uploads end to end: chunk a file, leave out the bytes of chunks the server has, send one message per chunk in any
  * order among any other traffic, finalize, and the server holds the file.
  */
module Uploading {
  import opened Content
  import opened Chunking
  import opened ChunkLaws
  import opened Delta
  import opened Tables
  import opened Store
  import opened StoreLaws

  // ---- Assembling a file from its pieces ------------------------------------------------

  lemma {:induction false} AssembleParts(blobs: map<Digest, Bytes>, hashes: seq<Digest>, parts: seq<Bytes>)
    requires |hashes| == |parts|
    requires forall i :: 0 <= i < |parts| ==> parts[i] != [] && ChunkBytes(blobs, hashes[i]) == parts[i]
    ensures Assembled(blobs, hashes) == (Flatten(parts), true)
  {
    if hashes != [] {
      AssembleParts(blobs, hashes[1..], parts[1..]);
    }
  }

  // ---- Plans ----------------------------------------------------------------------------

  function Count(z: Sizes, content: Bytes): nat {
    |Pieces(z, content)|
  }

  /** A message for one chunk of a file: it names the chunk, and carries its bytes unless the server has them by then. */
  ghost predicate MessageOf(z: Sizes, sha: Hasher, s: State, key: Key, content: Bytes, step: Step) {
    && step.StoreChunk? && step.key == key && 0 <= step.index < Count(z, content)
    && step.hash == sha(Pieces(z, content)[step.index])
    && (step.data == Pieces(z, content)[step.index] || step.hash in s.blobs)
  }

  /** A step on a planned key is one of its messages, its finalization, or a deletion. */
  ghost predicate OnPlan(z: Sizes, sha: Hasher, s: State, key: Key, content: Bytes, step: Step) {
    match step
    case StoreChunk(_, _, _, _) => MessageOf(z, sha, s, key, content, step)
    case Finalize(_, total, _) => total == Count(z, content)
    case Delete(_) => true
  }

  /** Other traffic names the data it carries by its own hash, or names a hash the store has by then. */
  ghost predicate Honest(sha: Hasher, s: State, step: Step) {
    step.StoreChunk? ==> step.hash in s.blobs || (step.data != [] && sha(step.data) == step.hash)
  }

  ghost predicate Allowed(z: Sizes, sha: Hasher, s: State, plan: map<Key, Bytes>, step: Step) {
    if step.key in plan then OnPlan(z, sha, s, step.key, plan[step.key], step) else Honest(sha, s, step)
  }

  /** Each step is allowed in the state it meets. */
  ghost predicate AllAllowed(z: Sizes, sha: Hasher, s0: State, plan: map<Key, Bytes>, steps: seq<Step>)
    decreases |steps|
  {
    steps == [] ||
    (var init := steps[..|steps| - 1];
     AllAllowed(z, sha, s0, plan, init) && Allowed(z, sha, Run(sha, s0, init), plan, steps[|steps| - 1]))
  }

  /** Every chunk file is named by the hash of its bytes, and has some. */
  ghost predicate HonestBlobs(sha: Hasher, s: State) {
    forall h :: h in s.blobs ==> s.blobs[h] != [] && sha(s.blobs[h]) == h
  }

  /** Hashing tells apart what is stored and the pieces of the planned files. */
  ghost predicate NoCollision(z: Sizes, sha: Hasher, s: State, plan: map<Key, Bytes>, contents: set<Bytes>) {
    && InjectiveOn(sha, contents)
    && (forall h :: h in s.blobs ==> s.blobs[h] in contents)
    && (forall k, i :: k in plan && 0 <= i < Count(z, plan[k]) ==> Pieces(z, plan[k])[i] in contents)
  }

  ghost predicate Setting(z: Sizes, sha: Hasher, s0: State, plan: map<Key, Bytes>, steps: seq<Step>, contents: set<Bytes>) {
    HonestBlobs(sha, s0) && AllAllowed(z, sha, s0, plan, steps) && NoCollision(z, sha, Run(sha, s0, steps), plan, contents)
  }

  /** Every chunk of the file has been sent, in whatever order and however often. */
  ghost predicate AllSent(z: Sizes, key: Key, content: Bytes, steps: seq<Step>) {
    forall i :: 0 <= i < Count(z, content) ==> LastUpload(steps, key, i).Some?
  }

  // ---- Chunk files ------------------------------------------------------------------------

  lemma HonestStep(z: Sizes, sha: Hasher, s: State, plan: map<Key, Bytes>, step: Step)
    requires HonestBlobs(sha, s) && Allowed(z, sha, s, plan, step)
    ensures HonestBlobs(sha, Apply(sha, s, step))
  {
    hide Apply, Pieces;
    BlobsOfStep(sha, s, step);
    if step.StoreChunk? && step.key in plan {
      PiecesOfChunks(z, sha, plan[step.key], 0);
    }
  }

  /** Allowed runs keep every chunk file honest. */
  lemma {:induction false} RunKeepsHonest(z: Sizes, sha: Hasher, s0: State, plan: map<Key, Bytes>, steps: seq<Step>)
    requires HonestBlobs(sha, s0) && AllAllowed(z, sha, s0, plan, steps)
    ensures HonestBlobs(sha, Run(sha, s0, steps))
    decreases |steps|
  {
    hide HonestBlobs, Allowed, Apply;
    if steps != [] {
      var init := steps[..|steps| - 1];
      RunKeepsHonest(z, sha, s0, plan, init);
      HonestStep(z, sha, Run(sha, s0, init), plan, steps[|steps| - 1]);
    }
  }

  lemma {:induction false} AllowedAt(z: Sizes, sha: Hasher, s0: State, plan: map<Key, Bytes>, steps: seq<Step>, j: nat)
    requires AllAllowed(z, sha, s0, plan, steps) && j < |steps|
    ensures Allowed(z, sha, Run(sha, s0, steps[..j]), plan, steps[j])
    decreases |steps|
  {
    hide Allowed, Run;
    if j < |steps| - 1 {
      AllowedAt(z, sha, s0, plan, steps[..|steps| - 1], j);
      assert steps[..|steps| - 1][..j] == steps[..j];
    }
  }

  lemma {:induction false} LastUploadStep(steps: seq<Step>, key: Key, index: int) returns (j: nat)
    requires LastUpload(steps, key, index).Some?
    ensures j < |steps| && steps[j].StoreChunk? && steps[j].key == key && steps[j].index == index
    ensures LastUpload(steps, key, index) == Some(steps[j].hash)
    decreases |steps|
  {
    j := |steps| - 1;
    var last := steps[j];
    if !(last.StoreChunk? && last.key == key && last.index == index) {
      j := LastUploadStep(steps[..|steps| - 1], key, index);
    }
  }

  lemma {:induction false} UploadedIsFirst(steps: seq<Step>, j: nat)
    requires j < |steps| && steps[j].StoreChunk?
    ensures FirstUpload(steps, steps[j].hash).Some?
    decreases |steps|
  {
    if j < |steps| - 1 {
      UploadedIsFirst(steps[..|steps| - 1], j);
      assert steps[..|steps| - 1][j] == steps[j];
    }
  }

  /** What is uploaded to a planned key is a piece of its file. */
  lemma LastUploadIsPiece(z: Sizes, sha: Hasher, s0: State, plan: map<Key, Bytes>, steps: seq<Step>, key: Key, i: int) returns (j: nat)
    requires AllAllowed(z, sha, s0, plan, steps) && key in plan && LastUpload(steps, key, i).Some?
    ensures 0 <= i < Count(z, plan[key])
    ensures j < |steps| && steps[j].StoreChunk? && steps[j].hash == sha(Pieces(z, plan[key])[i])
    ensures LastUpload(steps, key, i) == Some(sha(Pieces(z, plan[key])[i]))
  {
    hide Run, LastUpload, Pieces, AllAllowed;
    j := LastUploadStep(steps, key, i);
    AllowedAt(z, sha, s0, plan, steps, j);
  }

  /** A chunk of a planned file that has been sent, with or without its bytes, is stored with exactly its bytes. */
  lemma SentPieceIsStored(z: Sizes, sha: Hasher, s0: State, plan: map<Key, Bytes>, steps: seq<Step>, contents: set<Bytes>,
                          key: Key, i: nat)
    requires Setting(z, sha, s0, plan, steps, contents)
    requires key in plan && i < Count(z, plan[key]) && LastUpload(steps, key, i).Some?
    ensures ChunkBytes(Run(sha, s0, steps).blobs, sha(Pieces(z, plan[key])[i])) == Pieces(z, plan[key])[i]
  {
    hide Run, LastUpload, FirstUpload, Pieces, AllAllowed;
    var piece := Pieces(z, plan[key])[i];
    var j := LastUploadIsPiece(z, sha, s0, plan, steps, key, i);
    UploadedIsFirst(steps, j);
    BlobHistory(sha, s0, steps, sha(piece));
    RunKeepsHonest(z, sha, s0, plan, steps);
    assert sha(Run(sha, s0, steps).blobs[sha(piece)]) == sha(piece);
  }

  // ---- Chunk rows ---------------------------------------------------------------------------

  /** No row of the path lies outside the planned indices. */
  ghost predicate NoStaleRow(z: Sizes, s0: State, key: Key, content: Bytes) {
    forall i :: Row(s0, key, i).Some? ==> 0 <= i < Count(z, content)
  }

  lemma RowAfterRun(z: Sizes, sha: Hasher, s0: State, plan: map<Key, Bytes>, steps: seq<Step>, key: Key, i: int)
    requires AllAllowed(z, sha, s0, plan, steps) && key in plan
    requires AllSent(z, key, plan[key], steps)
    ensures 0 <= i < Count(z, plan[key]) ==> Row(Run(sha, s0, steps), key, i) == Some(sha(Pieces(z, plan[key])[i]))
    ensures !(0 <= i < Count(z, plan[key])) ==> Row(Run(sha, s0, steps), key, i) == Row(s0, key, i)
  {
    hide Run, Row, LastUpload, Pieces, AllAllowed;
    RowHistory(sha, s0, steps, key, i);
    if LastUpload(steps, key, i).Some? {
      var j := LastUploadIsPiece(z, sha, s0, plan, steps, key, i);
    }
  }

  // ---- The theorem ----------------------------------------------------------------------------

  /** After all messages of a file, its path has as many rows as it has chunks exactly when no stale row is in the way. */
  lemma CountCheckIff(z: Sizes, sha: Hasher, s0: State, plan: map<Key, Bytes>, steps: seq<Step>, key: Key)
    requires AllAllowed(z, sha, s0, plan, steps) && key in plan
    requires AllSent(z, key, plan[key], steps)
    ensures |RowHashes(Run(sha, s0, steps), key)| == Count(z, plan[key]) <==> NoStaleRow(z, s0, key, plan[key])
  {
    hide Run, AllAllowed, Pieces, FileChunks, AllSent;
    var s, n := Run(sha, s0, steps), Count(z, plan[key]);
    var rows := DbOf(s, key.client).chunks;
    forall i
      ensures 0 <= i < n ==> (key.path, i) in rows
      ensures !(0 <= i < n) ==> ((key.path, i) in rows <==> Row(s0, key, i).Some?)
    {
      RowAfterRun(z, sha, s0, plan, steps, key, i);
    }
    CountMeansNoStaleRow(rows, key.path, n);
    if NoStaleRow(z, s0, key, plan[key]) {
      forall i | (key.path, i) in rows
        ensures 0 <= i < n
      {
        RowAfterRun(z, sha, s0, plan, steps, key, i);
      }
    } else {
      var i :| Row(s0, key, i).Some? && !(0 <= i < n);
      RowAfterRun(z, sha, s0, plan, steps, key, i);
      assert (key.path, i) in rows;
    }
  }

  lemma RowHashesOfPlan(z: Sizes, sha: Hasher, s0: State, plan: map<Key, Bytes>, steps: seq<Step>, key: Key)
    requires AllAllowed(z, sha, s0, plan, steps) && key in plan
    requires AllSent(z, key, plan[key], steps) && NoStaleRow(z, s0, key, plan[key])
    ensures var hashes := RowHashes(Run(sha, s0, steps), key);
            && |hashes| == Count(z, plan[key])
            && forall i :: 0 <= i < |hashes| ==> hashes[i] == sha(Pieces(z, plan[key])[i])
  {
    hide Run, AllAllowed, Pieces, FileChunks, AllSent;
    var s, n := Run(sha, s0, steps), Count(z, plan[key]);
    var rows := DbOf(s, key.client).chunks;
    forall i
      ensures (key.path, i) in rows <==> 0 <= i < n
      ensures 0 <= i < n ==> (key.path, i) in rows && rows[(key.path, i)] == sha(Pieces(z, plan[key])[i])
    {
      RowAfterRun(z, sha, s0, plan, steps, key, i);
    }
    CompleteRows(rows, key.path, n);
  }

  /** Once all messages are in and no stale row is in the way, assembling gives the file. */
  lemma AssemblesToContent(z: Sizes, sha: Hasher, s0: State, plan: map<Key, Bytes>, steps: seq<Step>, contents: set<Bytes>, key: Key)
    requires Setting(z, sha, s0, plan, steps, contents) && key in plan
    requires AllSent(z, key, plan[key], steps) && NoStaleRow(z, s0, key, plan[key])
    ensures var s := Run(sha, s0, steps);
            Assembled(s.blobs, RowHashes(s, key)) == (plan[key], true)
  {
    hide Run, Pieces, FileChunks, Assembled, LastUpload, ChunkBytes, AllAllowed, NoCollision, HonestBlobs;
    var s, parts := Run(sha, s0, steps), Pieces(z, plan[key]);
    var hashes := RowHashes(s, key);
    RowHashesOfPlan(z, sha, s0, plan, steps, key);
    PiecesOfChunks(z, sha, plan[key], 0);
    forall i | 0 <= i < |parts|
      ensures ChunkBytes(s.blobs, hashes[i]) == parts[i]
    {
      SentPieceIsStored(z, sha, s0, plan, steps, contents, key, i);
    }
    AssembleParts(s.blobs, hashes, parts);
    PiecesMakeTheFile(z, plan[key]);
  }

  /** What the server holds for a finished upload. */
  ghost predicate Delivered(sha: Hasher, s: State, key: Key, content: Bytes, now: int) {
    && key in s.files && s.files[key] == content
    && RecordOf(s, key) == Some(FileRecord(key.path, |content|, now, sha(content), 1, false, false))
  }

  /**
    * The upload theorem. Many uploads, their messages and finalizations in any order with repeats, mixed with any
    * honest traffic and deletions, each leaving out bytes that any of them has brought before: when a planned key is
    * finalized after all its messages, finalizing succeeds exactly when the path had no stale row, and then the server
    * holds exactly the planned bytes, with their size and hash.
    */
  lemma UploadDelivers(z: Sizes, sha: Hasher, s0: State, plan: map<Key, Bytes>, steps: seq<Step>, contents: set<Bytes>,
                       key: Key, now: int)
    requires Setting(z, sha, s0, plan, steps, contents) && key in plan
    requires AllSent(z, key, plan[key], steps)
    ensures Finalizes(Run(sha, s0, steps), key, Count(z, plan[key])) <==> NoStaleRow(z, s0, key, plan[key])
    ensures NoStaleRow(z, s0, key, plan[key]) ==>
              Delivered(sha, Run(sha, s0, steps + [Finalize(key, Count(z, plan[key]), now)]), key, plan[key], now)
  {
    hide Run, AllAllowed, AllSent, NoStaleRow, Assembled, FileChunks, Count, NoCollision, HonestBlobs;
    CountCheckIff(z, sha, s0, plan, steps, key);
    RunOneMore(sha, s0, steps, Finalize(key, Count(z, plan[key]), now));
    if NoStaleRow(z, s0, key, plan[key]) {
      AssemblesToContent(z, sha, s0, plan, steps, contents, key);
    }
  }

  /** On a path without rows, the count check passes only once every chunk has had its message. */
  lemma EveryChunkNeedsAMessage(z: Sizes, sha: Hasher, s0: State, plan: map<Key, Bytes>, steps: seq<Step>, key: Key)
    requires AllAllowed(z, sha, s0, plan, steps) && key in plan
    requires forall i :: Row(s0, key, i) == None
    ensures |RowHashes(Run(sha, s0, steps), key)| == Count(z, plan[key]) <==> AllSent(z, key, plan[key], steps)
  {
    hide Run, AllAllowed, Pieces, FileChunks, LastUpload;
    var s, n := Run(sha, s0, steps), Count(z, plan[key]);
    var rows := DbOf(s, key.client).chunks;
    var ids := Indices(rows, key.path);
    forall i
      ensures i in ids <==> LastUpload(steps, key, i).Some?
    {
      RowHistory(sha, s0, steps, key, i);
      InIndices(rows, key.path, i);
    }
    forall i | i in ids
      ensures i in Range(n)
    {
      var j := LastUploadIsPiece(z, sha, s0, plan, steps, key, i);
    }
    RowCount(rows, key.path);
    if |ids| == n {
      SameSizeSubset(ids, Range(n));
    }
    if AllSent(z, key, plan[key], steps) {
      assert ids == Range(n);
    }
  }

  // ---- Whole runs -------------------------------------------------------------------------------

  /** The file a key has in a state, with its record, deleted or not. */
  ghost predicate HasFile(sha: Hasher, s: State, key: Key, content: Bytes) {
    && key in s.files && s.files[key] == content
    && RecordOf(s, key).Some?
    && RecordOf(s, key).value.size == |content| && RecordOf(s, key).value.hash == sha(content)
  }

  lemma FileOfStep(sha: Hasher, s: State, step: Step, key: Key, content: Bytes)
    requires HasFile(sha, s, key, content) && (step.Finalize? ==> step.key != key)
    ensures HasFile(sha, Apply(sha, s, step), key, content)
  {
    hide FileChunks, Assembled;
  }

  lemma {:induction false} StillSent(steps: seq<Step>, n: nat, key: Key, i: int)
    requires n <= |steps| && LastUpload(steps[..n], key, i).Some?
    ensures LastUpload(steps, key, i).Some?
    decreases |steps|
  {
    if n == |steps| {
      assert steps[..n] == steps;
    } else {
      assert steps[..|steps| - 1][..n] == steps[..n];
      StillSent(steps[..|steps| - 1], n, key, i);
    }
  }

  lemma SettingOfInit(z: Sizes, sha: Hasher, s0: State, plan: map<Key, Bytes>, steps: seq<Step>, contents: set<Bytes>)
    requires Setting(z, sha, s0, plan, steps, contents) && steps != []
    ensures Setting(z, sha, s0, plan, steps[..|steps| - 1], contents)
  {
    hide Allowed, Pieces, Apply, HonestBlobs;
    var s, t := Run(sha, s0, steps[..|steps| - 1]), Run(sha, s0, steps);
    BlobsOfStep(sha, s, steps[|steps| - 1]);
    forall h | h in s.blobs
      ensures s.blobs[h] in contents
    {
      assert h in t.blobs && t.blobs[h] == s.blobs[h];
    }
  }

  /** Once delivered, the file stays in every later state of the run: later traffic, messages and finalizations included. */
  lemma {:induction false} StaysDelivered(z: Sizes, sha: Hasher, s0: State, plan: map<Key, Bytes>, steps: seq<Step>, contents: set<Bytes>,
                                          key: Key, j: nat)
    requires Setting(z, sha, s0, plan, steps, contents) && key in plan
    requires j < |steps| && steps[j].Finalize? && steps[j].key == key
    requires AllSent(z, key, plan[key], steps[..j]) && NoStaleRow(z, s0, key, plan[key])
    ensures HasFile(sha, Run(sha, s0, steps), key, plan[key])
    decreases |steps|
  {
    hide Run, Setting, NoStaleRow, Apply, Pieces, LastUpload, HasFile;
    var init, last := steps[..|steps| - 1], steps[|steps| - 1];
    assert init + [last] == steps;
    RunOneMore(sha, s0, init, last);
    SettingOfInit(z, sha, s0, plan, steps, contents);
    if last.Finalize? && last.key == key {
      forall i | 0 <= i < Count(z, plan[key])
        ensures LastUpload(init, key, i).Some?
      {
        assert init[..j] == steps[..j];
        StillSent(init, j, key, i);
      }
      PlannedFinalize(z, sha, s0, plan, steps, contents);
      UploadDelivers(z, sha, s0, plan, init, contents, key, last.now);
      DeliveredIsHeld(sha, Run(sha, s0, steps), key, plan[key], last.now);
    } else {
      assert init[..j] == steps[..j] && init[j] == steps[j];
      StaysDelivered(z, sha, s0, plan, init, contents, key, j);
      FileOfStep(sha, Run(sha, s0, init), last, key, plan[key]);
    }
  }

  lemma DeliveredIsHeld(sha: Hasher, s: State, key: Key, content: Bytes, now: int)
    requires Delivered(sha, s, key, content, now)
    ensures HasFile(sha, s, key, content)
  {
  }

  lemma PlannedFinalize(z: Sizes, sha: Hasher, s0: State, plan: map<Key, Bytes>, steps: seq<Step>, contents: set<Bytes>)
    requires Setting(z, sha, s0, plan, steps, contents)
    requires steps != [] && steps[|steps| - 1].Finalize? && steps[|steps| - 1].key in plan
    ensures var last := steps[|steps| - 1];
            last == Finalize(last.key, Count(z, plan[last.key]), last.now)
  {
    hide Pieces, Run;
  }

  /** A planned key is finalized in the run after all its messages. */
  ghost predicate FinishedIn(z: Sizes, key: Key, content: Bytes, steps: seq<Step>) {
    exists j :: 0 <= j < |steps| && steps[j].Finalize? && steps[j].key == key && AllSent(z, key, content, steps[..j])
  }

  /** All uploads of a run at once: every planned key that was finished has its file and its record at the end. */
  lemma AllUploadsDelivered(z: Sizes, sha: Hasher, s0: State, plan: map<Key, Bytes>, steps: seq<Step>, contents: set<Bytes>)
    requires Setting(z, sha, s0, plan, steps, contents)
    ensures forall key :: key in plan && NoStaleRow(z, s0, key, plan[key]) && FinishedIn(z, key, plan[key], steps) ==>
              HasFile(sha, Run(sha, s0, steps), key, plan[key])
  {
    hide Run, Setting, NoStaleRow, AllSent, HasFile;
    forall key | key in plan && NoStaleRow(z, s0, key, plan[key]) && FinishedIn(z, key, plan[key], steps)
      ensures HasFile(sha, Run(sha, s0, steps), key, plan[key])
    {
      var j :| 0 <= j < |steps| && steps[j].Finalize? && steps[j].key == key && AllSent(z, key, plan[key], steps[..j]);
      StaysDelivered(z, sha, s0, plan, steps, contents, key, j);
    }
  }
}
