/** What every run of the store keeps, and what its tables and chunk files remember of the run. */
module StoreLaws {
  import opened Content
  import opened Tables
  import opened Store

  // ---- Resolution: rows lead to bytes ---------------------------------------------------

  /** No chunk file is empty and every chunk row names a chunk file. */
  ghost predicate RowsResolve(s: State) {
    && (forall h :: h in s.blobs ==> s.blobs[h] != [])
    && (forall c, k :: c in s.dbs && k in s.dbs[c].chunks ==> s.dbs[c].chunks[k] in s.blobs)
  }

  /** Every record, deleted or not, agrees with the assembled file. */
  ghost predicate RecordsAgree(sha: Hasher, s: State) {
    forall c, p :: c in s.dbs && p in s.dbs[c].files ==> RecordAgrees(sha, s, Key(c, p))
  }

  ghost predicate RecordAgrees(sha: Hasher, s: State, key: Key)
    requires key.client in s.dbs && key.path in s.dbs[key.client].files
  {
    var r := s.dbs[key.client].files[key.path];
    && key in s.files
    && r.path == key.path && r.size == |s.files[key]| && r.hash == sha(s.files[key])
  }

  ghost predicate Inv(sha: Hasher, s: State) {
    RowsResolve(s) && RecordsAgree(sha, s)
  }

  /** The first upload of a hash carries bytes. */
  ghost predicate CarriesBytes(s: State, step: Step) {
    step.StoreChunk? && step.hash !in s.blobs ==> step.data != []
  }

  /** Assembling comes to the end exactly when every hash has bytes. */
  lemma {:induction false} AssembledIff(blobs: map<Digest, Bytes>, hashes: seq<Digest>)
    ensures Assembled(blobs, hashes).1 <==> forall i :: 0 <= i < |hashes| ==> ChunkBytes(blobs, hashes[i]) != []
  {
    if hashes != [] && ChunkBytes(blobs, hashes[0]) != [] {
      AssembledIff(blobs, hashes[1..]);
      if Assembled(blobs, hashes).1 {
        forall i | 0 <= i < |hashes|
          ensures ChunkBytes(blobs, hashes[i]) != []
        {
          if i > 0 {
            assert hashes[i] == hashes[1..][i - 1];
          }
        }
      } else {
        var i :| 0 <= i < |hashes[1..]| && ChunkBytes(blobs, hashes[1..][i]) == [];
        assert hashes[i + 1] == hashes[1..][i];
      }
    }
  }

  /** The bytes of the first j hashes, joined. */
  function BytesUpTo(blobs: map<Digest, Bytes>, hashes: seq<Digest>, j: nat): Bytes
    requires j <= |hashes|
  {
    if j == 0 then [] else BytesUpTo(blobs, hashes, j - 1) + (if hashes[j - 1] in blobs then blobs[hashes[j - 1]] else [])
  }

  lemma {:induction false} AssembledPrefix(blobs: map<Digest, Bytes>, hashes: seq<Digest>, j: nat)
    requires j <= |hashes| && forall i :: 0 <= i < j ==> ChunkBytes(blobs, hashes[i]) != []
    ensures Assembled(blobs, hashes[..j]) == (BytesUpTo(blobs, hashes, j), true)
    decreases j
  {
    hide Assembled;
    if j == 0 {
      assert hashes[..0] == [];
      AssembledNothing(blobs);
    } else {
      AssembledPrefix(blobs, hashes, j - 1);
      AssembledAppend(blobs, hashes[..j - 1], hashes[j - 1]);
      assert hashes[..j] == hashes[..j - 1] + [hashes[j - 1]];
    }
  }

  /** Assembling writes the bytes of the hashes before the first one without bytes, or of all of them. */
  lemma AssembledIs(blobs: map<Digest, Bytes>, hashes: seq<Digest>, j: nat)
    requires j <= |hashes| && forall i :: 0 <= i < j ==> ChunkBytes(blobs, hashes[i]) != []
    requires j < |hashes| ==> ChunkBytes(blobs, hashes[j]) == []
    ensures Assembled(blobs, hashes) == (BytesUpTo(blobs, hashes, j), j == |hashes|)
  {
    hide Assembled;
    AssembledPrefix(blobs, hashes, j);
    if j < |hashes| {
      AssembledAppend(blobs, hashes[..j], hashes[j]);
      assert hashes[..j + 1] == hashes[..j] + [hashes[j]];
      AssembledSoFar(blobs, hashes, j + 1);
      assert BytesUpTo(blobs, hashes, j) + [] == BytesUpTo(blobs, hashes, j);
    } else {
      assert hashes[..j] == hashes;
    }
  }

  /**
    * Once the count check has passed, finalizing replaces the file by the bytes of the hashes before the first one without
    * bytes, whatever was there; only if there is no such hash it succeeds, and writes the record.
    */
  lemma FinalizeWrites(sha: Hasher, s: State, key: Key, total: int, now: int, j: nat)
    requires 0 <= total == |RowHashes(s, key)| && j <= total
    requires forall i :: 0 <= i < j ==> ChunkBytes(s.blobs, RowHashes(s, key)[i]) != []
    requires j < total ==> ChunkBytes(s.blobs, RowHashes(s, key)[j]) == []
    ensures var t, content := AfterFinalize(sha, s, key, total, now), BytesUpTo(s.blobs, RowHashes(s, key), j);
            && t.files == s.files[key := content] && t.blobs == s.blobs
            && (Finalizes(s, key, total) <==> j == total)
            && RecordOf(t, key) ==
               if j == total then Some(FileRecord(key.path, |content|, now, sha(content), 1, false, false)) else RecordOf(s, key)
  {
    hide Assembled, FileChunks, BytesUpTo, ChunkBytes;
    AssembledIs(s.blobs, RowHashes(s, key), j);
  }

  /** Each hash of a path comes from one of its rows. */
  lemma HashFromRow(rows: ChunkTable, path: string, i: nat) returns (index: int)
    requires i < |FileChunks(rows, path)|
    ensures (path, index) in rows && FileChunks(rows, path)[i] == rows[(path, index)]
  {
    var order := Ascending(Indices(rows, path));
    index := order[i];
    assert index in order;
    InIndices(rows, path, index);
  }

  /** Where rows resolve, assembling cannot fail. */
  lemma ResolvedAssembles(s: State, key: Key)
    requires RowsResolve(s)
    ensures Assembled(s.blobs, RowHashes(s, key)).1
  {
    var rows := DbOf(s, key.client).chunks;
    forall i | 0 <= i < |RowHashes(s, key)|
      ensures ChunkBytes(s.blobs, RowHashes(s, key)[i]) != []
    {
      var index := HashFromRow(rows, key.path, i);
    }
    AssembledIff(s.blobs, RowHashes(s, key));
  }

  lemma StoreKeepsInv(sha: Hasher, s: State, key: Key, index: int, data: Bytes, hash: Digest)
    requires Inv(sha, s) && (hash !in s.blobs ==> data != [])
    ensures Inv(sha, AfterStore(s, key, index, data, hash))
  {
    var t := AfterStore(s, key, index, data, hash);
    forall c, p | c in t.dbs && p in t.dbs[c].files
      ensures RecordAgrees(sha, t, Key(c, p))
    {
      assert c in s.dbs && p in s.dbs[c].files;
      assert RecordAgrees(sha, s, Key(c, p));
    }
  }

  lemma FinalizeKeepsInv(sha: Hasher, s: State, key: Key, total: int, now: int)
    requires Inv(sha, s)
    ensures Inv(sha, AfterFinalize(sha, s, key, total, now))
  {
    hide Assembled, FileChunks;
    var t := AfterFinalize(sha, s, key, total, now);
    ResolvedAssembles(s, key);
    forall c, p | c in t.dbs && p in t.dbs[c].files
      ensures RecordAgrees(sha, t, Key(c, p))
    {
      if Key(c, p) != key || |RowHashes(s, key)| != AsSize(total) {
        assert c in s.dbs && p in s.dbs[c].files;
        assert RecordAgrees(sha, s, Key(c, p));
      }
    }
  }

  lemma DeleteKeepsInv(sha: Hasher, s: State, key: Key)
    requires Inv(sha, s)
    ensures Inv(sha, AfterDelete(s, key))
  {
    var t := AfterDelete(s, key);
    forall c, p | c in t.dbs && p in t.dbs[c].files
      ensures RecordAgrees(sha, t, Key(c, p))
    {
      assert c in s.dbs && p in s.dbs[c].files;
      assert RecordAgrees(sha, s, Key(c, p));
    }
  }

  lemma StepKeepsInv(sha: Hasher, s: State, step: Step)
    requires Inv(sha, s) && CarriesBytes(s, step)
    ensures Inv(sha, Apply(sha, s, step))
  {
    hide Inv, AfterStore, AfterFinalize, AfterDelete;
    match step {
      case StoreChunk(key, index, data, hash) => StoreKeepsInv(sha, s, key, index, data, hash);
      case Finalize(key, total, now) => FinalizeKeepsInv(sha, s, key, total, now);
      case Delete(key) => DeleteKeepsInv(sha, s, key);
    }
  }

  /** In a run, every first upload of a hash carries bytes. */
  ghost predicate FirstUploadsCarryBytes(sha: Hasher, s: State, steps: seq<Step>)
    decreases |steps|
  {
    steps == [] ||
    (var init := steps[..|steps| - 1];
     FirstUploadsCarryBytes(sha, s, init) && CarriesBytes(Run(sha, s, init), steps[|steps| - 1]))
  }

  /** The invariant holds in every state a run reaches. */
  lemma {:induction false} RunKeepsInv(sha: Hasher, s: State, steps: seq<Step>)
    requires Inv(sha, s) && FirstUploadsCarryBytes(sha, s, steps)
    ensures Inv(sha, Run(sha, s, steps))
    decreases |steps|
  {
    hide Inv, Apply, CarriesBytes;
    if steps != [] {
      var init := steps[..|steps| - 1];
      RunKeepsInv(sha, s, init);
      StepKeepsInv(sha, Run(sha, s, init), steps[|steps| - 1]);
    }
  }

  /** From an empty store, all reachable states keep the invariant. */
  lemma ReachableInv(sha: Hasher, steps: seq<Step>)
    requires FirstUploadsCarryBytes(sha, EMPTY, steps)
    ensures Inv(sha, Run(sha, EMPTY, steps))
  {
    RunKeepsInv(sha, EMPTY, steps);
  }

  /** Finalizing fails at the count check only, and then nothing but the client's database has been touched. */
  lemma FinalizeFailsOnlyOnCount(sha: Hasher, s: State, key: Key, total: int, now: int)
    requires Inv(sha, s)
    ensures Finalizes(s, key, total) <==> |RowHashes(s, key)| == AsSize(total)
    ensures !Finalizes(s, key, total) ==> AfterFinalize(sha, s, key, total, now) == Opened(s, key.client)
  {
    hide Assembled, FileChunks;
    ResolvedAssembles(s, key);
  }

  /** After any run, a hash in any client's chunk table is a chunk the store has, with some bytes. */
  lemma TableHashIsStored(sha: Hasher, steps: seq<Step>, client: string, k: (string, int))
    requires FirstUploadsCarryBytes(sha, EMPTY, steps)
    requires k in DbOf(Run(sha, EMPTY, steps), client).chunks
    ensures var s := Run(sha, EMPTY, steps);
            DbOf(s, client).chunks[k] in s.blobs && ChunkBytes(s.blobs, DbOf(s, client).chunks[k]) != []
  {
    hide Run, FirstUploadsCarryBytes;
    ReachableInv(sha, steps);
  }

  // ---- Histories ----------------------------------------------------------------------------

  /** The data of the first upload of a hash in a run. */
  ghost function FirstUpload(steps: seq<Step>, hash: Digest): Option<Bytes>
    decreases |steps|
  {
    if steps == [] then None
    else
      var last := steps[|steps| - 1];
      match FirstUpload(steps[..|steps| - 1], hash)
      case Some(data) => Some(data)
      case None => if last.StoreChunk? && last.hash == hash then Some(last.data) else None
  }

  /** A chunk file forever holds the bytes of the first upload of its hash. */
  lemma {:induction false} BlobHistory(sha: Hasher, s: State, steps: seq<Step>, hash: Digest)
    ensures hash in Run(sha, s, steps).blobs <==> hash in s.blobs || FirstUpload(steps, hash).Some?
    ensures hash in Run(sha, s, steps).blobs ==>
              Run(sha, s, steps).blobs[hash] ==
              if hash in s.blobs then s.blobs[hash] else FirstUpload(steps, hash).value
    decreases |steps|
  {
    if steps != [] {
      var init := steps[..|steps| - 1];
      BlobHistory(sha, s, init, hash);
      BlobsOfStep(sha, Run(sha, s, init), steps[|steps| - 1]);
    }
  }

  lemma BlobsOfStep(sha: Hasher, s: State, step: Step)
    ensures Apply(sha, s, step).blobs ==
            if step.StoreChunk? && step.hash !in s.blobs then s.blobs[step.hash := step.data] else s.blobs
  {
  }

  /** An empty first upload spoils its hash for good: no chunk file is ever empty exactly when no first upload was. */
  lemma NonEmptyIff(sha: Hasher, steps: seq<Step>)
    ensures (forall h :: h in Run(sha, EMPTY, steps).blobs ==> Run(sha, EMPTY, steps).blobs[h] != [])
       <==> (forall h :: FirstUpload(steps, h).Some? ==> FirstUpload(steps, h).value != [])
  {
    hide Run, FirstUpload;
    var t := Run(sha, EMPTY, steps);
    if forall h :: h in t.blobs ==> t.blobs[h] != [] {
      forall h | FirstUpload(steps, h).Some?
        ensures FirstUpload(steps, h).value != []
      {
        BlobHistory(sha, EMPTY, steps, h);
      }
    } else {
      var h :| h in t.blobs && t.blobs[h] == [];
      BlobHistory(sha, EMPTY, steps, h);
    }
  }

  /** The finalization at step j of a run is one of `key`, and succeeds. */
  ghost predicate Succeeds(sha: Hasher, steps: seq<Step>, key: Key, j: nat) {
    && j < |steps| && steps[j].Finalize? && steps[j].key == key
    && Finalizes(Run(sha, EMPTY, steps[..j]), key, steps[j].total)
  }

  ghost predicate DeletedSince(steps: seq<Step>, key: Key, j: nat) {
    exists d :: j < d < |steps| && steps[d] == Delete(key)
  }

  /** The record made at step j. */
  ghost function RecordMade(sha: Hasher, steps: seq<Step>, key: Key, j: nat): FileRecord
    requires Succeeds(sha, steps, key, j)
  {
    var s := Run(sha, EMPTY, steps[..j]);
    NewRecord(sha, key.path, Assembled(s.blobs, RowHashes(s, key)).0, steps[j].now)
  }

  lemma RecordOfStep(sha: Hasher, s: State, step: Step, key: Key)
    ensures RecordOf(Apply(sha, s, step), key) ==
            if step.Finalize? && step.key == key && Finalizes(s, key, step.total) then
              Some(NewRecord(sha, key.path, Assembled(s.blobs, RowHashes(s, key)).0, step.now))
            else if step == Delete(key) && RecordOf(s, key).Some? then
              Some(RecordOf(s, key).value.(deleted := true))
            else RecordOf(s, key)
  {
    hide Assembled, FileChunks;
  }

  /** Steps at their place in a run and in the run without its last step. */
  lemma SucceedsInInit(sha: Hasher, steps: seq<Step>, key: Key, j: nat)
    requires steps != [] && j < |steps| - 1
    ensures Succeeds(sha, steps[..|steps| - 1], key, j) <==> Succeeds(sha, steps, key, j)
    ensures Succeeds(sha, steps, key, j) ==> RecordMade(sha, steps[..|steps| - 1], key, j) == RecordMade(sha, steps, key, j)
  {
    hide Finalizes, Run, Assembled, RowHashes;
    assert steps[..|steps| - 1][..j] == steps[..j];
  }

  lemma DeletedInInit(steps: seq<Step>, key: Key, j: nat)
    requires steps != [] && j < |steps| - 1
    ensures DeletedSince(steps, key, j) <==> steps[|steps| - 1] == Delete(key) || DeletedSince(steps[..|steps| - 1], key, j)
  {
    var n := |steps| - 1;
    if DeletedSince(steps[..n], key, j) {
      var d :| j < d < n && steps[..n][d] == Delete(key);
      assert steps[d] == Delete(key);
    }
    if d :| j < d < |steps| && steps[d] == Delete(key) {
      assert d < n ==> steps[..n][d] == Delete(key);
    }
  }

  /**
    * After any run a path has the record of its last successful finalization, marked deleted exactly if the path was deleted
    * since.
    */
  lemma {:induction false} RecordHistory(sha: Hasher, steps: seq<Step>, key: Key, j: nat)
    requires Succeeds(sha, steps, key, j) && forall i :: j < i < |steps| ==> !Succeeds(sha, steps, key, i)
    ensures RecordOf(Run(sha, EMPTY, steps), key) ==
            Some(RecordMade(sha, steps, key, j).(deleted := DeletedSince(steps, key, j)))
    decreases |steps|
  {
    hide Apply, Finalizes, Assembled, RowHashes, RecordOf, DeletedSince, RecordMade;
    var n := |steps| - 1;
    RecordOfStep(sha, Run(sha, EMPTY, steps[..n]), steps[n], key);
    if j < n {
      forall i | j <= i < n
        ensures Succeeds(sha, steps[..n], key, i) <==> Succeeds(sha, steps, key, i)
      {
        SucceedsInInit(sha, steps, key, i);
      }
      RecordHistory(sha, steps[..n], key, j);
      SucceedsInInit(sha, steps, key, j);
      DeletedInInit(steps, key, j);
      assert !Succeeds(sha, steps, key, n);
    } else {
      JustMade(sha, steps, key);
    }
  }

  lemma JustMade(sha: Hasher, steps: seq<Step>, key: Key)
    requires steps != [] && Succeeds(sha, steps, key, |steps| - 1)
    ensures !DeletedSince(steps, key, |steps| - 1) && !RecordMade(sha, steps, key, |steps| - 1).deleted
    ensures var s, last := Run(sha, EMPTY, steps[..|steps| - 1]), steps[|steps| - 1];
            RecordMade(sha, steps, key, |steps| - 1) ==
            NewRecord(sha, key.path, Assembled(s.blobs, RowHashes(s, key)).0, last.now)
  {
    hide Run, Assembled, RowHashes;
  }

  /** A path never finalized successfully has no record. */
  lemma {:induction false} NoRecord(sha: Hasher, steps: seq<Step>, key: Key)
    requires forall i :: 0 <= i < |steps| ==> !Succeeds(sha, steps, key, i)
    ensures RecordOf(Run(sha, EMPTY, steps), key) == None
    decreases |steps|
  {
    hide Apply, Finalizes, RowHashes;
    if steps != [] {
      var n := |steps| - 1;
      forall i | 0 <= i < n
        ensures !Succeeds(sha, steps[..n], key, i)
      {
        SucceedsInInit(sha, steps, key, i);
      }
      NoRecord(sha, steps[..n], key);
      RecordOfStep(sha, Run(sha, EMPTY, steps[..n]), steps[n], key);
      assert !Succeeds(sha, steps, key, n);
    }
  }

  ghost function Row(s: State, key: Key, index: int): Option<Digest> {
    var rows := DbOf(s, key.client).chunks;
    if (key.path, index) in rows then Some(rows[(key.path, index)]) else None
  }

  /** The hash of the last upload to an index of a key. */
  ghost function LastUpload(steps: seq<Step>, key: Key, index: int): Option<Digest>
    decreases |steps|
  {
    if steps == [] then None
    else
      var last := steps[|steps| - 1];
      if last.StoreChunk? && last.key == key && last.index == index then Some(last.hash)
      else LastUpload(steps[..|steps| - 1], key, index)
  }

  lemma RowOfStep(sha: Hasher, s: State, step: Step, key: Key, index: int)
    ensures Row(Apply(sha, s, step), key, index) ==
            if step.StoreChunk? && step.key == key && step.index == index then Some(step.hash) else Row(s, key, index)
  {
  }

  /** A row holds the last hash written to it, whatever else ran in between. */
  lemma {:induction false} RowHistory(sha: Hasher, s: State, steps: seq<Step>, key: Key, index: int)
    ensures Row(Run(sha, s, steps), key, index) ==
            if LastUpload(steps, key, index).Some? then LastUpload(steps, key, index) else Row(s, key, index)
    decreases |steps|
  {
    hide Row, Apply;
    if steps != [] {
      var init := steps[..|steps| - 1];
      RowHistory(sha, s, init, key, index);
      RowOfStep(sha, Run(sha, s, init), steps[|steps| - 1], key, index);
    }
  }

  /** The steps of a run that are about one key. */
  ghost function Own(steps: seq<Step>, key: Key): seq<Step>
    decreases |steps|
  {
    if steps == [] then []
    else
      var last := steps[|steps| - 1];
      Own(steps[..|steps| - 1], key) + (if last.key == key then [last] else [])
  }

  lemma {:induction false} OwnUploads(steps: seq<Step>, key: Key, index: int)
    ensures LastUpload(Own(steps, key), key, index) == LastUpload(steps, key, index)
    decreases |steps|
  {
    if steps != [] {
      var init, last := steps[..|steps| - 1], steps[|steps| - 1];
      OwnUploads(init, key, index);
      var own := Own(init, key);
      if last.key == key {
        assert (own + [last])[..|own + [last]| - 1] == own;
      } else {
        assert own + [] == own;
      }
    }
  }

  /** Equal rows give equal chunk lists. */
  lemma SameRowsSameChunks(a: State, b: State, key: Key)
    requires forall i :: Row(a, key, i) == Row(b, key, i)
    ensures RowHashes(a, key) == RowHashes(b, key)
  {
    var ra, rb := DbOf(a, key.client).chunks, DbOf(b, key.client).chunks;
    forall i
      ensures i in Indices(ra, key.path) <==> i in Indices(rb, key.path)
      ensures (key.path, i) in ra <==> (key.path, i) in rb
      ensures (key.path, i) in ra ==> ra[(key.path, i)] == rb[(key.path, i)]
    {
      assert Row(a, key, i) == Row(b, key, i);
      InIndices(ra, key.path, i);
      InIndices(rb, key.path, i);
    }
    assert Indices(ra, key.path) == Indices(rb, key.path);
  }

  /** A path's chunk list depends on the steps of its own client and path alone, in any interleaving. */
  lemma ChunkListIsOwn(sha: Hasher, s: State, steps: seq<Step>, key: Key)
    ensures RowHashes(Run(sha, s, steps), key) == RowHashes(Run(sha, s, Own(steps, key)), key)
  {
    hide Row, Run, Own, LastUpload;
    forall i
      ensures Row(Run(sha, s, steps), key, i) == Row(Run(sha, s, Own(steps, key)), key, i)
    {
      RowHistory(sha, s, steps, key, i);
      RowHistory(sha, s, Own(steps, key), key, i);
      OwnUploads(steps, key, i);
    }
    SameRowsSameChunks(Run(sha, s, steps), Run(sha, s, Own(steps, key)), key);
  }
}
