/** The content-addressed store (src/server/storage_manager.cpp): its state, its steps, and the class that takes them. */
module Store {
  import opened Content
  import opened Tables

  datatype Key = Key(client: string, path: string)

  /** One client's database. */
  datatype Db = Db(files: FileTable, chunks: ChunkTable)

  const EMPTY_DB: Db := Db(map[], map[])

  /** Chunk files by hash, databases by client, and the assembled file of each client's path. */
  datatype State = State(blobs: map<Digest, Bytes>, dbs: map<string, Db>, files: map<Key, Bytes>)

  const EMPTY: State := State(map[], map[], map[])

  function DbOf(s: State, client: string): Db {
    if client in s.dbs then s.dbs[client] else EMPTY_DB
  }

  /** The record of a key, deleted or not. */
  function RecordOf(s: State, key: Key): Option<FileRecord> {
    var files := DbOf(s, key.client).files;
    if key.path in files then Some(files[key.path]) else None
  }

  /** A client's database is created the first time it is asked for. */
  function Opened(s: State, client: string): State {
    s.(dbs := s.dbs[client := DbOf(s, client)])
  }

  // ---- Steps -----------------------------------------------------------------------

  datatype Step =
    | StoreChunk(key: Key, index: int, data: Bytes, hash: Digest)
    | Finalize(key: Key, total: int, now: int)
    | Delete(key: Key)

  function AfterStore(s: State, key: Key, index: int, data: Bytes, hash: Digest): State {
    var db := DbOf(s, key.client);
    s.(blobs := if hash in s.blobs then s.blobs else s.blobs[hash := data],
       dbs := s.dbs[key.client := db.(chunks := db.chunks[(key.path, index) := hash])])
  }

  /** An int32 count converted to a 64-bit size. */
  function AsSize(n: int): (r: int)
    ensures n >= 0 ==> r == n
    ensures n < 0 ==> r - n == TWO_64
  {
    if n < 0 then n + TWO_64 else n
  }

  /** A chunk's bytes, empty when there is no such chunk. */
  function ChunkBytes(blobs: map<Digest, Bytes>, hash: Digest): Bytes {
    if hash in blobs then blobs[hash] else []
  }

  /** What assembling writes, and whether it came to the end: it stops at the first chunk without bytes. */
  function Assembled(blobs: map<Digest, Bytes>, hashes: seq<Digest>): (Bytes, bool) {
    if hashes == [] then ([], true)
    else if ChunkBytes(blobs, hashes[0]) == [] then ([], false)
    else
      var rest := Assembled(blobs, hashes[1..]);
      (ChunkBytes(blobs, hashes[0]) + rest.0, rest.1)
  }

  function NewRecord(sha: Hasher, path: string, content: Bytes, now: int): FileRecord {
    FileRecord(path, |content|, now, sha(content), 1, false, false)
  }

  /** The hashes of the rows a key has. */
  ghost function RowHashes(s: State, key: Key): seq<Digest> {
    FileChunks(DbOf(s, key.client).chunks, key.path)
  }

  ghost predicate Finalizes(s: State, key: Key, total: int) {
    |RowHashes(s, key)| == AsSize(total) && Assembled(s.blobs, RowHashes(s, key)).1
  }

  /** A count mismatch leaves all but the opened database alone; a missing chunk leaves a cut-off file behind. */
  ghost function AfterFinalize(sha: Hasher, s: State, key: Key, total: int, now: int): State {
    var s1 := Opened(s, key.client);
    var hashes := RowHashes(s, key);
    if |hashes| != AsSize(total) then s1
    else
      var (content, complete) := Assembled(s.blobs, hashes);
      var s2 := s1.(files := s1.files[key := content]);
      if !complete then s2
      else
        var db := DbOf(s, key.client);
        s2.(dbs := s2.dbs[key.client := db.(files := db.files[key.path := NewRecord(sha, key.path, content, now)])])
  }

  function AfterDelete(s: State, key: Key): State {
    var db := DbOf(s, key.client);
    var files := if key.path in db.files then db.files[key.path := db.files[key.path].(deleted := true)] else db.files;
    s.(dbs := s.dbs[key.client := db.(files := files)])
  }

  ghost function Apply(sha: Hasher, s: State, step: Step): State {
    match step
    case StoreChunk(key, index, data, hash) => AfterStore(s, key, index, data, hash)
    case Finalize(key, total, now) => AfterFinalize(sha, s, key, total, now)
    case Delete(key) => AfterDelete(s, key)
  }

  ghost function Run(sha: Hasher, s: State, steps: seq<Step>): State
    decreases |steps|
  {
    if steps == [] then s else Apply(sha, Run(sha, s, steps[..|steps| - 1]), steps[|steps| - 1])
  }

  lemma RunOneMore(sha: Hasher, s: State, steps: seq<Step>, step: Step)
    ensures Run(sha, s, steps + [step]) == Apply(sha, Run(sha, s, steps), step)
  {
    assert (steps + [step])[..|steps + [step]| - 1] == steps;
  }

  lemma {:induction false} AssembledAppend(blobs: map<Digest, Bytes>, hashes: seq<Digest>, hash: Digest)
    requires Assembled(blobs, hashes).1
    ensures Assembled(blobs, hashes + [hash]) ==
            (Assembled(blobs, hashes).0 + ChunkBytes(blobs, hash), ChunkBytes(blobs, hash) != [])
  {
    if hashes == [] {
      assert [hash][1..] == [];
      var data := ChunkBytes(blobs, hash);
      assert data + [] == data && [] + data == data;
      assert Assembled(blobs, [] + [hash]) == (data, data != []);
    } else {
      AssembledAppend(blobs, hashes[1..], hash);
      assert (hashes + [hash])[1..] == hashes[1..] + [hash];
      var head, rest, last := ChunkBytes(blobs, hashes[0]), Assembled(blobs, hashes[1..]).0, ChunkBytes(blobs, hash);
      assert head + (rest + last) == (head + rest) + last;
    }
  }

  lemma AssembledNothing(blobs: map<Digest, Bytes>)
    ensures Assembled(blobs, []) == ([], true)
  {
  }

  lemma {:induction false} AssembledStops(blobs: map<Digest, Bytes>, xs: seq<Digest>, ys: seq<Digest>)
    requires !Assembled(blobs, xs).1
    ensures Assembled(blobs, xs + ys) == Assembled(blobs, xs)
  {
    assert (xs + ys)[1..] == xs[1..] + ys;
    if ChunkBytes(blobs, xs[0]) != [] {
      AssembledStops(blobs, xs[1..], ys);
    }
  }

  /** Assembling is decided once it stopped or came to the end. */
  lemma AssembledSoFar(blobs: map<Digest, Bytes>, hashes: seq<Digest>, i: nat)
    requires i <= |hashes| && (i == |hashes| || !Assembled(blobs, hashes[..i]).1)
    ensures Assembled(blobs, hashes) == Assembled(blobs, hashes[..i])
  {
    assert hashes == hashes[..i] + hashes[i..];
    if i < |hashes| {
      AssembledStops(blobs, hashes[..i], hashes[i..]);
    } else {
      assert hashes[..i] == hashes;
    }
  }

  lemma Overwrite<K, V>(m: map<K, V>, k: K, v: V, w: V)
    ensures m[k := v][k := w] == m[k := w]
  {
  }

  // ---- The store as an object ----------------------------------------------------------

  class StorageManager {
    const sha: Hasher
    var blobs: map<Digest, Bytes>
    var files: map<Key, Bytes>
    var clientDbs: map<string, MetadataDB>

    constructor (sha: Hasher)
      ensures Valid() && View() == EMPTY && this.sha == sha && clientDbs == map[]
    {
      this.sha := sha;
      blobs := map[];
      files := map[];
      clientDbs := map[];
    }

    /** Each client has a database of its own. */
    ghost predicate Valid()
      reads this, clientDbs.Values
    {
      && (forall c, d :: c in clientDbs && d in clientDbs && c != d ==> clientDbs[c] != clientDbs[d])
      && (forall c :: c in clientDbs ==> Keyed(clientDbs[c].files))
    }

    ghost function View(): State
      reads this, clientDbs.Values
    {
      State(blobs, map c | c in clientDbs :: Db(clientDbs[c].files, clientDbs[c].chunks), files)
    }

    /** Writing to one client's database shows in that client's entry of the view only. */
    twostate lemma OneDbChanged(client: string)
      requires old(Valid()) && unchanged(this)
      requires client in clientDbs && Keyed(clientDbs[client].files)
      requires forall c :: c in clientDbs && c != client ==> unchanged(clientDbs[c])
      ensures Valid()
      ensures View() == old(View()).(dbs := old(View()).dbs[client := Db(clientDbs[client].files, clientDbs[client].chunks)])
    {
    }

    lemma ViewParts()
      ensures View().blobs == blobs && View().files == files
    {
    }

    /** Writing a chunk file or an assembled file shows nowhere else. */
    twostate lemma OnlyFilesWritten()
      requires old(Valid()) && unchanged(`clientDbs)
      requires forall c :: c in clientDbs ==> unchanged(clientDbs[c])
      ensures Valid()
      ensures View() == State(blobs, old(View()).dbs, files)
    {
    }

    lemma AlreadyOpen(client: string)
      requires Valid() && client in clientDbs
      ensures View() == Opened(View(), client)
      ensures Db(clientDbs[client].files, clientDbs[client].chunks) == DbOf(View(), client)
      ensures Keyed(clientDbs[client].files)
      ensures forall c :: c in clientDbs && c != client ==> clientDbs[c] != clientDbs[client]
    {
    }

    twostate lemma DbAdded(client: string, new db: MetadataDB)
      requires old(Valid()) && client !in old(clientDbs) && clientDbs == old(clientDbs)[client := db]
      requires fresh(db) && db.files == map[] && db.chunks == map[]
      requires unchanged(`blobs) && unchanged(`files)
      requires forall c :: c in old(clientDbs) ==> unchanged(old(clientDbs)[c])
      ensures Valid() && View() == Opened(old(View()), client)
      ensures EMPTY_DB == DbOf(old(View()), client)
      ensures forall c :: c in clientDbs && c != client ==> clientDbs[c] != clientDbs[client]
    {
    }

    method GetClientDB(client: string) returns (db: MetadataDB)
      requires Valid()
      modifies this`clientDbs
      ensures Valid() && View() == Opened(old(View()), client)
      ensures client in clientDbs && clientDbs[client] == db
      ensures forall c :: c in clientDbs && c != client ==> clientDbs[c] != db
      ensures Db(db.files, db.chunks) == DbOf(old(View()), client) && Keyed(db.files)
      ensures fresh(clientDbs.Values - old(clientDbs.Values))
    {
      hide Valid, View;
      if client in clientDbs {
        AlreadyOpen(client);
        return clientDbs[client];
      }
      db := new MetadataDB();
      clientDbs := clientDbs[client := db];
      DbAdded(client, db);
    }

    method StoreChunk(key: Key, index: int, data: Bytes, hash: Digest)
      requires Valid()
      modifies this, clientDbs.Values
      ensures Valid() && fresh(clientDbs.Values - old(clientDbs.Values))
      ensures View() == Apply(sha, old(View()), Step.StoreChunk(key, index, data, hash))
    {
      hide Valid, View;
      ghost var was := View();
      ViewParts();
      if hash !in blobs {
        blobs := blobs[hash := data];
      }
      OnlyFilesWritten();
      var db := GetClientDB(key.client);
      label ready:
      db.InsertChunk(key.path, index, hash);
      OneDbChanged@ready(key.client);
      Overwrite(was.dbs, key.client, DbOf(was, key.client), Db(db.files, db.chunks));
    }

    method GetChunk(hash: Digest) returns (data: Bytes)
      ensures data == ChunkBytes(blobs, hash)
    {
      data := if hash in blobs then blobs[hash] else [];
    }

    method HasChunk(hash: Digest) returns (found: bool)
      ensures found <==> hash in blobs
    {
      found := hash in blobs;
    }

    method FinalizeFile(key: Key, total: int, now: int) returns (ok: bool)
      requires Valid()
      modifies this, clientDbs.Values
      ensures Valid() && fresh(clientDbs.Values - old(clientDbs.Values))
      ensures View() == Apply(sha, old(View()), Finalize(key, total, now))
      ensures ok == Finalizes(old(View()), key, total)
    {
      hide Valid, View, Assembled, FileChunks;
      ghost var was := View();
      ViewParts();
      var db := GetClientDB(key.client);
      label ready:
      var hashes := db.GetFileChunks(key.path);
      assert hashes == RowHashes(was, key);
      if |hashes| != AsSize(total) {
        return false;
      }
      var file: Bytes := [];
      var i := 0;
      ok := true;
      AssembledNothing(blobs);
      assert hashes[..0] == [];
      while i < |hashes| && ok
        modifies {}
        invariant 0 <= i <= |hashes|
        invariant Assembled(blobs, hashes[..i]) == (file, ok)
      {
        assert hashes[..i + 1] == hashes[..i] + [hashes[i]];
        AssembledAppend(blobs, hashes[..i], hashes[i]);
        var data := GetChunk(hashes[i]);
        ok := data != [];
        file := file + data;
        i := i + 1;
      }
      AssembledSoFar(blobs, hashes, i);
      files := files[key := file];
      OnlyFilesWritten@ready();
      if ok {
        label written:
        db.InsertOrUpdateFile(NewRecord(sha, key.path, file, now));
        OneDbChanged@written(key.client);
        Overwrite(was.dbs, key.client, DbOf(was, key.client), Db(db.files, db.chunks));
      }
    }

    method GetFileMetadata(key: Key) returns (record: Option<FileRecord>)
      requires Valid()
      modifies this`clientDbs
      ensures Valid() && fresh(clientDbs.Values - old(clientDbs.Values))
      ensures View() == Opened(old(View()), key.client)
      ensures record == RecordOf(old(View()), key)
    {
      var db := GetClientDB(key.client);
      record := db.GetFile(key.path);
    }

    method ListFiles(client: string) returns (found: seq<FileRecord>)
      requires Valid()
      modifies this`clientDbs
      ensures Valid() && fresh(clientDbs.Values - old(clientDbs.Values))
      ensures View() == Opened(old(View()), client)
      ensures Lists(found, DbOf(old(View()), client).files)
    {
      var db := GetClientDB(client);
      found := db.GetAllFiles();
    }

    method DeleteFile(key: Key)
      requires Valid()
      modifies this, clientDbs.Values
      ensures Valid() && fresh(clientDbs.Values - old(clientDbs.Values))
      ensures View() == Apply(sha, old(View()), Delete(key))
    {
      hide Valid, View;
      ghost var was := View();
      var db := GetClientDB(key.client);
      label ready:
      db.DeleteFile(key.path);
      OneDbChanged@ready(key.client);
      Overwrite(was.dbs, key.client, DbOf(was, key.client), Db(db.files, db.chunks));
    }
  }
}
