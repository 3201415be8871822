/** The two tables of src/core/metadata_db.cpp as maps with their primary keys, and the class that keeps them. */
module Tables {
  import opened Content

  datatype FileRecord = FileRecord(
    path: string, size: nat, modifiedTime: int, hash: Digest, version: int, isDirectory: bool, deleted: bool)

  datatype Option<+T> = None | Some(value: T)

  type FileTable = map<string, FileRecord>
  type ChunkTable = map<(string, int), Digest>

  // ---- Rows in index order ---------------------------------------------------------

  /** The chunk indices present for a path. */
  function Indices(rows: ChunkTable, path: string): set<int> {
    set k | k in rows && k.0 == path :: k.1
  }

  lemma InIndices(rows: ChunkTable, path: string, i: int)
    ensures i in Indices(rows, path) <==> (path, i) in rows
  {
    if (path, i) in rows {
      assert (path, i).0 == path && (path, i).1 == i;
    }
  }

  ghost predicate StrictlyAscending(s: seq<int>) {
    forall i, j :: 0 <= i < j < |s| ==> s[i] < s[j]
  }

  ghost predicate Enumerates(order: seq<int>, ids: set<int>) {
    StrictlyAscending(order) && forall i :: i in order <==> i in ids
  }

  lemma {:induction false} LeastExists(ids: set<int>) returns (m: int)
    requires ids != {}
    ensures m in ids && forall i :: i in ids ==> m <= i
  {
    var x := Pick(ids);
    var rest := ids - {x};
    assert ids == rest + {x};
    m := x;
    if rest != {} {
      var n := LeastExists(rest);
      m := if n < x then n else x;
    }
  }

  /** A set of indices has one ascending enumeration. */
  lemma {:induction false} EnumerationUnique(a: seq<int>, b: seq<int>, ids: set<int>)
    requires Enumerates(a, ids) && Enumerates(b, ids)
    ensures a == b
    decreases |a|
  {
    assert a != [] ==> a[0] in a;
    assert b != [] ==> b[0] in b;
    if a != [] && b != [] {
      assert a[0] in a;
      assert b[0] in b;
      var j :| 0 <= j < |b| && b[j] == a[0];
      var i :| 0 <= i < |a| && a[i] == b[0];
      assert a[0] == b[0];
      RestEnumerates(a, ids);
      RestEnumerates(b, ids);
      EnumerationUnique(a[1..], b[1..], ids - {a[0]});
      assert a == [a[0]] + a[1..] && b == [b[0]] + b[1..];
    }
  }

  lemma RestEnumerates(a: seq<int>, ids: set<int>)
    requires a != [] && Enumerates(a, ids)
    ensures Enumerates(a[1..], ids - {a[0]})
  {
    assert a == [a[0]] + a[1..];
    forall i
      ensures i in a[1..] <==> i in ids - {a[0]}
    {
      if i in a[1..] {
        var j :| 0 <= j < |a[1..]| && a[1..][j] == i;
        assert a[j + 1] == i;
        assert i in a;
      }
    }
  }

  lemma {:induction false} EnumerationExists(ids: set<int>) returns (order: seq<int>)
    ensures Enumerates(order, ids)
  {
    if ids == {} {
      order := [];
    } else {
      var m := LeastExists(ids);
      var rest := EnumerationExists(ids - {m});
      order := [m] + rest;
      LeastFirst(m, rest, ids);
    }
  }

  lemma LeastFirst(m: int, rest: seq<int>, ids: set<int>)
    requires m in ids && (forall i :: i in ids ==> m <= i) && Enumerates(rest, ids - {m})
    ensures Enumerates([m] + rest, ids)
  {
    forall j | 0 <= j < |rest|
      ensures m < rest[j]
    {
      assert rest[j] in rest;
    }
  }

  /** The indices in ascending order. */
  ghost function Ascending(ids: set<int>): (order: seq<int>)
    ensures Enumerates(order, ids)
  {
    assert exists order :: Enumerates(order, ids) by {
      var o := EnumerationExists(ids);
    }
    var order :| Enumerates(order, ids);
    order
  }

  /** The hashes of a path's rows by ascending index. */
  ghost function FileChunks(rows: ChunkTable, path: string): (hashes: seq<Digest>)
  {
    HashesAt(rows, path, Ascending(Indices(rows, path)))
  }

  ghost function HashesAt(rows: ChunkTable, path: string, order: seq<int>): (hashes: seq<Digest>)
    ensures |hashes| == |order|
  {
    seq(|order|, i requires 0 <= i < |order| => if (path, order[i]) in rows then rows[(path, order[i])] else "")
  }

  function Range(n: nat): (ids: set<int>)
    ensures |ids| == n && forall i :: i in ids <==> 0 <= i < n
  {
    if n == 0 then {} else Range(n - 1) + {n - 1}
  }

  lemma {:induction false} RangeEnumeration(order: seq<int>, n: nat)
    requires Enumerates(order, Range(n))
    ensures |order| == n && forall i :: 0 <= i < n ==> order[i] == i
  {
    var natural := seq(n, i => i);
    assert Enumerates(natural, Range(n)) by {
      forall i
        ensures i in natural <==> i in Range(n)
      {
        if i in Range(n) {
          assert natural[i] == i;
        }
      }
    }
    EnumerationUnique(order, natural, Range(n));
  }

  /** A path has n rows at indices 0 to n - 1: they come back in that order. */
  lemma CompleteRows(rows: ChunkTable, path: string, n: nat)
    requires forall i :: (path, i) in rows <==> 0 <= i < n
    ensures |FileChunks(rows, path)| == n
    ensures forall i :: 0 <= i < n ==> FileChunks(rows, path)[i] == rows[(path, i)]
  {
    var ids := Range(n);
    assert Indices(rows, path) == ids by {
      forall i
        ensures i in Indices(rows, path) <==> i in ids
      {
        InIndices(rows, path, i);
      }
    }
    RangeEnumeration(Ascending(ids), n);
  }

  lemma {:induction false} EnumerationSize(order: seq<int>, ids: set<int>)
    requires Enumerates(order, ids)
    ensures |order| == |ids|
    decreases |order|
  {
    if order == [] {
      assert forall i :: i in ids ==> i in order;
      assert ids == {};
    } else {
      assert order[0] in order;
      RestEnumerates(order, ids);
      EnumerationSize(order[1..], ids - {order[0]});
    }
  }

  lemma RowCount(rows: ChunkTable, path: string)
    ensures |FileChunks(rows, path)| == |Indices(rows, path)|
  {
    EnumerationSize(Ascending(Indices(rows, path)), Indices(rows, path));
  }

  lemma SameSizeSubset(a: set<int>, b: set<int>)
    requires a <= b && |a| == |b|
    ensures a == b
  {
    assert b == a + (b - a);
    assert |b - a| == |b| - |a|;
  }

  /** When rows 0 to n - 1 are all there, counting n rows means there is no other one, and conversely. */
  lemma CountMeansNoStaleRow(rows: ChunkTable, path: string, n: nat)
    requires forall i :: 0 <= i < n ==> (path, i) in rows
    ensures |FileChunks(rows, path)| == n <==> forall i :: (path, i) in rows ==> 0 <= i < n
  {
    var ids, range := Indices(rows, path), Range(n);
    forall i: int
      ensures i in ids <==> (path, i) in rows
    {
      InIndices(rows, path, i);
    }
    RowCount(rows, path);
    if |ids| == n {
      assert range <= ids;
      SameSizeSubset(range, ids);
    }
    if forall i :: (path, i) in rows ==> 0 <= i < n {
      assert ids == range;
    }
  }

  /** Visiting the least remaining index extends the enumeration of those already visited. */
  lemma VisitNext(visited: seq<int>, ids: set<int>, remaining: set<int>, index: int)
    requires remaining <= ids && index in remaining
    requires Enumerates(visited, ids - remaining)
    requires forall i, j :: i in visited && j in remaining ==> i < j
    ensures Enumerates(visited + [index], ids - (remaining - {index}))
  {
    forall i | 0 <= i < |visited|
      ensures visited[i] < index
    {
      assert visited[i] in visited;
    }
    forall i
      ensures i in visited + [index] <==> i in ids - (remaining - {index})
    {
      assert i in visited <==> i in ids - remaining;
    }
  }

  // ---- The tables as an object -------------------------------------------------------

  /** Each live record once, in any order. */
  ghost predicate Lists(files: seq<FileRecord>, table: FileTable) {
    && (forall i, j :: 0 <= i < j < |files| ==> files[i].path != files[j].path)
    && (forall i :: 0 <= i < |files| ==> files[i].path in table && table[files[i].path] == files[i] && !files[i].deleted)
    && (forall p :: p in table && !table[p].deleted ==> exists i :: 0 <= i < |files| && files[i].path == p)
  }

  /** A record is stored under its own path. */
  ghost predicate Keyed(table: FileTable) {
    forall p :: p in table ==> table[p].path == p
  }

  class MetadataDB {
    var files: FileTable
    var chunks: ChunkTable

    constructor ()
      ensures files == map[] && chunks == map[]
    {
      files := map[];
      chunks := map[];
    }

    method InsertOrUpdateFile(record: FileRecord)
      modifies this`files
      ensures files == old(files)[record.path := record]
    {
      files := files[record.path := record];
    }

    method GetFile(path: string) returns (record: Option<FileRecord>)
      ensures record == if path in files then Some(files[path]) else None
    {
      record := if path in files then Some(files[path]) else None;
    }

    /** A cursor over the live rows, in an order the query does not fix. */
    method GetAllFiles() returns (found: seq<FileRecord>)
      requires Keyed(files)
      ensures Lists(found, files)
    {
      found := [];
      var remaining := files.Keys;
      while remaining != {}
        invariant remaining <= files.Keys
        invariant forall i, j :: 0 <= i < j < |found| ==> found[i].path != found[j].path
        invariant forall i :: 0 <= i < |found| ==>
                    && found[i].path in files && found[i].path !in remaining
                    && files[found[i].path] == found[i] && !found[i].deleted
        invariant forall p :: p in files && p !in remaining && !files[p].deleted ==>
                    exists i :: 0 <= i < |found| && found[i].path == p
        decreases |remaining|
      {
        var path :| path in remaining;
        remaining := remaining - {path};
        if !files[path].deleted {
          ghost var before := found;
          found := found + [files[path]];
          assert found[|before|].path == path;
          forall p | p in files && p !in remaining && !files[p].deleted
            ensures exists i :: 0 <= i < |found| && found[i].path == p
          {
            if p != path {
              var i :| 0 <= i < |before| && before[i].path == p;
              assert found[i].path == p;
            }
          }
        }
      }
    }

    method InsertChunk(path: string, index: int, hash: Digest)
      modifies this`chunks
      ensures chunks == old(chunks)[(path, index) := hash]
    {
      chunks := chunks[(path, index) := hash];
    }

    /** UPDATE with a WHERE clause: nothing happens for a path without a record. */
    method DeleteFile(path: string)
      modifies this`files
      ensures files == if path in old(files) then old(files)[path := old(files)[path].(deleted := true)] else old(files)
    {
      if path in files {
        files := files[path := files[path].(deleted := true)];
      }
    }

    /** A cursor in ascending index order. */
    method GetFileChunks(path: string) returns (hashes: seq<Digest>)
      ensures hashes == FileChunks(chunks, path)
    {
      hashes := [];
      var remaining := Indices(chunks, path);
      ghost var visited: seq<int> := [];
      while remaining != {}
        invariant forall i :: i in Indices(chunks, path) ==> (path, i) in chunks
        invariant remaining <= Indices(chunks, path)
        invariant Enumerates(visited, Indices(chunks, path) - remaining)
        invariant forall i, j :: i in visited && j in remaining ==> i < j
        invariant hashes == HashesAt(chunks, path, visited)
        decreases |remaining|
      {
        var least := LeastExists(remaining);
        var index :| index in remaining && forall j :: j in remaining ==> index <= j;
        assert index in Indices(chunks, path);
        hashes := hashes + [chunks[(path, index)]];
        VisitNext(visited, Indices(chunks, path), remaining, index);
        visited := visited + [index];
        remaining := remaining - {index};
      }
      assert Indices(chunks, path) - remaining == Indices(chunks, path);
      EnumerationUnique(visited, Ascending(Indices(chunks, path)), Indices(chunks, path));
    }

    method HasChunk(hash: Digest) returns (found: bool)
      ensures found <==> exists k :: k in chunks && chunks[k] == hash
    {
      found := hash in chunks.Values;
    }
  }
}
