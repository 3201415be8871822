/** The service calls of src/server/sync_service.cpp that touch the store: uploading, and reporting changes. */
module SyncService {
  import opened Content
  import opened Tables
  import opened Store

  // ---- Messages ------------------------------------------------------------------------

  datatype UploadChunkRequest =
    UploadChunkRequest(clientId: string, filePath: string, index: int, data: Bytes, hash: Digest, totalChunks: int)

  datatype UploadChunkResponse = UploadChunkResponse(success: bool, message: string, chunksReceived: nat)

  datatype FileMetadata = FileMetadata(path: string, hash: Digest)

  datatype ChangeType = CREATED | MODIFIED | DELETED | RENAMED

  datatype FileChange = FileChange(path: string, kind: ChangeType)

  datatype SyncResponse = SyncResponse(changes: seq<FileChange>, serverTime: int)

  // ---- What an upload stream asks for -----------------------------------------------------

  /** The client, path and chunk count of a stream: those of its first message with a client. */
  datatype Header = Header(client: string, path: string, total: int)

  function HeaderOf(requests: seq<UploadChunkRequest>): Header {
    if requests == [] then Header("", "", 0)
    else
      var before, last := HeaderOf(requests[..|requests| - 1]), requests[|requests| - 1];
      if before.client == "" then Header(last.clientId, last.filePath, last.totalChunks) else before
  }

  /**
    * The first named request decides client, path and count for good; until one comes, each request decides for itself.
    */
  lemma {:induction false} FirstNamedDecides(requests: seq<UploadChunkRequest>, i: nat)
    requires i < |requests| && forall j :: 0 <= j < i ==> requests[j].clientId == ""
    requires i < |requests| - 1 ==> requests[i].clientId != ""
    ensures HeaderOf(requests) == Header(requests[i].clientId, requests[i].filePath, requests[i].totalChunks)
    decreases |requests|
  {
    var n := |requests| - 1;
    if n > 0 {
      FirstNamedDecides(requests[..n], if i < n then i else n - 1);
    }
  }

  function UploadSteps(requests: seq<UploadChunkRequest>): (steps: seq<Step>)
    ensures |steps| == |requests|
  {
    if requests == [] then []
    else
      var h, last := HeaderOf(requests), requests[|requests| - 1];
      UploadSteps(requests[..|requests| - 1]) + [StoreChunk(Key(h.client, h.path), last.index, last.data, last.hash)]
  }

  // ---- What a change report says ------------------------------------------------------------

  /** The first local file with a path. */
  function FirstMatch(localFiles: seq<FileMetadata>, path: string): Option<FileMetadata> {
    if localFiles == [] then None
    else if localFiles[0].path == path then Some(localFiles[0])
    else FirstMatch(localFiles[1..], path)
  }

  function ChangesFor(serverFile: FileRecord, localFiles: seq<FileMetadata>, lastSyncTime: int): seq<FileChange> {
    match FirstMatch(localFiles, serverFile.path)
    case Some(f) => if f.hash != serverFile.hash then [FileChange(serverFile.path, MODIFIED)] else []
    case None => if serverFile.modifiedTime > lastSyncTime then [FileChange(serverFile.path, CREATED)] else []
  }

  function ChangesOf(serverFiles: seq<FileRecord>, localFiles: seq<FileMetadata>, lastSyncTime: int): seq<FileChange> {
    if serverFiles == [] then []
    else
      var init := serverFiles[..|serverFiles| - 1];
      ChangesOf(init, localFiles, lastSyncTime) + ChangesFor(serverFiles[|serverFiles| - 1], localFiles, lastSyncTime)
  }

  lemma {:induction false} NoMatchBefore(localFiles: seq<FileMetadata>, path: string, i: nat)
    requires i <= |localFiles| && forall j :: 0 <= j < i ==> localFiles[j].path != path
    ensures FirstMatch(localFiles, path) == FirstMatch(localFiles[i..], path)
  {
    if i == 0 {
      assert localFiles[0..] == localFiles;
    } else {
      NoMatchBefore(localFiles[1..], path, i - 1);
      assert localFiles[1..][i - 1..] == localFiles[i..];
    }
  }

  lemma MatchHere(localFiles: seq<FileMetadata>, path: string, i: nat)
    requires i < |localFiles| && forall j :: 0 <= j < i ==> localFiles[j].path != path
    ensures localFiles[i].path == path ==> FirstMatch(localFiles, path) == Some(localFiles[i])
  {
    NoMatchBefore(localFiles, path, i);
  }

  lemma NoMatchAtAll(localFiles: seq<FileMetadata>, path: string)
    requires forall j :: 0 <= j < |localFiles| ==> localFiles[j].path != path
    ensures FirstMatch(localFiles, path) == None
  {
    NoMatchBefore(localFiles, path, |localFiles|);
    assert localFiles[|localFiles|..] == [];
  }

  lemma NoChanges(localFiles: seq<FileMetadata>, lastSyncTime: int)
    ensures ChangesOf([], localFiles, lastSyncTime) == []
  {
  }

  lemma OneMoreFile(files: seq<FileRecord>, i: nat, localFiles: seq<FileMetadata>, lastSyncTime: int)
    requires i < |files|
    ensures ChangesOf(files[..i + 1], localFiles, lastSyncTime) ==
            ChangesOf(files[..i], localFiles, lastSyncTime) + ChangesFor(files[i], localFiles, lastSyncTime)
  {
    assert files[..i + 1][..i] == files[..i];
  }

  class SyncServiceImpl {
    const storage: StorageManager

    constructor (storage: StorageManager)
      ensures this.storage == storage
    {
      this.storage := storage;
    }

    /** Stores every chunk of the stream as it comes, then finalizes. */
    method UploadFile(requests: seq<UploadChunkRequest>, now: int) returns (response: UploadChunkResponse)
      requires storage.Valid()
      modifies storage, storage.clientDbs.Values
      ensures storage.Valid() && fresh(storage.clientDbs.Values - old(storage.clientDbs.Values))
      ensures var h := HeaderOf(requests);
              var key := Key(h.client, h.path);
              && storage.View() ==
                 Run(storage.sha, old(storage.View()), UploadSteps(requests) + [Finalize(key, h.total, now)])
              && response.success == Finalizes(Run(storage.sha, old(storage.View()), UploadSteps(requests)), key, h.total)
      ensures response == if response.success then UploadChunkResponse(true, "", |requests|)
                          else UploadChunkResponse(false, "Failed to finalize file", 0)
    {
      hide Apply, Finalizes, Run, StorageManager.Valid, StorageManager.View;
      ghost var s0 := storage.View();
      var clientId, filePath, totalChunks := "", "", 0;
      var chunksReceived := 0;
      RunNothing(storage.sha, s0);
      assert requests[..0] == [];
      while chunksReceived < |requests|
        invariant 0 <= chunksReceived <= |requests|
        invariant storage.Valid() && fresh(storage.clientDbs.Values - old(storage.clientDbs.Values))
        invariant Header(clientId, filePath, totalChunks) == HeaderOf(requests[..chunksReceived])
        invariant storage.View() == Run(storage.sha, s0, UploadSteps(requests[..chunksReceived]))
      {
        var request := requests[chunksReceived];
        assert requests[..chunksReceived + 1][..chunksReceived] == requests[..chunksReceived];
        if clientId == "" {
          clientId := request.clientId;
          filePath := request.filePath;
          totalChunks := request.totalChunks;
        }
        RunOneMore(storage.sha, s0, UploadSteps(requests[..chunksReceived]),
                   StoreChunk(Key(clientId, filePath), request.index, request.data, request.hash));
        storage.StoreChunk(Key(clientId, filePath), request.index, request.data, request.hash);
        chunksReceived := chunksReceived + 1;
      }
      assert requests[..chunksReceived] == requests;
      RunOneMore(storage.sha, s0, UploadSteps(requests), Finalize(Key(clientId, filePath), totalChunks, now));
      var ok := storage.FinalizeFile(Key(clientId, filePath), totalChunks, now);
      if ok {
        response := UploadChunkResponse(true, "", chunksReceived);
      } else {
        response := UploadChunkResponse(false, "Failed to finalize file", 0);
      }
    }

    /** One pass over the live server records, each looked up in the client's list. */
    method ComputeChanges(clientId: string, localFiles: seq<FileMetadata>, lastSyncTime: int)
      returns (changes: seq<FileChange>, ghost serverFiles: seq<FileRecord>)
      requires storage.Valid()
      modifies storage`clientDbs
      ensures storage.Valid() && storage.View() == Opened(old(storage.View()), clientId)
      ensures fresh(storage.clientDbs.Values - old(storage.clientDbs.Values))
      ensures Lists(serverFiles, DbOf(old(storage.View()), clientId).files)
      ensures changes == ChangesOf(serverFiles, localFiles, lastSyncTime)
    {
      hide Lists, FirstMatch, ChangesOf, Opened, StorageManager.Valid, StorageManager.View;
      var listed := storage.ListFiles(clientId);
      serverFiles := listed;
      changes := [];
      NoChanges(localFiles, lastSyncTime);
      assert listed[..0] == [];
      for i := 0 to |listed|
        modifies {}
        invariant changes == ChangesOf(listed[..i], localFiles, lastSyncTime)
      {
        var serverFile := listed[i];
        OneMoreFile(listed, i, localFiles, lastSyncTime);
        var found := false;
        var j := 0;
        ghost var before := changes;
        while j < |localFiles| && !found
          invariant 0 <= j <= |localFiles|
          invariant !found ==> changes == before && forall k :: 0 <= k < j ==> localFiles[k].path != serverFile.path
          invariant found ==> FirstMatch(localFiles, serverFile.path).Some? &&
                              changes == before + ChangesFor(serverFile, localFiles, lastSyncTime)
        {
          var localFile := localFiles[j];
          MatchHere(localFiles, serverFile.path, j);
          if localFile.path == serverFile.path {
            found := true;
            if localFile.hash != serverFile.hash {
              changes := changes + [FileChange(serverFile.path, MODIFIED)];
            } else {
              assert changes + [] == changes;
            }
          }
          j := j + 1;
        }
        if !found {
          NoMatchAtAll(localFiles, serverFile.path);
          if serverFile.modifiedTime > lastSyncTime {
            changes := changes + [FileChange(serverFile.path, CREATED)];
          } else {
            assert changes + [] == changes;
          }
        }
      }
      assert listed[..|listed|] == listed;
    }

    /** The server time is read after the changes are computed. */
    method Sync(clientId: string, localFiles: seq<FileMetadata>, lastSyncTime: int, now: int)
      returns (response: SyncResponse, ghost serverFiles: seq<FileRecord>)
      requires storage.Valid()
      modifies storage`clientDbs
      ensures storage.Valid() && storage.View() == Opened(old(storage.View()), clientId)
      ensures fresh(storage.clientDbs.Values - old(storage.clientDbs.Values))
      ensures Lists(serverFiles, DbOf(old(storage.View()), clientId).files)
      ensures response == SyncResponse(ChangesOf(serverFiles, localFiles, lastSyncTime), now)
    {
      hide Lists, ChangesOf, StorageManager.Valid, StorageManager.View;
      var listed := storage.ListFiles(clientId);
      var changes;
      changes, serverFiles := ComputeChanges(clientId, localFiles, lastSyncTime);
      response := SyncResponse(changes, now);
    }
  }

  lemma RunNothing(sha: Hasher, s: State)
    ensures Run(sha, s, []) == s
  {
  }
}
