/** What the service calls achieve: a stream delivers its file, and repeated syncing converges. */
module SyncLaws {
  import opened Content
  import opened Chunking
  import opened ChunkLaws
  import opened Tables
  import opened Store
  import opened StoreLaws
  import opened Uploading
  import opened SyncService

  // ---- One upload stream ---------------------------------------------------------------------

  /** A request that opens the stream of an upload. */
  ghost predicate Opens(key: Key, total: int, r: UploadChunkRequest) {
    r.clientId == key.client && r.filePath == key.path && r.totalChunks == total
  }

  /** A request carries one of the messages of an upload. */
  ghost predicate CarriesMessage(z: Sizes, sha: Hasher, s: State, key: Key, content: Bytes, r: UploadChunkRequest) {
    MessageOf(z, sha, s, key, content, StoreChunk(key, r.index, r.data, r.hash))
  }

  /**
    * The first request names client, path and count, each request carries a message in the state it meets, and each chunk
    * has one. What later requests give as client, path and count is not looked at.
    */
  ghost predicate CarriesUpload(z: Sizes, sha: Hasher, s0: State, key: Key, content: Bytes, requests: seq<UploadChunkRequest>) {
    && (requests != [] ==> Opens(key, Count(z, content), requests[0]))
    && (forall i :: 0 <= i < |requests| ==>
          CarriesMessage(z, sha, Run(sha, s0, UploadSteps(requests[..i])), key, content, requests[i]))
    && (forall n :: 0 <= n < Count(z, content) ==> HasIndex(requests, n))
  }

  ghost predicate HasIndex(requests: seq<UploadChunkRequest>, n: int) {
    exists i :: 0 <= i < |requests| && requests[i].index == n
  }

  /** Which client and path a request of a stream is stored for: its own until a named one comes, and that one's from then on. */
  lemma {:induction false} StepOfRequest(requests: seq<UploadChunkRequest>, j: nat, i: nat)
    requires i <= j < |requests| && forall k :: 0 <= k < i ==> requests[k].clientId == ""
    requires i < j ==> requests[i].clientId != ""
    ensures UploadSteps(requests)[j] ==
            StoreChunk(Key(requests[i].clientId, requests[i].filePath), requests[j].index, requests[j].data, requests[j].hash)
    decreases |requests|
  {
    var n := |requests| - 1;
    if j < n {
      StepOfRequest(requests[..n], j, i);
    } else {
      FirstNamedDecides(requests, i);
    }
  }

  /** A stream whose first request is named is stored and finalized for that client and path, with that count. */
  lemma StepsOfStream(key: Key, total: int, requests: seq<UploadChunkRequest>)
    requires key.client != "" && (requests != [] ==> Opens(key, total, requests[0]))
    ensures requests != [] ==> HeaderOf(requests) == Header(key.client, key.path, total)
    ensures forall j :: 0 <= j < |requests| ==>
              UploadSteps(requests)[j] == StoreChunk(key, requests[j].index, requests[j].data, requests[j].hash)
  {
    hide HeaderOf, UploadSteps;
    if requests != [] {
      FirstNamedDecides(requests, 0);
    }
    forall j | 0 <= j < |requests|
      ensures UploadSteps(requests)[j] == StoreChunk(key, requests[j].index, requests[j].data, requests[j].hash)
    {
      StepOfRequest(requests, j, 0);
    }
  }

  lemma {:induction false} SentSomewhere(steps: seq<Step>, j: nat)
    requires j < |steps| && steps[j].StoreChunk?
    ensures LastUpload(steps, steps[j].key, steps[j].index).Some?
    decreases |steps|
  {
    if j < |steps| - 1 {
      assert steps[..|steps| - 1][j] == steps[j];
      SentSomewhere(steps[..|steps| - 1], j);
    }
  }

  /** The steps of a prefix of a stream are the first steps of the stream. */
  lemma {:induction false} StepsOfPrefix(requests: seq<UploadChunkRequest>, n: nat)
    requires n <= |requests|
    ensures UploadSteps(requests[..n]) == UploadSteps(requests)[..n]
    decreases |requests|
  {
    if n == |requests| {
      assert requests[..n] == requests;
    } else {
      var init := requests[..|requests| - 1];
      StepsOfPrefix(init, n);
      assert init[..n] == requests[..n];
    }
  }

  /** Steps allowed one by one are allowed as a run. */
  lemma {:induction false} AllowedOneByOne(z: Sizes, sha: Hasher, s0: State, plan: map<Key, Bytes>, steps: seq<Step>)
    requires forall j :: 0 <= j < |steps| ==> Allowed(z, sha, Run(sha, s0, steps[..j]), plan, steps[j])
    ensures AllAllowed(z, sha, s0, plan, steps)
    decreases |steps|
  {
    hide Allowed, Run;
    if steps != [] {
      var init := steps[..|steps| - 1];
      forall j | 0 <= j < |init|
        ensures Allowed(z, sha, Run(sha, s0, init[..j]), plan, init[j])
      {
        assert init[..j] == steps[..j] && init[j] == steps[j];
      }
      AllowedOneByOne(z, sha, s0, plan, init);
    }
  }

  lemma StreamAllowed(z: Sizes, sha: Hasher, s0: State, key: Key, content: Bytes, requests: seq<UploadChunkRequest>)
    requires key.client != "" && CarriesUpload(z, sha, s0, key, content, requests)
    ensures AllAllowed(z, sha, s0, map[key := content], UploadSteps(requests))
  {
    hide Run, Pieces, UploadSteps, HeaderOf;
    var plan, steps := map[key := content], UploadSteps(requests);
    StepsOfStream(key, Count(z, content), requests);
    forall j | 0 <= j < |steps|
      ensures Allowed(z, sha, Run(sha, s0, steps[..j]), plan, steps[j])
    {
      StepsOfPrefix(requests, j);
      assert CarriesMessage(z, sha, Run(sha, s0, UploadSteps(requests[..j])), key, content, requests[j]);
    }
    AllowedOneByOne(z, sha, s0, plan, steps);
  }

  lemma StreamSendsAll(z: Sizes, sha: Hasher, s0: State, key: Key, content: Bytes, requests: seq<UploadChunkRequest>)
    requires key.client != "" && CarriesUpload(z, sha, s0, key, content, requests)
    ensures AllSent(z, key, content, UploadSteps(requests))
  {
    hide Run, Pieces, UploadSteps, HeaderOf, LastUpload;
    var steps := UploadSteps(requests);
    StepsOfStream(key, Count(z, content), requests);
    forall n | 0 <= n < Count(z, content)
      ensures LastUpload(steps, key, n).Some?
    {
      assert HasIndex(requests, n);
      var i :| 0 <= i < |requests| && requests[i].index == n;
      SentSomewhere(steps, i);
    }
  }

  /**
    * One call of UploadFile. A stream whose first request names client, path and count, with one request per chunk, in any order and with repeats, leaving out the bytes of
    * chunks the server has by then, answers success exactly when the path had no stale row, and then the server holds the
    * file.
    */
  lemma StreamDelivers(z: Sizes, sha: Hasher, s0: State, key: Key, content: Bytes, requests: seq<UploadChunkRequest>,
                       contents: set<Bytes>, now: int)
    requires HonestBlobs(sha, s0)
    requires key.client != "" && requests != [] && CarriesUpload(z, sha, s0, key, content, requests)
    requires NoCollision(z, sha, Run(sha, s0, UploadSteps(requests)), map[key := content], contents)
    ensures HeaderOf(requests) == Header(key.client, key.path, Count(z, content))
    ensures Finalizes(Run(sha, s0, UploadSteps(requests)), key, Count(z, content)) <==> NoStaleRow(z, s0, key, content)
    ensures NoStaleRow(z, s0, key, content) ==>
              Delivered(sha, Run(sha, s0, UploadSteps(requests) + [Finalize(key, Count(z, content), now)]), key, content, now)
  {
    hide Run, Finalizes, NoStaleRow, Delivered, Pieces, UploadSteps, HeaderOf, NoCollision, HonestBlobs, AllSent, AllAllowed;
    StepsOfStream(key, Count(z, content), requests);
    StreamAllowed(z, sha, s0, key, content, requests);
    StreamSendsAll(z, sha, s0, key, content, requests);
    UploadDelivers(z, sha, s0, map[key := content], UploadSteps(requests), contents, key, now);
  }

  // ---- Repeated syncing --------------------------------------------------------------------------

  /** One client's view: the server store, the client's files by hash, and the time of the last reply. */
  datatype System = System(store: State, local: map<string, Digest>, last: int)

  datatype SyncStep =
    | Server(step: Step)
    | LocalEdit(path: string, hash: Digest)
    | SyncCall(now: int, serverFiles: seq<FileRecord>, report: seq<FileMetadata>)

  /** The request names each local path, with its hash. */
  ghost predicate Reports(report: seq<FileMetadata>, local: map<string, Digest>) {
    && (forall i :: 0 <= i < |report| ==> report[i].path in local && local[report[i].path] == report[i].hash)
    && (forall p :: p in local ==> exists i :: 0 <= i < |report| && report[i].path == p)
  }

  ghost function ServerFiles(y: System, client: string): FileTable {
    DbOf(y.store, client).files
  }

  /** A finalization for this client is stamped later than its last reply; a request reports what the client has. */
  ghost predicate Possible(y: System, client: string, step: SyncStep) {
    match step
    case Server(s) => s.Finalize? && s.key.client == client ==> s.now > y.last
    case LocalEdit(_, _) => true
    case SyncCall(_, serverFiles, report) => Lists(serverFiles, ServerFiles(y, client)) && Reports(report, y.local)
  }

  /** The client fetches every path it is told about. */
  ghost function Fetched(local: map<string, Digest>, changes: seq<FileChange>, files: FileTable): map<string, Digest> {
    if changes == [] then local
    else
      var last := changes[|changes| - 1];
      var before := Fetched(local, changes[..|changes| - 1], files);
      if last.path in files then before[last.path := files[last.path].hash] else before
  }

  ghost function Next(sha: Hasher, client: string, y: System, step: SyncStep): System {
    match step
    case Server(s) => y.(store := Apply(sha, y.store, s))
    case LocalEdit(path, hash) => y.(local := y.local[path := hash])
    case SyncCall(now, serverFiles, report) =>
      var changes := ChangesOf(serverFiles, report, y.last);
      System(Opened(y.store, client), Fetched(y.local, changes, ServerFiles(y, client)), now)
  }

  ghost predicate Live(files: FileTable, path: string) {
    path in files && !files[path].deleted
  }

  /** Every live server record is either held by the client or younger than its last reply. */
  ghost predicate Tracked(y: System, client: string) {
    && Keyed(ServerFiles(y, client))
    && forall p :: Live(ServerFiles(y, client), p) ==> p in y.local || ServerFiles(y, client)[p].modifiedTime > y.last
  }

  /** The client holds every live server record with its hash. */
  ghost predicate Agrees(y: System, client: string) {
    forall p :: Live(ServerFiles(y, client), p) ==> p in y.local && y.local[p] == ServerFiles(y, client)[p].hash
  }

  // ---- One sync ------------------------------------------------------------------------------------

  lemma {:induction false} MatchOfReport(report: seq<FileMetadata>, local: map<string, Digest>, path: string)
    requires forall i :: 0 <= i < |report| ==> report[i].path in local && local[report[i].path] == report[i].hash
    ensures FirstMatch(report, path).Some? <==> exists i :: 0 <= i < |report| && report[i].path == path
    ensures FirstMatch(report, path).Some? ==> path in local && FirstMatch(report, path).value.hash == local[path]
  {
    if report != [] && report[0].path != path {
      MatchOfReport(report[1..], local, path);
      if FirstMatch(report, path).Some? {
        var i :| 0 <= i < |report[1..]| && report[1..][i].path == path;
        assert report[i + 1].path == path;
      }
      if i :| 0 <= i < |report| && report[i].path == path {
        assert report[1..][i - 1].path == path;
      }
    }
  }

  /** A path has to be fetched when the client has another hash, or has none and the record is younger than its last reply. */
  ghost predicate NeedsFetch(local: map<string, Digest>, r: FileRecord, last: int) {
    if r.path in local then local[r.path] != r.hash else r.modifiedTime > last
  }

  lemma ChangesForOne(r: FileRecord, report: seq<FileMetadata>, local: map<string, Digest>, last: int)
    requires Reports(report, local)
    ensures ChangesFor(r, report, last) ==
            if NeedsFetch(local, r, last) then [FileChange(r.path, if r.path in local then MODIFIED else CREATED)] else []
  {
    MatchOfReport(report, local, r.path);
  }

  /** A listing has a record of a path that needs fetching. */
  ghost predicate SomeNeed(local: map<string, Digest>, listing: seq<FileRecord>, last: int, p: string) {
    listing != [] &&
    (var r := listing[|listing| - 1];
     (r.path == p && NeedsFetch(local, r, last)) || SomeNeed(local, listing[..|listing| - 1], last, p))
  }

  lemma {:induction false} SomeNeedIff(local: map<string, Digest>, listing: seq<FileRecord>, last: int, p: string)
    ensures SomeNeed(local, listing, last, p) <==>
            exists i :: 0 <= i < |listing| && listing[i].path == p && NeedsFetch(local, listing[i], last)
  {
    hide NeedsFetch;
    if listing != [] {
      var init := listing[..|listing| - 1];
      SomeNeedIff(local, init, last, p);
      if i :| 0 <= i < |listing| && listing[i].path == p && NeedsFetch(local, listing[i], last) {
        assert i < |init| ==> init[i] == listing[i];
      }
      if i :| 0 <= i < |init| && init[i].path == p && NeedsFetch(local, init[i], last) {
        assert init[i] == listing[i];
      }
    }
  }

  /** What the client holds of a path after fetching the changes of a listing. */
  lemma {:induction false} FetchedAt(files: FileTable, listing: seq<FileRecord>, report: seq<FileMetadata>,
                                     local: map<string, Digest>, last: int, p: string)
    requires Reports(report, local)
    requires forall i :: 0 <= i < |listing| ==> listing[i].path in files && files[listing[i].path] == listing[i]
    ensures var after := Fetched(local, ChangesOf(listing, report, last), files);
            if SomeNeed(local, listing, last, p)
            then p in files && p in after && after[p] == files[p].hash
            else (p in after <==> p in local) && (p in local ==> after[p] == local[p])
    decreases |listing|
  {
    hide Reports, NeedsFetch, ChangesFor;
    if listing != [] {
      var init, r := listing[..|listing| - 1], listing[|listing| - 1];
      FetchedAt(files, init, report, local, last, p);
      ChangesForOne(r, report, local, last);
      var before := ChangesOf(init, report, last);
      if NeedsFetch(local, r, last) {
        var c := FileChange(r.path, if r.path in local then MODIFIED else CREATED);
        assert (before + [c])[..|before + [c]| - 1] == before;
      } else {
        assert before + [] == before;
      }
    }
  }

  /** One call, path by path: live records that need it are fetched, everything else the client has stays. */
  lemma SyncAt(sha: Hasher, client: string, y: System, step: SyncStep, p: string)
    requires step.SyncCall? && Possible(y, client, step) && Keyed(ServerFiles(y, client))
    ensures var files, after := ServerFiles(y, client), Next(sha, client, y, step).local;
            if Live(files, p) && NeedsFetch(y.local, files[p], y.last)
            then p in files && p in after && after[p] == files[p].hash
            else (p in after <==> p in y.local) && (p in y.local ==> after[p] == y.local[p])
  {
    hide Reports, NeedsFetch, ChangesOf, Fetched;
    var files := ServerFiles(y, client);
    var listing := step.serverFiles;
    FetchedAt(files, listing, step.report, y.local, y.last, p);
    SomeNeedIff(y.local, listing, y.last, p);
    if Live(files, p) && NeedsFetch(y.local, files[p], y.last) {
      var i :| 0 <= i < |listing| && listing[i].path == p;
      assert listing[i] == files[p];
    }
  }

  /** A call brings client and server together exactly when every live record was held or younger than the last reply. */
  lemma SyncAgreesIff(sha: Hasher, client: string, y: System, step: SyncStep)
    requires step.SyncCall? && Possible(y, client, step) && Keyed(ServerFiles(y, client))
    ensures Agrees(Next(sha, client, y, step), client) <==> Tracked(y, client)
  {
    hide Possible, Keyed;
    var files, z := ServerFiles(y, client), Next(sha, client, y, step);
    SyncKeepsServer(sha, client, y, step);
    assert forall p :: Live(files, p) ==> files[p].path == p by {
      KeyedPaths(files);
    }
    if Tracked(y, client) {
      forall p | Live(files, p)
        ensures p in z.local && z.local[p] == files[p].hash
      {
        SyncAt(sha, client, y, step, p);
      }
    } else {
      var p :| Live(files, p) && !(p in y.local || files[p].modifiedTime > y.last);
      SyncAt(sha, client, y, step, p);
    }
  }

  lemma KeyedPaths(files: FileTable)
    requires Keyed(files)
    ensures forall p :: Live(files, p) ==> files[p].path == p
  {
  }

  lemma SyncKeepsServer(sha: Hasher, client: string, y: System, step: SyncStep)
    requires step.SyncCall?
    ensures ServerFiles(Next(sha, client, y, step), client) == ServerFiles(y, client)
  {
  }

  /** Syncing again at once reports nothing, in whatever order the server lists and the client reports. */
  lemma NothingLeft(client: string, y: System, serverFiles: seq<FileRecord>, report: seq<FileMetadata>, last: int)
    requires Agrees(y, client) && Keyed(ServerFiles(y, client))
    requires Lists(serverFiles, ServerFiles(y, client)) && Reports(report, y.local)
    ensures ChangesOf(serverFiles, report, last) == []
  {
    var files := ServerFiles(y, client);
    forall i | 0 <= i < |serverFiles|
      ensures !NeedsFetch(y.local, serverFiles[i], last)
    {
      assert Live(files, serverFiles[i].path);
    }
    NoNeedNoChange(serverFiles, report, y.local, last);
  }

  lemma {:induction false} NoNeedNoChange(listing: seq<FileRecord>, report: seq<FileMetadata>, local: map<string, Digest>, last: int)
    requires Reports(report, local)
    requires forall i :: 0 <= i < |listing| ==> !NeedsFetch(local, listing[i], last)
    ensures ChangesOf(listing, report, last) == []
  {
    hide Reports, NeedsFetch, ChangesFor;
    if listing != [] {
      NoNeedNoChange(listing[..|listing| - 1], report, local, last);
      ChangesForOne(listing[|listing| - 1], report, local, last);
    }
  }

  // ---- What a reply says --------------------------------------------------------------------------

  /** The i-th local file is the first one with a path. */
  ghost predicate FirstAt(report: seq<FileMetadata>, path: string, i: int) {
    0 <= i < |report| && report[i].path == path && forall j :: 0 <= j < i ==> report[j].path != path
  }

  ghost predicate Absent(report: seq<FileMetadata>, path: string) {
    forall j :: 0 <= j < |report| ==> report[j].path != path
  }

  /** A record is modified if the first local file with its path has another hash, created if there is none and it is young. */
  ghost predicate IsChange(r: FileRecord, report: seq<FileMetadata>, last: int, c: FileChange) {
    || (c == FileChange(r.path, MODIFIED) && exists i :: FirstAt(report, r.path, i) && report[i].hash != r.hash)
    || (c == FileChange(r.path, CREATED) && Absent(report, r.path) && r.modifiedTime > last)
  }

  lemma MatchIsFirst(report: seq<FileMetadata>, path: string) returns (i: nat)
    ensures if i < |report| then FirstAt(report, path, i) && FirstMatch(report, path) == Some(report[i])
            else Absent(report, path) && FirstMatch(report, path) == None
  {
    i := 0;
    while i < |report| && report[i].path != path
      invariant i <= |report| && forall j :: 0 <= j < i ==> report[j].path != path
    {
      i := i + 1;
    }
    if i < |report| {
      MatchHere(report, path, i);
    } else {
      NoMatchAtAll(report, path);
    }
  }

  lemma ChangeForIff(r: FileRecord, report: seq<FileMetadata>, last: int, c: FileChange)
    ensures |ChangesFor(r, report, last)| <= 1
    ensures c in ChangesFor(r, report, last) <==> IsChange(r, report, last, c)
  {
    hide FirstMatch;
    var i := MatchIsFirst(report, r.path);
    if i < |report| {
      assert FirstAt(report, r.path, i);
      assert forall k :: FirstAt(report, r.path, k) ==> k == i;
    }
  }

  /** A reply reports a change if and only if some listed record calls for it. */
  lemma {:induction false} ReportedIff(listing: seq<FileRecord>, report: seq<FileMetadata>, last: int, c: FileChange)
    ensures c in ChangesOf(listing, report, last) <==>
            exists k :: 0 <= k < |listing| && IsChange(listing[k], report, last, c)
    decreases |listing|
  {
    hide IsChange, ChangesFor;
    if listing != [] {
      var n := |listing| - 1;
      ReportedIff(listing[..n], report, last, c);
      ChangeForIff(listing[n], report, last, c);
      if k :| 0 <= k < n && IsChange(listing[..n][k], report, last, c) {
        assert IsChange(listing[k], report, last, c);
      }
      if k :| 0 <= k < |listing| && IsChange(listing[k], report, last, c) {
        assert k < n ==> listing[..n][k] == listing[k];
      }
    }
  }

  /** Changes come in the order of the listing, at most one for each record. */
  lemma {:induction false} ChangesInOrder(xs: seq<FileRecord>, ys: seq<FileRecord>, report: seq<FileMetadata>, last: int)
    ensures ChangesOf(xs + ys, report, last) == ChangesOf(xs, report, last) + ChangesOf(ys, report, last)
    ensures |ChangesOf(ys, report, last)| <= |ys|
    decreases |ys|
  {
    hide ChangesFor, ChangesOf;
    if ys == [] {
      NoChanges(report, last);
      assert xs + ys == xs;
      assert ChangesOf(xs, report, last) + [] == ChangesOf(xs, report, last);
    } else {
      var n := |ys| - 1;
      var init, r := ys[..n], ys[n];
      ChangesInOrder(xs, init, report, last);
      ChangeForIff(r, report, last, FileChange("", CREATED));
      LastFile(init, r, report, last);
      LastFile(xs + init, r, report, last);
      assert ys == init + [r] && xs + ys == (xs + init) + [r];
      Associate(ChangesOf(xs, report, last), ChangesOf(init, report, last), ChangesFor(r, report, last));
    }
  }

  lemma LastFile(files: seq<FileRecord>, r: FileRecord, report: seq<FileMetadata>, last: int)
    ensures ChangesOf(files + [r], report, last) == ChangesOf(files, report, last) + ChangesFor(r, report, last)
  {
    hide ChangesFor;
    assert (files + [r])[..|files + [r]| - 1] == files;
  }

  lemma Associate(a: seq<FileChange>, b: seq<FileChange>, c: seq<FileChange>)
    ensures (a + b) + c == a + (b + c)
  {
  }

  // ---- Whole runs ------------------------------------------------------------------------------------

  ghost function Reached(sha: Hasher, client: string, y: System, steps: seq<SyncStep>): System {
    if steps == [] then y else Next(sha, client, Reached(sha, client, y, steps[..|steps| - 1]), steps[|steps| - 1])
  }

  /** Each step is possible when it is taken. */
  ghost predicate PossibleRun(sha: Hasher, client: string, y: System, steps: seq<SyncStep>) {
    steps == [] ||
    (var init := steps[..|steps| - 1];
     PossibleRun(sha, client, y, init) && Possible(Reached(sha, client, y, init), client, steps[|steps| - 1]))
  }

  lemma ServerStepKeepsTracked(sha: Hasher, client: string, y: System, s: Step)
    requires Tracked(y, client) && Possible(y, client, Server(s))
    ensures Tracked(Next(sha, client, y, Server(s)), client)
  {
    hide Apply;
    var z := Next(sha, client, y, Server(s));
    forall p | p in ServerFiles(z, client)
      ensures ServerFiles(z, client)[p].path == p
      ensures Live(ServerFiles(z, client), p) ==> p in z.local || ServerFiles(z, client)[p].modifiedTime > z.last
    {
      RecordOfStep(sha, y.store, s, Key(client, p));
      assert p in ServerFiles(y, client) ==> Live(ServerFiles(y, client), p) || ServerFiles(y, client)[p].deleted;
    }
  }

  lemma StepKeepsTracked(sha: Hasher, client: string, y: System, step: SyncStep)
    requires Tracked(y, client) && Possible(y, client, step)
    ensures Tracked(Next(sha, client, y, step), client)
    ensures step.SyncCall? ==> Agrees(Next(sha, client, y, step), client)
  {
    match step {
      case Server(s) => ServerStepKeepsTracked(sha, client, y, s);
      case LocalEdit(_, _) =>
      case SyncCall(_, _, _) =>
        SyncAgreesIff(sha, client, y, step);
        SyncKeepsServer(sha, client, y, step);
    }
  }

  lemma {:induction false} RunKeepsTracked(sha: Hasher, client: string, y: System, steps: seq<SyncStep>)
    requires Tracked(y, client) && PossibleRun(sha, client, y, steps)
    ensures Tracked(Reached(sha, client, y, steps), client)
    decreases |steps|
  {
    hide Tracked, Possible, Next;
    if steps != [] {
      RunKeepsTracked(sha, client, y, steps[..|steps| - 1]);
      StepKeepsTracked(sha, client, Reached(sha, client, y, steps[..|steps| - 1]), steps[|steps| - 1]);
    }
  }

  /**
    * Convergence. In any run of uploads, deletions, local edits and sync calls, where finalizations are stamped later than
    * the client's last reply, the client agrees with every live server record after each sync call, and a second call has
    * nothing to report.
    */
  lemma SyncConverges(sha: Hasher, client: string, local: map<string, Digest>, last: int, steps: seq<SyncStep>, call: SyncStep)
    requires call.SyncCall? && PossibleRun(sha, client, System(EMPTY, local, last), steps + [call])
    ensures var z := Reached(sha, client, System(EMPTY, local, last), steps + [call]);
            && Agrees(z, client)
            && forall serverFiles, report, t ::
                 Lists(serverFiles, ServerFiles(z, client)) && Reports(report, z.local) ==>
                   ChangesOf(serverFiles, report, t) == []
  {
    hide Next, Possible, Agrees, Reports, Lists;
    var y := System(EMPTY, local, last);
    assert (steps + [call])[..|steps + [call]| - 1] == steps;
    RunKeepsTracked(sha, client, y, steps);
    StepKeepsTracked(sha, client, Reached(sha, client, y, steps), call);
    var z := Reached(sha, client, y, steps + [call]);
    forall serverFiles, report, t | Lists(serverFiles, ServerFiles(z, client)) && Reports(report, z.local)
      ensures ChangesOf(serverFiles, report, t) == []
    {
      NothingLeft(client, z, serverFiles, report, t);
    }
  }

  /** In a run, every first upload of a hash carries bytes. */
  ghost predicate ServerCarriesBytes(sha: Hasher, client: string, y: System, steps: seq<SyncStep>) {
    steps == [] ||
    (var init, last := steps[..|steps| - 1], steps[|steps| - 1];
     && ServerCarriesBytes(sha, client, y, init)
     && (last.Server? ==> CarriesBytes(Reached(sha, client, y, init).store, last.step)))
  }

  lemma OpeningKeepsInv(sha: Hasher, s: State, client: string)
    requires Inv(sha, s)
    ensures Inv(sha, Opened(s, client))
  {
    var t := Opened(s, client);
    forall c, p | c in t.dbs && p in t.dbs[c].files
      ensures RecordAgrees(sha, t, Key(c, p))
    {
      assert c in s.dbs && p in s.dbs[c].files;
      assert RecordAgrees(sha, s, Key(c, p));
    }
  }

  lemma {:induction false} RunKeepsStore(sha: Hasher, client: string, y: System, steps: seq<SyncStep>)
    requires Inv(sha, y.store) && ServerCarriesBytes(sha, client, y, steps)
    ensures Inv(sha, Reached(sha, client, y, steps).store)
    decreases |steps|
  {
    hide Inv, CarriesBytes, Apply, Opened;
    if steps != [] {
      var init, last := steps[..|steps| - 1], steps[|steps| - 1];
      RunKeepsStore(sha, client, y, init);
      var z := Reached(sha, client, y, init);
      match last {
        case Server(s) => StepKeepsInv(sha, z.store, s);
        case LocalEdit(_, _) =>
        case SyncCall(_, _, _) => OpeningKeepsInv(sha, z.store, client);
      }
    }
  }

  /** Convergence is on contents: after each sync call the client has the hash of the bytes of every live file. */
  lemma SyncConvergesOnContent(sha: Hasher, client: string, local: map<string, Digest>, last: int, steps: seq<SyncStep>,
                               call: SyncStep, p: string)
    requires call.SyncCall? && PossibleRun(sha, client, System(EMPTY, local, last), steps + [call])
    requires ServerCarriesBytes(sha, client, System(EMPTY, local, last), steps + [call])
    requires Live(ServerFiles(Reached(sha, client, System(EMPTY, local, last), steps + [call]), client), p)
    ensures var z := Reached(sha, client, System(EMPTY, local, last), steps + [call]);
            Key(client, p) in z.store.files && p in z.local && z.local[p] == sha(z.store.files[Key(client, p)])
  {
    hide Reached, PossibleRun, ServerCarriesBytes;
    var y := System(EMPTY, local, last);
    var z := Reached(sha, client, y, steps + [call]);
    SyncConverges(sha, client, local, last, steps, call);
    RunKeepsStore(sha, client, y, steps + [call]);
    assert RecordAgrees(sha, z.store, Key(client, p));
  }
}
