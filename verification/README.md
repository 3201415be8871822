# Verified model of DropboxLite

DropboxLite is a file synchronization system: clients split files into content-defined chunks, a server stores each
chunk once under its SHA-256 hash, keeps per-client tables of files and chunk rows, and assembles uploaded files from
them. This project models the parts of it where a fast, incremental or concurrent form has to agree with a simple one, and
proves that it does, for all inputs, all runs and all interleavings.

| file | models |
|---|---|
| `Content.dfy` | bytes, digests, SHA-256 as a parameter, 64-bit wrap-around |
| `RollingHashes.dfy` | `Hash::RollingHash` as a class, against the base-31 polynomial it stands for |
| `Chunking.dfy` | `Chunker::chunkData` as a one-pass loop, against "find the first cut, chunk the rest on its own" |
| `ChunkLaws.dfy` | tiling, sizes and counts, cuts, resynchronisation, prefix stability |
| `Delta.dfy` | `DeltaEngine`, and how many bytes an edit costs |
| `Insertions.dfy` | when the chunks behind an edit survive, and a file of which none does |
| `Tables.dfy` | `MetadataDB` as a class over two keyed tables |
| `Store.dfy`, `StoreLaws.dfy` | `StorageManager` as a class, its steps as functions on a state, invariants and histories of all runs |
| `Uploading.dfy` | interleaved uploads end to end: chunk, leave out bytes the server has by then, send in any order, finalize, get the file |
| `Sending.dfy` | what a sender puts on the wire and what it costs; shrinking a file, sending new chunks alone, copies |
| `SyncService.dfy`, `SyncLaws.dfy` | `UploadFile`, `computeChanges` and `Sync`; one stream delivers, repeated syncing converges |
| `RateLimiting.dfy` | the token bucket over real numbers, with the clock as an input |
| `ThreadPooling.dfy`, `PoolLaws.dfy` | the thread pool as an interleaving of atomic steps, and what every interleaving keeps |
| `PoolWaiting.dfy`, `PoolShutdown.dfy` | what `wait` means and when a waiter is woken; why the destructor finishes |

A class method is proved equal to a specification function of its old state (`View() == Apply(old(View()), step)`,
`chunks == Chunks(data)`, `hash == AppendHash(old(hash), b)`), and the laws are proved about these functions.

Chunk sizes are parameters with `0 < min <= norm <= max`; `Chunking.STANDARD` holds the values the program is built with
(4096, 34816, 1048576). SHA-256 (section 6.2 of FIPS 180-4) is an arbitrary function of the bytes; that it is injective is
assumed only where a lemma says so, and only on the contents that occur. Clock readings and request streams are inputs.

Where the code and its documentation disagree, the model follows the code:

- The program's README (line 117) says that an insertion at the start of a file changes one or two chunks. The hash of
  `chunkData` covers the whole chunk so far, not a window, so this holds only from a shared cut on.
  `Insertions.SuffixSurvivesIff` says exactly when the chunks behind an edit survive, by a test on the inserted bytes alone;
  `Delta.EditCost` says what an edit then costs; and `Insertions.InsertionCanChangeEverything` gives, for any sizes with a
  maximum of at least two and any length, a file of which no chunk survives one inserted byte.
- The program's README (line 124) says that the client uploads only missing chunks. The chunk rows come from the upload
  messages, so each chunk needs one, with its data left empty if the server has it (`Uploading.EveryChunkNeedsAMessage`).
  Messages for new chunks alone are enough exactly if all chunks are new (`Sending.NewChunksAloneIff`), so they never
  are when a stored file is copied to another path (`Sending.CopyingAFile`).
- `include/common/thread_pool.h` (line 31) says that `wait` waits for all tasks to complete. It can return before
  (`PoolWaiting.WaitCanReturnEarly`); `PoolWaiting.WaitMeaning` says exactly what holds when it returns. It can also sleep
  for good (`PoolWaiting.WaitCanMissItsWakeup`), namely exactly when the last task has been announced between its test and
  its block (`PoolWaiting.WakeupMissedIff`).
- Uploading a file with fewer chunks over a longer one fails at the count check, because rows past the new end stay
  (`Sending.ShrinkingFails`; the exact condition for any upload is in `Uploading.UploadDelivers`).

## Model

| member | source | states |
|---|---|---|
| RollingHashes.RollingHash.constructor | src/common/hash.cpp:52-57 | the power is 31^(w-1) reduced, with the loop bound wrapping for w = 0 as the unsigned subtraction does |
| RollingHashes.RollingHash.Append | src/common/hash.cpp:68-70 | the hash times 31 plus the byte, mod 1000000009: with every product and sum cut to 64 bits the result is the one over unbounded numbers |
| RollingHashes.RollingHash.Update | src/common/hash.cpp:63-66 | the same for the sliding step, including the subtraction, which never goes below zero |
| RollingHashes.RollingHash.Reset | src/common/hash.cpp:59-61 | the hash is that of no bytes; window and power stay |
| RollingHashes.AppendIsPoly | src/common/hash.cpp:68-70 | appending a byte to the hash of s gives the polynomial hash of s with that byte |
| RollingHashes.UpdateSlides | src/common/hash.cpp:63-66 | one update turns the hash of a window into that of the window moved by one byte |
| RollingHashes.SlidingEqualsRecomputing | src/common/hash.cpp:52-70 | for any window and any run, the sliding hash equals that of a fresh instance fed the last w bytes only, and their base-31 value mod 1000000009 |
| RollingHashes.SampleHash | include/common/hash.h:31 | the hash of 2,0,0,0,0,0,0 is 775007353 |
| Chunking.LowMaskIsRemainder | include/common/chunker.h:21-22 | and-ing with n low ones is the remainder by 2^n |
| Chunking.MaskTests | src/common/chunker.cpp:53-59 | the two mask tests are divisibility by 2^15 and by 2^16 |
| Chunking.FirstCutIsLeast | src/common/chunker.cpp:43-83 | a chunk ends at the least length the cut rule allows, and at no earlier one |
| Chunking.FirstCutUnique | src/common/chunker.cpp:43-83 | no other length has this property |
| Chunking.StandardCut | include/common/chunker.h:18-22 | with the program's own sizes the first chunk ends after k bytes if and only if k is the least length in [4096, 34816) whose base-31 value mod 1000000009 is divisible by 2^15, or from 34816 on by 2^16, or 1048576, or the end |
| Chunking.Chunker.ChunkData | src/common/chunker.cpp:25-94 | the one-pass loop with its incremental hash returns the recursive chunking, and true statistics: attained minimum and maximum, count and mean |
| Chunking.ChunksTotal | src/common/chunker.cpp:61-82 | the chunk sizes add up to the data size |
| ChunkLaws.ChunksTile | src/common/chunker.cpp:61-82 | chunks follow each other from 0 to the end without gap or overlap, each named by the hash of exactly its bytes |
| ChunkLaws.ChunkSizes | src/common/chunker.cpp:47-59 | every chunk is at most the maximum, every chunk but the last at least the minimum |
| ChunkLaws.StandardChunks | src/common/chunker.cpp:43-83 | every chunk of the program's chunking has the least length this rule, with its numbers, allows where the chunk starts |
| ChunkLaws.CountBounds | src/common/chunker.cpp:43-83 | n bytes make between ceil(n/max) and ceil(n/min) chunks |
| ChunkLaws.ZeroDataMeetsUpperBound | src/common/chunker.cpp:53-59 | all-zero data is cut into ceil(n/min) chunks |
| ChunkLaws.PiecesMakeTheFile | src/common/chunker.cpp:61-82 | the bytes of the chunks, joined, are the file |
| ChunkLaws.PiecesOfChunks | src/common/chunker.cpp:68-73 | the pieces are those the chunks name, and none is empty |
| ChunkLaws.SplitAtCut | src/common/chunker.cpp:61-82 | at any cut the chunking splits, and what follows is the chunking of the remaining bytes on their own |
| ChunkLaws.CutsAreChunkEnds | src/common/chunker.cpp:61-82 | the positions where chunkings split are exactly the start and the chunk ends |
| ChunkLaws.Resynchronise | src/common/chunker.cpp:61-82 | two files with a cut where their common suffix starts have the same later chunks, with offsets moved by the difference of the prefixes |
| ChunkLaws.PrefixStability | src/common/chunker.cpp:43-83 | a chunk that ends in a shared prefix before the file's end is a chunk of the other file, at the same index and offset |
| ChunkLaws.SameBefore | src/common/chunker.cpp:43-83 | before a cut in a shared prefix both files have the same chunks |
| Delta.DeltaEngine.ComputeDelta | src/core/delta_engine.cpp:10-34 | new and existing chunks are the file's chunks by membership of the hash, in file order, with the bytes to transfer |
| Delta.DeltaPartitions | src/core/delta_engine.cpp:22-31 | no chunk is lost or listed twice, and the byte count is the file size less the size of the existing chunks |
| Delta.DeltaInFileOrder | src/core/delta_engine.cpp:22-31 | both lists are in the order of the file |
| Delta.DeltaEngine.ApplyDelta | src/core/delta_engine.cpp:36-56 | succeeds exactly when the sizes add up to no more than the buffer, then writes exactly that many of its bytes; on failure, those before the first chunk that does not fit |
| Delta.ApplyOwnChunks | src/core/delta_engine.cpp:44-55 | writing a file's own chunks from its bytes gives all of its bytes |
| Delta.SharedPrefixIsFree | src/core/delta_engine.cpp:22-31 | before a cut in the shared prefix nothing is sent |
| Delta.SharedSuffixIsFree | src/core/delta_engine.cpp:22-31 | after a shared cut in the suffix nothing is sent |
| Delta.EditCost | src/core/delta_engine.cpp:22-31 | replacing m by n between a prefix and a suffix, with both chunkings cut t bytes into the suffix, sends less than len(n) + t + max bytes |
| Delta.AppendCost | src/core/delta_engine.cpp:22-31 | appending x sends at most len(x) and the size of the file's last chunk, so at most len(x) + max |
| Delta.StandardEditCost | include/common/chunker.h:18-22 | with the program's own sizes, an edit sends less than len(n) + t + 1048576 bytes |
| Insertions.SeamIsCutIff | src/common/chunker.cpp:43-83 | whether a cut falls between q and what follows depends on the bytes of q alone: on its chunking leaving no chunk open |
| Insertions.SuffixSurvivesIff | src/common/chunker.cpp:61-82 | the chunks of a suffix reappear behind a changed prefix, moved by the difference, if and only if the new prefix leaves no chunk open at its end |
| Insertions.InsertionCanChangeEverything | src/common/chunker.cpp:43-83 | for any sizes with max >= 2 and any n, a file of n bytes such that, if hashing tells the pieces apart, one byte inserted at its start makes all n + 1 bytes be sent |
| Tables.MetadataDB.InsertOrUpdateFile | src/core/metadata_db.cpp:57-84 | the record replaces what its path had, and nothing else changes |
| Tables.MetadataDB.GetAllFiles | src/core/metadata_db.cpp:116-140 | each record not marked deleted exactly once, no other |
| Tables.MetadataDB.InsertChunk | src/core/metadata_db.cpp:142-164 | the hash replaces what (path, index) had, and nothing else changes |
| Tables.MetadataDB.DeleteFile | src/core/metadata_db.cpp:255-268 | the record is marked deleted; nothing happens without one; chunk rows stay |
| Tables.MetadataDB.GetFileChunks | src/core/metadata_db.cpp:270-287 | the hashes of the path's rows in ascending index order |
| Tables.MetadataDB.HasChunk | src/core/metadata_db.cpp:289-302 | whether some row of any path has the hash |
| Tables.EnumerationUnique | src/core/metadata_db.cpp:272 | a set of indices has exactly one ascending enumeration, so the order fixes the result |
| Tables.CompleteRows | src/core/metadata_db.cpp:270-287 | rows at exactly 0 to n-1 come back as n hashes, the i-th that of row i |
| Tables.CountMeansNoStaleRow | src/server/storage_manager.cpp:84 | with rows 0 to n-1 present, counting n rows is the same as having no other row |
| Store.StorageManager.GetClientDB | src/server/storage_manager.cpp:186-207 | the client's database, created empty at first use; no other client's is touched or shared |
| Store.StorageManager.StoreChunk | src/server/storage_manager.cpp:21-48 | the chunk file is written only if its hash has none; the row is written always |
| Store.StorageManager.GetChunk | src/server/storage_manager.cpp:50-67 | the chunk's bytes, or none |
| Store.StorageManager.FinalizeFile | src/server/storage_manager.cpp:73-122 | the whole new state in all three outcomes: count mismatch, cut-off file at the first chunk without bytes, assembled file with its record |
| Store.StorageManager.ListFiles | src/server/storage_manager.cpp:134-141 | the client's live records, each once |
| Store.StorageManager.DeleteFile | src/server/storage_manager.cpp:143-150 | only the record's mark changes; rows, chunk files and the assembled file stay |
| Store.AssembledStops | src/server/storage_manager.cpp:99-105 | after a chunk without bytes, later hashes no longer matter |
| StoreLaws.AssembledIff | src/server/storage_manager.cpp:99-105 | assembling comes to the end if and only if every hash has non-empty bytes |
| StoreLaws.FinalizeWrites | src/server/storage_manager.cpp:90-121 | once the count check passed, the file is replaced by the bytes of the hashes before the first one without bytes; the record is written if and only if there is no such hash, and nothing else changes |
| StoreLaws.StepKeepsInv | src/server/storage_manager.cpp:21-122 | each step keeps: rows name non-empty chunk files, and every record agrees with its assembled file in size and hash |
| StoreLaws.ReachableInv | src/server/storage_manager.cpp:21-122 | this holds in every state any run from the empty store reaches, if first uploads of a hash carry bytes |
| StoreLaws.FinalizeFailsOnlyOnCount | src/server/storage_manager.cpp:81-122 | then finalizing fails exactly on a count mismatch, and leaves every file and record as it was |
| StoreLaws.TableHashIsStored | src/server/storage_manager.cpp:69-71 | after any such run, a hash in any client's chunk table is a stored, non-empty chunk |
| StoreLaws.BlobHistory | src/server/storage_manager.cpp:30-39 | after any run a hash has a chunk file exactly if it was uploaded, holding the data of its first upload for good |
| StoreLaws.NonEmptyIff | src/server/storage_manager.cpp:30-39 | all chunk files are non-empty if and only if no first upload was empty |
| StoreLaws.RecordHistory | src/server/storage_manager.cpp:109-131 | after any run a path has the record of its last successful finalization, marked deleted if and only if it was deleted since |
| StoreLaws.NoRecord | src/server/storage_manager.cpp:109-121 | a path never finalized successfully has no record |
| StoreLaws.RowHistory | src/core/metadata_db.cpp:142-164 | after any run a row holds the last hash uploaded to it |
| StoreLaws.ChunkListIsOwn | src/core/metadata_db.cpp:270-287 | a path's chunk list after a run is what its own steps alone would give: other clients and paths have no influence |
| Uploading.RunKeepsHonest | src/server/storage_manager.cpp:30-39 | while each message with a hash not stored yet carries the bytes it names, every chunk file is named by the hash of its bytes and non-empty |
| Uploading.SentPieceIsStored | src/server/storage_manager.cpp:30-47 | a chunk that was sent, with its bytes or relying on bytes anyone brought before, is stored with exactly its bytes |
| Uploading.CountCheckIff | src/server/storage_manager.cpp:84-88 | after all messages of a file the count check passes if and only if the path had no row at another index |
| Uploading.AssemblesToContent | src/server/storage_manager.cpp:90-105 | the stored chunks, in row order, assemble to the original bytes |
| Uploading.UploadDelivers | src/server/storage_manager.cpp:21-122 | any interleaving of uploads, in any order with repeats, each leaving out bytes stored by then, with honest traffic and deletions: finalizing after all messages succeeds if and only if there was no stale row, and then file, size, hash and record are those of the original |
| Uploading.EveryChunkNeedsAMessage | src/server/storage_manager.cpp:84-88 | on a fresh path the count check passes if and only if every chunk had its message |
| Uploading.StaysDelivered | src/server/storage_manager.cpp:90-121 | a delivered file stays through the rest of the run, and so do the size and hash of its record, deleted or not |
| Uploading.AllUploadsDelivered | src/server/storage_manager.cpp:21-122 | all uploads of a run finished after their messages have their file, and a record with its size and hash, at its end |
| Sending.MessagesCarryTheDelta | src/core/delta_engine.cpp:22-31 | the messages of an upload carry as many bytes as the delta counts |
| Sending.MessagesAllowed | src/server/storage_manager.cpp:30-39 | a sender that leaves out the bytes of chunks the server has at the start stays within what the upload theorem allows |
| Sending.ShrinkingFails | src/server/storage_manager.cpp:84-88 | a file is delivered to an empty store, then one with fewer chunks is sent in full to its path: finalizing it fails |
| Sending.ShorterFileExists | src/server/storage_manager.cpp:84-88 | for any sizes there are two such files |
| Sending.NewChunksAloneIff | src/server/storage_manager.cpp:84-88 | on a path without rows, messages for the new chunks of a delta alone pass the count check if and only if all chunks are new |
| Sending.CopyingAFile | src/server/storage_manager.cpp:30-47 | a delivered file is copied to another path for no bytes at all with empty messages; with messages for new chunks alone finalizing the copy fails |
| Sending.TwoCopiesAtOnce | src/server/storage_manager.cpp:30-47 | two copies of a file uploaded in turn within one run carry the bytes of one, and each is delivered |
| SyncService.SyncServiceImpl.UploadFile | src/server/sync_service.cpp:42-81 | the stream takes exactly the steps its requests name, then finalizes, and the answer says whether finalizing succeeded |
| SyncService.FirstNamedDecides | src/server/sync_service.cpp:52-56 | the first request with a client decides client, path and count, whatever later ones say; until one comes, each request decides for itself |
| SyncLaws.StepOfRequest | src/server/sync_service.cpp:52-65 | each request's index, data and hash are stored for the client and path so decided |
| SyncService.SyncServiceImpl.ComputeChanges | src/server/sync_service.cpp:137-172 | per live record, the first local file with its path decides: MODIFIED on another hash, CREATED without one and a younger record |
| SyncService.SyncServiceImpl.Sync | src/server/sync_service.cpp:13-40 | the changes of the client's records and the time of the reply; no record, row or file changes |
| SyncLaws.StreamDelivers | src/server/sync_service.cpp:51-78 | one stream whose first request names client, path and count, with a request per chunk and anything for client, path and count in later ones, succeeds if and only if there was no stale row, and then the file is delivered |
| SyncLaws.ReportedIff | src/server/sync_service.cpp:146-169 | a change is reported if and only if some live record calls for it: MODIFIED if the first local file with its path has another hash, CREATED if there is none and the record is younger than the last sync |
| SyncLaws.ChangesInOrder | src/server/sync_service.cpp:146-169 | changes come in the order of the listing, at most one per record |
| SyncLaws.SyncAt | src/server/sync_service.cpp:146-169 | per path, what a client holds after applying a reply: the server's hash where it was needed, its own otherwise |
| SyncLaws.SyncAgreesIff | src/server/sync_service.cpp:146-169 | one sync brings the client in agreement if and only if each live record was held or younger than the last reply |
| SyncLaws.NothingLeft | src/server/sync_service.cpp:146-169 | a client in agreement gets no changes, in whatever order either side lists its files |
| SyncLaws.RunKeepsTracked | src/server/storage_manager.cpp:109-121 | over any run with finalizations stamped after the last reply, each live record is held or younger than the last reply |
| SyncLaws.SyncConverges | src/server/sync_service.cpp:137-172 | over any such run of uploads, deletions, local edits and syncs, the client agrees with all live records after each sync, and a second one reports nothing |
| SyncLaws.SyncConvergesOnContent | src/server/storage_manager.cpp:109-121 | over any such run whose first uploads carry bytes, after each sync the client has the hash of the bytes of every live file |
| RateLimiting.RateLimiter.constructor | src/common/rate_limiter.cpp:7-11 | the bucket starts full; without a burst size the rate is the burst size |
| RateLimiting.RateLimiter.RefillNow | src/common/rate_limiter.cpp:51-62 | elapsed time at the rate, capped at the burst size |
| RateLimiting.RateLimiter.Try | src/common/rate_limiter.cpp:27-39 | refills, then grants exactly if the tokens suffice; a refusal takes none |
| RateLimiting.RateLimiter.SetBytesPerSecond | src/common/rate_limiter.cpp:41-45 | rate and burst size change, tokens and clock do not |
| RateLimiting.RateLimiter.AvailableNow | src/common/rate_limiter.cpp:47-49 | the whole tokens: n <= tokens < n + 1, and zero for negative tokens |
| RateLimiting.RateLimiter.Acquire | src/common/rate_limiter.cpp:13-25 | for a sole caller within the burst size: no wait at all if the tokens suffice; otherwise at most three attempts, ending no later than the missing bytes and two more take at the rate, two milliseconds and the lateness of two sleeps; no underflow; and the outcome of a single attempt at the time it ends |
| RateLimiting.SleepEarns | src/common/rate_limiter.cpp:15-23 | one sleep leaves at most a millisecond's worth of tokens missing, and a sleep from there none |
| RateLimiting.RefillTwice | src/common/rate_limiter.cpp:51-62 | refilling twice is refilling once at the later time |
| RateLimiting.StateOfRun | src/common/rate_limiter.cpp:41-45 | rate and burst size after any run are those of its last rate change, the clock that of its last call |
| RateLimiting.Accounting | src/common/rate_limiter.cpp:27-62 | the exact account of any run: granted bytes, remaining tokens and what the cap threw away add up to the starting tokens and, for each refill, elapsed time at the rate then in force |
| RateLimiting.NothingLost | src/common/rate_limiter.cpp:27-62 | in a fixed-rate run whose accrual stays within the burst size nothing is thrown away: each granted byte costs exactly one token |
| RateLimiting.AtOnceIff | src/common/rate_limiter.cpp:27-39 | calls at one moment are all granted if and only if their sum is at most the tokens, refilled up to the burst size |
| RateLimiting.GrantsAreEarned | src/common/rate_limiter.cpp:27-62 | in any run with rate changes, granted bytes and remaining tokens are at most the starting tokens and, for each refill, elapsed time at the rate then in force |
| RateLimiting.TokenBucketBound | src/common/rate_limiter.cpp:27-62 | between any two calls of any fixed-rate run, at most burst + rate * elapsed bytes are granted |
| RateLimiting.OversizeRefused | src/common/rate_limiter.cpp:27-45 | in any run, mixed with any calls and rate changes, a request beyond the burst size of the last rate change is refused |
| RateLimiting.OversizeNeverGranted | src/common/rate_limiter.cpp:27-39 | in any fixed-rate run each request beyond the burst size is refused, whatever the other calls are |
| RateLimiting.PollingIndependence | src/common/rate_limiter.cpp:27-39 | leaving out any of the failed calls of a fixed-rate run changes no other result and no later refill |
| PoolLaws.RunKeepsInv | src/common/thread_pool.cpp:7-48 | the invariant on tasks, wakeups, exits and the mutex holds after every interleaving |
| PoolLaws.StepKeepsTasks | include/common/thread_pool.h:58-66 | every step keeps push order and the balance of popped, held and finished tasks, and the active count; each enqueue call before stop is accepted, and nothing else is |
| PoolLaws.AnyTasksAccepted | include/common/thread_pool.h:58-68 | with the mutex free and no stop, any list of tasks can be enqueued, each adding itself at the end of the queue and one notification |
| PoolLaws.StepKeepsWakeups | src/common/thread_pool.cpp:11-24 | every step keeps: while a worker sleeps, each queued task has a notification on its way or a worker about to look, and after stop the notification of all is on its way |
| PoolLaws.TasksConserved | src/common/thread_pool.cpp:11-29 | in every reachable state the tasks of the enqueue calls made before stop are the popped ones in pop order followed by the queue, each is queued, held by one worker or finished exactly once, and the active count is the number of workers between count-up and count-down |
| PoolLaws.QueuedTaskIsSeen | include/common/thread_pool.h:58-68 | with a task queued, some worker is awake or a notification is on its way |
| PoolWaiting.WaitMeaning | src/common/thread_pool.cpp:55-60 | when wait returns, unfinished tasks are exactly those held between pop and count-up, at most one per worker; all are finished if and only if no worker is in that gap |
| PoolWaiting.ReturnsOnlyWhenIdle | src/common/thread_pool.cpp:55-60 | in any run, a call of wait that has returned tested its condition in some state of the run in which the queue was empty and no worker counted active |
| PoolWaiting.WaitCanReturnEarly | src/common/thread_pool.cpp:20-25 | a run in which wait returns with the accepted task taken from the queue and not begun |
| PoolWaiting.WaitCanMissItsWakeup | src/common/thread_pool.cpp:25-29 | a run after which wait is blocked although its condition holds, with no step of the pool left to wake it |
| PoolWaiting.NoWorkNoWakeup | src/common/thread_pool.cpp:20-29 | with the queue empty and no worker between its pop and its announcement, no run without an enqueue or a spurious wakeup unblocks a waiter |
| PoolWaiting.WakeupIff | src/common/thread_pool.cpp:11-29 | in every state the invariant allows, the pool's own steps can wake a blocked waiter if and only if a task is queued or a worker is between its pop and its announcement |
| PoolWaiting.WakeupMissedIff | src/common/thread_pool.cpp:55-60 | a reachable waiter about to block can still be woken if and only if this holds when it blocks; otherwise its condition is true already |
| PoolShutdown.StopStepShrinks | src/common/thread_pool.cpp:35-48 | after stop, each step of a worker, the destructor or a notifying enqueuer uses up part of a measure and no step adds to it |
| PoolShutdown.ShutdownIsBounded | src/common/thread_pool.cpp:35-48 | any run after stop has at most as many such steps as the measure says |
| PoolShutdown.ShutdownGoesOn | src/common/thread_pool.cpp:35-48 | until all workers are joined one of them can be taken, or a waiter is about to give the mutex back: shutdown cannot get stuck |
| PoolShutdown.ShutdownCompletes | src/common/thread_pool.cpp:35-48 | from every state after stop some run of the pool's own steps joins all workers |
| PoolShutdown.JoinedMeansDone | src/common/thread_pool.cpp:43-47 | once all workers are joined, the queue is empty and every task enqueued before stop has run exactly as often as it was enqueued |

## Left out

- The thread pool is modelled on values, as a state machine whose steps are the critical sections and the accesses outside the mutex: object identity, futures and exceptions from tasks are not part of it, and weak memory order is not either.
- Running a task is one step that ends; a task that never ends keeps the destructor waiting, as in the original.
- Store steps are atomic. The original holds no lock across a step, so this is an assumption on the interleaving.
- Disk, SQLite, OpenSSL and gRPC failures: I/O succeeds. Writing a chunk file or an assembled file replaces an entry of a map, so two names for one path, or a client path that leaves its directory, do not occur.
- `hash.substr(0, 2)` of a hash shorter than the digest (src/server/storage_manager.cpp:169): the chunk map is keyed by the whole hash.
- SHA-256 itself, and reading files from disk for `chunkFile` and `sha256File`: bytes are passed in; an unreadable file counts as empty, as `chunkFile` reports it.
- 64-bit limits on file sizes and offsets, including the sum in `applyDelta`, and the 32-bit count of received chunks: sizes are unbounded.
- Floating-point rounding in the rate limiter, and in the mean chunk size: both are over real numbers.
- Concurrent callers of `acquire`: the bound of three attempts is for a sole caller.
- Two uploads to the same client and path at once: their rows can mix, so no guarantee for a single file holds.
- Delivery by an upload stream that opens with requests without a client: what it stores and where is stated (`SyncService.FirstNamedDecides`, `SyncLaws.StepOfRequest`), `SyncLaws.StreamDelivers` is about streams whose first request names one.
- The client of the convergence theorem is a map from paths to hashes that never drops a path; client sources (src/client) are not part of this model.
- Reporting of server deletions: deleted records are filtered out before changes are computed, so none is ever reported.
- Row offset and row size, and the last sync time of a record: never read by the modelled operations.
- `isChunkBoundary`: never called, and it switches masks at 65536 bytes where `chunkData` switches at 34816.
- `DownloadFile`, `StreamSync`, `Heartbeat`, `ResolveConflict`, `Logger`, `Metrics`, `Compression`, `ConflictResolver`, `MetadataDB::Transaction`, `getModifiedSince`, `getStats`, `detectConflict`, `areFilesIdentical`: stubs, I/O or one comparison.
