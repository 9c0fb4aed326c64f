# mailfs in Dafny

mailfs keeps files in a mailbox: a file is cut into blocks, each block is mailed as one message, an
index on disk remembers which message holds which block, and an HTTP server streams files straight
from the mailbox. This project models the parts of mailfs that carry its guarantees and proves them.
`dafny verify dfyconfig.toml` checks everything.

Each part is modelled in the form the program gives it: objects that change their fields are classes
whose methods state their whole new state, loops are loops with invariants, and each of them is proved
against a function on values. The theorems are about those functions and about runs of them.

| modules | part of mailfs |
|---|---|
| `BlockCache`, `Prefetch`, `Streaming`, `Server` | the download server: shared block cache with single-flight loads, prefetch queue, byte ranges, and all of them interleaved |
| `Dedup`, `DedupGroups`, `Mailbox`, `MailboxSafety`, `CachedIndex` | deduplication of a mailbox, the fold that does it, what it does to server and index, and what the index says when the service filled it |
| `Repository`, `Slices`, `Transfer`, `Download` | the two index tables, cutting a file, upload and resume, download with interruptions |
| `Base64`, `QuotedPrintable`, `Mime`, `MimeRoundTrip`, `HeaderlessParts`, `FoldedHeaders` | transfer encodings, the multipart printer and parser, folded headers |
| `BlockMetadata`, `EscapedMetadata`, `EncodedSection`, `XorCodec`, `MailMessage` | the metadata text, what a second decoding does to it, its other forms, disguised names, the message that carries a block |
| `ModifiedBase64`, `Unicode`, `ImapUtf7`, `ImapUtf7RoundTrip` | mailbox names in modified UTF-7 |
| `StreamUrl` | the address of a stream and how the server reads it |
| `Basics`, `Text`, `Radix`, `Paths`, `Records` | shared values: sequences, strings and searching, numbers in a base, paths, index records |

## How the parts are modelled

**The server.** Every critical section, every end of a fetch and every write to a client is one atomic
step (`Server.Step`); a run is any sequence of steps of any threads, so a theorem about `Server.Run`
is about every interleaving of request threads, the prefetch worker and evictions. What a key names on
the mail server is fixed during a run. The search for a block to prefetch asks the cache block by block
without holding its mutex over the search, so the answers are a set chosen anew at each step.

A load that fails ends its stream with an error and the system goes on. In the program the exception of
`load_block` leaves `stream_body`, and nothing in that thread catches it. A chunk counts as received when
the whole of it was written; the part of a chunk that reached a client before it left is not counted.

**Deduplication.** The reference says which messages are to be kept in terms of the messages alone;
the program's tables are proved to represent them. Each uid is presented once. The service takes the
index's word for messages it knows. What happens on the server is stated for an index that agrees with
it (`MailboxSafety.Agrees`), path by path for one that agrees on that path (`AgreesOn`), for one that
still lists messages that are gone (`TrueWhereThere`), for any index (`FullCopyLeftIff`), and for one that
the service filled itself (`CachedIndex`).

**Messages.** Characters of strings are bytes. Metadata text is decoded from quoted-printable once more
after the message is parsed; `QuotedPrintable.Harmless` says which fields that leaves alone: those without
an `=` before two hexadecimal digits and without one at the end, where the line end makes it a soft line
break. Hashes are an arbitrary function with printable values that decoding leaves alone, as hexadecimal
digits are; nothing relies on them being injective.

**Uploads.** A reply may or may not tell the uid of the new message (`Transfer.Sending`), and only a
told one is indexed. The index may hold a part of the very file that is uploaded, under its path, under
the disguised path of a hidden mailbox, or under both. New messages get uids that neither the server nor
the index has seen.

**Downloads.** The disk is the target file, its temporary file and the block files with theirs. A run
may end after any step, with the first bytes of an unfinished file written and with part of the clean-up
done, and the next run starts from what is there.

## What does not hold, and when it does

- A complete copy of a path can be lost by deduplication when its version also has a block number
  beyond its count: the completeness test then fails for it. `Dedup.FullCopySurvivesIff` gives the exact
  condition, `Dedup.FullCopyCanBeLost` an instance.
- With a stale index, deduplication can keep a message that is gone and delete the copy that is there
  (`MailboxSafety.StaleIndexLosesCopy`). A full copy is left exactly when the version that the run chooses
  keeps, of each block, a message that is there (`MailboxSafety.StaleIndexIff`).
- The index keeps one count, hash and size for a file, those of the message stored last. When a path has
  several versions, filling the index therefore mixes them, and deduplication then can delete the only
  full copy (`CachedIndex.CachingLosesCopy`: a changed file of which one block was sent). The index agrees
  with the server exactly when the messages stored last of each block are of one version
  (`CachedIndex.CachedAgreesIff`); what is left otherwise is `CachedIndex.CachedThenDeduplicatedIff`.
- An uploaded file downloads again exactly when it is not empty and either all of its blocks end up indexed
  under its path or none does and all are on the server for the index to find
  (`Transfer.UploadThenDownload`). From nothing that means for a plain mailbox that the replies tell all
  uids or none, and for a hidden mailbox that they tell none (`Transfer.FromNothing`): an upload to a
  hidden mailbox indexes the disguised path, under which no download looks, and what is indexed there is
  not read from the server again.
- An upload sends nothing exactly when every block number is indexed, whatever file the blocks belong to
  (`Transfer.SendsNothingIff`).
- Of a message whose parts may lack headers, the parts come back exactly when none does
  (`HeaderlessParts.MessageComesBack`). A part without headers is lost, shortened, or taken together with
  the next one, or the message is refused (`HeaderlessPartUnreadable` and `FirstBreakIsLost`, instances).
- The metadata of a mailed block come back exactly when no field looks like an escape to the second decoding
  (`MailMessage.PipelineRoundTrip`); a path `a=41` comes back as `aA` (`MailMessage.EscapeInPathIsLost`).
- A range request is answered as section 14.1.2 of RFC 9110 asks exactly when its last position fits 64 bits
  or its first is outside the file (`Streaming.RangeAsAsked`): a larger last position is refused instead of
  being cut to the file.
- The value of a folded header is read without the blanks at the folds, so it is the value that
  section 2.2.3 of RFC 5322 unfolds exactly when it stands on one line (`FoldedHeaders.UnfoldedIff`).
- Modified base64 of a length that is 1 modulo 4 is accepted but not reproduced; all other accepted texts
  are (`ModifiedBase64.EncodedDecoding`).

## Model

| member | source | states |
|---|---|---|
| BlockCache.DownloadCache.BeginLoad | src/application/http_imap_download_server.cpp:495-511 | A cached block is returned and becomes the most recent; otherwise the caller joins the load in progress or becomes the owner of a new one. |
| BlockCache.DownloadCache.PublishLoad | src/application/http_imap_download_server.cpp:526-531 | The owner records the outcome in the record its waiters share; nothing else changes. |
| BlockCache.DownloadCache.FinishLoad | src/application/http_imap_download_server.cpp:533-552 | The load leaves its table; a downloaded block is the newest of at most 32 and only the oldest go; a failed load leaves no trace. |
| BlockCache.DownloadCache.EvictStale | src/application/http_imap_download_server.cpp:537-541 | The eviction loop leaves the first 32 keys of the order list and exactly their entries. |
| BlockCache.RecencySorted | src/application/http_imap_download_server.cpp:497-501 | The reference order of the cache lists what was ever hit or inserted, each key once, by its last time, newest first. |
| BlockCache.SingleFlight | src/application/http_imap_download_server.cpp:503-510 | In every valid state at most one thread fetches a key. |
| BlockCache.SharedOutcome | src/application/http_imap_download_server.cpp:513-522 | All threads that took part in one load return the same block or all fail. |
| BlockCache.WaiterHasOwner | src/application/http_imap_download_server.cpp:513-517 | A waiter can wake, or the owner of its load is still fetching: nobody waits for a load that is gone. |
| BlockCache.FailureIsForgotten | src/application/http_imap_download_server.cpp:543-553 | After a failed load the key is neither cached nor loading, and the next caller fetches again. |
| BlockCache.EvictsLeastRecent | src/application/http_imap_download_server.cpp:533-542 | An insertion keeps its own block as the newest and can displace only the least recently used one. |
| Prefetch.BlockCacheKeyInjective | src/application/http_imap_download_server.cpp:475-477 | Different blocks of any mailboxes never share a cache key. |
| Prefetch.PrefetchQueue.StartPrefetchSession | src/application/http_imap_download_server.cpp:565-582 | Opens a session at the given block, or none past the last block, and queues its first wanted block; the queue invariant stays. |
| Prefetch.PrefetchQueue.StopPrefetchSession | src/application/http_imap_download_server.cpp:584-599 | The session, its queued tasks and their claimed keys are gone; the invariant stays. |
| Prefetch.PrefetchQueue.AdvancePrefetchSession | src/application/http_imap_download_server.cpp:601-617 | Raises the allowance by one within the file and queues the next wanted block. |
| Prefetch.PrefetchQueue.EnqueueNextPrefetchLocked | src/application/http_imap_download_server.cpp:619-650 | Queues the first allowed block that is neither claimed nor cached, unless the session already has a task. |
| Prefetch.PrefetchQueue.TakeTask | src/application/http_imap_download_server.cpp:655-671 | The worker takes the first task, whose session is always live while the invariant holds. |
| Prefetch.PrefetchQueue.FinishTask | src/application/http_imap_download_server.cpp:685-695 | The claim is released and a live session goes on with its next wanted block. |
| Prefetch.EnqueueNextValid | src/application/http_imap_download_server.cpp:619-650 | Restores the invariant: no key or session has two tasks, claimed keys are exactly those of tasks, a session is busy exactly when it has a task, and none stalls with work left. |
| Prefetch.StopValid | src/application/http_imap_download_server.cpp:584-599 | Stopping keeps the invariant and leaves no queued task of the session. |
| Prefetch.FinishValid | src/application/http_imap_download_server.cpp:685-695 | Finishing a task, for a live or a stopped session, keeps the invariant. |
| Prefetch.WorkerDrains | src/application/http_imap_download_server.cpp:652-697 | Without new starts and advances each worker cycle strictly lowers queued tasks plus allowed blocks not yet asked for. |
| Prefetch.DrainedServesAll | src/application/http_imap_download_server.cpp:652-697 | The worker, left alone for as many tasks as there is work, and whatever the cache answers each time, comes to rest with an empty queue and every session served up to its allowance. |
| Prefetch.EnqueueQueues | src/application/http_imap_download_server.cpp:619-650 | When an idle session lacks an allowed block, neither cached nor claimed, exactly one task is added, for the first such block; otherwise the queue is unchanged. |
| Prefetch.StartQueues | src/application/http_imap_download_server.cpp:565-582 | A session that starts inside the file queues its first block unless that one is cached or claimed. |
| Prefetch.AdvanceRaises | src/application/http_imap_download_server.cpp:601-617 | An advance raises the allowance of a live session by one, and by no more than the file has. |
| Prefetch.DrainedTakesEach | src/application/http_imap_download_server.cpp:652-697 | Until the worker comes to rest, each block from where a session stood to its allowance was taken as a task unless it was cached or claimed when it was asked for. |
| Streaming.BuildBlockOffsets | src/application/http_imap_download_server.cpp:234-248 | The loop yields the running sums of the sizes on record, the configured size standing in for a missing one, with the recorded file size last. |
| Streaming.FindBlockForOffset | src/application/http_imap_download_server.cpp:250-261 | The loop yields the first block that ends beyond the byte, or the last one. |
| Streaming.LocateHoldsByte | src/application/http_imap_download_server.cpp:234-261 | When each block before the last has its own length on record, or none and the configured length, the block and place found hold exactly the requested byte. |
| Streaming.RangeFromTo | src/application/http_imap_download_server.cpp:263-308 | `bytes=a-b` is answered, cut to the file, exactly when a <= b, a is inside, and both numbers fit 64 bits. |
| Streaming.RangeAsAsked | src/application/http_imap_download_server.cpp:285-306 | That is what section 14.1.2 of RFC 9110 asks for exactly when b fits 64 bits or a is outside the file. |
| Streaming.RangeFrom | src/application/http_imap_download_server.cpp:263-308 | `bytes=a-` means from a to the end, exactly when a is inside and fits 64 bits. |
| Streaming.RangeSuffix | src/application/http_imap_download_server.cpp:263-308 | `bytes=-n` means the last n bytes or the whole file, and is refused for n = 0 and for an n beyond 64 bits. |
| Streaming.OtherUnits | src/application/http_imap_download_server.cpp:263-268 | A header that does not begin with `bytes=` is not understood. |
| Streaming.BlanksAndMore | src/application/http_imap_download_server.cpp:263-308 | Blanks around the numbers make no difference, nor do further ranges after a comma. |
| Text.ReadsUnsigned | src/application/http_imap_download_server.cpp:285-296 | Numbers are read as the C++ standard library does: blanks skipped, a sign taken, the rest ignored, refused without digits and from 2^64 on, wrapped around below zero. |
| Streaming.StreamBody | src/application/http_imap_download_server.cpp:780-827 | The stream loop sends a beginning of the range, all of it when it reports success, and succeeds unless a load fails or the client leaves. |
| Server.EveryRunValid | src/application/http_imap_download_server.cpp:486-827 | Every state of every interleaved run satisfies the joint invariant of cache, queue and streams. |
| Server.StreamDeliversRange | src/application/http_imap_download_server.cpp:780-827 | Under every interleaving a stream has sent a beginning of its range of the file, exactly the range once it reports success, and never ends for a short block. |
| Server.OpenedStays | src/application/http_imap_download_server.cpp:780-827 | Once opened, a stream is about the very mailbox, file and range of the request, in every continuation of the run. |
| Server.OpenedDelivers | src/application/http_imap_download_server.cpp:780-827 | Whoever asks for a range of a well recorded file receives, in every continuation, a beginning of just that range of just that file, and all of it on success. |
| Server.CacheInEveryRun | src/application/http_imap_download_server.cpp:486-554 | In every run the cache is an exact LRU cache of at most 32 genuine blocks, no key is both cached and loading, and none is fetched twice at once. |
| Server.PrefetchStaysNear | src/application/http_imap_download_server.cpp:565-650 | In every run a session stays within the first block plus one plus the chunks delivered. |
| Server.PrefetchInEveryRun | src/application/http_imap_download_server.cpp:584-697 | In every run claimed keys are exactly those of the distinct tasks, busy flags are right, sessions live only with a stream, and with no stream left nothing is queued. |
| Server.StoppedForGood | src/application/http_imap_download_server.cpp:584-697 | Once a session is stopped no task of it is queued in any continuation of the run. |
| Server.StreamCanMove | src/application/http_imap_download_server.cpp:780-827 | An unfinished stream can always take its next step unless it waits for a fetch that another thread is making. |
| Dedup.FullCopySurvivesIff | src/application/mailfs_service.cpp:449-460 | A whole copy of a path survives exactly when some version has just its blocks 1..count, or the newest message belongs to a version with all its blocks. |
| Dedup.FullCopyCanBeLost | src/application/mailfs_service.cpp:449-460 | An instance of the failing family: a stray block number makes a full version lose to an incomplete newer one. |
| Dedup.CompleteVersionSurvives | src/application/mailfs_service.cpp:746-804 | With a complete version present the survivors of the path are one message per block of one complete version, none older. |
| Dedup.SurvivorsOfPath | src/application/mailfs_service.cpp:746-804 | Survivors of a path lie in the chosen version, are the largest of their block, and there is one per block. |
| Dedup.SurvivorsStable | src/application/mailfs_service.cpp:746-804 | Deduplicating the survivors again deletes nothing. |
| Dedup.ChosenExists | src/application/mailfs_service.cpp:764-771 | Every path has a version to keep. |
| Dedup.ChosenUnique | src/application/mailfs_service.cpp:764-771 | And only one, so the outcome does not depend on the order of the messages. |
| DedupGroups.Deduplication.AddRemoteBlockSnapshot | src/application/mailfs_service.cpp:483-507 | Admits a usable message with a matching path and keeps the tables a faithful picture of the messages admitted. |
| DedupGroups.Deduplication.Decide | src/application/mailfs_service.cpp:746-799 | Deleted are exactly the admitted messages that are not to be kept, and each reported path lists its kept and deleted messages completely. |
| DedupGroups.SameBlock | src/application/mailfs_service.cpp:498-506 | Of two messages with one block the larger uid is kept and the other becomes a duplicate. |
| DedupGroups.IsComplete | src/application/mailfs_service.cpp:449-460 | The loop decides whether the blocks found are exactly 1..count, none with uid 0. |
| DedupGroups.CompleteIsExact | src/application/mailfs_service.cpp:449-460 | The program's completeness test holds exactly when the version has all its blocks and no other. |
| DedupGroups.MaxUid | src/application/mailfs_service.cpp:462-469 | The largest uid among the messages to keep, 0 when there is none. |
| DedupGroups.PickVersion | src/application/mailfs_service.cpp:764-771 | The loop ends with a version that no other beats on completeness and then on largest uid. |
| DedupGroups.UnbeatenIsChosen | src/application/mailfs_service.cpp:764-771 | Such a version is the one the reference keeps. |
| DedupGroups.DecidePath | src/application/mailfs_service.cpp:748-796 | Kept and deleted messages of a path are disjoint and together all its messages. |
| Repository.CacheRepository.UpsertMailBlock | src/infra/storage/sqlite_cache_repository.cpp:85-137 | In the joined tables the file takes the new count, hash and size and the block its new row; all other files and blocks stay. |
| Repository.CacheRepository.RemoveMessageUid | src/infra/storage/sqlite_cache_repository.cpp:139-176 | Every file of the mailbox with a block of that uid is gone, and nothing else. |
| Repository.CacheRepository.ClearMailbox | src/infra/storage/sqlite_cache_repository.cpp:178-204 | Every file of the mailbox is gone, and nothing else. |
| Repository.RemovedForgets | src/infra/storage/sqlite_cache_repository.cpp:139-176 | After a message is removed no file of its mailbox lists its uid; files that did not list it and other mailboxes are untouched. |
| Repository.ClearedForgets | src/infra/storage/sqlite_cache_repository.cpp:178-204 | After a mailbox is cleared no file of it is left, and every other file is as before. |
| Repository.CacheRepository.GetCachedUids | src/infra/storage/sqlite_cache_repository.cpp:206-217 | Exactly the uids of the blocks of the mailbox's files. |
| Repository.CacheRepository.FindFile | src/infra/storage/sqlite_cache_repository.cpp:255-264 | The record of the file with its blocks in ascending order, or nothing. |
| Repository.UpsertJoins | src/infra/storage/sqlite_cache_repository.cpp:85-137 | Writing both rows refines the update of one entry of the index. |
| Mailbox.MailfsService.CacheMailbox | src/application/mailfs_service.cpp:560-628 | In batches, each usable message that the index does not know is stored once, in some order. |
| Mailbox.MailfsService.DeduplicateMailbox | src/application/mailfs_service.cpp:665-816 | The server loses exactly the messages looked at that are not to be kept; if there is one the index is rebuilt, otherwise it is untouched. What the rows of the index say is `CachedIndex.CachedRowsAre`. |
| Mailbox.CachedExactly | src/application/mailfs_service.cpp:587-623 | Whatever the order of storing, a file whose messages form one version is indexed exactly. |
| Mailbox.UsableIff | src/application/mailfs_service.cpp:595-616 | A message is used exactly when it is read and has a subject, a path and positive block number and count; only a missing folder is filled in. |
| Mailbox.CheckBlocks | src/application/mailfs_service.cpp:352-365 | The loop decides whether the blocks, sorted, are 1..count with uid and hash. |
| Mailbox.CompleteHasEach | src/application/mailfs_service.cpp:352-365 | A record is found complete exactly when it has as many blocks as its count, at least one, and for each number 1..count one with uid and hash, in whatever order. |
| Mailbox.AlikeKept | src/application/mailfs_service.cpp:674-692 | What is kept of a path depends on path, version and block number of its messages alone, so index rows can stand in for them. |
| MailboxSafety.ServerKeepsSurvivors | src/application/mailfs_service.cpp:665-816 | With an agreeing index the server holds afterwards exactly the survivors of the messages the run was about. |
| MailboxSafety.CompleteCopyStaysOnServer | src/application/mailfs_service.cpp:746-804 | With an index that agrees on the path, a complete copy of it on the server still has one, the only version left and none older. |
| MailboxSafety.FullCopyStaysIff | src/application/mailfs_service.cpp:746-804 | With such an index a full copy of the path stays exactly when some version on the server has just its blocks 1..count, or the newest message belongs to a version with all its blocks. |
| MailboxSafety.FullCopyLeftIff | src/application/mailfs_service.cpp:746-804 | Whatever the index says, a full copy is left exactly when some version has, for each block, a message on the server that was not looked at or that the version chosen for its presumed path keeps. |
| MailboxSafety.StaleIndexIff | src/application/mailfs_service.cpp:674-692 | When rows of messages that are gone may say anything, a full copy is left exactly when the version chosen from index and server keeps, of each block, a message that is there. |
| MailboxSafety.OthersStayOnServer | src/application/mailfs_service.cpp:719-734 | Unreadable messages and those outside the prefix are never deleted. |
| MailboxSafety.RunIsAbout | src/application/mailfs_service.cpp:483-496 | A run is about exactly the usable messages whose path the prefix matches. |
| Paths.PrefixMatches | src/application/mailfs_service.cpp:284-297 | A prefix matches itself and what follows it after a slash of either kind, and nothing that goes on with another character. |
| Paths.EmptyPrefixMatches | src/application/mailfs_service.cpp:284-297 | The empty prefix, or one of slashes only, matches every path. |
| MailboxSafety.SecondRunDeletesNothing | src/application/mailfs_service.cpp:665-816 | A second run with any agreeing index deletes nothing. |
| MailboxSafety.DeduplicatedMailboxIsIndexed | src/application/mailfs_service.cpp:805-808 | After the rebuild each path inside the prefix that had a complete copy is indexed with all blocks of one complete version. |
| MailboxSafety.StaleIndexLosesCopy | src/application/mailfs_service.cpp:706-709 | An instance: a stale row wins and no full copy of the path is left on the server. |
| CachedIndex.CachedRowsAre | src/application/mailfs_service.cpp:673-692 | In an index that the service filled, the rows are those of the messages stored last of their block, each with its own path, number, hash and size, and with count, hash and size of the message of the file stored last. |
| CachedIndex.RowsOfOneUpload | src/application/mailfs_service.cpp:673-692 | The rows of a file of one version say of each message exactly its path, hashes, sizes, block number and count. |
| CachedIndex.CachedAgreesIff | src/application/mailfs_service.cpp:595-692 | Such an index agrees with the server about a path exactly when the messages stored last of their block all belong to one version. |
| CachedIndex.CompleteCopyStaysCached | src/application/mailfs_service.cpp:560-816 | Filling the index and then deduplicating loses no complete copy of such a path, in particular of one uploaded in one version only. |
| CachedIndex.CachedThenDeduplicatedIff | src/application/mailfs_service.cpp:560-816 | With several versions, stored by ascending uid, a full copy is left exactly when the newest messages of all blocks of some version are its own, or an older version is complete without newest messages while these do not pass for a complete version. |
| CachedIndex.CachingLosesCopy | src/application/mailfs_service.cpp:616-692 | An instance: after a changed file was sent up to its first block only, filling the index and deduplicating deletes a block of the only full copy. |
| Slices.SliceCount | src/application/mailfs_service.cpp:887-890 | The computed block count is the number of blocks the file is cut into. |
| Slices.ConcatSlices | src/application/mailfs_service.cpp:930-931 | The blocks put together are the file. |
| Transfer.Uploader.UploadFile | src/application/mailfs_service.cpp:877-965 | After any block at which it stops the state is that of sending the missing blocks up to there, in order, and nothing when all are indexed; what is sent is `Transfer.PlainUpload` and `Transfer.HiddenUpload`. |
| Transfer.UploadSendsMissing | src/application/mailfs_service.cpp:904-961 | However far it gets, an upload adds one message for each missing block, carrying that block's bytes and metadata, and touches no other message. |
| Transfer.HiddenUpload | src/application/mailfs_service.cpp:892-947 | To a mailbox whose last segment begins with a dot each missing block is mailed with disguised name and path and the mode `encrypted`. |
| Transfer.PlainUpload | src/application/mailfs_service.cpp:892-947 | To any other mailbox each missing block is mailed with name and path as they are and the mode `plain`. |
| Transfer.AlreadySentIs | src/application/mailfs_service.cpp:899-912 | Blocks count as sent when the entry of the path lists them, or, without one and for a hidden mailbox, the entry of the disguised path. |
| Transfer.UploadKeepsPartial | src/application/mailfs_service.cpp:930-961 | An upload broken off leaves a partial upload of the same file, from which it can be resumed. |
| Transfer.UploadCompletes | src/application/mailfs_service.cpp:930-961 | An upload to the end leaves every block on the server; the entry it writes to has gained exactly the sent blocks whose uids were told. |
| Transfer.SendsNothingIff | src/application/mailfs_service.cpp:904-918 | Nothing is sent exactly when all block numbers are indexed. |
| Transfer.DownloadIff | src/application/mailfs_service.cpp:981-1099 | A download yields the file exactly when it is not empty and each block is at hand: in the entry of the path, or, without one, on the server in a message that the index does not know. |
| Transfer.UploadThenDownload | src/application/mailfs_service.cpp:877-1099 | Whatever replies tell, uploading, from the start or on top of a part, and downloading yields the file exactly when it is not empty and all blocks end up indexed under the path, or none does and all are on the server for the index to find. |
| Transfer.FromNothing | src/application/mailfs_service.cpp:895-953 | With nothing there before, that is the case for a plain mailbox exactly when the replies tell all uids or none, for a hidden one exactly when they tell none. |
| Transfer.RestoredFromServer | src/application/mailfs_service.cpp:1056-1099 | With an index that does not know the path, the file downloads exactly when each block is on the server in a message the index does not know, hidden mailboxes included. |
| Transfer.FetchesBlock | src/application/mailfs_service.cpp:1076-1099 | A fetched block is the slice of the file exactly when the path on record is the path in the message. |
| Transfer.FetchedFits | src/application/mailfs_service.cpp:1076-1099 | What is fetched is the attachment of the message on record, has the hash on record, and its message names the file, slashes of either kind alike. |
| Download.DownloadDirectory.DownloadFile | src/application/mailfs_service.cpp:981-1054 | The target is there afterwards exactly when every block could be had and the hash fits, with the joined blocks as content; the steps taken are a run of the step machine. |
| Download.EveryRunSound | src/application/mailfs_service.cpp:1001-1050 | However often downloads are broken off, every finished block file holds its whole block and the target, once there, the whole file. |
| Download.SavedHasHash | src/application/mailfs_service.cpp:1034-1050 | Whatever the transport delivers and wherever runs break off, no file gets the target name but one with the hash on record. |
| Download.InterruptedThenFinished | src/application/mailfs_service.cpp:981-1054 | After any number of interrupted downloads one more run yields the file. |
| Download.FetchesOnlyMissing | src/application/mailfs_service.cpp:990-1031 | A run depends on the transport only for the blocks that are not on disk, and on nothing when the target is there. |
| Base64.Base64Encode | src/core/mime_message.cpp:25-45 | Shifts and masks yield, character by character, the digit of the written-out alphabet for each six bits of the bytes, and pads up to a length of 4 times the ceiling of n/3. |
| Base64.DigitTable | src/core/mime_message.cpp:25-29 | The digit of each value stands at its place in the written-out alphabet, for the standard, the address and the mailbox alphabet. |
| Base64.ValueTable | src/core/mime_message.cpp:47-58 | A character has a value exactly when it is in the alphabet, and then its place in it. |
| Base64.EncodedInDigits | src/core/mime_message.cpp:31-44 | Every encoding consists of the digits of six bits each, and of pads. |
| Base64.DecodeIff | src/core/mime_message.cpp:59-81 | The decoder accepts exactly the texts that, blanks, tabs and line breaks aside, are groups of four digits or pads. |
| Base64.Base64Decode | src/core/mime_message.cpp:47-98 | The two loops compute the decoding, or fail on a bad length or character. |
| Base64.DecodesEncoded | src/core/mime_message.cpp:25-98 | Every byte sequence comes back from its encoding with line breaks, blanks and tabs inserted anywhere (section 6.8 of RFC 2045). |
| Base64.CompactInserted | src/core/mime_message.cpp:59-65 | A blank inserted anywhere makes no difference to the decoder. |
| QuotedPrintable.EncodeQuotedPrintable | src/core/mime_message.cpp:163-185 | The loop writes plain bytes as they are and all others as escapes. |
| QuotedPrintable.DecodeQuotedPrintable | src/core/mime_message.cpp:187-216 | The loop decodes escapes, drops soft line breaks and passes on the rest. |
| QuotedPrintable.DecodeEncode | src/core/mime_message.cpp:163-216 | Every byte sequence comes back (section 6.7 of RFC 2045). |
| QuotedPrintable.DecodePlain | src/core/mime_message.cpp:190-194 | Text without the escape character is left unchanged. |
| QuotedPrintable.EncodeOne | src/core/mime_message.cpp:163-185 | Printable characters but the equals sign, blanks, tabs and line breaks stand for themselves; any other byte becomes an equals sign and two capital hexadecimal digits. |
| QuotedPrintable.EncodeJoin | src/core/mime_message.cpp:163-185 | The encoding goes byte by byte. |
| QuotedPrintable.DecodeLoose | src/core/mime_message.cpp:187-216 | Whatever an encoder escapes, in digits of either case, and wherever it breaks lines softly, the bytes come back (section 6.7 of RFC 2045). |
| QuotedPrintable.LoneEquals | src/core/mime_message.cpp:187-216 | An equals sign that begins neither an escape nor a soft line break is passed on. |
| QuotedPrintable.EncodedMatch | src/core/mime_message.cpp:163-185 | A delimiter can occur in encoded text only where it occurs in the bytes. |
| Mime.RenderMultipartMixed | src/core/mime_message.cpp:218-249 | The printer's loops compute the rendering. |
| Mime.PartEncodings | src/core/mime_message.cpp:235-245 | A part is printed in base64, in quoted-printable or as it is, as its transfer encoding header says. |
| Mime.ParseHeaders | src/core/mime_message.cpp:111-139 | The loop over lines computes the header map, folded lines included. |
| Mime.ParseMessage | src/core/mime_message.cpp:251-317 | The parser's cursor loop computes the parse, with each of its errors. |
| MimeRoundTrip.DelimiterEndsBody | src/core/mime_message.cpp:297-302 | The first delimiter after a body free of it is the one at its end: none can straddle the end. |
| MimeRoundTrip.GapAfterLines | src/core/mime_message.cpp:288-295 | The first blank line after header lines is the one that ends them. |
| MimeRoundTrip.MessageRoundTrip | src/core/mime_message.cpp:218-317 | Parsing a rendered message gives its headers, the two that rendering adds, and its parts in order with headers and bodies (section 5.1.1 of RFC 2046). |
| FoldedHeaders.FoldedHeadersRead | src/core/mime_message.cpp:111-139 | Headers folded at blanks over any number of lines are read with the pieces of each value put together, without the blanks at the folds. |
| FoldedHeaders.UnfoldedIff | src/core/mime_message.cpp:124-127 | That is the value as section 2.2.3 of RFC 5322 unfolds it exactly when it stands on one line. |
| MimeRoundTrip.UnquotedBoundary | src/core/mime_message.cpp:141-158 | A boundary without quotes is taken up to the next semicolon. |
| HeaderlessParts.MessageComesBack | src/core/mime_message.cpp:271-317 | Of a message whose parts may lack headers, the parts come back exactly when none does. |
| HeaderlessParts.PartsCounted | src/core/mime_message.cpp:271-315 | A text yields no more parts than it has blank lines followed by a delimiter, each pair after the one before. |
| HeaderlessParts.HeaderlessPartUnreadable | src/core/mime_message.cpp:284-291 | An instance: a message with one part without headers and without line breaks is refused. |
| HeaderlessParts.FirstBreakIsLost | src/core/mime_message.cpp:284-297 | An instance: the body of a part without headers comes back without its first line break. |
| BlockMetadata.SplitFields | src/core/mail_block_metadata.cpp:101-115 | The loop collects of each key the first value, trimmed. |
| BlockMetadata.SubjectRoundTrip | src/core/mail_block_metadata.cpp:156-182 | Name, mode, position and count come back from a subject exactly when the name has no slash and both numbers fit 32 bits; any other subject is refused. |
| BlockMetadata.SubjectText | src/core/mail_block_metadata.cpp:175-182 | A subject is name, mode, position and count, with slashes and a dash between them. |
| BlockMetadata.ReadsInt | src/core/mail_block_metadata.cpp:170-171 | Block numbers are read as the C++ standard library does, and refused outside 32 bits. |
| BlockMetadata.LegacyRoundTrip | src/core/mail_block_metadata.cpp:55-67 | Metadata comes back from its text form, with position, count and mode read from the subject. |
| BlockMetadata.LegacyText | src/core/mail_block_metadata.cpp:55-67 | The metadata text has a line for each of the nine fields, in this order and under these names. |
| BlockMetadata.MissingValues | src/core/mail_block_metadata.cpp:117-137 | Missing sizes are zero, and a subject that cannot be read leaves position, count and mode at their defaults. |
| XorCodec.EncryptionRoundTrip | src/core/xor_codec.cpp:14-80 | Every string comes back from its disguise, which is twice as long and hexadecimal. |
| XorCodec.XorIsBitwise | src/core/xor_codec.cpp:14-20 | Each bit of a disguised byte is that of the byte or its opposite, as the bit of the key says. |
| XorCodec.ZerosShowKey | src/core/xor_codec.cpp:10-18 | Zero bytes come out as the key, over and over. |
| XorCodec.HexAt | src/core/xor_codec.cpp:22-31 | Each byte is written as two small hexadecimal digits, the upper one first. |
| XorCodec.HiddenMailbox | src/core/xor_codec.cpp:80-87 | A mailbox is hidden when its last segment, after a slash of either kind or alone, begins with a dot. |
| XorCodec.PlainMailbox | src/core/xor_codec.cpp:80-87 | It is not when it is empty, ends in a slash, or its last segment begins otherwise, whatever comes before. |
| XorCodec.NoDisguiseStays | src/core/xor_codec.cpp:33-78 | What has an odd length or a character that is no hexadecimal digit is taken as it is. |
| MailMessage.PipelineRoundTrip | src/application/mailfs_service.cpp:367-423 | A mailed block reads back byte for byte; every metadata field, with the path decrypted when the subject says so, exactly when none looks like an escape to the second decoding. |
| MailMessage.MessageArrives | src/application/mailfs_service.cpp:398-423 | A mailed block parses to its date, sender, recipient and subject, the metadata text as the first part and the payload as an attachment. |
| MailMessage.JsonPart | src/application/mailfs_service.cpp:367-383 | A part of JSON holds metadata as well, and the first part that can hold them counts. |
| EscapedMetadata.RereadDiffers | src/application/mailfs_service.cpp:169-200 | Metadata text with such a field, decoded and read, has another value somewhere, also when lines are joined or new ones appear. |
| MailMessage.ReadsOwnText | src/application/mailfs_service.cpp:164-215 | The metadata text is read as it is, whatever the other forms that are tried. |
| EncodedSection.Base64SectionReads | src/application/mailfs_service.cpp:200-211 | A metadata section that is base64, broken into lines in any way, reads as the metadata it encodes. |
| EncodedSection.JsonSectionReads | src/application/mailfs_service.cpp:188-198 | A section in braces is what the JSON reader makes of it. |
| MailMessage.EscapeInPathIsLost | src/application/mailfs_service.cpp:169-176 | An instance on the whole pipeline: the path `a=41` comes back as `aA`. |
| Transfer.SectionReads | src/application/mailfs_service.cpp:188-198 | The metadata section reads the same before its transfer encoding is undone. |
| ModifiedBase64.EncodeModifiedBase64 | src/infra/imap/imap_utf7.cpp:31-61 | The block encoder with its two remainders computes the encoding. |
| ModifiedBase64.DecodeModifiedBase64 | src/infra/imap/imap_utf7.cpp:63-108 | The accumulator accepts exactly the texts whose bits are those of some bytes and fewer than eight zeros, and returns those bytes. |
| ModifiedBase64.DecodedEncoding | src/infra/imap/imap_utf7.cpp:31-108 | Decoding undoes encoding on every byte sequence. |
| ModifiedBase64.EncodedDecoding | src/infra/imap/imap_utf7.cpp:31-108 | An accepted text is reproduced exactly when its length is not 1 modulo 4. |
| ModifiedBase64.DecodingInjective | src/infra/imap/imap_utf7.cpp:100-105 | Among those texts the zero padding check makes decoding injective. |
| ModifiedBase64.ModifiedInDigits | src/infra/imap/imap_utf7.cpp:31-61 | Every encoding consists of the digits, in the written-out alphabet, of six bits each, without pads. |
| ImapUtf7.EncodeImapUtf7 | src/infra/imap/imap_utf7.cpp:165-193 | The loop with its pending units computes the encoding of a name. |
| ImapUtf7.DecodeImapUtf7 | src/infra/imap/imap_utf7.cpp:140-163 | The loop computes the decoding, copying shifts that are not closed or do not decode. |
| ImapUtf7.UnclosedShiftStays | src/infra/imap/imap_utf7.cpp:140-163 | A shift that is not closed is copied with all that follows. |
| ImapUtf7.ForeignShiftStays | src/infra/imap/imap_utf7.cpp:140-163 | A shift with a character outside the alphabet is copied as it stands, and decoding goes on after it. |
| ImapUtf7RoundTrip.NameRoundTrip | src/infra/imap/imap_utf7.cpp:140-193 | Every name comes back, and two encoded names in a row decode to both (section 5.1.3 of RFC 3501). |
| ImapUtf7RoundTrip.EncodingIsCanonical | src/infra/imap/imap_utf7.cpp:165-193 | The encoding consists of direct characters, escaped ampersands and closed shifts that hold no printable unit and never meet. |
| ImapUtf7RoundTrip.CanonicalUnique | src/infra/imap/imap_utf7.cpp:165-193 | A name has only one such form. |
| ImapUtf7RoundTrip.EncodingIsPrintable | src/infra/imap/imap_utf7.cpp:165-193 | The encoding of every name is printable ASCII. |
| ImapUtf7.PrintableNames | src/infra/imap/imap_utf7.cpp:178-186 | Names in printable ASCII stay as they are, but for ampersands, which become `&-`. |
| ImapUtf7.CityName | src/infra/imap/imap_utf7.cpp:165-193 | The example of section 5.1.3 of RFC 3501: two Chinese characters become `&U,BTFw-`. |
| Unicode.SurrogatesOf | src/infra/imap/imap_utf7.cpp:26-29 | The two surrogates of a scalar value carry its upper and lower ten bits (section 2.1 of RFC 2781). |
| Unicode.BytesOfScalar | src/infra/imap/imap_utf7.cpp:21-24 | The bytes of a scalar value are those that section 3 of RFC 3629 tables. |
| StreamUrl.DecodePercent | src/application/http_imap_download_server.cpp:122-149 | The loop decodes proper escapes and passes on the rest. |
| StreamUrl.EscapingUndone | src/application/http_imap_download_server.cpp:122-149 | Decoding undoes escaping, whichever characters are escaped and in whichever case. |
| StreamUrl.ParseQueryString | src/application/http_imap_download_server.cpp:151-166 | The loop collects of each key the first value. |
| StreamUrl.FirstValueCounts | src/application/http_imap_download_server.cpp:151-166 | Once a key has a value, no further value of it counts. |
| StreamUrl.DecodeBase64Compact | src/application/http_imap_download_server.cpp:168-222 | Missing padding is supplied and the groups decoded, or decoding fails. |
| StreamUrl.DecodeBase64Param | src/application/http_imap_download_server.cpp:224-232 | Trying the standard alphabet before the one for addresses makes no difference. |
| StreamUrl.AddressRoundTrip | src/application/mailfs_service.cpp:312-350 | The server reads from the address exactly the mailbox and path it was built from, padded or not and whatever characters a client escaped, and refuses it when either is empty (section 5 of RFC 4648). |
| StreamUrl.BuiltAddressReads | src/application/http_imap_download_server.cpp:707-728 | The same for the whole address as it is built: the listening address without slashes at its end, and the two parameters. |
| StreamUrl.OtherTargets | src/application/http_imap_download_server.cpp:707-728 | Any other path is not found. |
| StreamUrl.MalformedRefused | src/application/http_imap_download_server.cpp:707-728 | A parameter that is empty or has a character outside both alphabets is refused. |

## Left out

- Sockets, TLS, accept loops, response headers and the IMAP command exchange: I/O.
- SQL text, the file system and JSON libraries: the tables and the disk are abstract state, and reading JSON metadata is a parameter.
- Load records are named by numbers instead of shared objects, and their own mutex and condition variable by atomic steps.
- Iteration order of ordered maps: a loop over one takes its entries in any order, and headers are printed in the order of a sequence.
- Server shutdown, which clears the prefetch queue and ends the worker.
- The total size that the server takes from the first block when the index has none.
- Retries and waiting of the IMAP client, and messages that vanish between listing and fetching.
- Clock, boundary generation and uid assignment: parameters.
- Integer widths: sizes and uids are unbounded except where text is turned into numbers and where the number of blocks must fit a 32-bit integer; the accumulator of modified base64 is unbounded, of which only the low bits matter.
- Two files of one directory that share a hash also share a cache directory; a download is modelled with a directory of its own.
- Playlist export, content types, listing of mailboxes, configuration, credentials and the command line are not modelled.
- Conversion of file names to paths and of UTF-8 text to UTF-16: names are sequences of scalar values, and both encodings of them are part of the model.
- DedupGroups.Deduplication.AddRemoteBlockSnapshot: each uid is presented once, as the program does; presenting one twice is not modelled.
- Transfer.UploadThenDownload: for an index whose entries at the path, if any, are parts of the very file that is uploaded; what an upload does on top of an entry of another file is `Transfer.SendsNothingIff`.
