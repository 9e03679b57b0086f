# go-drive: a model of what the tables and the object stores keep together

go-drive keeps file metadata in SQL tables and file bytes in pluggable object
stores behind an S3-style gateway. This project models the state those two
keep together, and the algorithms around it, and proves what that code
promises. `dafny verify dfyconfig.toml` checks all of it.

How the system is rendered:

- A table is a map from primary key to row. UNIQUE constraints are either the
  map's key or a guard that makes the statement fail and change nothing. A
  transaction that rolls back restores the tables; stores are never rolled back.
- A store is a map from path to bytes, as the storage interface promises. Which
  provider calls (deletes among them) and commits fail, and what a failed upload
  leaves behind, are parameters of the operations and the theorems are for all
  of them. Reads of the tables do not fail.
- Code that changes rows or fields step by step is a method with loops, proved
  equal to a specification function; the theorems are about those functions and
  about runs of them. What an operation does is also told without them, by rows,
  columns, objects and characters, in the methods' contracts and in the lemmas
  beside them. Concurrent requests are a state machine whose steps are
  the phases of an upload (`Records.Step`).

| File | What it models |
|---|---|
| Tables, Records, Refinement, Gateway | the record lifecycle, the three-phase put, get and delete; every interleaving of phases keeps the tables sound, and puts serialised per key make tables and stores one map from key to bytes |
| Landing | what a successful put leaves, row by row and object by object |
| Loss | exactly when a get can miss a key of that map |
| KeyPlacement, UploadKeys | the folder and name a key stands for, the key an upload gets, and which of them collide |
| Requests | whole requests one after the other: the map they amount to, told from the map alone, and what gets and listings show of it |
| Replication, Ingest, Naming | copying a file to every write store, pulling a store's objects in, display paths and deduplicated names |
| AwsChunked | the aws-chunked streaming decoder over a reader that returns short reads, and the framing it inverts |
| Listing, ByteOrder | ListObjectsV2 paging over the sorted key space |
| Folders, FolderDelete | the folder forest, folder chains for keys, recursive delete, the scope of folder links |
| PartNumbers, Multipart | multipart uploads: how part numbers are spelled, latest part wins, what completion and abort leave |
| MultipartMap, FailedCompletion | what completion, also one that fails, and abort do to the gateway's map and to other uploads |
| Routing | the upload routing policies, batch reservations, round robin |
| CanonicalQuery | the canonical query string of AWS Signature Version 4 |
| RateLimit | the fixed-window limiter |
| Quota | organizations, members and shared-out storage quota |
| Strings | what the handlers use of Go's strings and path packages |

Where the code does not do what one would expect, the behaviour is a lemma, and
another says exactly when it happens:

- A put removes the old object before its first transaction commits; if the
  commit then fails the row stays and the bytes are gone
  (`Loss.FailedPutLosesObject`, exactly when: `Loss.FailedBeginMissesIff`).
- Overlapping puts on one key can block it for good
  (`Refinement.OverlapBlocksForever`, exactly when: `Refinement.BlockedIffOvertaken`),
  and so can deleting the folder of a put in flight
  (`FolderDelete.PurgeOvertakesPuts`).
- Keys that differ only in doubled or leading slashes block each other
  (`KeyPlacement.SlashesDoNotSeparate`, exactly when: `KeyPlacement.SameAddressIff`
  and `Requests.PutWorksIff`); a trailing slash never reaches a handler
  (`KeyPlacement.DispatchTrims`).
- Uploads into different folders can share an object key, and then one replaces
  the other's file: folders more than 50 levels deep share the root's
  (`UploadKeys.DeepUploadTakesRootKey`), and a folder named "a/b" those of b in a
  (`UploadKeys.SlashNamesShareKeys`); exactly when, for both reasons:
  `UploadKeys.UploadKeysCollideIff` and `UploadKeys.UploadKeysSeparateIff`.
- Aborting a multipart upload takes whatever file its user has at the key: a
  finished put (`MultipartMap.AbortUndoesPut`, exactly when:
  `MultipartMap.AbortOnTheMap`) or another upload's reservation
  (`MultipartMap.AbortTakesSharedReservation`, exactly when:
  `MultipartMap.AbortKeepsReservationIff`). Completing one over a finished put can
  leave old copies readable (`MultipartMap.CompletionLeavesOldCopy`, exactly when:
  `MultipartMap.CompletionPublishesIff`).
- A multipart completion that finds no file to mark ready has by then replaced
  the object at the key, if need be that of another user's put, and deleted its
  parts (`FailedCompletion.CompletionReplacesOthersObject`; it keeps the map exactly
  when: `FailedCompletion.FailedCompletionKeepsMapIff`; the parts must be sent again
  exactly when: `FailedCompletion.AssemblesAgainIff`,
  `FailedCompletion.RemovedPartsMustBeResent`).
- A part number spelled two ways strands an object
  (`Multipart.RespelledPartLeaks`, exactly when: `Multipart.SendingStrays`).
- Listing "docs/" with delimiter "/" hides the children
  (`Listing.DirectoryListingHidesChildren`; the prefix is honoured exactly when:
  `Listing.PrefixIsHonouredIff`).
- Replicate mode overfills the primary while other stores have room
  (`Routing.ReplicateBatch`, possible exactly when: `Routing.ReplicateMisplacesIff`).
- A quota sum beyond int64 wraps around and is accepted (`Quota.WrapDefeatsLimit`,
  exactly when: `Quota.RunIsWithinLimitsIff`).
- A truncated aws-chunked body is never reported
  (`AwsChunked.CutBodyReadsCleanly`); a second ingest repeats work exactly when
  display paths collide (`Ingest.IngestAgain`); the rate limiter's true bound is one
  less than twice the limit (`RateLimit.LimiterBound`), and as nothing sets the
  tenant id it reads, the tenant limiter counts no request
  (`RateLimit.RateLimiter.AllowTenant`).

Two of these conditions reach beyond what the deployed code can meet: a negative
round-robin cursor would stick to the first store
(`Routing.RoundRobinIsFairIff`), but nothing sets one; and
`Routing.ReplicateMisplacesIff` fills a primary without a limit with more than 2^63
bytes.

The comment on `readUntil` (server/internal/handler/s3gateway.go:834) says the
delimiter is left out; the code returns it, and the model follows the code. The
removal of a trailing CR in the chunk header is therefore never reached, and
TrimSpace is what drops the CRLF.

## Model

| member | source | states |
|---|---|---|
| Tables.CreatePendingKeepsInv | server/internal/store/file_records.go:321-354 | Reserving a key (dropping its old rows, inserting a pending pair) keeps the whole invariant of blobs, files and locations |
| Tables.MarkReadyKeepsInv | server/internal/store/file_records.go:385-419 | Marking a pair ready keeps the invariant, whether the pair is still there or an overlapping request has removed both rows |
| Tables.InsertLocKeepsInv | server/internal/migrate/tenant.go:214-215 | A location insert that both UNIQUE constraints let through keeps the invariant |
| Records.DeleteBlobEverywhere | server/internal/store/file_records.go:359-380 | The new tables are the old ones without the key's blob, its file and its locations; nothing else changes |
| Records.CreatePendingFileUpload | server/internal/store/file_records.go:321-354 | The key's old rows go, a fresh pending blob and file come, and UNIQUE (object_key) lets the insert through |
| Records.MarkFileUploadReady | server/internal/store/file_records.go:385-419 | Succeeds exactly when no constraint refuses; then both rows (those that still exist) are ready and the location is there |
| Records.DeleteFileEverywhere | server/internal/store/file_records.go:424-441 | A live file goes with its blob and locations; an unknown one is an error that changes nothing |
| Records.FindFileByKey | server/internal/handler/s3gateway.go:248-254 | Finds a ready file at the key exactly when there is one |
| Records.ResolveReadStore | server/internal/store/file_records.go:283-301 | Picks an available location on an existing store when there is one, else the primary with the fallback path; fails exactly when there is neither |
| Records.StepKeepsInv | server/internal/handler/upload.go:156-256 | Every step of every upload phase and delete, accepted in any order, keeps the tables' invariant and every flight's rows whole or wholly gone |
| Records.EveryRunIsSound | server/internal/store/file_records.go:321-441 | Under every interleaving of phases and deletes: keys unique, blobs and files one-to-one, a ready file has a ready blob with an available location, at most one ready file answers to a key |
| Refinement.SerialRunsRefineTheMap | server/internal/handler/s3gateway.go:266-452 | Every run whose puts are serialised per key, with any put failing in any phase, keeps tables and stores together equal to one map from key to bytes; a key is marked frail exactly when a phase 1 removed a copy that the primary held and then did not commit |
| Refinement.StepRefines | server/internal/handler/s3gateway.go:322-438 | Each step of such a run moves tables and stores as the abstract map moves |
| Refinement.GetReadsTheMap | server/internal/handler/s3gateway.go:266-299 | Whatever location a get picks it answers with the map's bytes, or misses a frail key; Loss.MissIffFrail says that each frail key can be missed |
| Refinement.PutSucceedsIff | server/internal/handler/s3gateway.go:322-438 | On a serialised key a put with a given folder and name goes through exactly when no other key's ready file holds them: no failed upload blocks a later put (for folder and name as computed from the key see KeyPlacement and Gateway) |
| Refinement.FinishFailsIff | server/internal/store/file_records.go:385-419 | Phase 3 fails exactly when another ready file holds the name or another blob's location holds the store and key |
| Refinement.OvertakenFinishBlocks | server/internal/store/file_records.go:394-419 | A put whose rows another request has removed still finishes, and leaves a location that blocks its key on its store |
| Refinement.BlockArisesIff | server/internal/store/file_records.go:394-419 | One step blocks a key on a store exactly when it is the committed finish of a put whose rows another request has removed |
| Refinement.BlockedIffOvertaken | server/internal/store/file_records.go:394-419 | Over every run, a store and key are held by a location of a removed blob exactly when some put on them was overtaken and still finished |
| Refinement.BlockedForever | server/internal/store/file_records.go:394-419 | Such a block is never lifted by any later step of any run |
| Refinement.BlockedPutsFail | server/internal/store/file_records.go:408-419 | Every later put on a blocked key and store fails in phase 3 |
| Refinement.OverlapBlocksForever | server/internal/store/file_records.go:394-419 | Concretely: two overlapping puts on one key in a fresh workspace leave the key blocked, so the second put and every later one on it fail |
| Loss.SerialRunsAreExact | server/internal/handler/s3gateway.go:322-438 | Over every serialised run each frail key really is located on the primary with its object gone |
| Loss.SerialGets | server/internal/handler/s3gateway.go:266-452 | After any serialised run a get can answer a key's bytes only as the map has them, can answer no such key exactly for keys the map lacks or that are frail, and every other key of the map it does answer |
| Loss.MissIffFrail | server/internal/handler/s3gateway.go:266-299 | A get can miss a key of the map exactly when the key is frail |
| Loss.FrailServedIff | server/internal/store/file_records.go:283-301 | A frail key can still be read exactly when a store other than the primary holds a copy |
| Loss.FrailIsGoneInCumulativeMode | server/internal/store/file_records.go:283-301 | In cumulative mode, after every serialised run, a frail key can only be missed |
| Loss.FailedBeginMissesIff | server/internal/handler/s3gateway.go:359-384 | After a phase 1 that removed the old object and then failed to commit, a get can miss the key exactly when its blob had a location on the primary |
| Loss.FailedPutLosesObject | server/internal/handler/s3gateway.go:376-384 | In a fresh workspace: after a put that succeeds, a second put on the key whose commit fails leaves a key whose get can answer no such key |
| KeyPlacement.DispatchTrims | server/internal/handler/s3gateway.go:46-59 | Outer slashes of a request path change neither workspace nor key: a request for "s/b/" is one for "s/b" |
| KeyPlacement.DispatchedIs | server/internal/handler/s3gateway.go:46-59 | A path is the slug, a slash and the key: inner and leading slashes of the key are kept |
| KeyPlacement.PassedOnIff | server/internal/handler/s3gateway.go:46-59 | The keys that handlers are given are exactly those that do not end in a slash |
| KeyPlacement.AddressIs | server/internal/handler/s3gateway.go:219-245 | The folder path and file name of such a key together are its non-empty segments |
| KeyPlacement.SameAddressIff | server/internal/handler/s3gateway.go:328-371 | Two such keys have the same folder path and name exactly when they are equal once leading slashes are dropped and doubled ones made single |
| KeyPlacement.SlashesDoNotSeparate | server/internal/handler/s3gateway.go:328-371 | So "s//b" is filed where "s/b" is, and "/b" where "b" is |
| KeyPlacement.PutSucceedsIffByKey | server/internal/handler/s3gateway.go:322-438 | While files are where their keys put them, a put on a serialised key goes through exactly when no other ready key has the same folder path and name |
| KeyPlacement.StepStaysFiled | server/internal/handler/s3gateway.go:322-452 | Every step of puts that are filed by their keys keeps every file so |
| UploadKeys.ObjectKey | server/internal/handler/upload.go:176-183 | The key of an upload is the folder's path and the name, or the bare name when the path walk fails |
| UploadKeys.UploadKeysCollideIff | server/internal/handler/upload.go:176-183 | Two uploads share their object key exactly when they have one name and FolderPath gives their folders one path, where a failed walk and the root both give none |
| UploadKeys.UploadKeysSeparateIff | server/internal/handler/upload.go:176-183 | On every folder table, uploads into different folders or of different names get different keys exactly when no two folders, the root among them, have one path |
| UploadKeys.PlainDirsDistinctIff | server/internal/store/store.go:52-67 | Where no folder name holds a slash, that is so exactly when no folder has more than 50 levels |
| UploadKeys.DeepUploadTakesRootKey | server/internal/handler/upload.go:176-188 | An upload into a deeper folder takes the key of the root's file of that name and so removes that file |
| UploadKeys.SlashNamesShareKeys | server/internal/handler/folder.go:99-121 | A folder may be named "a/b"; its files then share object keys with those of folder b in folder a |
| UploadKeys.UploadIsFiledIff | server/internal/handler/upload.go:176-183 | An upload is filed where its key puts it exactly when its folder's path can be walked and no folder name on it is empty or holds a slash |
| Gateway.S3PutObject | server/internal/handler/s3gateway.go:322-438 | A put that reports success has its folders, a ready file and blob with the right names, user and key, an available location and the object with its bytes on the store of the setting row, or without one on the first active write store; in replicate mode every other active write store that works and whose path is free has a copy too; every row and object of every other key is as it was. With no such store it fails and changes nothing. A failure leaves what the phase reached leaves |
| Gateway.PutLands | server/internal/handler/s3gateway.go:391-438 | So does any put, of the gateway or of a batch, that goes through on the store it was begun for |
| Landing.FinishLands | server/internal/store/file_records.go:385-419 | Phases 2 and 3 from freshly reserved rows: if no constraint refuses them, exactly the key's rows, object and fan-out are there and nothing of another key has changed |
| Gateway.S3PutObjectSucceedsIff | server/internal/handler/s3gateway.go:322-438 | It reports success exactly when there is a key and a primary, both transactions commit, the upload works and no other ready key has the key's folder path and name |
| Gateway.S3PutBegin | server/internal/handler/s3gateway.go:334-384 | Phase 1 as a step of the protocol: folders created, old rows and, if that delete works, the old object dropped, a pair reserved on the primary, or everything but the removed object rolled back |
| Gateway.UploadAndFinish | server/internal/handler/s3gateway.go:391-438 | Phases 2 and 3, with the replicate fan-out and the rollback of a failed commit |
| Gateway.UploadOneAttempt | server/internal/handler/upload.go:156-256 | One attempt of a batch upload, with its key built from the folder path, is the same protocol on the routed store; when it reports success it has left what a successful put leaves, on that store |
| Gateway.S3DeleteObject | server/internal/handler/s3gateway.go:440-452 | Exactly the ready file at the key goes, with its blob and locations; every other row stays as it was, and every object, its own included |
| Gateway.S3GetObject | server/internal/handler/s3gateway.go:266-299 | A get answers with the object at the file's key on a store where its blob is available, or, when no existing store has it, where puts go; with no such key when there is no ready file or no object there; with an error only when neither kind of store exists |
| Gateway.PutActsOnItsKey | server/internal/handler/s3gateway.go:322-438 | A successful put sets exactly its key. A failed one removes it if phase 1 committed and else leaves it, frail exactly if phase 1 lost a copy the primary held. Every other key is untouched |
| Gateway.FailedPutKeepsOrRemovesIff | server/internal/handler/s3gateway.go:322-438 | A failed put leaves its key unchanged or absent exactly unless it lost the primary's copy of a key that was not frail yet |
| Gateway.AttemptStaysFiled | server/internal/handler/s3gateway.go:322-438 | Whatever happens to a put, files stay filed by their keys |
| Requests.RequestsAreTheMap | server/internal/handler/s3gateway.go:322-452 | Every sequence of whole puts and deletes from an empty workspace, any of them failing anywhere, keeps tables and stores together equal to a map whose every update, the success of a put included, is told from the map alone |
| Requests.PutWorksIff | server/internal/handler/s3gateway.go:322-438 | After any such sequence a put succeeds exactly when there is a key and a primary, both transactions commit, the upload works and no other key of the map differs only in doubled or leading slashes |
| Requests.GetAnswersTheMap | server/internal/handler/s3gateway.go:266-299 | After any such sequence a get can answer a key's bytes only as the map has them, and no such key exactly for keys the map lacks or that are frail |
| Requests.HandleAll | server/internal/handler/s3gateway.go:322-452 | The handlers themselves, run one after the other on fresh tables, stores and folders, end where that map says |
| Requests.SerialPathsAreTheMap | server/internal/handler/s3gateway.go:506-513 | After every serialised run the ready files a listing selects from are exactly the map's keys |
| Requests.ListingShowsTheMap | server/internal/handler/s3gateway.go:483-559 | A client that lists without a delimiter after any such sequence and follows every token sees exactly the map's keys under the trimmed prefix, once each and in order |
| Replication.SyncFileToStores | server/internal/store/sync.go:22-121 | The loop over target stores computes the specified world and verdict |
| Replication.PrimaryIs | server/internal/store/file_records.go:25-45 | The primary is the store of the setting row if that store exists; without a setting row, the first store in order that is active and in write mode; else none |
| Replication.SyncFileServes | server/internal/store/sync.go:22-121 | A sync of a ready file, from the store asked for at its location there or from the primary, returns nil exactly when every other active store in write mode has a copy or can be given one; store by store, those are the ones located afterwards, with the source's bytes; nothing else changes |
| Replication.SyncFileRefuses | server/internal/store/sync.go:22-72 | An unknown file and one without a source are errors, a file not ready is not, and none of them changes anything |
| Replication.SyncTouchesOnlyCopies | server/internal/store/sync.go:73-121 | A sync changes nothing but this blob's new locations and objects on targets that had none: earlier locations and all other objects stay |
| Replication.SyncSucceedsIffServable | server/internal/store/sync.go:73-121 | A nil result means exactly that every target could be served; then every target holds a location, and every copy made holds the source's bytes |
| Replication.SyncIsIdempotent | server/internal/store/sync.go:73-121 | Once every target holds a location a sync uploads and records nothing, whichever stores fail |
| Replication.SyncFileCompletes | server/internal/store/sync.go:22-121 | A nil result for a ready file leaves every active write store but the source with a location, and a second call changes nothing |
| Replication.SyncFileMakesCopies | server/internal/store/sync.go:174-184 | Copies made from the primary hold the primary's bytes |
| Replication.SyncFileKeepsInv | server/internal/store/sync.go:22-121 | A sync keeps the invariant of the tables |
| Replication.SyncWorkspace | server/internal/store/sync.go:127-171 | The run ends completed with processed = total and failed = how many of the syncs did not return nil |
| Replication.WorkspaceSyncCompletes | server/internal/store/sync.go:127-171 | A run that counts no failed file leaves every ready file of the workspace located on every active write store, and a further run in any order uploads nothing, records nothing and fails nowhere |
| AwsChunked.ReadLine | server/internal/handler/s3gateway.go:835-850 | Reads up to and including the next LF, however short the source's reads, or what is left with its error |
| AwsChunked.ChunkedReader.Read | server/internal/handler/s3gateway.go:788-833 | Each Read hands over the next bytes of the outstanding payload and ends only when it is exhausted |
| AwsChunked.CopyAll | server/internal/handler/s3gateway.go:788-833 | With any buffer sizes and any short-read schedule, reading ends and collects exactly the decoded payload |
| AwsChunked.DecodeFrames | server/internal/handler/s3gateway.go:788-833 | Every framed chunk sequence, with any size spelling, extension and trailer, decodes to the concatenation of its chunks |
| AwsChunked.HeaderDecides | server/internal/handler/s3gateway.go:806-833 | After any chunks, a header line that is no size ends the reading with an error, zero ends it cleanly, a negative size is passed over and a positive one has that many bytes follow |
| AwsChunked.ParseSizeIff | server/internal/handler/s3gateway.go:811-822 | A line is read as the size n exactly when it is white space, an optional sign, hexadecimal digits of value n within int64, white space, and nothing or a semicolon and anything |
| AwsChunked.HexValueIs | server/internal/handler/s3gateway.go:819-822 | Sizes count in base 16, most significant digit first |
| AwsChunked.ReadBody | server/internal/handler/s3gateway.go:766-833 | End to end, the reader delivers exactly the payload of the body and then ends |
| AwsChunked.ReadBadBody | server/internal/handler/s3gateway.go:788-833 | End to end, a body whose header after some chunks is no size yields their payload and then the error |
| AwsChunked.CutBodyReadsCleanly | server/internal/handler/s3gateway.go:788-833 | A body cut off anywhere reads as a prefix with a clean end, the whole payload exactly when no chunk data is missing: truncation is never reported |
| AwsChunked.DecodeEncode | server/internal/handler/s3gateway.go:766-833 | Decoding inverts the framing encoder |
| Listing.HexRoundTrip | server/internal/handler/s3gateway.go:499-557 | The base16 continuation token decodes to the key it was made from |
| Listing.BuildPage | server/internal/handler/s3gateway.go:522-557 | The page loop stops after the specified number of files and collects their contents and distinct common prefixes |
| Listing.S3ListObjectsV2 | server/internal/handler/s3gateway.go:483-559 | The handler answers with the specified page: at most max-keys entries, or 1000 without a positive one, exactly so many and a token when it is truncated, no token otherwise; what the pages show is in the two rows below |
| Listing.ListsAfterParameter | server/internal/handler/s3gateway.go:493-513 | Without a token, or with one that is not hexadecimal, following tokens shows as keys exactly the keys under the trimmed prefix and after start-after that are not folded, and as common prefixes exactly what such keys fold to |
| Listing.ListsAfterToken | server/internal/handler/s3gateway.go:497-513 | With a token that decodes to t it shows the same of the keys after t, whatever start-after is |
| Listing.UndecodableIff | server/internal/handler/s3gateway.go:497-501 | Exactly tokens of odd length or with a byte that is no hexadecimal digit, of either case, do not decode |
| Listing.HexEncodeIs | server/internal/handler/s3gateway.go:551-555 | A token is two lower-case digits for every byte |
| Listing.LabelMeans | server/internal/handler/s3gateway.go:531-543 | A key is folded exactly when the delimiter occurs in it behind the prefix, and then to everything as far as the first byte of its first occurrence |
| Listing.ListedInOrder | server/internal/handler/s3gateway.go:503-513 | The keys shown ascend bytewise |
| ByteOrder.LessIff | server/internal/handler/s3gateway.go:503-513 | One key is before another exactly when at the first difference it has run out or has the smaller byte |
| Listing.PageIsBounded | server/internal/handler/s3gateway.go:522-557 | A page has at most the limit of entries, and exactly that many and a continuation token when it is truncated |
| Listing.Resume | server/internal/handler/s3gateway.go:499-557 | A page takes at least one file if any is left, and the next page's files are exactly those this page left over |
| Listing.PagesTileTheKeys | server/internal/handler/s3gateway.go:483-559 | Following tokens to the end takes at most files/limit + 1 pages; concatenated contents are the undelimited keys, each once, in order; common prefixes less adjacent repeats are the key groups in order |
| Listing.GroupsAreContiguous | server/internal/handler/s3gateway.go:531-543 | Keys folded into one common prefix are contiguous in key order |
| Listing.GroupsAreRuns | server/internal/handler/s3gateway.go:522-543 | The distinct prefixes of one call are the runs of labels in key order |
| Listing.NoPrefixTwice | server/internal/handler/s3gateway.go:522-543 | Only a prefix split by a page boundary is ever reported again |
| Listing.PrefixIsHonouredIff | server/internal/handler/s3gateway.go:485-513 | Whatever is stored, start and token, the answer is the page for the prefix as sent exactly when that prefix neither begins nor ends with a slash |
| Listing.DirectoryListingHidesChildren | server/internal/handler/s3gateway.go:485-543 | The whole listing of prefix "p/" with delimiter "/" reports no key and no directory below p/: only p/ itself, and that exactly when some key below it is left to list |
| Folders.FolderSubtree | server/internal/store/explorer.go:18-40 | On any parent relation, cyclic or not, the walk ends; it succeeds exactly when the folder is not its own ancestor and its subtree is within the cap, and then returns the folder and all descendants, each once |
| Folders.CreateFolder | server/internal/handler/folder.go:84-129 | Bad request exactly for a name of blanks; not found for a parent that is not there; conflict when a sibling has the trimmed name; otherwise one new row with that name under that parent, and nothing else changes |
| Folders.UpdateFolder | server/internal/handler/folder.go:165-241 | After success the folder has the trimmed name, or its old one if that is empty, and the requested parent, or its old one if none is given, and every other row is as it was; every refusal has its condition and changes nothing |
| Folders.RenameIff | server/internal/handler/folder.go:192-222 | A rename without a move goes through exactly when the folder exists and no sibling has the new name |
| Folders.TrimSpace | server/internal/handler/folder.go:288-296 | The two index loops remove exactly the blanks, tabs, line feeds and carriage returns at the ends |
| Folders.IsDescendant | server/internal/handler/folder.go:316-327 | Reports a target inside the subtree, and also when the walk fails |
| Folders.GuardIsExact | server/internal/handler/folder.go:198-211 | In a forest the move guard refuses exactly moves into the folder's own subtree, and all moves past the node cap |
| Folders.UnguardedMoveClosesCycle | server/internal/handler/folder.go:198-211 | Without the guard such a move would close a cycle |
| Folders.StepKeepsSound | server/internal/handler/folder.go:84-282 | Create, rename or move, chain creation and recursive delete, with or without the files, each keep an acyclic forest with existing parents and unique sibling names |
| Folders.EveryRunIsAForest | server/internal/handler/folder.go:84-282 | So does every run of them |
| Folders.ResolveOrCreateFolderChain | server/internal/handler/s3gateway.go:219-245 | Leads to the folder of the key's directories, changing no existing row, and creating only folders on that path and none if it was there |
| Folders.ResolvingTwiceIsOnce | server/internal/handler/s3gateway.go:219-245 | A second resolve returns the same folder and creates nothing |
| Folders.FolderPath | server/internal/store/store.go:52-67 | The parent walk with its depth guard joins the names from the root |
| Folders.ChainRoundTrip | server/internal/handler/s3gateway.go:219-245 | Resolving a key and walking back gives its non-empty directory segments joined by "/" (up to 50) |
| Folders.DeleteFolderRecursive | server/internal/store/explorer.go:44-63 | Exactly when the folder exists, is not its own ancestor, has at most 10,000 folders below it counting itself, and no two ready files that would meet at the root share a name: the subtree goes, its files are at the root and no file is left in it, and every other row is as it was; otherwise nothing changes |
| Folders.DropSubtreeKeepsForest | server/internal/store/explorer.go:44-63 | Removing a whole subtree leaves a forest |
| Folders.ResolveSharedFile | server/internal/handler/share.go:457-502 | A folder link serves exactly the ready files in its folder's subtree; a file link exactly its own file |
| FolderDelete.DeleteFolderRecursiveWithFiles | server/internal/store/explorer.go:68-120 | Exactly the folders of the subtree, the files in them, their blobs and locations, and their copies on existing stores that do not fail are gone, and every other row and object is as it was; it fails, changing nothing, exactly when the walk does |
| FolderDelete.PurgeFile | server/internal/store/explorer.go:85-107 | One file's copies, rows and locations go; a provider that fails keeps its copy |
| FolderDelete.PurgeRemovesItsKeys | server/internal/store/explorer.go:68-120 | Deleting a folder with its files, whatever puts are in flight, keeps the tables sound and removes exactly the files' keys from the gateway's map, which the surviving puts go on from |
| FolderDelete.PurgeOvertakesPuts | server/internal/store/explorer.go:68-120 | A put past phase 2 whose uploading file goes with the folder still finishes, and then blocks its key on its store |
| Multipart.TempPathInjective | server/internal/handler/s3multipart.go:26-28 | Different uploads or part spellings never share a temp object |
| PartNumbers.PartNumberIs | server/internal/handler/s3multipart.go:82-88 | A spelling is part number n exactly when it is an optional plus sign, any zeros and n as strconv.Itoa writes it, with n from 1 to the largest int64 |
| PartNumbers.PartNumberOfItoa | server/internal/handler/s3multipart.go:82-88 | So Itoa's own spelling of n is part number n |
| PartNumbers.SpellingOrder | server/internal/handler/s3multipart.go:136-144 | Canonical spellings are ordered as their numbers are: the shorter first, and of equal length the one with the smaller digit where they first differ |
| Multipart.S3CreateMultipartUpload | server/internal/handler/s3multipart.go:30-80 | Creates the key's folders, records the upload and reserves the key under a deduplicated name, as a put's phase 1 does |
| Multipart.DedupFileName | server/internal/handler/s3keys.go:118-140 | Picks the name, or its first alternative when the folder has a file of that name: the query sees no other names |
| Multipart.DedupedFileIsFreeIff | server/internal/handler/s3keys.go:118-140 | So the name picked is taken exactly when both the name and its first alternative are |
| Multipart.S3UploadPart | server/internal/handler/s3multipart.go:82-127 | Stores the part's bytes at .s3parts/upload/spelling on the store puts go to and upserts the row of its number with that path, or leaves the rows alone |
| Multipart.ListParts | server/internal/handler/s3multipart.go:136-144 | Lists exactly the upload's parts in ascending number |
| Multipart.OrderIsUnique | server/internal/handler/s3multipart.go:136-144 | That order is unique |
| Multipart.S3CompleteMultipartUpload | server/internal/handler/s3multipart.go:129-219 | Succeeds exactly when all parts can be opened, the final upload works and a file of the upload's user at the requested key can be marked ready; then the object there is the parts' bytes in ascending number, that file is ready, and the upload's rows and its listed objects but those whose delete fails are gone. Otherwise no row changes and the stores are as far as it got, parts removed and object replaced if the file was the problem |
| Multipart.PlayAndComplete | server/internal/handler/s3multipart.go:82-219 | After any history of part uploads, an upload that is completed stores one piece after the other what was last left for every part number ever sent, in ascending number; sent under canonical spellings, that is in the digit order of the spellings; it is completed exactly when something was sent, no part's last bytes are missing, the final upload works and a file can be marked ready |
| Multipart.S3AbortMultipartUpload | server/internal/handler/s3multipart.go:221-247 | Abort removes the upload's rows, its listed temp objects on the store puts go to but those whose delete fails, and the file of the upload's user at the requested key, whatever file that is |
| Multipart.LatestPartWins | server/internal/handler/s3multipart.go:82-127 | For any interleaving and re-upload, each part's row and object are those of the latest bytes sent for its number |
| Multipart.LatestIs | server/internal/handler/s3multipart.go:82-127 | The latest of a part is what its last sending, or a later failed upload of the same spelling, left at its path |
| Multipart.AllLatestIs | server/internal/handler/s3multipart.go:145-175 | What is assembled can be cut into one piece per listed part, each what was last left for it |
| Multipart.ListedInDigitOrder | server/internal/handler/s3multipart.go:136-144 | Parts sent under canonical spellings are listed in the digit order of the spellings |
| Multipart.AssemblesLatest | server/internal/handler/s3multipart.go:129-219 | What completion stores is the concatenation in ascending number of the latest bytes of each part |
| Multipart.ListedPartsWereSent | server/internal/handler/s3multipart.go:136-144 | The parts listed are exactly those ever sent |
| Multipart.OnlyStraysRemain | server/internal/handler/s3multipart.go:177-247 | Completion and abort leave, of the upload's temp objects, exactly those no row names and those whose delete fails; every part row and temp object of another upload stays |
| Multipart.SendingStrays | server/internal/handler/s3multipart.go:82-127 | Re-sending a part strands its old object exactly when the number is spelled differently |
| Multipart.TidyRunsLeaveNothing | server/internal/handler/s3multipart.go:82-247 | With canonical part numbers nothing is stranded, so of the upload's temp objects exactly those whose delete fails are left |
| Multipart.RespelledPartLeaks | server/internal/handler/s3multipart.go:26-28 | Part "1" re-sent as "01" leaves an object that completion does not remove |
| MultipartMap.AbortOnTheMap | server/internal/handler/s3multipart.go:221-247 | An abort changes the gateway's map exactly when a ready blob at the requested key was created by the upload's user, and then removes that key; puts whose rows it took are overtaken, all others go on |
| MultipartMap.AbortKeepsReservationIff | server/internal/handler/s3multipart.go:237-243 | Another upload keeps its reserved file through an abort exactly unless it is for the requested key and by the same user |
| MultipartMap.AbortTakesSharedReservation | server/internal/handler/s3multipart.go:237-243 | Of two uploads of one user on one key, aborting either leaves the other without a file to complete |
| MultipartMap.AbortUndoesPut | server/internal/handler/s3multipart.go:237-243 | A put that went through is undone by aborting any upload of its user with a request for its key |
| MultipartMap.CompletionKeepsReservations | server/internal/handler/s3multipart.go:181-197 | Completing an upload keeps every upload's reserved file |
| MultipartMap.CompletionPublishesIff | server/internal/handler/s3multipart.go:129-219 | A completed upload sets the requested key in the gateway's map to the assembled bytes exactly when every other store that the blob it found is located on holds those bytes, as is so whenever that blob was not ready yet |
| MultipartMap.CompletionLeavesOldCopy | server/internal/handler/s3multipart.go:170-198 | When some store does hold different bytes, a get can go on answering them |
| FailedCompletion.FailedCompletionKeepsMapIff | server/internal/handler/s3multipart.go:154-205 | A completion that fails keeps the gateway's map exactly when it did not reach its final upload, or what that left at the key on the primary is what the map and the puts in flight have there |
| FailedCompletion.FailedCompletionShows | server/internal/handler/s3multipart.go:170-205 | Where the primary holds the key's ready blob, a get can then answer with what the failed completion left |
| FailedCompletion.CompletionReplacesOthersObject | server/internal/handler/s3multipart.go:170-186 | Once another user's put has taken the key, completing the upload can only fail, and replaces that put's object by the parts' bytes |
| FailedCompletion.AssemblesAgainIff | server/internal/handler/s3multipart.go:177-186 | After a completion that fails so late, its parts can be opened again exactly when none of their deletes worked |
| FailedCompletion.RemovedPartsMustBeResent | server/internal/handler/s3multipart.go:82-186 | Until some upload of a part so deleted is tried, whatever else happens, the upload cannot be completed |
| Naming.NameSet.DedupName | server/internal/store/path_builder.go:41-55 | Ends by pigeonhole and returns the name if free, else its least-numbered free alternative, and records it |
| Naming.Pigeonhole | server/internal/store/path_builder.go:48-54 | No more alternatives can be taken than there are names |
| Naming.CandidateInjective | server/internal/store/path_builder.go:46-49 | Differently numbered alternatives differ |
| Naming.CandidateIs | server/internal/store/path_builder.go:46-49 | The number goes between the name and its extension: name.ext becomes name (1).ext |
| Naming.DisplayPathIs | server/internal/store/path_builder.go:24-37 | The display path is what follows the root prefix and a slash, without outer slashes; keys elsewhere have none |
| Naming.DedupedIsUnique | server/internal/store/path_builder.go:41-55 | The result is determined and was free |
| Naming.DedupedAllAreFresh | server/internal/store/path_builder.go:41-55 | Any sequence of calls returns pairwise distinct names, none of them taken at the start |
| Ingest.IngestFromStore | server/internal/store/ingest.go:22-159 | A run without error is the pass of the loop over each listed object in turn, starting from the names of the ready root files; every location on the ingest store it adds is at the path of a listed object that no tombstone names, is no probe and lies below the prefix; when every eligible object is tracked it succeeds and changes nothing |
| Ingest.EligibleIff | server/internal/store/ingest.go:69-91 | An object is eligible exactly when no tombstone names its path, the path does not hold the probe marker, and it lies below the root prefix with something but slashes left of it |
| Ingest.OnlyIngestedLocated | server/internal/store/ingest.go:69-100 | No other path gains a location on the ingest store |
| Ingest.NameOfIs | server/internal/store/ingest.go:102-108 | A file is named by the object's own name, or else by the last element of the display path |
| Ingest.IngestObject | server/internal/store/ingest.go:110-156 | The body of the loop for an object that is not skipped |
| Ingest.IngestAdds | server/internal/store/ingest.go:110-156 | Ingesting drops the rows at the display path and adds one ready root file with its blob, located at the object's path on the ingest store, readable there only in replicate mode or on the primary |
| Ingest.IngestCopiesBytes | server/internal/store/ingest.go:119-136 | The primary's copy holds the source object's bytes and the ingest store keeps every object |
| Ingest.IngestFansOut | server/internal/store/ingest.go:150-156 | In replicate mode every other active write store that works and whose path is free gets the source object's bytes |
| Ingest.IngestFailsIff | server/internal/store/ingest.go:119-156 | An object fails exactly when its bytes cannot be copied or another blob sits at the primary's path: its root name is never taken |
| Ingest.IngestAgain | server/internal/store/ingest.go:68-159 | A second run over an unchanged store ingests and changes nothing exactly when no two eligible objects share a display path, in both modes, primary or not |
| Ingest.OneTrackedPerDisplay | server/internal/store/ingest.go:85-118 | Two eligible paths with one display path are never both tracked |
| Ingest.RootNamesStayDistinct | server/internal/store/ingest.go:56-64 | Ready root-level names stay pairwise distinct |
| Routing.Uploader.ResolveUploadStoreReserved | server/internal/store/file_records.go:125-227 | The candidate and eligibility loops and the policy switch compute the specified choice and cursor; what that is, by the columns, is the row below |
| Routing.ChoiceIsChosen | server/internal/store/file_records.go:125-227 | In replicate mode the primary. Else, with room counted against the provider limit of Google Drive stores and the quota limit of others, less used and reserved: under round robin the store at the cursor's turn among those with room, the cursor moving on by one; under priority the store of the first listed entry with room; and otherwise, or where none has room, the first of the stores with the most left, the policy row untouched |
| Routing.MostAvailable | server/internal/store/file_records.go:230-238 | The loop finds the first candidate with the most space |
| Routing.FirstMaxIsFirst | server/internal/store/file_records.go:230-238 | That candidate has no less space than any other, and more than any before it |
| Routing.FirstListedIsFirst | server/internal/store/file_records.go:211-223 | Under the priority policy the choice is the eligible store listed first |
| Routing.ChoiceFitsIffSomeFits | server/internal/store/file_records.go:154-227 | In cumulative mode, under all three policies, an upload goes to a store with room exactly when some active write store has room |
| Routing.DefaultPicksMostRoom | server/internal/store/file_records.go:224-238 | Under the default policy an upload goes to the store with the most room |
| Routing.PriorityPicksFirstListed | server/internal/store/file_records.go:210-223 | Under the priority policy an upload goes to the first listed store with room, or, when no listed store has room, to the one with the most room |
| Routing.ReplicateBatch | server/internal/store/file_records.go:122-132 | Every placement of a replicate-mode batch is on the primary; a file overflows it while some store has room exactly when used + reserved + size exceeds the primary's limit and not that of some other write store |
| Routing.ReplicateMisplacesIff | server/internal/store/file_records.go:122-132 | Some batch is so misplaced exactly when some write store other than the primary is not over its limit at the start |
| Routing.RoundRobinIsFairIff | server/internal/store/file_records.go:189-209 | m turns give each of n stores floor(m/n) or ceil(m/n) for every m exactly when the cursor is not negative or n is 1 |
| Routing.RoundRobinIsFair | server/internal/store/file_records.go:189-209 | With the eligible stores unchanged, m resolutions choose each of n stores floor(m/n) or ceil(m/n) times from any non-negative cursor |
| Routing.Uploader.UploadOne | server/internal/handler/upload.go:125-153 | Files over the limit reserve nothing; others are tried at most three times, again only when the database is busy |
| Routing.Uploader.UploadOneAttempt | server/internal/handler/upload.go:156-174 | An attempt is the specified one; what that does to reservations and policy row is the row below |
| Routing.TryIsAttempted | server/internal/handler/upload.go:156-256 | Before a transaction an attempt does nothing. Otherwise the size is reserved on the store chosen, whatever happens later, and only the policy row goes back when phase 1 rolls back |
| Routing.Uploader.UploadFile | server/internal/handler/upload.go:109-119 | The batch loop threads one reservation map through all files, and reports a file uploaded exactly when it is not over 100 MiB and the last of its attempts succeeds: attempts are made, at most three, as long as each ends busy |
| Routing.BatchKeeps | server/internal/handler/upload.go:109-174 | Over a whole batch with retries the map is exactly what the placements asked for, no file over the size limit is placed, none is placed more than three times, and a file overflows a store exactly when no store had room |
| Routing.OverIffOverflowed | server/internal/handler/upload.go:109-174 | A store that took files ends over its room exactly when one of them overflowed it |
| Routing.BatchKeepsLimits | server/internal/handler/upload.go:109-174 | After a batch in either mode a store with a limit that took files holds used + reserved within it exactly unless it was overfilled: in cumulative mode by a file that fitted on no write store, in replicate mode by one the primary had no room for; and reservations cover the bytes written |
| CanonicalQuery.AwsURIEncode | server/internal/s3/auth.go:272-283 | The result decodes to the input and holds only letters, digits, - . _ ~, slashes if they are kept, and % followed by two digits 0-9 or A-F of a byte that is none of these |
| CanonicalQuery.EncodeRoundTrip | server/internal/s3/auth.go:272-288 | Every byte string survives encoding and decoding, with slashes encoded or not, and its encoding has no "&", "=" or ";" |
| CanonicalQuery.CanonicalQueryString | server/internal/s3/auth.go:247-266 | The result spells every decoded parameter of the query, as often as it occurs, in order of key, then value, as key=value with & between them, both encoded with their slashes |
| CanonicalQuery.QueryMeans | server/internal/s3/auth.go:247-253 | A raw query is cut at & and at the first = of a parameter; a parameter that is empty, holds a semicolon or does not decode is left out |
| CanonicalQuery.UnescapePlain | server/internal/s3/auth.go:247-253 | Apart from percent escapes decoding only turns + into a space |
| CanonicalQuery.CanonParsesBack | server/internal/s3/auth.go:247-266 | Parsing the canonical string gives the decoded parameters back |
| CanonicalQuery.CanonIsNormalForm | server/internal/s3/auth.go:247-266 | Two raw queries have one canonical string exactly when their decoded parameters are equal as multisets |
| CanonicalQuery.CanonIsIdempotent | server/internal/s3/auth.go:247-266 | Canonicalising twice is canonicalising once |
| CanonicalQuery.PresignedQuery | server/internal/s3/auth.go:188-225 | Rebuilding the query without its signature and canonicalising it gives the canonical string, so spelled, of exactly the parameters not named X-Amz-Signature |
| CanonicalQuery.PresignedIsWhatWasSigned | server/internal/s3/auth.go:188-225 | A client that signs a query's canonical form and appends the signature is verified against exactly what it signed |
| RateLimit.RateLimiter.Allow | server/internal/middleware/ratelimit.go:35-53 | The key's window is opened anew with this request when it has none or the old one is over, else counts it; the request is let through exactly when the count is within the limit; other keys' windows stay |
| RateLimit.AcceptsIff | server/internal/middleware/ratelimit.go:35-53 | Over any trace, a request is let through exactly when with it its key has made no more than limit requests since its current window was opened, by the key's first request or the first after the window before |
| RateLimit.RateLimiter.AllowTenant | server/internal/middleware/ratelimit.go:65-94 | Requests without a tenant id pass uncounted, and no handler sets one; others would be counted per tenant and user |
| RateLimit.LimiterBound | server/internal/middleware/ratelimit.go:27-54 | Over any time-ordered trace a key is let through at most 2 * limit - 1 times in any half-open interval of one window |
| RateLimit.LimiterBoundIsTight | server/internal/middleware/ratelimit.go:27-54 | That many are reached for every limit and every window longer than one tick |
| RateLimit.KeysAreIndependent | server/internal/middleware/ratelimit.go:35-46 | What a key is let through depends on that key's requests alone |
| RateLimit.TenantKeysDiffer | server/internal/middleware/ratelimit.go:77-77 | With tenant ids free of ":" no two tenants or users share a key |
| Quota.Accounts.CreateOrg | server/internal/handler/org.go:22-89 | A new organization has its creator as owner; a bad or taken slug, or a failed tenant database, changes nothing |
| Quota.Accounts.DeleteOrg | server/internal/handler/org.go:247-311 | Only the owner deletes; the organization, its members and its quota row go, so every user's allocation drops by exactly what that row counted for it, and nothing else changes |
| Quota.DeletedUserIsGone | server/internal/handler/admin_user.go:190-246 | Deleting a user takes the account and its memberships with it and nothing else |
| Quota.Accounts.AddMember | server/internal/handler/org.go:314-368 | Owners and admins add new members, never as owners |
| Quota.Accounts.RemoveMember | server/internal/handler/org.go:371-417 | Owners and admins remove members; an owner cannot remove itself |
| Quota.Accounts.UpdateMemberRole | server/internal/handler/org.go:420-476 | Only the owner changes roles, and to member or admin only |
| Quota.Accounts.SetOrgQuota | server/internal/handler/quota.go:75-147 | Accepted exactly as specified, with the int64 sum that wraps around, and then the organization's row is the caller's new allocation |
| Quota.Accounts.AdminSetUserLimit | server/internal/handler/quota.go:151-201 | A non-zero limit is accepted exactly when it covers the user's allocations |
| Quota.Accounts.UserQuotaAllocated | server/internal/handler/quota.go:31-38 | The sum of the user's rows, or an error when it exceeds int64 |
| Quota.SetOrgQuotaChecksOthers | server/internal/handler/quota.go:102-128 | The allocation replaced is the caller's own; so, as long as the caller's rows add up within int64, a request is accepted exactly when the caller's other organizations and the new allocation fit the limit, or exceed int64 together |
| Quota.StepKeepsLimitsIff | server/internal/handler/quota.go:75-201 | A handler keeps every non-zero user limit exactly when it is not an owner's SetOrgQuota whose sum wraps around |
| Quota.WrapLocksTheOwner | server/internal/handler/quota.go:102-128 | Such a request is accepted, breaks the limit, and makes every later SetOrgQuota of the caller and AdminSetUserLimit for it fail |
| Quota.WrapDefeatsLimit | server/internal/handler/quota.go:75-147 | It happens: a limit of 10 and 2^63 allocated, by a run from an empty system |
| Quota.RunIsWithinLimitsIff | server/internal/handler/quota.go:75-201 | Over a run of the quota, membership and organization handlers no user with a non-zero limit ever has more than it allocated exactly when no SetOrgQuota of the run wraps around |
| Quota.OneOwnerEver | server/internal/handler/org.go:59-64 | In the whole of any run an organization has at most one owner |

## Left out

- MultipartMap.CompletionPublishesIff: temp paths are taken not to be object keys, in use or requested, and so in FailedCompletion; a client could choose such a key.
- KeyPlacement.PutSucceedsIffByKey: is about files that are where their keys put them, as Requests.RequestsAreTheMap says puts and deletes leave them; renaming, moving or deleting a folder, and the deduplicated names of multipart uploads, leave them elsewhere, and then Refinement.PutSucceedsIff says when a put goes through.
- Requests.RequestsAreTheMap: is about requests of the gateway one after the other; overlapping ones, batch uploads and multipart uploads are in Refinement, UploadKeys and MultipartMap.
- Gateway.UploadOneAttempt: its store is the one Routing chooses; that the two agree in one run is not stated.
- Refinement.SerialRunsRefineTheMap: does not cover rename and move of files, which move one store's object while rewriting all location rows, so content is not preserved for replicated blobs.
- Records.EveryRunIsSound: does not say that every location's blob exists, because overlapping phases can leave one whose blob is gone.
- Routing.RoundRobinIsFair: does not model overflow of the stored cursor; the policy handler only ever resets it to 0, so it is never negative.
- Quota.RunIsWithinLimitsIff: requests are handled one after the other.
- RateLimit.LimiterBound: requests are taken in time order, as the mutex serves them.
- Ingest.IngestFromStore: starts once the store, its listing and the primary are known; failing to find them ends the call before it changes anything.
- Listing.PagesTileTheKeys: keys are not empty and are compared bytewise, and the prefix holds no LIKE wildcard; a prefix is matched exactly, while SQLite's LIKE also ignores the case of ASCII letters; a delimiter longer than one byte is cut to its first byte in the reported prefix, as the code does.
- Folders.EveryRunIsAForest: requests are sequential; the folders table has no UNIQUE constraint to stop two simultaneous creates.
- Folders.UpdateFolder: colors are not modelled; a request that sets no column at all makes an UPDATE without a SET, whose outcome is the ORM's.
- Folders.TrimSpace: handles the four characters the handler names, like the handler.
- AwsChunked.ReadBody: white space and number parsing are ASCII only, and source errors other than the end of input are not modelled.
- CanonicalQuery.CanonicalQueryString: the limit on the number of parameters of newer url.ParseQuery versions is not modelled.
- Ingest.IngestAgain: the ingest store's own earlier locations must have come from ingest, and the store's listing is unchanged between the runs.
- Providers, encryption and signatures: the object store is an abstract map; Google Drive's flattening of paths to base names and a local provider's path cleaning are outside it; HMAC and hashing are not modelled.
- HTTP, JSON, XML and SQL dialects: only the row effects and constraints are kept; MIME types, ETags, timestamps, audit rows, webhooks and replication_run_items are dropped.
- Gateway dispatch, apart from how it takes the key from the path: its reuse of a finished transaction for part uploads and its ignored commit error after a successful answer are not modelled; the object functions act directly on the tables.
- Removing a store and live quota refresh: the store set and the measured quotas are fixed.
- The batch-wide organization quota check (server/internal/handler/upload.go:89-107): it only rejects a batch before anything is written.
- Fresh uuids: ids come from a counter; two uuids never collide.
- Tiering, link counters, admin pages, slugs and the web client: they would only add easy members.
