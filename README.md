# Face-enrollment backend: a Dafny model of its decision logic

This backend takes face pictures of residents as zip archives. It extracts
them, filters and crops the faces, and turns every picture into an embedding
stored as JSON. It also serves a manifest and zip exports of the stored
embeddings to the door devices, and over websockets it receives access logs
and pictures from those devices, which it rebroadcasts to the dashboards.

The model covers the decision logic of that pipeline, one Dafny module per
source file:

- `DbService` (db_service.dfy) is the smallest-free-id allocator and the rule
  that picks a resident's files for deletion.
- `ContentHash` (content_hash.dfy) is the directory digest: a reader object
  that reads 8 KiB chunks and a digest object that accumulates them.
- `ServiceSteps` (pipeline_steps.dfy) is the single-folder extraction step
  and the single-folder embedding step.
- `ExtractEmbedding` (extract_embedding.dfy) is archive naming, image
  selection and the lists that embedding returns.
- `Preprocessing` (pre_processing.dfy) covers the quality gate:
  - the brightness and sharpness window;
  - the box-area ratio;
  - the detector's score filter and its rescaling;
  - which chip is left on disk;
  - the raw-to-processed path mapping.
- `CollectData` (collect_data.dfy) is batch ingestion and its upload route.
- `SyncService` (sync_export.dfy) is the enrollment route, the sync manifest
  and the single-resident export.
- `EventStream` (event_stream.dfy) holds three pieces:
  - the websocket connection registry;
  - the device session loop that carries the last log id;
  - the statistics sockets.
- `Basics` (basics.dfy) holds helpers for the Python built-ins the code
  relies on: `str(int)`, `str.isdigit`, `os.path.splitext`, `os.path.join`,
  and the shape of an `os.walk`.

Everything outside the process is an input to the model:

- A directory tree is a sequence of walk steps, each a relative directory
  path plus its files. Each file has a name and bytes.
- Whether an archive opens and whether a path exists are flags.
- The embedding model, OpenCV's measurements and the face detector are
  function parameters.
- MD5 is a function parameter from bytes to a hex string.
- Database lookups are maps from id to name, or the sorted id column.

A Python exception the model covers is a `Fault` value (`Outcome.Raised`), a
result of the model rather than a precondition. Preprocessing writes files as it
goes, so its steps return `Preprocessing.Written`: what is on disk so far
together with the fault that ended the run, if any. A raise there does not undo
a chip already saved. The few calls whose exceptions
are not modelled are listed under "Left out".

Where the code departs from its own stated intent, the model follows the
code. The lemmas named below show each of those behaviours:

- A picture frame received before any log frame crashes the device handler,
  because `res` is still unbound (`EventStream.ImageFirstCrashes`). The socket
  then stays registered with the device manager.
- The device handler never unregisters its socket. `receive()` returns the
  client's disconnect message instead of raising; the message has neither a
  "text" nor a "bytes" key, so the loop calls `receive()` again, and that call
  raises RuntimeError, not the WebSocketDisconnect the handler catches
  (`EventStream.DisconnectRaisesOnNextReceive`, `EventStream.DeviceSession`).
- `res` is never cleared. Every picture after a log overwrites
  "./data/logs/<id>.jpg" (`EventStream.SecondImageOverwrites`).
- `calc_md5` sorts the file names inside each directory but not the
  directories themselves. The digest therefore depends on `os.walk`'s
  directory order (`ContentHash.DirectoryOrderMatters`).
- `embed_images` returns the unfiltered file list of the last directory it
  walked, not the names it embedded. An embedding can therefore be saved under
  a skipped file's name (`ServiceSteps.EmbeddingWrittenUnderSkippedName`).
- Batch ingestion fails an upload when any archive in the zip folder fails,
  including archives left over from earlier uploads
  (`CollectData.StaleArchiveFailsUpload`).
- An upload that is not a ".zip" is ignored and the route answers "done"
  (`CollectData.NonZipUploadIsIgnored`).
- The batch `process_embedding` prints its report and returns nothing.
- The client-logs websocket never leaves its manager, because its loop only
  sleeps and sleeping never raises the disconnect it waits for
  (`EventStream.ClientLogs`).
- The device handler takes the id of a stored log from what
  `crud.add_logs_to_db` returns; the model takes that id as an input.

## Model

| member | source | states |
|---|---|---|
| Basics.NatToStringRoundTrip | routes/service.py:151-154 | the decimal spelling of a number is all digits and reads back as that number |
| Basics.IntToStringPlain | services/extract_embedding.py:9 | `str(id)` is non-empty and holds neither a dot nor a separator, so it survives `splitext` |
| Basics.IntToStringSign | services/db_service.py:34 | `str(id)` starts with a minus sign exactly when the id is negative |
| Basics.IntToStringInjective | routes/logs.py:115 | different integers print differently |
| Basics.RFind | services/extract_embedding.py:9 | the result is the last index holding the character, or -1 when it does not occur |
| Basics.SplitExt | services/extract_embedding.py:9 | `splitext`'s two halves concatenate to the name; the extension is empty or one dot followed by neither a dot nor a separator |
| Basics.SplitExtOfZip | services/extract_embedding.py:9 | a dot-free stem plus ".zip" splits into that stem and ".zip" |
| Basics.JoinMeaning | services/extract_embedding.py:10 | `os.path.join` keeps an absolute second part alone, otherwise adds a separator exactly when the first part is non-empty and lacks a trailing one; the result always ends with the second part |
| Basics.JoinPlain | services/service.py:19 | `os.path.join` of a base without a trailing separator and a relative part puts exactly one "/" between them |
| Basics.PathSuffixShape | services/pre_processing.py:159 | a path suffix is empty or a dot and at least one more character, with no second dot, ending the name after something else |
| Basics.WithSuffixMeaning | services/pre_processing.py:159 | `with_suffix` yields the name without its suffix followed by the new suffix |
| DbService.FirstFree | services/db_service.py:16-19 | the result is the first value of the range missing from the list, with every smaller value of the range present; None exactly when the whole range is present |
| DbService.SmallestFree | services/db_service.py:14-20 | no ids gives None; a result is positive, below the last id, absent, and every positive value below it is present; None means 1..last are all present |
| DbService.GetId | services/db_service.py:14-20 | the scanning loop returns the smallest free id |
| DbService.AllocatedBelowMaximum | services/db_service.py:9-19 | on a sorted column the last id is the largest, and every present id at or above a returned id is above it, so the returned id is absent |
| DbService.NoGapNoId | services/db_service.py:15-20 | the ids 1..n without a gap give None, never n+1 |
| DbService.SmallestFreeUnique | services/db_service.py:16-19 | any absent value below the last id with all smaller positive values present is the result |
| DbService.IdReuse | services/db_service.py:16-19 | {1,2,4} gives 3 and {1,2,3,4} gives None |
| DbService.GetIdFor | services/db_service.py:7-20 | the three table names query their own column; any other name raises on the unbound list |
| DbService.MatchedStem | services/db_service.py:33-38 | a name matched by either pattern of a dot-free stem has that stem as its part before the first dot |
| DbService.TargetedByOneResident | services/db_service.py:33-38 | no entry name is targeted by the patterns of two different residents |
| DbService.TargetedByExamples | services/db_service.py:33-38 | "3", "3.jpg" and "3.tar.gz" are removed for resident 3; "31", "31.jpg" and "x3.jpg" are not |
| DbService.Kept | services/db_service.py:37-44 | an entry survives a pattern pass exactly when the pattern misses it or its removal fails |
| DbService.CleanedSurvivors | services/db_service.py:30-44 | after both passes an entry of a sub-folder remains exactly when neither pattern targets it or its removal fails |
| DbService.DeletePass | services/db_service.py:37-46 | one pattern's loop leaves the kept entries and reports each failed path, going on after a failure |
| DbService.CleanFolder | services/db_service.py:32-46 | a sub-folder goes through the exact pattern and then the dotted pattern |
| DbService.DeleteResidentImage | services/db_service.py:27-46 | a missing data folder changes nothing; otherwise every sub-folder is cleaned in turn and all failures are reported in order |
| ContentHash.NameAtMostTotal | services/service.py:77 | any two names are comparable in `sorted`'s order |
| ContentHash.NameAtMostAntisymmetric | services/service.py:77 | two names each at most the other are equal |
| ContentHash.NameAtMostTransitive | services/service.py:77 | the name order is transitive |
| ContentHash.InsertByName | services/service.py:77 | inserting into a sorted list keeps it sorted and adds exactly that file |
| ContentHash.SortByName | services/service.py:77 | the sorted listing is ordered by name and is a permutation of the listing |
| ContentHash.SortedHeadLeast | services/service.py:77 | the first file of a sorted listing has the least name |
| ContentHash.SortedTail | services/service.py:77 | the rest of a sorted listing is sorted |
| ContentHash.SortedUnique | services/service.py:77 | two sorted permutations of one listing whose names are distinct are equal |
| ContentHash.HeadIndexOf | services/service.py:77 | a file of the listing's multiset has an index in it |
| ContentHash.ListingOrderIrrelevant | services/service.py:76-77 | with distinct names, the order `os.walk` lists a directory's files in does not change the sorted order |
| ContentHash.WalkBytes | services/service.py:75-81 | a tree without files feeds nothing into the digest |
| ContentHash.WalkBytesIgnoreNamesAndListing | services/service.py:76-81 | directories whose files are listed in another order give the same digest input |
| ContentHash.FilesBytesSameContents | services/service.py:77-81 | listings of equal length with the same bytes at every position feed the same bytes, whatever the file names |
| ContentHash.WalkBytesOnlyContents | services/service.py:76-81 | two walks of equal length in which each directory's sorted listing has the same bytes at every position give the same digest input |
| ContentHash.SortSameName | services/service.py:77 | giving one file other bytes under the same name changes the sorted listing at exactly one place |
| ContentHash.OneByteChangesWalkBytes | services/service.py:76-81 | changing one byte of one file changes the digest input |
| ContentHash.DirectoryOrderMatters | services/service.py:76 | swapping the walk order of two sub-directories changes the digest input |
| ContentHash.FileReader.Open | services/service.py:79 | a freshly opened file is read from its first byte |
| ContentHash.FileReader.Read | services/service.py:80 | a read returns the next bytes, at most as many as asked, and advances past them |
| ContentHash.Digest.constructor | services/service.py:75 | a new digest has been fed nothing |
| ContentHash.Digest.Update | services/service.py:81 | an update appends the chunk to what the digest was fed |
| ContentHash.FeedFile | services/service.py:79-81 | the chunk loop, which stops at the first empty read, feeds exactly the file's bytes |
| ContentHash.FeedFiles | services/service.py:77-81 | one directory feeds its files' bytes in sorted-name order |
| ContentHash.CalcMd5 | services/service.py:74-82 | the hex digest is MD5 of all file bytes in walk order with each directory's files sorted by name |
| ContentHash.CalcMd5Twice | services/service.py:74-82 | two runs over unchanged contents give the same digest, and a tree without files gives the digest of empty input |
| ExtractEmbedding.ExtractZip | services/extract_embedding.py:6-19 | an opening archive extracts into `pic_folder/<name without its last extension>` and returns that name; an unreadable one raises |
| ExtractEmbedding.ExtractZipOfId | services/extract_embedding.py:9-10 | "<id>.zip" extracts into the folder "<id>" |
| ExtractEmbedding.ImagePathsAppend | services/extract_embedding.py:28-34 | the selection of a directory's images distributes over its listing |
| ExtractEmbedding.AcceptedImagesAppend | services/extract_embedding.py:27-34 | the selection over a walk distributes over the walk's directories |
| ExtractEmbedding.EmbedAll | services/extract_embedding.py:33-36 | success exactly when the model succeeds on every accepted image, with one embedding per image in order; otherwise the fault names the first image that failed |
| ExtractEmbedding.EmbedAllRaisedStays | services/extract_embedding.py:33-36 | once a model call raises, later images change nothing |
| ExtractEmbedding.EmbedSpec | services/extract_embedding.py:22-38 | results are the embeddings of the accepted images (".png", ".jpg" or ".jpeg", case-sensitive, not "main.*") in walk order; the names returned are the last directory's full listing; no directory walked raises on the unbound `files` |
| ExtractEmbedding.NoImagesNoResults | services/extract_embedding.py:24-38 | a tree with no accepted image yields no embeddings |
| ExtractEmbedding.ReturnedNamesAreNotTheEmbeddedOnes | services/extract_embedding.py:36-38 | with "main.jpg" and "a.jpg" listed, one embedding comes back with both names |
| ExtractEmbedding.EmbedDirectory | services/extract_embedding.py:28-36 | the inner loop extends the embeddings by exactly the directory's accepted images, and the collected names keep pace with the results |
| ExtractEmbedding.MainJpgSkipped | services/extract_embedding.py:30-32 | "main.jpg" has an image suffix but is skipped by the "main." rule |
| ExtractEmbedding.AJpgAccepted | services/extract_embedding.py:29-32 | "a.jpg" passes the suffix test and is not skipped |
| ExtractEmbedding.DirectoryRaised | services/extract_embedding.py:27-34 | a model call that raises inside a directory ends the whole directory's run with that fault |
| ExtractEmbedding.WalkRaised | services/extract_embedding.py:26-34 | a model call that raises in one directory of the walk is what `embed_images` raises |
| ExtractEmbedding.EmbedImages | services/extract_embedding.py:22-38 | the nested walk loops compute `EmbedSpec` |
| ServiceSteps.ProcessZip | services/service.py:10-25 | None exactly when the zip folder is missing or extraction raises; otherwise the folder name archive extraction returned |
| ServiceSteps.ProcessZipOfId | services/service.py:19-21 | "<id>.zip" yields the folder "<id>" |
| ServiceSteps.JsonWrites | services/service.py:49-52 | one "<file>.json" per pair of the two lists, as many as the shorter list |
| ServiceSteps.WriteJsonFiles | services/service.py:49-52 | the write loop performs exactly those writes |
| ServiceSteps.ProcessEmbedding | services/service.py:28-72 | a missing base folder, a missing sub-folder or a raising embedding gives None and writes nothing; otherwise the JSON writes and a report naming the requested folder |
| ServiceSteps.WritesBoundedByImages | services/service.py:47-52 | no more JSON files are written than images were embedded |
| ServiceSteps.WriteUnderMainName | services/service.py:49-52 | one embedding beside the names "main.jpg", "a.jpg" is dumped to "embeds/top/main.jpg.json" and nowhere else |
| ServiceSteps.EmbeddingWrittenUnderSkippedName | services/service.py:47-52 | the embedding of "a.jpg" is written to "main.jpg.json" |
| Preprocessing.Judge | services/pre_processing.py:105-114 | accepted exactly when brightness is within the inclusive window and sharpness reaches its minimum; brightness is tested first |
| Preprocessing.JudgeMonotoneInSharpness | services/pre_processing.py:108-113 | more sharpness never rejects an accepted crop, and sharpness alone never causes a brightness rejection |
| Preprocessing.DefaultWindowEdges | services/pre_processing.py:90-114 | with the defaults 50, 200 and 10.0, both brightness bounds and the sharpness bound are inclusive, and values just outside are rejected for the right reason |
| Preprocessing.DetectFaces | services/pre_processing.py:52-81 | the filter never returns more boxes than the detector gave |
| Preprocessing.DetectFacesKeeps | services/pre_processing.py:66-81 | the result holds, rescaled, exactly the detections scoring at or above the threshold, and is empty exactly when none do |
| Preprocessing.DetectFacesAppend | services/pre_processing.py:66-67 | the filter keeps the detector's order |
| Preprocessing.DetectFacesExample | services/pre_processing.py:66-79 | a 0.97 detection on a 640×480 image is kept and doubled in x, 1.5× in y, at threshold 0.95, and dropped at the default 0.99 |
| Preprocessing.TruncTowardZero | services/pre_processing.py:128 | `int()` on a coordinate truncates toward zero |
| Preprocessing.AreaGateExamples | services/pre_processing.py:128-133 | on a 100×100 image a 60×50 box passes the 0.3 ratio and a 59×50 box is skipped; coordinates are truncated first |
| Preprocessing.JudgeBox | services/pre_processing.py:128-138 | a box is skipped as too small exactly when its truncated area falls below the ratio; otherwise it is unmeasurable, rejected or saved exactly as its crop's measurement says |
| Preprocessing.CropRun | services/pre_processing.py:127-144 | a fault of the box loop is a measurement failure on that image |
| Preprocessing.CropRunMeaning | services/pre_processing.py:127-144 | the loop runs to the end exactly when every box past the area gate can be measured, leaving the last accepted box's chip or none; otherwise it stops at the first unmeasurable box and leaves the chip of the last box accepted before it |
| Preprocessing.CropSpec | services/pre_processing.py:116-144 | an unreadable image writes nothing |
| Preprocessing.LastAcceptedBoxWins | services/pre_processing.py:140-143 | of two accepted boxes only the second's chip remains |
| Preprocessing.RaiseKeepsSavedChip | services/pre_processing.py:136-143 | an accepted box followed by an unmeasurable one leaves the first box's chip on disk and raises |
| Preprocessing.CropAndSaveFaces | services/pre_processing.py:116-144 | the crop loop computes `CropSpec`, returning the chip it saved before a raise along with the fault |
| Preprocessing.SelectedIgnoresCase | services/pre_processing.py:156 | "A.PNG" and "b.jpeg" are selected and "c.gif" is not |
| Preprocessing.OutputNames | services/pre_processing.py:159 | "a.png" becomes "a.jpg", "b.JPEG" becomes "b.jpg", and ".png" becomes ".png.jpg" |
| Preprocessing.SamePathForSameStem | services/pre_processing.py:159 | "a.png" and "a.jpg" in one directory share one output file |
| Preprocessing.OutputPathIsJpg | services/pre_processing.py:157-159 | every output path ends with the source's name with its last suffix replaced by ".jpg" |
| Preprocessing.PreprocessFile | services/pre_processing.py:155-162 | an unselected file changes nothing; a selected one passes on its crop's fault, changes nothing when its crop saved no chip, and otherwise puts that chip at its own output path, raise or not, and changes nothing else |
| Preprocessing.PreprocessDir | services/pre_processing.py:155-162 | a directory's loop keeps every chip at the output path of its source, on a raise as well |
| Preprocessing.WalkFilesMembership | services/pre_processing.py:154-155 | the files the walk visits are exactly the files of its directories, in walk order |
| Preprocessing.DirIsApply | services/pre_processing.py:155-162 | a directory's loop is its files taken one by one in listing order |
| Preprocessing.ApplyAppend | services/pre_processing.py:154-162 | running two lists of files one after the other is running their concatenation; a fault in the first stops the run and keeps what it wrote |
| Preprocessing.SpecIsApply | services/pre_processing.py:148-162 | the walk is the run of all its files in visit order from no chips |
| Preprocessing.ApplyRaised | services/pre_processing.py:155-162 | a run of files raises exactly when some selected file's crop raises, and with the first such fault |
| Preprocessing.ApplyStopsAtFirstRaise | services/pre_processing.py:155-162 | a run that raises ends at its first raising file: the files after it are never looked at |
| Preprocessing.ApplyKeys | services/pre_processing.py:155-162 | after a run that handled every file (only the last may raise), a path holds a chip exactly when it held one before or some selected file saved at it |
| Preprocessing.ApplyChip | services/pre_processing.py:155-162 | after such a run the chip at a path is the one cut by the last file that saved there |
| Preprocessing.ApplyMeaning | services/pre_processing.py:155-162 | a run from no chips raises exactly when some selected crop raises, with the first fault, and then leaves exactly the chips of the files up to and including that one; otherwise the chips of all of them |
| Preprocessing.PreprocessSpec | services/pre_processing.py:148-162 | after the walk, completed or raised, every chip sits at the output path of the image it was cut from |
| Preprocessing.PreprocessSpecMeaning | services/pre_processing.py:148-162 | the walk raises exactly when the crop of some selected file raises, with the first such fault, and the disk then holds exactly the chips of the files up to and including that one, the last saver's at each path; a completed walk holds exactly the chips some selected file saved, the last saver's at each path |
| Preprocessing.EverySavedImageLeavesChip | services/pre_processing.py:148-162 | after a completed walk the output paths holding chips are exactly those some selected image saved at |
| Preprocessing.NoImagesNoChips | services/pre_processing.py:154-162 | a tree without selected files produces no chips |
| Preprocessing.NoSelectedDirUnchanged | services/pre_processing.py:155-156 | a directory without selected files changes nothing |
| Preprocessing.PreprocessDirectory | services/pre_processing.py:155-162 | the inner loop computes `PreprocessDir`, the directory's files taken in listing order (`DirIsApply`) |
| Preprocessing.PreprocessImages | services/pre_processing.py:148-162 | the walk loop computes `PreprocessSpec`, whose result `PreprocessSpecMeaning` states; a raise returns the chips written before it, and every chip sits at its source's output path |
| CollectData.ZipNamesMembership | routes/collectdata.py:24-44 | a name is reported as extracted (or as failed) exactly when a ".zip" entry of that name opened (or did not) |
| CollectData.ZipCountsAddUp | routes/collectdata.py:24-44 | extracted and failed archives together number the ".zip" entries |
| CollectData.EachArchiveOnce | routes/collectdata.py:24-44 | with distinct names every ".zip" entry lands in exactly one list, and any other entry in none |
| CollectData.ExtractPaths | routes/collectdata.py:30-31 | each archive goes to `pic_folder/<name without its last extension>` |
| CollectData.ZipStem | routes/collectdata.py:30 | a ".zip" name with something before the extension loses exactly ".zip" |
| CollectData.DotZipHasNoStem | routes/collectdata.py:30 | ".zip" alone keeps its name, since `splitext` treats it as having no extension |
| CollectData.ProcessZips | routes/collectdata.py:11-49 | a missing folder gives None; otherwise the extracted names, the failed names and the extraction paths, in listing order |
| CollectData.FateOf | routes/collectdata.py:67-91 | a non-directory or an already-embedded name is skipped; a new directory fails exactly when its embedding raises |
| CollectData.EmbedRun | routes/collectdata.py:60-91 | processed, skipped and errors together number the entries of the listing |
| CollectData.EmbedRunMembership | routes/collectdata.py:66-91 | a name is in a list exactly when an entry of that name had that fate |
| CollectData.EachFolderOnce | routes/collectdata.py:64-91 | with distinct names each entry is in exactly one list, and already-embedded or non-directory entries are skipped |
| CollectData.ProcessEmbeddings | routes/collectdata.py:52-106 | a missing base folder writes nothing; otherwise the loop's writes and the printed report with the three lists |
| CollectData.EmbedRoute | routes/collectdata.py:108-158 | the first failing step fixes the message ("error save zip", then "error process_zip", then "error process_embedding"); success is "done" |
| CollectData.StaleArchiveFailsUpload | routes/collectdata.py:132-137 | an unreadable archive left in the folder fails a good upload |
| CollectData.NonZipUploadIsIgnored | routes/collectdata.py:24-25 | an upload not ending in ".zip" is neither extracted nor an error |
| SyncService.Enroll | routes/service.py:88-142 | the first failing step fixes the message, in the order save, extract, preprocess, encode; success needs an id of a known resident and a truthy codec result, and reports the folder "<id>" |
| SyncService.FolderIdExtracted | routes/service.py:100-113 | the upload saved as "<folder_id>.zip" extracts into "<folder_id>" ("None" without an id), which is never empty |
| SyncService.ManifestMembership | routes/service.py:150-161 | an entry is in the manifest exactly when a folder with an all-digit name, which is a directory and whose number is a resident, gave it its name, the resident's name and its digest |
| SyncService.ManifestAppend | routes/service.py:147-161 | the manifest keeps the listing's order |
| SyncService.ManifestKeepsSpelling | routes/service.py:150-159 | "007" is listed as "007" for resident 7, and "7a" is left out |
| SyncService.GetSyncMetadata | routes/service.py:144-163 | the loop computes the manifest |
| SyncService.ExportSpec | routes/service.py:166-190 | "Embed folder not found" comes before "Resident not found"; an archive is produced exactly when both exist and the path is a directory, named "<id>_[<name>].zip" |
| SyncService.ExportNameExample | routes/service.py:176-190 | resident 7 named "An" exports as "7_[An].zip" |
| SyncService.ArchiveHoldsEveryFile | routes/service.py:183-188 | the archive has one entry per file of the copy, each with that file's bytes |
| SyncService.JoinAllExtends | routes/service.py:184-187 | joining plain components onto a base keeps the base as a prefix |
| SyncService.RelPathPlain | routes/service.py:187 | a relative path of plain names is not empty and does not start with a separator |
| SyncService.EntriesUnderFolder | routes/service.py:184-188 | every entry name starts with "<id>_[<name>]/" |
| SyncService.ArchiveDirectory | routes/service.py:185-188 | the inner loop writes one entry per file of the directory |
| SyncService.DownloadSingleEmbed | routes/service.py:166-190 | the handler computes `ExportSpec` |
| EventStream.ConnectionManager.constructor | routes/logs.py:35-37 | a new manager has no connections |
| EventStream.ConnectionManager.Connect | routes/logs.py:39-44 | the socket is appended at the end, duplicates allowed |
| EventStream.ConnectionManager.Disconnect | routes/logs.py:46-51 | the first registration of the socket is removed, and nothing when it is absent |
| EventStream.ConnectionManager.Broadcast | routes/logs.py:53-61 | every connection is tried, in list order; a failed send does not stop the rest, and the list is unchanged |
| EventStream.AttemptsMeaning | routes/logs.py:57-61 | a broadcast makes one attempt per connection, and an attempt succeeds exactly when that socket does not fail |
| EventStream.HealthyConnectionsReached | routes/logs.py:57-61 | every healthy connection receives the message |
| EventStream.RemoveAbsent | routes/logs.py:50-51 | disconnecting an unregistered socket changes nothing |
| EventStream.RemoveFirstAt | routes/logs.py:51 | removal takes out the first occurrence and keeps the rest in order |
| EventStream.RemoveFirstMultiset | routes/logs.py:50-51 | exactly one registration goes away |
| EventStream.ConnectThenDisconnect | routes/logs.py:43-51 | connecting a new socket and disconnecting it restores the list; a duplicate registration survives one disconnect |
| EventStream.Step | routes/logs.py:80-118 | one frame raises exactly for unusable log fields or a picture before any log, leaving the session as it was; a JSON log frame stores its record, binds `res` to the id the insert returns and broadcasts the JSON once; a picture frame writes its bytes to "./data/logs/<res>.jpg"; every other frame changes nothing |
| EventStream.Run | routes/logs.py:77-121 | a run that meets the disconnect message always ends in an exception |
| EventStream.RunMeaning | routes/logs.py:77-121 | the RuntimeError of a second `receive()` comes only from a disconnect message, and a run only adds logs after those stored before it, at most one per frame |
| EventStream.StepKeepsInv | routes/logs.py:78-118 | one frame keeps the session invariant: one broadcast per stored log, and `res` unbound before the first log and the newest log's id after it |
| EventStream.RunKeepsInv | routes/logs.py:78-118 | the invariant holds however the session ends |
| EventStream.IgnoredFramesChangeNothing | routes/logs.py:83-109 | "ping", undecodable text, a frame with neither key and the disconnect message change nothing, `res` included |
| EventStream.ImageFirstCrashes | routes/logs.py:111-122 | a picture before any log raises on the unbound `res`, which the handler does not catch |
| EventStream.DisconnectRaisesOnNextReceive | routes/logs.py:77-121 | after the disconnect message the next `receive()` raises, with the session unchanged, and `except WebSocketDisconnect` is not reached |
| EventStream.SecondImageOverwrites | routes/logs.py:96-118 | after one log, two pictures leave one file "./data/logs/<id>.jpg" holding the second |
| EventStream.PicturesGoToCurrentLog | routes/logs.py:111-118 | from any session with `res` bound, a run of pictures writes only the file named after `res`, which ends holding the last picture |
| EventStream.LogThenPictures | routes/logs.py:90-118 | from any session, a log frame and then pictures store the log, broadcast it, bind `res` to its id, and leave that id's file holding the last picture |
| EventStream.DistinctIdsDistinctFiles | routes/logs.py:115 | pictures after logs with different ids go to different files |
| EventStream.FanoutSize | routes/logs.py:107 | each rebroadcast log reaches every client connection once |
| EventStream.DeviceSession | routes/logs.py:71-124 | the handler registers the socket, runs the frames as `Run` does, rebroadcasts each log to the clients, and never unregisters |
| EventStream.ClientLogs | routes/logs.py:127-138 | a client-logs socket is registered and stays registered |
| EventStream.SentBeforeEnd | routes/logs.py:177-184 | the count of polls sent before the first poll that ends the loop |
| EventStream.StatsSession | routes/logs.py:170-225 | a residents' socket without a token closes with 1008 and stays registered; otherwise totals are sent until the client leaves or a send raises, after which the socket is unregistered |

## Left out

- Neural networks and image numerics are left out; they are floating point and foreign code. This covers the SSD detector, the embedding network, tensor preprocessing and OpenCV's brightness and Laplacian. Detections, measurements and embeddings are inputs, thresholds are `real`, and float rounding is not modelled.
- MD5 is a function parameter, because the hash is a library call. zipfile, shutil, tempfile, os.walk, os.listdir and image decoding are not modelled either: their results are inputs.
- The binary embedding codec `save_embedding_with_header_auto_embed` is only an outcome (raised, falsy or truthy). routes/service.py imports it, but services/service.py does not define it; as written, that import raises ImportError and the enrollment route never loads, and the model assumes the import succeeds.
- The websockets' concurrency, `accept`, and the one-second polling sleeps are left out. Each handler is a sequential run over a given sequence of frames or polls. On the device socket, the disconnect message is a frame of its own, and the model ends the run at the `receive()` after it.
- Authentication is left out: tokens, JWT decoding and password hashing. So are the crud queries behind the log endpoints, and the contents of messages sent over the statistics sockets.
- `crud.add_logs_to_db` and `crud.get_resident_by_id` are not part of this model. The first is a function from the stored records to the new id; the second is a map from id to name.
- Three raising calls are not modelled. `EmbeddingModel()` (services/extract_embedding.py:23) loading its network is taken to succeed, since the model starts from a given embedding function. The detector call at services/pre_processing.py:125 is total, because `ImageSource.detect` is a function of the path. The insert `crud.add_logs_to_db` (routes/logs.py:96-103) is total too: a database error inside the device loop would end the handler, and the model has no such end.
- Exception messages and printed diagnostics are left out. A failure carries only its kind and the name or path involved.
- The side effects of `os.makedirs` and `mkdir` in every step are not modelled, nor I/O errors outside the `try` blocks. Writing a JSON file or a chip, or creating an output folder, is assumed to succeed.
- `str.isdigit` and `str.lower` are ASCII only. Python also accepts other Unicode digits and case mappings.
- The batch `process_embedding` has a second `isdir` test inside its `try` that can never fail. The model has no branch for it.
- Preprocessing.DetectFaces: its own contract only bounds the length; what it keeps is stated by `DetectFacesKeeps` and `DetectFacesAppend`.
- Preprocessing.PreprocessDir: its own contract only keeps every chip at its source's output path; `DirIsApply`, `ApplyRaised`, `ApplyKeys`, `ApplyChip` and `ApplyMeaning` state which chips it leaves and when it raises.
- Preprocessing.PreprocessSpec: its own contract only keeps every chip at its source's output path; `PreprocessSpecMeaning` states which chips the walk leaves and when it raises.
- Preprocessing.CropRun: its own contract only names the fault; its meaning is stated by `CropRunMeaning`.
- Preprocessing.PreprocessSpecMeaning: its chips are those this run writes, from an empty map. Neither preprocess_images nor the embed route (routes/service.py:88-142) clears the output folder, so chips an earlier enrollment left there stay beside the new ones; the model does not track them.
- Preprocessing.CropSpec: its own contract covers only the unreadable image; `CropAndSaveFaces`, `CropRunMeaning` and `LastAcceptedBoxWins` state the rest.
- EventStream.SentBeforeEnd: it is a helper count; `StatsSession` states what the loop does with it.
