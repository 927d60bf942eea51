# ClearFrame in Dafny

ClearFrame is an Android digital photo frame. A background worker keeps the frame's
local photo store in step with a remote photo server, and a full-screen slideshow shows
the stored photos. This project models the core of the app and proves properties of it:

- **The sync pass** (`SyncWorker`). It fetches the server's manifest of
  `(name, url, digest)` entries and rewrites every `http://frame` in the URLs to the
  configured base URL. It inventories the local photos, deletes local photos whose
  digest the manifest does not list, and downloads manifest entries whose digest is not
  present locally. It posts a `ReloadRequest` on the event bus when a delete or a save
  succeeded. Photos are matched by SHA-1 digest only.
- **The local inventory** (`InternalStoragePhotoRepository`). It keeps the file names
  ending in `jpg` (case-insensitive, no dot required) and sorts them. Each photo gets
  the full path and the lowercase hex SHA-1 of its bytes, read in 1024-byte chunks.
- **The slideshow** (`SlideshowViewModel`). It holds a wrap-around index over a
  non-empty photo list. Auto-advance can be paused and resumed. The D-pad keys move the
  slideshow and the center key toggles play/pause.
- **The app view model** (`AppViewModel`). It shows `Loading`, `Error`, `Empty` or a
  running slideshow. A reload is triggered by the back key or by a reload request.
- **The activity** (`MainActivity`). It holds the screen on while awake and sleeps after
  15 minutes without a key press or motion. Motion wakes it only between 07:00 and
  21:59. Remote-control keys are forwarded to the event bus.

The model is built as follows:

- The file system is a value, `map<string, seq<Byte>>`, which each operation takes and
  returns.
- The event bus is an append-only log of events.
- The wall clock and the hour of day are parameters.
- SHA-1 is a function parameter whose result is never inspected.
- What the outside world does is a parameter:
  - the names `context.fileList()` returns for the storage directory. Where a
    property needs the listing to be the directory's real contents,
    `SyncConvergence.ListsDirectory` ties it to the file system;
  - which deletes the system refuses;
  - what each download URL answers: an exception, a null body or a payload;
  - how the disk behaves for each destination path;
  - how many bytes each `read` returns, chosen nondeterministically.

The state the Kotlin code updates in place is modelled as Dafny classes with `modifies`
clauses:

- the three view models and the activity;
- the two java.io streams;
- `MessageDigest`.

The loops are methods proved against specification functions. The whole sync pass is
the function `SyncPass`. `DoWork` is proved equal to it, and whole-pass properties are
lemmas about it.

Three consequences of the code as written are stated as proved properties:

- In `doWork`, the flag returned by the deletions is named `photosDownloaded` and the
  flag returned by the downloads is named `photosDeleted`. So a pass in which only
  deletions succeed posts the reason "Photos changed (downloads) "
  (`SyncPassProperties.OnlyDeletionsReportDownloads`). A pass in which only downloads
  succeed posts "Photos changed (deletions) "
  (`SyncPassProperties.OnlyDownloadsReportDeletions`). Whether a request is posted at
  all is unaffected (`SyncPassProperties.PassSignalsIffChange`). The model keeps the
  code's behaviour.
- Photos are matched by digest and saved by name. So a download can overwrite a local
  photo that the pass keeps because another manifest entry has its digest. In
  `SyncConvergence.KeptPhotoOverwritten`, the directory holds `x.jpg` = [2], and the
  manifest lists `x.jpg` with the digest of [3] and `y.jpg` with the digest of [2].
  Nothing is deleted, and `x.jpg` is downloaded over the kept file. The pass succeeds,
  and afterwards the digest of [2], which the manifest still lists, is gone. The
  following pass downloads `y.jpg` again. The code's own TODO at `SyncWorker.kt:119`
  concerns the same name/digest mismatch.
- Suppose a reload finds no photos. The screen then shows `Empty`, but the previous
  slideshow is neither cleaned up nor replaced, so it stays subscribed to the event bus
  (`AppScreen.AppViewModel.CompleteGetPhotos`).

Convergence holds under stated conditions. The listing must be the directory's
contents, and `SyncConvergence.PassCanComplete` must hold:

- every delete is allowed;
- every download answers with a body of the listed digest, saved in full;
- the downloads go to distinct `jpg` names that no file left after cleanup occupies.

Under these conditions one pass succeeds, and afterwards the directory's photos carry
exactly the manifest's digests (`SyncConvergence.PassConverges`). The next pass then
changes nothing and posts nothing, whatever the server and disk do
(`SyncConvergence.ConvergedDirectoryIsStable`). The `jpg` condition matters. A download
is saved under its manifest name, but the inventory keeps only `jpg` names
(`SyncConvergence.PhotoPathParts`). So an entry with another name is saved, never
inventoried, and downloaded again on every pass.

Files:

| file | contents |
|---|---|
| `model.dfy` | shared values (`Byte`, `Photo`, `Result`, `Event`, `FileSystem`); order-preserving `Filter` and its lemmas |
| `streams.dfy` | `InputStream` and `FileOutputStream` |
| `photo_repository.dfy` | the local inventory: name selection, sorting, hex encoding, chunked hashing, `getPhotos` |
| `sync_worker.dfy` | the sync pass and whole-pass properties |
| `convergence.dfy` | the pass over a listing that is the directory's contents: convergence, two-pass idempotence, the overwrite example |
| `slideshow.dfy` | `SlideshowViewModel` |
| `app_view_model.dfy` | `AppViewModel` |
| `main_activity.dfy` | `MainActivity` |

## Model

| member | source | states |
|---|---|---|
| PhotoRepository.EndsWithJpg | app/src/main/java/com/ezhart/clearframe/data/PhotoRepository.kt:21 | a name is kept iff its last three characters are j, p, g in either case; no dot is required |
| PhotoRepository.LessEqTotal | app/src/main/java/com/ezhart/clearframe/data/PhotoRepository.kt:22 | the string order used by `sortedBy { f -> f }` relates any two names one way or the other |
| PhotoRepository.LessEqTransitive | app/src/main/java/com/ezhart/clearframe/data/PhotoRepository.kt:22 | that order is transitive |
| PhotoRepository.LessEqAntisymmetric | app/src/main/java/com/ezhart/clearframe/data/PhotoRepository.kt:22 | two names ordered both ways are equal |
| PhotoRepository.LessEq | app/src/main/java/com/ezhart/clearframe/data/PhotoRepository.kt:22 | the string order `sortedBy { f -> f }` uses: character by character, a proper prefix first; the three lemmas above state that it is a total order |
| PhotoRepository.Insert | app/src/main/java/com/ezhart/clearframe/data/PhotoRepository.kt:22 | one step of the sort: the name goes before the first element it does not follow; `InsertPermutation` and `InsertSorted` state its effect |
| PhotoRepository.InsertPermutation | app/src/main/java/com/ezhart/clearframe/data/PhotoRepository.kt:22 | inserting a name adds exactly that name to the multiset of names |
| PhotoRepository.InsertSorted | app/src/main/java/com/ezhart/clearframe/data/PhotoRepository.kt:22 | inserting into a sorted list keeps it sorted |
| PhotoRepository.SortNamesCorrect | app/src/main/java/com/ezhart/clearframe/data/PhotoRepository.kt:22 | the sorted names are in order and are a permutation of the input |
| PhotoRepository.SortNames | app/src/main/java/com/ezhart/clearframe/data/PhotoRepository.kt:22 | `sortedBy { f -> f }` as an insertion sort; since the order is total and antisymmetric, `SortNamesCorrect` pins down the one result any correct sort gives |
| PhotoRepository.ImagePaths | app/src/main/java/com/ezhart/clearframe/data/PhotoRepository.kt:20-26 | the filter, sort and path-building chain; `ImagePathsSpec` states its result |
| PhotoRepository.ImagePathsSpec | app/src/main/java/com/ezhart/clearframe/data/PhotoRepository.kt:19-26 | one path per kept name, each `storagePath + "/" + name`; the names are sorted; a name appears iff it is listed and ends in jpg, as often as it is listed |
| PhotoRepository.Unsigned | app/src/main/java/com/ezhart/clearframe/data/PhotoRepository.kt:49 | `%02x` formats a signed byte through its unsigned value, below 256 |
| PhotoRepository.HexByte | app/src/main/java/com/ezhart/clearframe/data/PhotoRepository.kt:49 | `"%02x".format(b)`: high nibble then low nibble of the unsigned value; `HexByteRoundTrip` decodes it back |
| PhotoRepository.HexEncode | app/src/main/java/com/ezhart/clearframe/data/PhotoRepository.kt:49 | the joined hex text of a digest; `HexEncodeShape`, `HexRoundTrip` and `HexEncodeInjective` state its meaning |
| PhotoRepository.HexEncodeShape | app/src/main/java/com/ezhart/clearframe/data/PhotoRepository.kt:49 | the digest text has two lowercase hex digits per byte, the i-th pair being the i-th byte |
| PhotoRepository.Sha1HexLength | app/src/main/java/com/ezhart/clearframe/data/PhotoRepository.kt:48-49 | a 20-byte SHA-1 digest gives a 40-character digest string |
| PhotoRepository.HexByteRoundTrip | app/src/main/java/com/ezhart/clearframe/data/PhotoRepository.kt:49 | the two digits of a byte decode back to that byte |
| PhotoRepository.HexRoundTrip | app/src/main/java/com/ezhart/clearframe/data/PhotoRepository.kt:49 | decoding the joined hex text gives back the digest bytes |
| PhotoRepository.HexEncodeInjective | app/src/main/java/com/ezhart/clearframe/data/PhotoRepository.kt:49 | different digests give different digest strings, so comparing strings compares digests |
| PhotoRepository.MessageDigest.constructor | app/src/main/java/com/ezhart/clearframe/data/PhotoRepository.kt:40 | a fresh digest has been fed nothing |
| PhotoRepository.MessageDigest.Update | app/src/main/java/com/ezhart/clearframe/data/PhotoRepository.kt:45 | `update(buffer, 0, n)` appends exactly those n bytes to what has been fed |
| PhotoRepository.MessageDigest.Digest | app/src/main/java/com/ezhart/clearframe/data/PhotoRepository.kt:48 | `digest()` is the algorithm applied to everything fed, and resets |
| PhotoRepository.ToHash | app/src/main/java/com/ezhart/clearframe/data/PhotoRepository.kt:39-50 | for any chunking of reads, the result is the hex of SHA-1 of the whole file; a missing file is an I/O error |
| PhotoRepository.Inventory | app/src/main/java/com/ezhart/clearframe/data/PhotoRepository.kt:17-37 | what `getPhotos` returns or throws; `GetPhotos` is proved equal to it and `SyncConvergence.InventoryOfDirectory` characterizes it over a real listing |
| PhotoRepository.GetPhotos | app/src/main/java/com/ezhart/clearframe/data/PhotoRepository.kt:17-37 | fails iff some selected path cannot be read; otherwise one photo per selected path, in order, with that file's digest |
| Streams.InputStream.constructor | app/src/main/java/com/ezhart/clearframe/data/PhotoRepository.kt:41 | a new stream is at the start of its data |
| Streams.InputStream.Read | app/src/main/java/com/ezhart/clearframe/data/PhotoRepository.kt:44 | -1 exactly at end of stream; otherwise between 1 and buffer-size next bytes, copied to the buffer's start |
| Streams.FileOutputStream.constructor | app/src/main/java/com/ezhart/clearframe/sync/SyncWorker.kt:221 | opening a file output stream truncates the file |
| Streams.FileOutputStream.Write | app/src/main/java/com/ezhart/clearframe/sync/SyncWorker.kt:226 | a write appends the bytes, or the part that fits before reporting failure |
| SyncWorker.ReplaceAll | app/src/main/java/com/ezhart/clearframe/sync/SyncWorker.kt:162 | Kotlin's `replace` for a non-empty target: every occurrence, left to right, without overlap; `ReplaceAllAbsent` and `RewriteFrameHost` state its effect on URLs |
| SyncWorker.ReplaceAllAbsent | app/src/main/java/com/ezhart/clearframe/sync/SyncWorker.kt:162 | `replace` leaves a URL without the target unchanged |
| SyncWorker.RewriteFrameHost | app/src/main/java/com/ezhart/clearframe/sync/SyncWorker.kt:162 | a URL on `http://frame` is moved to `BASE_URL` with its path kept |
| SyncWorker.RewriteUrls | app/src/main/java/com/ezhart/clearframe/sync/SyncWorker.kt:160-164 | same length; names and digests kept; every URL rewritten by replacing every `http://frame` |
| SyncWorker.RewriteKeepsDigests | app/src/main/java/com/ezhart/clearframe/sync/SyncWorker.kt:160-164 | the rewrite leaves the set of manifest digests unchanged |
| SyncWorker.GetDownloadList | app/src/main/java/com/ezhart/clearframe/sync/SyncWorker.kt:103-128 | the loop builds exactly the remote entries whose digest no local photo has, in order |
| SyncWorker.GetDeleteList | app/src/main/java/com/ezhart/clearframe/sync/SyncWorker.kt:130-152 | the loop builds exactly the local photos whose digest no remote entry has, in order |
| SyncWorker.DownloadListExact | app/src/main/java/com/ezhart/clearframe/sync/SyncWorker.kt:108-127 | an entry is to download iff it is in the manifest and its digest is not local; duplicates kept; manifest order kept |
| SyncWorker.DeleteListExact | app/src/main/java/com/ezhart/clearframe/sync/SyncWorker.kt:134-151 | a photo is to delete iff it is local and its digest is not remote; duplicates kept; local order kept |
| SyncWorker.SameDigestUntouched | app/src/main/java/com/ezhart/clearframe/sync/SyncWorker.kt:103-152 | a remote entry and a local photo with the same digest are neither downloaded nor deleted, whatever their names |
| SyncWorker.ConvergedNothingToDo | app/src/main/java/com/ezhart/clearframe/sync/SyncWorker.kt:103-152 | equal digest sets give empty download and delete lists |
| SyncWorker.DownloadListOfRewrite | app/src/main/java/com/ezhart/clearframe/sync/SyncWorker.kt:160-164 | computing the download list after the URL rewrite equals rewriting the download list |
| SyncWorker.RewriteCommutesWithDiff | app/src/main/java/com/ezhart/clearframe/sync/SyncWorker.kt:60-78 | the URL rewrite does not change what is deleted, and only rewrites what is downloaded |
| SyncWorker.Cleanup | app/src/main/java/com/ezhart/clearframe/sync/SyncWorker.kt:190-206 | deleting only removes files and leaves every other file's contents as they were; the flag is true iff the file system changed |
| SyncWorker.CleanupPhotos | app/src/main/java/com/ezhart/clearframe/sync/SyncWorker.kt:190-206 | every photo is attempted despite failures; existing deletable files are removed and nothing else; true iff some delete succeeded |
| SyncWorker.CopyStream | app/src/main/java/com/ezhart/clearframe/sync/SyncWorker.kt:222-229 | for any chunking of reads, the file ends up holding the whole body, or, when a write throws, the part that fit; it succeeds iff the body fits |
| SyncWorker.SaveEffect | app/src/main/java/com/ezhart/clearframe/sync/SyncWorker.kt:208-238 | true iff there is a body and all of it is written, and then the file holds the body; no other file changes |
| SyncWorker.SaveFile | app/src/main/java/com/ezhart/clearframe/sync/SyncWorker.kt:208-238 | true iff there is a body and all of it was written, and then the file holds exactly the body; a null body or a failed open changes nothing |
| SyncWorker.DownloadAll | app/src/main/java/com/ezhart/clearframe/sync/SyncWorker.kt:176-188 | fetch and save in order, abort at the first fetch that throws; `DownloadAllResult`, `DownloadAllFrame` and `DownloadAllIsolation` state its effect |
| SyncWorker.DownloadPhotos | app/src/main/java/com/ezhart/clearframe/sync/SyncWorker.kt:176-188 | the loop fetches and saves in order, stops at the first fetch that throws, and reports whether some save succeeded |
| SyncWorker.DownloadAllResult | app/src/main/java/com/ezhart/clearframe/sync/SyncWorker.kt:176-188 | the downloads throw iff some fetch throws; otherwise they report true iff some save succeeded |
| SyncWorker.DownloadAllFrame | app/src/main/java/com/ezhart/clearframe/sync/SyncWorker.kt:176-188 | a file that no entry is saved to is unchanged |
| SyncWorker.DownloadAllIsolation | app/src/main/java/com/ezhart/clearframe/sync/SyncWorker.kt:176-188 | a photo saved in full stays on disk whatever its neighbours' saves do, if no fetch up to it threw and no later entry has its name |
| SyncWorker.ChangeReason | app/src/main/java/com/ezhart/clearframe/sync/SyncWorker.kt:82-90 | every reload reason starts with "Photos changed " |
| SyncWorker.ReasonLabelsSwapped | app/src/main/java/com/ezhart/clearframe/sync/SyncWorker.kt:77-90 | only deletions give the reason "Photos changed (downloads) "; only downloads give "Photos changed (deletions) " |
| SyncWorker.SyncPass | app/src/main/java/com/ezhart/clearframe/sync/SyncWorker.kt:56-101 | one whole pass: new files, the post if any, the result; the `SyncPassProperties` and `SyncConvergence` lemmas state its behaviour |
| SyncWorker.DoWork | app/src/main/java/com/ezhart/clearframe/sync/SyncWorker.kt:56-101 | the pass changes the files, posts, and returns exactly what `SyncPass` says |
| SyncPassProperties.CleanupFlag | app/src/main/java/com/ezhart/clearframe/sync/SyncWorker.kt:190-206 | the cleanup flag is true iff some photo to delete exists and may be deleted |
| SyncPassProperties.PassSignalsIffChange | app/src/main/java/com/ezhart/clearframe/sync/SyncWorker.kt:56-101 | with a manifest and an inventory, the pass fails iff a download call throws; it posts iff nothing threw and some delete or save succeeded; the post is a reload request whose reason starts with "Photos changed " |
| SyncPassProperties.OnlyDeletionsReportDownloads | app/src/main/java/com/ezhart/clearframe/sync/SyncWorker.kt:77-92 | a pass in which some delete succeeds and nothing is to download posts "Photos changed (downloads) " |
| SyncPassProperties.OnlyDownloadsReportDeletions | app/src/main/java/com/ezhart/clearframe/sync/SyncWorker.kt:77-92 | a pass in which no delete succeeds, no fetch throws and some save succeeds posts "Photos changed (deletions) " |
| SyncPassProperties.FailedPassPostsNothing | app/src/main/java/com/ezhart/clearframe/sync/SyncWorker.kt:96-100 | a failed pass posts nothing; a failed manifest fetch or inventory also changes no file |
| SyncPassProperties.ConvergedPassIsNoOp | app/src/main/java/com/ezhart/clearframe/sync/SyncWorker.kt:56-101 | when the local digests equal the manifest's, the pass succeeds, changes no file and posts nothing |
| SyncConvergence.PhotoPathParts | app/src/main/java/com/ezhart/clearframe/data/PhotoRepository.kt:26 | a name's path lies under the directory, the name follows the slash, and the path ends in jpg iff the name does |
| SyncConvergence.DirectoryPathsPresent | app/src/main/java/com/ezhart/clearframe/data/PhotoRepository.kt:19-26 | over a real listing, every path the inventory hashes is a jpg file of the directory |
| SyncConvergence.InventoryEntries | app/src/main/java/com/ezhart/clearframe/data/PhotoRepository.kt:28-36 | when every selected path is a file, the inventory has one photo per path, in order, with the digest of its contents |
| SyncConvergence.InventoryOfDirectory | app/src/main/java/com/ezhart/clearframe/data/PhotoRepository.kt:17-37 | over a real listing, the inventory cannot fail and holds exactly the directory's jpg files with their digests |
| SyncConvergence.InventoryDigests | app/src/main/java/com/ezhart/clearframe/data/PhotoRepository.kt:17-37 | over a real listing, the inventory's digests are the directory's stored digests |
| SyncConvergence.InDeleteList | app/src/main/java/com/ezhart/clearframe/sync/SyncWorker.kt:134-151 | one photo is to delete iff it is local and the manifest does not list its digest |
| SyncConvergence.InDownloadList | app/src/main/java/com/ezhart/clearframe/sync/SyncWorker.kt:108-127 | one manifest entry is to download iff no local photo has its digest |
| SyncConvergence.RemovedIffStale | app/src/main/java/com/ezhart/clearframe/sync/SyncWorker.kt:190-206 | with every delete allowed, a file is removed iff it is a jpg of the directory whose digest the manifest does not list |
| SyncConvergence.CleanupRemovesStale | app/src/main/java/com/ezhart/clearframe/sync/SyncWorker.kt:77 | with every delete allowed, cleanup removes exactly the stored photos whose digest the manifest no longer lists, and keeps every other file as it was |
| SyncConvergence.KeptDigestsAreRemote | app/src/main/java/com/ezhart/clearframe/sync/SyncWorker.kt:77 | once the stale photos are gone, every stored digest is listed by the manifest |
| SyncConvergence.RemoteDigestsKeptOrDownloaded | app/src/main/java/com/ezhart/clearframe/sync/SyncWorker.kt:77-78 | every digest of the manifest is either still stored after cleanup or on the download list |
| SyncConvergence.KeptAndDownloadedAreRemote | app/src/main/java/com/ezhart/clearframe/sync/SyncWorker.kt:77-78 | the digests kept through cleanup together with the digests to download are exactly the manifest's |
| SyncConvergence.StoredAfterDownloads | app/src/main/java/com/ezhart/clearframe/sync/SyncWorker.kt:176-188 | downloads that all answer and save in full, to fresh jpg names, do not throw, report a change iff there is one, and add exactly their digests to the stored ones |
| SyncConvergence.PassConverges | app/src/main/java/com/ezhart/clearframe/sync/SyncWorker.kt:56-101 | under the stated conditions the pass succeeds and leaves the directory storing exactly the manifest's digests |
| SyncConvergence.ConvergedDirectoryIsStable | app/src/main/java/com/ezhart/clearframe/sync/SyncWorker.kt:56-101 | after such a pass, the next pass over the new listing changes no file, posts nothing and succeeds, whatever the server and disk do |
| SyncConvergence.KeptPhotoOverwritten | app/src/main/java/com/ezhart/clearframe/sync/SyncWorker.kt:113-124 | a download whose name a kept photo already has overwrites it: the pass succeeds, yet the digest that photo supplied is no longer stored |
| SlideshowScreen.NextIndex | app/src/main/java/com/ezhart/clearframe/ui/screens/SlideshowViewModel.kt:66-68 | the index `next` moves to; `IndexMovesAreModular` and `PrevUndoesNext` state its meaning |
| SlideshowScreen.PrevIndex | app/src/main/java/com/ezhart/clearframe/ui/screens/SlideshowViewModel.kt:76-78 | the index `prev` moves to; `IndexMovesAreModular` and `PrevUndoesNext` state its meaning |
| SlideshowScreen.IndexMovesAreModular | app/src/main/java/com/ezhart/clearframe/ui/screens/SlideshowViewModel.kt:65-83 | next is (i+1) mod n and prev is (i-1+n) mod n, both within bounds |
| SlideshowScreen.PrevUndoesNext | app/src/main/java/com/ezhart/clearframe/ui/screens/SlideshowViewModel.kt:65-83 | prev undoes next and next undoes prev |
| SlideshowScreen.AdvanceByWraps | app/src/main/java/com/ezhart/clearframe/ui/screens/SlideshowViewModel.kt:65-73 | up to n steps forward from i land on i+k, wrapped past the end at most once |
| SlideshowScreen.FullCycleReturns | app/src/main/java/com/ezhart/clearframe/ui/screens/SlideshowViewModel.kt:65-73 | n steps forward over n photos return to the start, and no fewer steps do |
| SlideshowScreen.SlideshowViewModel.constructor | app/src/main/java/com/ezhart/clearframe/ui/screens/SlideshowViewModel.kt:23-42 | needs a non-empty list; starts at the first photo, forward, auto-advancing, subscribed |
| SlideshowScreen.SlideshowViewModel.Next | app/src/main/java/com/ezhart/clearframe/ui/screens/SlideshowViewModel.kt:65-73 | moves to the next index with wrap-around, remembers the previous photo, direction forward |
| SlideshowScreen.SlideshowViewModel.Prev | app/src/main/java/com/ezhart/clearframe/ui/screens/SlideshowViewModel.kt:75-83 | moves to the previous index with wrap-around, remembers the previous photo, direction backward |
| SlideshowScreen.SlideshowViewModel.Play | app/src/main/java/com/ezhart/clearframe/ui/screens/SlideshowViewModel.kt:85-95 | turns auto-advance on and changes nothing else |
| SlideshowScreen.SlideshowViewModel.Pause | app/src/main/java/com/ezhart/clearframe/ui/screens/SlideshowViewModel.kt:97-99 | turns auto-advance off and changes nothing else |
| SlideshowScreen.SlideshowViewModel.TogglePlayPause | app/src/main/java/com/ezhart/clearframe/ui/screens/SlideshowViewModel.kt:101-109 | flips auto-advance and changes nothing else |
| SlideshowScreen.SlideshowViewModel.AutoAdvanceTick | app/src/main/java/com/ezhart/clearframe/ui/screens/SlideshowViewModel.kt:88-93 | a timer tick moves forward only while auto-advance is on |
| SlideshowScreen.SlideshowViewModel.HandleManualAdvance | app/src/main/java/com/ezhart/clearframe/ui/screens/SlideshowViewModel.kt:53-63 | performs the move and leaves the auto-advance setting as it was |
| SlideshowScreen.SlideshowViewModel.HandleRemoteButton | app/src/main/java/com/ezhart/clearframe/ui/screens/SlideshowViewModel.kt:44-51 | right moves forward, left moves back, center toggles play/pause, every other key changes nothing |
| SlideshowScreen.SlideshowViewModel.Cleanup | app/src/main/java/com/ezhart/clearframe/ui/screens/SlideshowViewModel.kt:111-113 | unsubscribes and changes nothing else |
| SlideshowScreen.NextThenPrev | app/src/main/java/com/ezhart/clearframe/ui/screens/SlideshowViewModel.kt:65-83 | next then prev shows the starting photo again |
| AppScreen.AppViewModel.constructor | app/src/main/java/com/ezhart/clearframe/ui/screens/AppViewModel.kt:33-40 | starts subscribed, loading, with no slideshow |
| AppScreen.AppViewModel.GetPhotos | app/src/main/java/com/ezhart/clearframe/ui/screens/AppViewModel.kt:42-43 | the screen shows Loading while the load runs; the slideshow is kept |
| AppScreen.AppViewModel.CompleteGetPhotos | app/src/main/java/com/ezhart/clearframe/ui/screens/AppViewModel.kt:44-67 | an exception gives Error; no photos gives Empty and keeps the old slideshow as it was; photos clean up the old slideshow and run a new one over exactly those photos from the first |
| AppScreen.AppViewModel.LoadPhotos | app/src/main/java/com/ezhart/clearframe/ui/screens/AppViewModel.kt:42-67 | over the repository's inventory: Error iff the inventory fails, Empty iff it is empty, otherwise a slideshow over it |
| AppScreen.AppViewModel.Reload | app/src/main/java/com/ezhart/clearframe/ui/screens/AppViewModel.kt:93-95 | a reload starts a new load |
| AppScreen.AppViewModel.HandleRemoteButton | app/src/main/java/com/ezhart/clearframe/ui/screens/AppViewModel.kt:80-85 | the back key reloads; every other key leaves the screen as it was |
| AppScreen.AppViewModel.HandleReloadRequest | app/src/main/java/com/ezhart/clearframe/ui/screens/AppViewModel.kt:87-91 | every reload request reloads, whatever its reason |
| Activity.EpochSeconds | app/src/main/java/com/ezhart/clearframe/MainActivity.kt:130-138 | milliseconds to seconds by Long division, truncating toward zero |
| Activity.IsInWakeSchedule | app/src/main/java/com/ezhart/clearframe/MainActivity.kt:140-150 | the wake schedule is hours 7 to 21 inclusive |
| Activity.TimedOut | app/src/main/java/com/ezhart/clearframe/MainActivity.kt:197-204 | the idle test of `sleepCheck`: elapsed seconds since the last activity at least the 15-minute timeout; `MainActivity.SleepCheck` is stated in its terms |
| Activity.RemoteKeysReachViewModels | app/src/main/java/com/ezhart/clearframe/MainActivity.kt:54 | the D-pad left, right, center and back keys, which the view models act on, are all forwarded |
| Activity.MainActivity.constructor | app/src/main/java/com/ezhart/clearframe/MainActivity.kt:45-46 | a new activity is asleep, with the current time as its last activity |
| Activity.MainActivity.Wake | app/src/main/java/com/ezhart/clearframe/MainActivity.kt:152-180 | when asleep: awake, screen held on, one more sleep check launched; when awake: nothing |
| Activity.MainActivity.Sleep | app/src/main/java/com/ezhart/clearframe/MainActivity.kt:182-193 | afterwards asleep with the screen released; idempotent |
| Activity.MainActivity.ResetInactivityTimer | app/src/main/java/com/ezhart/clearframe/MainActivity.kt:126-128 | the last activity becomes now and nothing else changes |
| Activity.MainActivity.SleepCheck | app/src/main/java/com/ezhart/clearframe/MainActivity.kt:195-210 | checks only while awake; sleeps at the first reading at least 15 minutes past the last activity, and not before |
| Activity.MainActivity.OnKeyUp | app/src/main/java/com/ezhart/clearframe/MainActivity.kt:113-124 | every key resets the timer; a remote key is posted and handled; other keys get the platform's answer; a key does not wake the frame |
| Activity.MainActivity.HandleMotionDetected | app/src/main/java/com/ezhart/clearframe/MainActivity.kt:212-219 | motion resets the timer and wakes the frame iff the hour is in the wake schedule |
| Activity.MainActivity.OnCreate | app/src/main/java/com/ezhart/clearframe/MainActivity.kt:93-104 | wakes if the hour is in the schedule, and launches a sleep check of its own |
| Activity.MainActivity.OnResume | app/src/main/java/com/ezhart/clearframe/MainActivity.kt:107-111 | resuming wakes the frame whatever the hour |

## Left out

- Networking: Retrofit, OkHttp and Gson are not modelled. The manifest is a parameter:
  a list of entries, or the exception its fetch threw. Download outcomes are a
  function from URL to outcome. The same URL fetched twice in one pass therefore
  answers the same way.
- Android storage: `File.delete()` is modelled by a set of paths the system refuses to
  delete. A delete of a missing file fails.
- File creation: whether a file can be created or fills up is a per-path `Disk`
  parameter.
- Unreadable local files: a file that cannot be read during the inventory is modelled as
  a missing path.
- SHA-1 is an uninterpreted function. Nothing is proved about collisions beyond what
  the hex encoding preserves.
- Case folding: the case-insensitive `endsWith` folds ASCII letters only. Other Unicode
  case pairs are not modelled.
- String order: Dafny characters are Unicode scalar values, while Kotlin's `compareTo`
  compares UTF-16 code units. The two orders agree on the Basic Multilingual Plane.
- Concurrency is not modelled. This covers:
  - the coroutines (`viewModelScope`, `GlobalScope`);
  - WorkManager scheduling of the worker;
  - several sleep-check loops running at once;
  - a key press or motion event arriving during a sleep check's delay.
- Event bus: posting appends to the event log. Delivery to subscribers, its threads and
  its ordering are not modelled; the handlers are called directly.
- Timers: `delay`, the 10-second auto-advance interval, the 60-second sleep-check
  interval, and cancelling and relaunching `autoAdvanceJob` are not modelled.
  `AutoAdvanceTick` is one pass of the auto-advance loop.
- Activity.MainActivity.SleepCheck: the loop also stops when the supplied clock readings
  run out. The source loops for as long as the frame is awake.
- Activity.MainActivity.Wake: the wake lock taken when the screen is off,
  `PowerManager` and the window flags are not modelled. They are reduced to the
  `keepScreenOn` field. The flag clear that `sleep()` posts to the main looper is
  applied at once.
- Activity.EpochSeconds: Kotlin `Long` arithmetic is unbounded here. 64-bit overflow of
  the clock is not modelled.
- Activity.MainActivity.OnCreate: only the wake check and the sleep-check launch are
  modelled. `setContent`, binding `SyncService`, event-bus registration and starting
  the motion sensor are not.
- SyncWorker.CopyStream: a streamed body whose `read` throws partway through the copy
  (`SyncWorker.kt:225`) is not a separate outcome. `saveFile` catches it at
  `SyncWorker.kt:231`, returns false and keeps the bytes already written. The model
  covers that outcome only through `Disk.FullAfter` on the destination path. That
  gives the same file contents and the same result, except when the read throws after
  the whole body has arrived, which the model does not represent.
- SyncConvergence.PassConverges: convergence is proved only under `PassCanComplete`.
  A pass with a refused delete, a failed download, a digest mismatch, a non-`jpg`
  name or a name clash is not shown to converge in later passes.
- Streams: `close`, `flush` and `use` are not modelled, because they do not change file
  contents in this model.
- Logging (`Log.d`, `Log.e`) is not modelled.
- `HomeScreen.kt`, `MotionSensor.kt`, `SyncService.kt`, `ClearFrameApplication.kt` and
  `DefaultAppContainer.kt` are not part of this model.
