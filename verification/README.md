# nhasixapp Android core, modelled in Dafny

This project models the Kotlin logic under the Flutter app nhasixapp. That is the `kuron_native` plugin and the app's own `android/app` code. Each piece becomes pure functions over immutable data, and the project proves what each piece promises.

What is modelled, one module per component:

- **Downloading.** Two generations of the batch image download are modelled.
  - `PageLoop` is the per-page loop both workers share. It resumes over non-empty files, stops cooperatively and counts progress.
  - `NativeWorker` is the plugin's worker. It writes `images/page_NNN.jpg`, the metadata record and the input and output data.
  - `AppDownload` is the app's older worker and method channel.
  - `Cookies` is the cookie map codec and the worker's cookie jar.
  - `DownloadManager` turns start, cancel and pause into WorkManager operations and picks the status of a content id. It covers both generations.
  - `DownloadHandler` is the plugin's event stream, call validation and storage search.
- **PDF.**
  - `PdfWorker` splits an image list into parts and names the part files.
  - `PdfGenerator` cuts tall images into strips, counts pages, runs the 0–90–92 progress schedule and formats file sizes.
- **Plugin state.**
  - `Plugin` is the `kuron_native` dispatch, argument validation and the pending-result slot shared by the login page and the directory picker. It also models the SAF tree-URI path rewrite.
  - `WebView` is the login activity: its success filter and its cookie splitting.
  - `AdBlock` is the ad-host matcher.
- **App channels.**
  - `Dns` holds the DNS provider settings.
  - `Backup` covers the backup zip, the restore and its zip-slip guard. `CanonicalPath` gives the lexical canonical paths that guard compares.
  - `Disguise` is the launcher-alias switch, under both package names.
- **Supporting models.** `Work` (WorkManager `Data` and `WorkInfo`), `FileSystem` (a map from path to node), `Text` (the Kotlin string operations used), `Channel` (method-call arguments), `Arith` and `Wrappers`.

The platform enters only as parameters:
- HTTP fetches and `isStopped`.
- Bitmap decoding, out-of-memory and `addPageToPdf`.
- File writes, URI host parsing and the WebView cookie store.
- Activity launches, package-manager calls that throw, clocks and system download ids.

Each lemma holds for every value of these oracles.

## Model

| member | source | states |
|---|---|---|
| NativeWorker.PageFileName | packages/kuron_native/android/src/main/kotlin/id/nhasix/kuron_native/kuron_native/download/DownloadWorker.kt:180-181 | the name of index i starts with `page_`, ends with `.jpg` and has extension `jpg` |
| NativeWorker.PageFileNameInjective | packages/kuron_native/android/src/main/kotlin/id/nhasix/kuron_native/kuron_native/download/DownloadWorker.kt:180-182 | distinct indices give distinct page file names |
| NativeWorker.PageFileNameNumber | packages/kuron_native/android/src/main/kotlin/id/nhasix/kuron_native/kuron_native/download/DownloadWorker.kt:180-181 | the digits between `page_` and `.jpg` are i+1 padded to at least three digits and read back as i+1 |
| NativeWorker.PagePaths | packages/kuron_native/android/src/main/kotlin/id/nhasix/kuron_native/kuron_native/download/DownloadWorker.kt:159-182 | one path per URL, the k-th being `images/` + the k-th page name, all distinct |
| NativeWorker.DownloadDirectory | packages/kuron_native/android/src/main/kotlin/id/nhasix/kuron_native/kuron_native/download/DownloadWorker.kt:211-223 | a non-empty destinationPath is used as `File` normalises it (the same path when it is already normal); otherwise Downloads/(backup folder or `nhasix`)/sourceId/contentId |
| FileSystem.FilePath | packages/kuron_native/android/src/main/kotlin/id/nhasix/kuron_native/kuron_native/download/DownloadWorker.kt:213-215 | the path `File(destinationPath)` holds has no empty segment and no trailing separator, is non-empty for a non-empty argument, and equals an already-normal argument |
| FileSystem.FilePathIdempotent | packages/kuron_native/android/src/main/kotlin/id/nhasix/kuron_native/kuron_native/download/DownloadWorker.kt:213-215 | normalising a path twice gives the same path as normalising it once |
| FileSystem.FilePathExample | packages/kuron_native/android/src/main/kotlin/id/nhasix/kuron_native/kuron_native/download/DownloadWorker.kt:213-215 | a destination `d//` is held as `d`, so its images folder is `d/images` |
| FileSystem.MkDirsKeepsChildren | packages/kuron_native/android/src/main/kotlin/id/nhasix/kuron_native/kuron_native/download/DownloadWorker.kt:163-170 | creating the images directory creates or changes no entry inside it, so every page file is present afterwards exactly when it was before |
| NativeWorker.ResolveUrls | packages/kuron_native/android/src/main/kotlin/id/nhasix/kuron_native/kuron_native/download/DownloadWorker.kt:80-100 | the URL list comes from the file named by `image_urls_file` when that is a non-empty string (None if missing or unreadable), else from `image_urls` |
| NativeWorker.MetadataFor | packages/kuron_native/android/src/main/kotlin/id/nhasix/kuron_native/kuron_native/download/DownloadWorker.kt:325-350 | files[k] is the k-th page name; total, downloaded, end and pages-downloaded counts are N; start page 1, not a range download, schema `2.1`; defaults for missing title, url, cover and language |
| NativeWorker.Finish | packages/kuron_native/android/src/main/kotlin/id/nhasix/kuron_native/kuron_native/download/DownloadWorker.kt:104-147 | once the loop has run, there is one progress bag per report in order; a stop becomes cancellation and a throw becomes retry, each leaving the files and the URL store as the loop did; completion becomes success with content_id and N pages, records metadata for exactly those pages exactly when the write succeeds and then holds `metadata.json` as that freshly written file, keeps every other file the loop left, and removes the `image_urls_file` entry and nothing else from the URL store |
| NativeWorker.CompletedFs | packages/kuron_native/android/src/main/kotlin/id/nhasix/kuron_native/kuron_native/download/DownloadWorker.kt:313-375 | `metadata.json` is created or overwritten when the write succeeds and otherwise keeps its presence; `.nomedia` is present afterwards exactly when it was before or the content directory exists and its creation does not throw; every other file keeps its node |
| NativeWorker.DeleteUrlFile | packages/kuron_native/android/src/main/kotlin/id/nhasix/kuron_native/kuron_native/download/DownloadWorker.kt:126-133 | a non-empty `image_urls_file` names the one entry that leaves the URL store; every other entry stays with its contents |
| NativeWorker.DoWorkUnfold | packages/kuron_native/android/src/main/kotlin/id/nhasix/kuron_native/kuron_native/download/DownloadWorker.kt:74-175 | with both inputs present and the images directory available, the outcome is decided by the page loop: completed gives success, stopped gives cancellation, a throw gives retry; metadata is recorded exactly on a completed run whose write succeeds, and `metadata.json` then holds it while every other file the loop left is unchanged |
| NativeWorker.FailureIffMissingInput | packages/kuron_native/android/src/main/kotlin/id/nhasix/kuron_native/kuron_native/download/DownloadWorker.kt:75-148 | the run fails exactly when content_id is absent or no URL list can be resolved |
| NativeWorker.RetryAndCancellation | packages/kuron_native/android/src/main/kotlin/id/nhasix/kuron_native/kuron_native/download/DownloadWorker.kt:143-177 | with both inputs present the run retries exactly when the images directory cannot be created or an iteration throws, and cancels exactly when the stop flag ends the loop |
| NativeWorker.CancellationSawFlag | packages/kuron_native/android/src/main/kotlin/id/nhasix/kuron_native/kuron_native/download/DownloadWorker.kt:144-177 | a cancelled run saw the stop flag raised at some index below N, so cancellation never comes from a failed request |
| NativeWorker.SuccessOutcome | packages/kuron_native/android/src/main/kotlin/id/nhasix/kuron_native/kuron_native/download/DownloadWorker.kt:109-208 | on success the output carries content_id and downloadedCount = totalCount = N, every page file exists as a regular file, and the metadata (when written) names exactly those files |
| NativeWorker.EmptyListSucceeds | packages/kuron_native/android/src/main/kotlin/id/nhasix/kuron_native/kuron_native/download/DownloadWorker.kt:138-176 | an empty URL list succeeds with zero pages and no progress report |
| NativeWorker.ProgressReports | packages/kuron_native/android/src/main/kotlin/id/nhasix/kuron_native/kuron_native/download/DownloadWorker.kt:194-207 | report k says k+1 of N done with a percentage in 0..100 that is 100 exactly at the last index, and names the content id |
| NativeWorker.ProgressDataFields | packages/kuron_native/android/src/main/kotlin/id/nhasix/kuron_native/kuron_native/download/DownloadWorker.kt:201-207 | the progress bag holds exactly the five reported values under their keys |
| NativeWorker.ProgressMonotone | packages/kuron_native/android/src/main/kotlin/id/nhasix/kuron_native/kuron_native/download/DownloadWorker.kt:194-199 | neither the percentage nor the cumulative byte count decreases between consecutive reports |
| NativeWorker.NonEmptyFilesKept | packages/kuron_native/android/src/main/kotlin/id/nhasix/kuron_native/kuron_native/download/DownloadWorker.kt:185-191 | a non-empty file present before the run is still present after it, and unchanged unless it is the `metadata.json` that a successful run rewrites |
| NativeWorker.MetadataRewritten | packages/kuron_native/android/src/main/kotlin/id/nhasix/kuron_native/kuron_native/download/DownloadWorker.kt:352-353 | a successful run whose metadata write succeeds leaves `metadata.json` as the new record for N pages, whatever was there before |
| NativeWorker.StaleMetadataReplaced | packages/kuron_native/android/src/main/kotlin/id/nhasix/kuron_native/kuron_native/download/DownloadWorker.kt:352-353 | a stale `metadata.json` of a different size from an earlier download does not survive a successful run |
| NativeWorker.StopLeavesLaterPages | packages/kuron_native/android/src/main/kotlin/id/nhasix/kuron_native/kuron_native/download/DownloadWorker.kt:157-177 | with the stop flag raised at index k, page k and every later page file are left as they were, whether or not the images directory had to be created |
| PageLoop.Percent | packages/kuron_native/android/src/main/kotlin/id/nhasix/kuron_native/kuron_native/download/DownloadWorker.kt:194 | the percentage of done out of total lies in 0..100, is 100 when done = total and below 100 before |
| PageLoop.PercentMonotone | packages/kuron_native/android/src/main/kotlin/id/nhasix/kuron_native/kuron_native/download/DownloadWorker.kt:194 | the percentage never decreases as the done count grows |
| PageLoop.Loop | packages/kuron_native/android/src/main/kotlin/id/nhasix/kuron_native/kuron_native/download/DownloadWorker.kt:176-208 | the run gets through between the starting index and N indices, and ends before N only when it did not complete |
| PageLoop.LoopShape | packages/kuron_native/android/src/main/kotlin/id/nhasix/kuron_native/kuron_native/download/DownloadWorker.kt:176-208 | one report per processed index; report j says i+j+1 of N with the matching percentage; the byte counter starts at the carried total and never decreases |
| PageLoop.LoopStops | packages/kuron_native/android/src/main/kotlin/id/nhasix/kuron_native/kuron_native/download/DownloadWorker.kt:176-177 | no processed index had its flag raised; a stopped run ended at an index whose flag was raised, and a throwing run at one whose flag was not |
| PageLoop.LoopFrame | packages/kuron_native/android/src/main/kotlin/id/nhasix/kuron_native/kuron_native/download/DownloadWorker.kt:182-191 | a path that is not a remaining target is unchanged, a non-empty regular file is never rewritten, and nothing is removed |
| PageLoop.LoopFetchesExactly | packages/kuron_native/android/src/main/kotlin/id/nhasix/kuron_native/kuron_native/download/DownloadWorker.kt:185-191 | with distinct targets, an index is fetched exactly when it was processed and its file was absent or empty |
| PageLoop.LoopLeavesRest | packages/kuron_native/android/src/main/kotlin/id/nhasix/kuron_native/kuron_native/download/DownloadWorker.kt:176-191 | with distinct targets, every index the run never reached keeps its file exactly; an index whose fetch threw is not counted as unreached |
| PageLoop.InterruptedPageKept | packages/kuron_native/android/src/main/kotlin/id/nhasix/kuron_native/kuron_native/download/DownloadWorker.kt:225-239 | a fetch whose stream fails after the output file was opened ends the run at that index with the partial file left in place, and a later run starting there skips that index because the file is non-empty |
| PageLoop.LoopFetchedAfter | packages/kuron_native/android/src/main/kotlin/id/nhasix/kuron_native/kuron_native/download/DownloadWorker.kt:185-191 | a run starting at index i fetches only indices from i on, and fetches i only when its file is absent or empty |
| PageLoop.LoopLeavesFiles | packages/kuron_native/android/src/main/kotlin/id/nhasix/kuron_native/kuron_native/download/DownloadWorker.kt:185-191 | every index the run got through ends with a regular file at its target |
| PageLoop.LoopKeepsFiles | packages/kuron_native/android/src/main/kotlin/id/nhasix/kuron_native/kuron_native/download/DownloadWorker.kt:185-191 | a regular file stays a regular file for the rest of the run |
| PageLoop.LoopKeeps | packages/kuron_native/android/src/main/kotlin/id/nhasix/kuron_native/kuron_native/download/DownloadWorker.kt:182-191 | a path that is not a remaining target keeps its size |
| PageLoop.LoopBytes | packages/kuron_native/android/src/main/kotlin/id/nhasix/kuron_native/kuron_native/download/DownloadWorker.kt:196-205 | with distinct targets, report j's byte counter is the starting total plus the final sizes of the first j+1 processed files |
| Cookies.ToMap | packages/kuron_native/android/src/main/kotlin/id/nhasix/kuron_native/kuron_native/download/DownloadWorker.kt:264 | the result has distinct keys and each key maps to the value of its last pair |
| Cookies.ToMapDistinct | packages/kuron_native/android/src/main/kotlin/id/nhasix/kuron_native/kuron_native/download/DownloadWorker.kt:264 | pairs with distinct keys come out of `toMap` unchanged, in order |
| Cookies.EntryTexts | packages/kuron_native/android/src/main/kotlin/id/nhasix/kuron_native/kuron_native/download/NativeDownloadManager.kt:28-29 | one `"k":"v"` text per map entry, in iteration order |
| Cookies.Serialize | packages/kuron_native/android/src/main/kotlin/id/nhasix/kuron_native/kuron_native/download/NativeDownloadManager.kt:27-31 | a null map gives null; otherwise the text is braced, and the empty map gives `{}` |
| Cookies.ParseEntry | packages/kuron_native/android/src/main/kotlin/id/nhasix/kuron_native/kuron_native/download/DownloadWorker.kt:257-262 | an entry yields a pair exactly when it splits on `:` into two parts |
| Cookies.ParseEntries | packages/kuron_native/android/src/main/kotlin/id/nhasix/kuron_native/kuron_native/download/DownloadWorker.kt:255-263 | unparseable entries are dropped, so there are never more pairs than entries |
| Cookies.ParseCookies | packages/kuron_native/android/src/main/kotlin/id/nhasix/kuron_native/kuron_native/download/DownloadWorker.kt:247-272 | a null or blank text gives null, and a parsed map has distinct keys |
| Cookies.UnquoteQuoted | packages/kuron_native/android/src/main/kotlin/id/nhasix/kuron_native/kuron_native/download/DownloadWorker.kt:259-260 | removing the surrounding quotes undoes quoting |
| Cookies.ParseEntryText | packages/kuron_native/android/src/main/kotlin/id/nhasix/kuron_native/kuron_native/download/DownloadWorker.kt:257-261 | an entry written by the manager parses back to its key and value when neither holds `:` |
| Cookies.ParseEntryTexts | packages/kuron_native/android/src/main/kotlin/id/nhasix/kuron_native/kuron_native/download/DownloadWorker.kt:255-263 | the manager's entry texts parse back to the same pairs for keys and values without `,` or `:` |
| Cookies.RoundTrip | packages/kuron_native/android/src/main/kotlin/id/nhasix/kuron_native/kuron_native/download/DownloadWorker.kt:247-272 | parsing what the manager serialised gives back every non-empty map with distinct keys whose keys and values hold no `,` or `:` |
| Cookies.EmptyRoundTrip | packages/kuron_native/android/src/main/kotlin/id/nhasix/kuron_native/kuron_native/download/DownloadWorker.kt:248-253 | the empty map serialises to `{}`, which parses back to null |
| Cookies.InstalledJar | packages/kuron_native/android/src/main/kotlin/id/nhasix/kuron_native/kuron_native/download/DownloadWorker.kt:55-66 | a jar is installed exactly when the parsed map is present and non-empty, and it holds that map |
| Cookies.CookiesFor | packages/kuron_native/android/src/main/kotlin/id/nhasix/kuron_native/kuron_native/download/DownloadWorker.kt:292-298 | one cookie per map entry with its name and value, scoped to the request host and path `/` |
| Cookies.LoadForRequestAsWritten | packages/kuron_native/android/src/main/kotlin/id/nhasix/kuron_native/kuron_native/download/DownloadWorker.kt:284-302 | a host not ending in `crotpedia.com` gets no cookies; any other host gets one per entry |
| Cookies.LoadForRequest | packages/kuron_native/android/src/main/kotlin/id/nhasix/kuron_native/kuron_native/download/DownloadWorker.kt:284-302 | the corrected half of the cookie-jar finding: cookies go only to `crotpedia.com` or its subdomains, one per entry; the worker itself runs the suffix test of Cookies.LoadForRequestAsWritten |
| Cookies.RequestCookies | packages/kuron_native/android/src/main/kotlin/id/nhasix/kuron_native/kuron_native/download/DownloadWorker.kt:54-66 | without an installed jar a request carries no cookies; with one, the written jar gives one cookie per entry to every host ending in `crotpedia.com` and none to any other host |
| Cookies.SuffixTestLeaks | packages/kuron_native/android/src/main/kotlin/id/nhasix/kuron_native/kuron_native/download/DownloadWorker.kt:286 | `evilcrotpedia.com` is outside the domain, yet the suffix test hands it every cookie |
| Cookies.CorrectedNarrowsSuffixTest | packages/kuron_native/android/src/main/kotlin/id/nhasix/kuron_native/kuron_native/download/DownloadWorker.kt:286 | every host the corrected filter serves also passes the suffix test, and it receives the same cookies |
| Cookies.InstalledJarLeaks | packages/kuron_native/android/src/main/kotlin/id/nhasix/kuron_native/kuron_native/download/DownloadWorker.kt:284-290 | a worker with any installed jar sends every one of its cookies to `evilcrotpedia.com` |
| DownloadManager.ContentTagInjective | packages/kuron_native/android/src/main/kotlin/id/nhasix/kuron_native/kuron_native/download/NativeDownloadManager.kt:49-60 | distinct content ids have distinct `content_<id>` tags and unique-work names |
| DownloadManager.WithOptional | packages/kuron_native/android/src/main/kotlin/id/nhasix/kuron_native/kuron_native/download/NativeDownloadManager.kt:39 | a null cookie string leaves the key out of the work data; a present one is stored under it |
| DownloadManager.InputDataReadBack | packages/kuron_native/android/src/main/kotlin/id/nhasix/kuron_native/kuron_native/download/NativeDownloadManager.kt:33-45 | the worker reads back exactly the queued content id, source, URL list, destination, serialised cookies and metadata, and no URL file |
| DownloadManager.QueueDownload | packages/kuron_native/android/src/main/kotlin/id/nhasix/kuron_native/kuron_native/download/NativeDownloadManager.kt:33-64 | returns the new request's id and ends the registry with it, tagged `content_<id>` and `native_download`, unique under `content_<id>`, carrying the queued input and no progress; the prune can only shrink what comes before it |
| DownloadManager.QueueLeavesSingleActive | packages/kuron_native/android/src/main/kotlin/id/nhasix/kuron_native/kuron_native/download/NativeDownloadManager.kt:53-63 | after queueing, the new ENQUEUED request is the only work tagged for the content; every earlier work left is either unchanged and unfinished from before, or was cancelled by REPLACE for sharing the unique name; every unfinished work of another content outside that name survives |
| DownloadManager.PriorWorkOrigin | packages/kuron_native/android/src/main/kotlin/id/nhasix/kuron_native/kuron_native/download/NativeDownloadManager.kt:53-63 | each work before the new request is an unfinished work of the old registry without the content tag, with the same id and tags, unchanged unless REPLACE cancelled it |
| DownloadManager.QueuePrunesOtherFinished | packages/kuron_native/android/src/main/kotlin/id/nhasix/kuron_native/kuron_native/download/NativeDownloadManager.kt:56 | queueing one content drops the finished works of every other, so a content whose works had all finished has none left and reports null |
| DownloadManager.RequeueThenPauseCancelled | packages/kuron_native/android/src/main/kotlin/id/nhasix/kuron_native/kuron_native/download/NativeDownloadManager.kt:53-75 | a re-queue followed by a pause reports CANCELLED with 0 of 0: an earlier SUCCEEDED work no longer decides the status |
| DownloadManager.PauseAfterQueue | packages/kuron_native/android/src/main/kotlin/id/nhasix/kuron_native/kuron_native/download/NativeDownloadManager.kt:53-75 | after a re-queue and a pause, the content tag finds exactly the new request, cancelled |
| Work.Prune | packages/kuron_native/android/src/main/kotlin/id/nhasix/kuron_native/kuron_native/download/NativeDownloadManager.kt:56 | the works left are exactly the unfinished ones, never more than before |
| Work.PruneKeepsActive | packages/kuron_native/android/src/main/kotlin/id/nhasix/kuron_native/kuron_native/download/NativeDownloadManager.kt:56 | with nothing finished the prune changes nothing, and pruning twice is pruning once |
| DownloadManager.CancelDownload | packages/kuron_native/android/src/main/kotlin/id/nhasix/kuron_native/kuron_native/download/NativeDownloadManager.kt:67-69 | every unfinished work tagged for the content becomes cancelled, finished ones stay, and other works are unchanged |
| DownloadManager.PauseDownload | packages/kuron_native/android/src/main/kotlin/id/nhasix/kuron_native/kuron_native/download/NativeDownloadManager.kt:71-75 | every work tagged for the content is cancelled or already finished afterwards |
| DownloadManager.PauseIsCancel | packages/kuron_native/android/src/main/kotlin/id/nhasix/kuron_native/kuron_native/download/NativeDownloadManager.kt:71-75 | pausing has exactly the effect of cancelling |
| DownloadManager.AppQueueDownload | android/app/src/main/kotlin/id/nhasix/app/download/NativeDownloadManager.kt:29-46 | the app enqueues plainly: the registry gains the tagged request at its end with no unique name, and nothing is cancelled |
| DownloadManager.AppQueueTwiceCoexists | android/app/src/main/kotlin/id/nhasix/app/download/NativeDownloadManager.kt:45 | queueing the same content twice in the app leaves two unfinished works for it |
| DownloadManager.ByTagAppend | packages/kuron_native/android/src/main/kotlin/id/nhasix/kuron_native/kuron_native/download/NativeDownloadManager.kt:80-82 | the tag lookup distributes over appending works |
| DownloadManager.StatusName | packages/kuron_native/android/src/main/kotlin/id/nhasix/kuron_native/kuron_native/download/NativeDownloadManager.kt:91-98 | the state mapping is total, and each reported name comes from exactly the states that map to it |
| DownloadManager.FirstInState | packages/kuron_native/android/src/main/kotlin/id/nhasix/kuron_native/kuron_native/download/NativeDownloadManager.kt:85-88 | the index found is the first work in the given state, and None means no work is in it |
| DownloadManager.SelectByPriority | packages/kuron_native/android/src/main/kotlin/id/nhasix/kuron_native/kuron_native/download/NativeDownloadManager.kt:85-89 | nothing is selected exactly when the list is empty; otherwise the index is in range |
| DownloadManager.SelectionIsFirstOfBestRank | packages/kuron_native/android/src/main/kotlin/id/nhasix/kuron_native/kuron_native/download/NativeDownloadManager.kt:84-89 | the selected work has the best rank present (RUNNING, then ENQUEUED, SUCCEEDED, FAILED, the rest) and no earlier work has that rank |
| DownloadManager.GetDownloadStatus | packages/kuron_native/android/src/main/kotlin/id/nhasix/kuron_native/kuron_native/download/NativeDownloadManager.kt:77-113 | a failed query or an empty list gives null, and a report echoes the queried content id |
| DownloadManager.AppGetDownloadStatus | android/app/src/main/kotlin/id/nhasix/app/download/NativeDownloadManager.kt:59-90 | a failed query or an empty list gives null, and a report echoes the queried content id |
| DownloadManager.StatusCountsFromProgress | packages/kuron_native/android/src/main/kotlin/id/nhasix/kuron_native/kuron_native/download/NativeDownloadManager.kt:100-109 | counts come from the progress bag even for a finished work, so an empty bag reads 0 of 0; the app reports a single work the same way |
| DownloadManager.SelectsOnlyActive | packages/kuron_native/android/src/main/kotlin/id/nhasix/kuron_native/kuron_native/download/NativeDownloadManager.kt:85-86 | with one ENQUEUED work and every other one finished, that work is selected |
| DownloadManager.StatusAfterQueue | packages/kuron_native/android/src/main/kotlin/id/nhasix/kuron_native/kuron_native/download/NativeDownloadManager.kt:53-89 | right after a queue the content's status is PENDING with 0 of 0, however many older works it had |
| DownloadManager.StatusAfterPause | packages/kuron_native/android/src/main/kotlin/id/nhasix/kuron_native/kuron_native/download/NativeDownloadManager.kt:71-98 | after a pause the content is never reported RUNNING or PENDING |
| DownloadManager.AppStatusMayBeStale | android/app/src/main/kotlin/id/nhasix/app/download/NativeDownloadManager.kt:66 | with an older SUCCEEDED work listed before a new ENQUEUED one, the app reports COMPLETED while the plugin reports PENDING |
| DownloadHandler.EventStatus | packages/kuron_native/android/src/main/kotlin/id/nhasix/kuron_native/kuron_native/download/DownloadHandler.kt:63-68 | RUNNING, SUCCEEDED and FAILED map to RUNNING, COMPLETED and FAILED; every other state, CANCELLED included, to PENDING, and each name comes only from those states |
| DownloadHandler.ContentIdOf | packages/kuron_native/android/src/main/kotlin/id/nhasix/kuron_native/kuron_native/download/DownloadHandler.kt:59-60 | a content id is found exactly when progress or output carries one, and progress wins |
| DownloadHandler.EventFor | packages/kuron_native/android/src/main/kotlin/id/nhasix/kuron_native/kuron_native/download/DownloadHandler.kt:58-91 | an item yields an event exactly when it carries a content id and has a positive total or has succeeded; counts come from the output of a succeeded work and from progress otherwise |
| DownloadHandler.Events | packages/kuron_native/android/src/main/kotlin/id/nhasix/kuron_native/kuron_native/download/DownloadHandler.kt:55-95 | an update yields at most one event per work item |
| DownloadHandler.EventsAppend | packages/kuron_native/android/src/main/kotlin/id/nhasix/kuron_native/kuron_native/download/DownloadHandler.kt:57-95 | each item is judged on its own: events of a concatenation are the concatenated events, so nothing is deduplicated |
| DownloadHandler.EventsMembership | packages/kuron_native/android/src/main/kotlin/id/nhasix/kuron_native/kuron_native/download/DownloadHandler.kt:57-95 | an event is in an update's events exactly when some item's own filter yields it |
| DownloadHandler.RunningProgressEmitted | packages/kuron_native/android/src/main/kotlin/id/nhasix/kuron_native/kuron_native/download/DownloadHandler.kt:58-84 | a running worker's progress report with a positive total reaches the stream as a RUNNING event with its counts and content id |
| DownloadHandler.SucceededOutputEmitted | packages/kuron_native/android/src/main/kotlin/id/nhasix/kuron_native/kuron_native/download/DownloadHandler.kt:58-84 | a succeeded worker reaches the stream as COMPLETED with N of N pages, read from its output |
| DownloadHandler.QueuedWorkSilent | packages/kuron_native/android/src/main/kotlin/id/nhasix/kuron_native/kuron_native/download/DownloadHandler.kt:59-94 | a queued work with no progress or output yields no event |
| DownloadHandler.Bases | packages/kuron_native/android/src/main/kotlin/id/nhasix/kuron_native/kuron_native/download/DownloadHandler.kt:288-299 | the roots searched end with public Downloads and start with the custom root when one is set |
| DownloadHandler.FirstExisting | packages/kuron_native/android/src/main/kotlin/id/nhasix/kuron_native/kuron_native/download/DownloadHandler.kt:304-336 | the result exists and is the first existing candidate; None exactly when no candidate exists |
| DownloadHandler.FirstExistingAppend | packages/kuron_native/android/src/main/kotlin/id/nhasix/kuron_native/kuron_native/download/DownloadHandler.kt:304-336 | searching a concatenation is searching the first part, then the second |
| DownloadHandler.SourceMatchIsFirstExisting | packages/kuron_native/android/src/main/kotlin/id/nhasix/kuron_native/kuron_native/download/DownloadHandler.kt:311-319 | the per-source loop returns the first existing `nhasix/<source>/<id>` over listed source directories |
| DownloadHandler.SearchBaseIsFirstExisting | packages/kuron_native/android/src/main/kotlin/id/nhasix/kuron_native/kuron_native/download/DownloadHandler.kt:305-335 | one root tries the source layout, then `nhasix/<id>`, then `<root>/<id>`, returning the first that exists |
| DownloadHandler.SearchBasesIsFirstExisting | packages/kuron_native/android/src/main/kotlin/id/nhasix/kuron_native/kuron_native/download/DownloadHandler.kt:304-336 | the roots are searched in order, and the first hit over all their candidates wins |
| DownloadHandler.FindIsFirstExisting | packages/kuron_native/android/src/main/kotlin/id/nhasix/kuron_native/kuron_native/download/DownloadHandler.kt:287-340 | the search returns the first existing candidate, and null exactly when none exists |
| DownloadHandler.WorkerDefaultLayoutFound | packages/kuron_native/android/src/main/kotlin/id/nhasix/kuron_native/kuron_native/download/DownloadHandler.kt:304-319 | a content directory under a listed `Downloads/nhasix/<source>/` is always found |
| DownloadHandler.JpgFiles | packages/kuron_native/android/src/main/kotlin/id/nhasix/kuron_native/kuron_native/download/DownloadHandler.kt:281 | keeps exactly the listed names that are regular files with extension `jpg`, with their multiplicities |
| DownloadHandler.DownloadedFiles | packages/kuron_native/android/src/main/kotlin/id/nhasix/kuron_native/kuron_native/download/DownloadHandler.kt:276-285 | an unfound content gives the empty list; otherwise one absolute path under `images` per sorted name |
| DownloadHandler.DownloadedNamesSpec | packages/kuron_native/android/src/main/kotlin/id/nhasix/kuron_native/kuron_native/download/DownloadHandler.kt:278-284 | the names are sorted and are exactly the jpg regular files listed in `images`, or empty when `images` is missing |
| DownloadHandler.CountFiles | packages/kuron_native/android/src/main/kotlin/id/nhasix/kuron_native/kuron_native/download/DownloadHandler.kt:379-382 | the count is the length of the files list, and 0 for unfound content |
| DownloadHandler.Pad3Order | packages/kuron_native/android/src/main/kotlin/id/nhasix/kuron_native/kuron_native/download/DownloadHandler.kt:282 | three-digit padded numbers followed by a common suffix compare as the numbers do |
| DownloadHandler.PageNamesSortInPageOrder | packages/kuron_native/android/src/main/kotlin/id/nhasix/kuron_native/kuron_native/download/DownloadHandler.kt:282 | below 999 pages, name order of page files is page order |
| DownloadHandler.PageOrderBreaksPast999 | packages/kuron_native/android/src/main/kotlin/id/nhasix/kuron_native/kuron_native/download/DownloadHandler.kt:282 | the file of page 1000 (index 999) sorts before the file of page 101 (index 100), so name order stops being page order past 999 pages |
| DownloadHandler.SortedUnique | packages/kuron_native/android/src/main/kotlin/id/nhasix/kuron_native/kuron_native/download/DownloadHandler.kt:282 | a sorted arrangement of a multiset of names is unique, so sorting fixes the order whatever the listing order |
| DownloadHandler.PageNames | packages/kuron_native/android/src/main/kotlin/id/nhasix/kuron_native/kuron_native/download/DownloadHandler.kt:282 | the names the worker gives N pages, in page order |
| DownloadHandler.PageNamesSorted | packages/kuron_native/android/src/main/kotlin/id/nhasix/kuron_native/kuron_native/download/DownloadHandler.kt:282 | up to 999 pages, the worker's names in page order are sorted |
| DownloadHandler.JpgFilterKeepsPages | packages/kuron_native/android/src/main/kotlin/id/nhasix/kuron_native/kuron_native/download/DownloadHandler.kt:281 | the jpg filter keeps every page file of a listing that holds exactly the worker's pages |
| DownloadHandler.ListedPagesInPageOrder | packages/kuron_native/android/src/main/kotlin/id/nhasix/kuron_native/kuron_native/download/DownloadHandler.kt:276-285 | a found content whose `images` holds exactly the worker's page files, listed in any order, is reported in page order, up to 999 pages |
| DownloadHandler.DeleteContent | packages/kuron_native/android/src/main/kotlin/id/nhasix/kuron_native/kuron_native/download/DownloadHandler.kt:350-377 | unfound content changes nothing; otherwise only paths under the content directory can go, and every kept path keeps its node |
| DownloadHandler.DeleteRemovesAll | packages/kuron_native/android/src/main/kotlin/id/nhasix/kuron_native/kuron_native/download/DownloadHandler.kt:360-376 | when every path under the content directory may be deleted, nothing of it remains |
| DownloadHandler.NoSecondChance | packages/kuron_native/android/src/main/kotlin/id/nhasix/kuron_native/kuron_native/download/DownloadHandler.kt:368-376 | after the recursive pass, deleting any path under the directory again changes nothing |
| DownloadHandler.CleanupAddsNothing | packages/kuron_native/android/src/main/kotlin/id/nhasix/kuron_native/kuron_native/download/DownloadHandler.kt:360-376 | with a fixed answer to what may be deleted, the itemised cleanup removes nothing beyond the recursive delete |
| DownloadHandler.StartRequest | packages/kuron_native/android/src/main/kotlin/id/nhasix/kuron_native/kuron_native/download/DownloadHandler.kt:118-135 | a request exists exactly when contentId, imageUrls and destinationPath are present; it carries them and the defaults `unknown`, `Unknown`, empty, empty, `unknown` |
| DownloadHandler.StartDownloadReply | packages/kuron_native/android/src/main/kotlin/id/nhasix/kuron_native/kuron_native/download/DownloadHandler.kt:118-153 | start answers DOWNLOAD_ERROR exactly when a required argument is missing or the enqueue throws, and then changes nothing; otherwise it queues and returns the new request id |
| DownloadHandler.ContentIdRequired | packages/kuron_native/android/src/main/kotlin/id/nhasix/kuron_native/kuron_native/download/DownloadHandler.kt:156-273 | every other known call answers INVALID_ARGUMENT exactly when contentId is missing, and then changes nothing |
| DownloadHandler.UnknownMethodNotImplemented | packages/kuron_native/android/src/main/kotlin/id/nhasix/kuron_native/kuron_native/download/DownloadHandler.kt:104-116 | an unknown method is answered not-implemented and changes nothing |
| DownloadHandler.QueriesChangeNothing | packages/kuron_native/android/src/main/kotlin/id/nhasix/kuron_native/kuron_native/download/DownloadHandler.kt:156-231 | the status, files, path and count queries leave the registry and storage unchanged |
| DownloadHandler.StorageFaultReply | packages/kuron_native/android/src/main/kotlin/id/nhasix/kuron_native/kuron_native/download/DownloadHandler.kt:191-273 | with a content id, the files, path, delete and count calls answer an error exactly when their storage work throws, each with its own code (GET_FILES_ERROR, GET_PATH_ERROR, DELETE_ERROR, COUNT_ERROR), and an error changes nothing |
| DownloadHandler.CountMatchesFiles | packages/kuron_native/android/src/main/kotlin/id/nhasix/kuron_native/kuron_native/download/DownloadHandler.kt:191-273 | when storage access does not throw, the count reply is the length of the files reply; when it throws, they answer GET_FILES_ERROR and COUNT_ERROR |
| AppDownload.AppPageFileName | android/app/src/main/kotlin/id/nhasix/app/download/DownloadWorker.kt:102 | the app's name for index i ends in `.jpg` and its stem is the unpadded decimal i+1 |
| AppDownload.AppPageFileNameInjective | android/app/src/main/kotlin/id/nhasix/app/download/DownloadWorker.kt:102-103 | distinct indices give distinct file names |
| AppDownload.AppPagePaths | android/app/src/main/kotlin/id/nhasix/app/download/DownloadWorker.kt:99-103 | one path per URL directly in the content directory, the k-th named k+1 `.jpg`, all distinct |
| AppDownload.AppDownloadDirectory | android/app/src/main/kotlin/id/nhasix/app/download/DownloadWorker.kt:122-131 | a non-empty destinationPath is used as `File` normalises it (the same path when it is already normal), else Downloads/nhasix/sourceId/contentId |
| AppDownload.AppFailureIffMissingInput | android/app/src/main/kotlin/id/nhasix/app/download/DownloadWorker.kt:57-60 | the app worker fails exactly when content_id or the URL array is missing, and then writes nothing |
| AppDownload.AppSuccessOutcome | android/app/src/main/kotlin/id/nhasix/app/download/DownloadWorker.kt:71-120 | on success every page file exists in the content directory and the output holds only downloadedCount = N |
| AppDownload.AppProgressReports | android/app/src/main/kotlin/id/nhasix/app/download/DownloadWorker.kt:110-116 | report k says k+1 of N with a percentage in 0..100 that is 100 exactly at the last index, carries the id under `content_id` and nothing under `contentId` |
| AppDownload.AppProgressDataFields | android/app/src/main/kotlin/id/nhasix/app/download/DownloadWorker.kt:111-116 | the app's progress bag holds percentage, counts and content id, no byte counter, and no `contentId` key |
| AppDownload.AppEventsAsWrittenEmpty | android/app/src/main/kotlin/id/nhasix/app/download/DownloadMethodChannel.kt:55-59 | the stream as written yields nothing for works whose bags the app worker wrote |
| AppDownload.AppStreamSilentAsWritten | android/app/src/main/kotlin/id/nhasix/app/download/DownloadMethodChannel.kt:55-81 | as written, no update of the app worker's works ever yields an event |
| AppDownload.AppStreamSilentExample | android/app/src/main/kotlin/id/nhasix/app/download/DownloadMethodChannel.kt:55-81 | a running work reporting page 1 of 10 yields no event as written, and one RUNNING event once the id is read under `content_id` |
| AppDownload.AppRunningProgressEmitted | android/app/src/main/kotlin/id/nhasix/app/download/DownloadMethodChannel.kt:55-81 | corrected, each running report of the app worker with a positive total reaches the stream with its counts |
| AppDownload.AppCompletionUnseen | android/app/src/main/kotlin/id/nhasix/app/download/DownloadMethodChannel.kt:56-59 | even corrected, a succeeded app work yields no COMPLETED event, since its output carries no content id |
| AppDownload.AppHandleMethodCall | android/app/src/main/kotlin/id/nhasix/app/download/DownloadMethodChannel.kt:91-161 | an unknown method is not implemented; start answers DOWNLOAD_ERROR when the enqueue throws; status, cancel and pause answer INVALID_ARGUMENT exactly when contentId is missing; an error changes nothing |
| AppDownload.AppStartLikePlugin | android/app/src/main/kotlin/id/nhasix/app/download/DownloadMethodChannel.kt:136-161 | the app's start answers as the plugin's does; on success it appends one work and keeps every earlier one, while the plugin's registry is no longer, and both end with a request of the same id |
| PdfWorker.Chunked | android/app/src/main/kotlin/id/nhasix/app/pdf/PdfGeneratorWorker.kt:51 | the parts concatenate to the input, each is non-empty and at most the part size, all but the last have exactly that size, and there are ceil(n / size) of them |
| PdfWorker.PartFileName | android/app/src/main/kotlin/id/nhasix/app/pdf/PdfGeneratorWorker.kt:85 | a single part is named `<id>.pdf`; every name starts with the id and ends in `.pdf` |
| PdfWorker.PartFileNamesDistinct | android/app/src/main/kotlin/id/nhasix/app/pdf/PdfGeneratorWorker.kt:85 | distinct parts of one run get distinct file names |
| PdfWorker.PartPages | android/app/src/main/kotlin/id/nhasix/app/pdf/PdfGeneratorWorker.kt:96-121 | the pages of a part are numbered by the image's index in the part plus one, increasing, and are exactly its decodable images |
| PdfWorker.PartPathsDistinct | android/app/src/main/kotlin/id/nhasix/app/pdf/PdfGeneratorWorker.kt:80-86 | distinct parts of one run get distinct paths in `pdf/<id>` |
| PdfWorker.FirstHalt | android/app/src/main/kotlin/id/nhasix/app/pdf/PdfGeneratorWorker.kt:54-62 | the first part at which the loop ends, because the stop flag is up at its start or writing its file throws; no earlier part did either |
| PdfWorker.WritePdfs | android/app/src/main/kotlin/id/nhasix/app/pdf/PdfGeneratorWorker.kt:54-125 | writing parts keeps every file that was already there |
| PdfWorker.WritePdfsKeeps | android/app/src/main/kotlin/id/nhasix/app/pdf/PdfGeneratorWorker.kt:54-63 | a part written earlier in the run is not touched again |
| PdfWorker.WritePdfsContents | android/app/src/main/kotlin/id/nhasix/app/pdf/PdfGeneratorWorker.kt:88-125 | after the loop, each written part's file holds exactly its chunk's decodable pages, whatever was there before |
| PdfWorker.WritePdfsFrame | android/app/src/main/kotlin/id/nhasix/app/pdf/PdfGeneratorWorker.kt:86-91 | files whose names are not part names written in this run are left alone |
| PdfWorker.PartProgress | android/app/src/main/kotlin/id/nhasix/app/pdf/PdfGeneratorWorker.kt:66-67 | one report per written part, the k-th being k * 100 / parts |
| PdfWorker.RunParts | android/app/src/main/kotlin/id/nhasix/app/pdf/PdfGeneratorWorker.kt:37-70 | the loop writes exactly the parts before the first halt; it fails exactly when it halts, with `Worker stopped` for a stop and the exception message for a write that threw, and the failed part leaves no file |
| PdfWorker.FailureCases | android/app/src/main/kotlin/id/nhasix/app/pdf/PdfGeneratorWorker.kt:28-43 | failure without data exactly when the content id or image list is missing; otherwise failure with an error exactly when the part size is not positive, the worker is stopped before some part, or writing some part throws, and the error names the first cause the loop meets |
| PdfWorker.StoppedRunFrame | android/app/src/main/kotlin/id/nhasix/app/pdf/PdfGeneratorWorker.kt:54-91 | a run that halts leaves every file other than its written parts as it was, except the file of a part whose write threw, which is gone |
| PdfWorker.RunPartsSuccess | android/app/src/main/kotlin/id/nhasix/app/pdf/PdfGeneratorWorker.kt:50-70 | a completed loop gives one path per part, in part order, each holding its part's decodable pages |
| PdfWorker.SuccessParts | android/app/src/main/kotlin/id/nhasix/app/pdf/PdfGeneratorWorker.kt:28-70 | on success both inputs were present with a positive part size, and the result lists one path per part, each named after its part and holding exactly its pages |
| PdfWorker.ProgressSchedule | android/app/src/main/kotlin/id/nhasix/app/pdf/PdfGeneratorWorker.kt:34-67 | progress starts at 0, stays in 0..100, never decreases, and a successful run over a non-empty list ends at 100 |
| PdfGenerator.SplitFrom | android/app/src/main/kotlin/id/nhasix/app/pdf/NativePdfGenerator.kt:270-293 | strip k starts at row y + k * max below the height, is min(max, height - offset) rows tall, and was not cut short by out-of-memory |
| PdfGenerator.SplitCovers | android/app/src/main/kotlin/id/nhasix/app/pdf/NativePdfGenerator.kt:270-293 | without out-of-memory the strips cover the rows exactly: their heights sum to the height and there are ceil(height / max) of them; the plugin's own `splitBitmap` is the same split |
| PdfGenerator.SplitOomPrefix | android/app/src/main/kotlin/id/nhasix/app/pdf/NativePdfGenerator.kt:279-287 | running out of memory only truncates: the strips cut are a prefix of the full split |
| PdfGenerator.Bitmaps | android/app/src/main/kotlin/id/nhasix/app/pdf/NativePdfGenerator.kt:105-126 | an image that is not webtoon-shaped is offered whole; a webtoon one is offered as its strips at full width |
| PdfGenerator.BitmapsCoverImage | android/app/src/main/kotlin/id/nhasix/app/pdf/NativePdfGenerator.kt:29-126 | without out-of-memory an image's bitmaps carry its whole height, and a webtoon gives ceil(height / 3000) of them; the plugin's webtoon test and split are the same |
| PdfGenerator.AddPages | android/app/src/main/kotlin/id/nhasix/app/pdf/NativePdfGenerator.kt:310-339 | pages already in the document stay; a bitmap that reaches `startPage` adds one page numbered by the count of drawn pages before it, whether or not its drawing then fails; at most one page per bitmap |
| PdfGenerator.ImagePages | android/app/src/main/kotlin/id/nhasix/app/pdf/NativePdfGenerator.kt:94-143 | the image pass only appends pages, each numbered by the count of drawn pages before it, and all drawn when no drawing fails |
| PdfGenerator.AddAllPages | android/app/src/main/kotlin/id/nhasix/app/pdf/NativePdfGenerator.kt:114-125 | when every page is added, one page per bitmap is added carrying the bitmaps' heights |
| PdfGenerator.NothingLost | android/app/src/main/kotlin/id/nhasix/app/pdf/NativePdfGenerator.kt:94-143 | with no out-of-memory and every page added, the pages are exactly as tall in total as the decoded images |
| PdfGenerator.RefusedPagesUncounted | android/app/src/main/kotlin/id/nhasix/app/pdf/NativePdfGenerator.kt:310-339 | the document grows by the bitmaps that reached `startPage`, while the page count grows by the bitmaps added without error only |
| PdfGenerator.Reports | android/app/src/main/kotlin/id/nhasix/app/pdf/NativePdfGenerator.kt:131-137 | reports come in image order, only for processed images that are every fifth or the last, each with (index + 1) * 90 / size |
| PdfGenerator.ReportsComplete | android/app/src/main/kotlin/id/nhasix/app/pdf/NativePdfGenerator.kt:131-137 | every processed image that is every fifth or the last does report |
| PdfGenerator.ScaledProgress | android/app/src/main/kotlin/id/nhasix/app/pdf/NativePdfGenerator.kt:135 | (index + 1) * 90 / size lies in 0..90, grows with the index and is 90 at the last image |
| PdfGenerator.ReportsScaled | android/app/src/main/kotlin/id/nhasix/app/pdf/NativePdfGenerator.kt:131-137 | the image pass's reports lie in 0..90 and never decrease |
| PdfGenerator.ProgressCallbacks | android/app/src/main/kotlin/id/nhasix/app/pdf/NativePdfGenerator.kt:136 | one progress callback per report with its percentage |
| PdfGenerator.ProgressTrace | android/app/src/main/kotlin/id/nhasix/app/pdf/NativePdfGenerator.kt:131-193 | reports within 0..90 that never decrease, followed by 92 and a terminal callback, form a trace whose progress never decreases |
| PdfGenerator.GenerateShape | android/app/src/main/kotlin/id/nhasix/app/pdf/NativePdfGenerator.kt:76-196 | the callbacks are the image-pass reports, then 92, then one terminal callback for the pages added |
| PdfGenerator.GenerateProgress | android/app/src/main/kotlin/id/nhasix/app/pdf/NativePdfGenerator.kt:131-152 | progress never decreases, is at most 90 during the image pass, then 92, then exactly one terminal callback |
| PdfGenerator.GenerateEnd | android/app/src/main/kotlin/id/nhasix/app/pdf/NativePdfGenerator.kt:178-196 | completion comes exactly when the write succeeds, carries the number of drawn pages (at most the document's pages) and keeps the file; an error carries the failure prefix and the file is removed; every page carries the count of drawn pages before it |
| PdfGenerator.GenerateInOrder | android/app/src/main/kotlin/id/nhasix/app/pdf/NativePdfGenerator.kt:94-196 | when no drawing fails, every page is drawn, pages are numbered 0, 1, 2 in the order added, and completion counts every page of the document |
| PdfGenerator.DrawFailureReusesNumber | android/app/src/main/kotlin/id/nhasix/app/pdf/NativePdfGenerator.kt:310-339 | a bitmap whose drawing fails after `startPage` leaves an uncounted blank page, and the next bitmap is given the same page number |
| PdfGenerator.ReportSchedule | android/app/src/main/kotlin/id/nhasix/app/pdf/NativePdfGenerator.kt:131-137 | image j reports exactly when it was processed and is every fifth or the last; a processed last image reports 90 |
| PdfGenerator.ReadFileSizeOf | android/app/src/main/kotlin/id/nhasix/app/pdf/NativePdfGenerator.kt:344-350 | a digit string, a space and a unit read back as the digits' value and the unit's scale |
| PdfGenerator.SizeBracket | android/app/src/main/kotlin/id/nhasix/app/pdf/NativePdfGenerator.kt:344-350 | the quotient by the chosen scale brackets the byte count and stays below 1024 unless in MB |
| PdfGenerator.FileSizeRoundTrip | android/app/src/main/kotlin/id/nhasix/app/pdf/NativePdfGenerator.kt:344-350 | the formatted size reads back as a value and scale with value * scale <= bytes < (value + 1) * scale, B exactly below 1 KiB and MB exactly from 1 MiB; the text is used only in the completion log line (NativePdfGenerator.kt:184) |
| Plugin.SubPath | packages/kuron_native/android/src/main/kotlin/id/nhasix/kuron_native/kuron_native/KuronNativePlugin.kt:142-154 | the destination below Downloads ends with the file name, is the file name alone exactly when no destinationDir is given, and otherwise starts with `destinationDir/` |
| Plugin.Headers | packages/kuron_native/android/src/main/kotlin/id/nhasix/kuron_native/kuron_native/KuronNativePlugin.kt:123-128 | a Cookie header exactly when a cookie is given and a User-Agent header exactly when a user agent is given, and no other headers |
| Plugin.ConvertEvents | packages/kuron_native/android/src/main/kotlin/id/nhasix/kuron_native/kuron_native/KuronNativePlugin.kt:195-235 | events come in image order, only for decoded images, each with percentage (index + 1) * 100 / total |
| Plugin.Decode | packages/kuron_native/android/src/main/kotlin/id/nhasix/kuron_native/kuron_native/KuronNativePlugin.kt:195-197 | one decoded image per path, in order |
| Plugin.UnknownMethodNotImplemented | packages/kuron_native/android/src/main/kotlin/id/nhasix/kuron_native/kuron_native/KuronNativePlugin.kt:70-101 | exactly the names outside the handled table are answered not-implemented, with no state change and no effect |
| Plugin.SlotKeptByCalls | packages/kuron_native/android/src/main/kotlin/id/nhasix/kuron_native/kuron_native/KuronNativePlugin.kt:444-617 | only login and the picker touch the slot, a filled slot is never overwritten or cleared by a call, and activity attachment is unchanged |
| Plugin.SlotFilledOnLaunch | packages/kuron_native/android/src/main/kotlin/id/nhasix/kuron_native/kuron_native/KuronNativePlugin.kt:459-616 | a call waits in the slot exactly when the slot was free, an activity is attached, the launch did not throw, and the call is the picker or a login with a URL |
| Plugin.BusyWhilePending | packages/kuron_native/android/src/main/kotlin/id/nhasix/kuron_native/kuron_native/KuronNativePlugin.kt:454-605 | with the slot taken, login with a URL answers BUSY; the picker answers BUSY with an activity and NO_ACTIVITY without one |
| Plugin.StartDownloadArgs | packages/kuron_native/android/src/main/kotlin/id/nhasix/kuron_native/kuron_native/KuronNativePlugin.kt:104-161 | INVALID_ARGS exactly without url or fileName; a request is made exactly on success, for the given URL at the sub-path, answered with the download id |
| Plugin.ConvertOutcome | packages/kuron_native/android/src/main/kotlin/id/nhasix/kuron_native/kuron_native/KuronNativePlugin.kt:176-262 | INVALID_ARGS exactly without list or output path; otherwise success exactly when no image threw and the write succeeded, reporting the path and the number of drawn pages |
| Plugin.ConvertEventsScaled | packages/kuron_native/android/src/main/kotlin/id/nhasix/kuron_native/kuron_native/KuronNativePlugin.kt:224 | the conversion's percentages lie in 0..100 and never decrease |
| Plugin.ConvertEventsComplete | packages/kuron_native/android/src/main/kotlin/id/nhasix/kuron_native/kuron_native/KuronNativePlugin.kt:195-235 | every decoded image before the first throw gets its event, so a decoded last image reports 100 |
| Plugin.ActivityResultHandling | packages/kuron_native/android/src/main/kotlin/id/nhasix/kuron_native/kuron_native/KuronNativePlugin.kt:491-559 | codes 1001 and 1002 are handled and leave the slot empty, answering whoever waited in it; any other code is not handled and changes nothing |
| Plugin.LoginResultSuccess | packages/kuron_native/android/src/main/kotlin/id/nhasix/kuron_native/kuron_native/KuronNativePlugin.kt:492-512 | the waiting login learns success exactly for RESULT_OK with data, and then gets the intent's cookies and user agent |
| Plugin.PrimaryPathRewrite | packages/kuron_native/android/src/main/kotlin/id/nhasix/kuron_native/kuron_native/KuronNativePlugin.kt:529-547 | a path with `primary:` becomes the storage root plus the text after its first `primary:` |
| Plugin.EncodedPathRewrite | packages/kuron_native/android/src/main/kotlin/id/nhasix/kuron_native/kuron_native/KuronNativePlugin.kt:532-547 | otherwise a `tree/` path holding `primary%3A` becomes the storage root plus the text after its first `primary%3A` |
| Plugin.OtherPathKept | packages/kuron_native/android/src/main/kotlin/id/nhasix/kuron_native/kuron_native/KuronNativePlugin.kt:529-547 | any other path is reported unchanged, and a null path falls back to the URI's string |
| Plugin.RewriteTreeNoOp | packages/kuron_native/android/src/main/kotlin/id/nhasix/kuron_native/kuron_native/KuronNativePlugin.kt:540-545 | the third rewrite never changes anything left by the first two |
| Plugin.GetSystemInfo | packages/kuron_native/android/src/main/kotlin/id/nhasix/kuron_native/kuron_native/KuronNativePlugin.kt:575-589 | the plugin state is untouched, and SYSTEM_INFO_FAILED is answered exactly for a known type whose platform query throws |
| Plugin.SystemInfoTypes | packages/kuron_native/android/src/main/kotlin/id/nhasix/kuron_native/kuron_native/KuronNativePlugin.kt:575-589 | INVALID_TYPE exactly for a type outside ram, storage and battery (a null type included), whatever the platform would do; success with that type's info exactly for a known type whose query does not throw |
| Channel.ArgString | packages/kuron_native/android/src/main/kotlin/id/nhasix/kuron_native/kuron_native/KuronNativePlugin.kt:106-113 | an argument reads as a string exactly when it is present and holds a string |
| Dns.ValueOf | android/app/src/main/kotlin/id/nhasix/app/network/DnsManager.kt:20-42 | the looked-up constant carries exactly the given name, and no constant is found only when none has that name |
| Dns.UpdateSettings | android/app/src/main/kotlin/id/nhasix/app/network/DnsManager.kt:40-49 | an unknown provider name resets the settings to SYSTEM, disabled |
| Dns.NamesRoundTrip | android/app/src/main/kotlin/id/nhasix/app/network/DnsManager.kt:20-29 | the four enum names are distinct and read back to their constants, and only SYSTEM has an empty DoH URL and no bootstrap addresses |
| Dns.CaseInsensitiveMatch | android/app/src/main/kotlin/id/nhasix/app/network/DnsManager.kt:40-43 | a provider name selects a provider exactly when it equals that provider's enum name up to ASCII case |
| Dns.LastUpdateWins | android/app/src/main/kotlin/id/nhasix/app/network/DnsManager.kt:40-49 | the settings after an update do not depend on the settings before it, and enabled settings come only from an enabled update naming that provider |
| Dns.UpdateExamples | android/app/src/test/kotlin/id/nhasix/app/network/DnsManagerTest.kt:42-160 | mixed-case names select their providers and an invalid name leaves SYSTEM disabled even when enabling was asked |
| Dns.CreateDnsChoice | android/app/src/main/kotlin/id/nhasix/app/network/DnsManager.kt:56-88 | DNS-over-HTTPS for the current provider exactly when enabled, not SYSTEM, and the client builds; the system resolver from the initial settings |
| Dns.SettingsReadBack | android/app/src/main/kotlin/id/nhasix/app/network/DnsManager.kt:111-117 | the settings map has exactly the keys provider, enabled and dohUrl, and they read back to the current provider, flag and URL |
| AdBlock.AdHostIffSubstring | packages/kuron_native/android/src/main/kotlin/id/nhasix/kuron_native/kuron_native/AdBlocker.kt:41-55 | a lower-cased host is an ad host exactly when some list entry is a substring of it, so the direct membership test adds nothing |
| AdBlock.NoHostNoAd | packages/kuron_native/android/src/main/kotlin/id/nhasix/kuron_native/kuron_native/AdBlocker.kt:42-44 | a null URL or a URL without a host is never an ad |
| AdBlock.CaseInsensitive | packages/kuron_native/android/src/main/kotlin/id/nhasix/kuron_native/kuron_native/AdBlocker.kt:44 | URLs whose hosts agree up to ASCII case get the same answer |
| AdBlock.KeywordFlags | packages/kuron_native/android/src/main/kotlin/id/nhasix/kuron_native/kuron_native/AdBlocker.kt:36-52 | a keyword entry flags every host that contains it |
| AdBlock.KeywordExample | packages/kuron_native/android/src/main/kotlin/id/nhasix/kuron_native/kuron_native/AdBlocker.kt:37-52 | `www.casino-royal.com` is flagged through the keyword `casino` |
| AdBlock.PathEntryNeverMatches | packages/kuron_native/android/src/main/kotlin/id/nhasix/kuron_native/kuron_native/AdBlocker.kt:34-52 | the entry `facebook.com/tr` holds a slash, so it never matches a host |
| WebView.CreateIntent | packages/kuron_native/android/src/main/kotlin/id/nhasix/kuron_native/kuron_native/WebViewActivity.kt:27-40 | the URL extra is always present |
| WebView.DomainFromUrl | packages/kuron_native/android/src/main/kotlin/id/nhasix/kuron_native/kuron_native/WebViewActivity.kt:110-117 | the domain is the URL's host when it has one and the URL itself otherwise |
| WebView.TrimmedPieces | packages/kuron_native/android/src/main/kotlin/id/nhasix/kuron_native/kuron_native/WebViewActivity.kt:74-149 | one trimmed piece per `;`-separated part of the string, in order |
| WebView.OnCreate | packages/kuron_native/android/src/main/kotlin/id/nhasix/kuron_native/kuron_native/WebViewActivity.kt:57-60 | the activity finishes without a result exactly when the URL extra is missing |
| WebView.CheckForSuccess | packages/kuron_native/android/src/main/kotlin/id/nhasix/kuron_native/kuron_native/WebViewActivity.kt:119-130 | success is triggered exactly for a non-null URL containing some filter |
| WebView.FinishWithSuccess | packages/kuron_native/android/src/main/kotlin/id/nhasix/kuron_native/kuron_native/WebViewActivity.kt:137-157 | the result is RESULT_OK with the web view's user agent, and carries a cookie list exactly when the store has cookies for the URL |
| WebView.Session | packages/kuron_native/android/src/main/kotlin/id/nhasix/kuron_native/kuron_native/WebViewActivity.kt:90-176 | a session that produces a result produces RESULT_OK |
| WebView.IntentRoundTrip | packages/kuron_native/android/src/main/kotlin/id/nhasix/kuron_native/kuron_native/WebViewActivity.kt:27-63 | the activity reads back the URL, user agent and filters that were put, an absent filter list as empty, and seeds no cookies without an initial cookie |
| WebView.MissingUrlFinishes | packages/kuron_native/android/src/main/kotlin/id/nhasix/kuron_native/kuron_native/WebViewActivity.kt:57-60 | without a URL extra the activity finishes with no result and sets no cookie |
| WebView.InitialCookiesSeeded | packages/kuron_native/android/src/main/kotlin/id/nhasix/kuron_native/kuron_native/WebViewActivity.kt:66-79 | the initial cookie string becomes one cookie per `;`-piece, trimmed and in order, each set for the URL's domain |
| WebView.NoInitialCookie | packages/kuron_native/android/src/main/kotlin/id/nhasix/kuron_native/kuron_native/WebViewActivity.kt:66 | without an initial cookie no cookie is set |
| WebView.NoFiltersNeverSucceed | packages/kuron_native/android/src/main/kotlin/id/nhasix/kuron_native/kuron_native/WebViewActivity.kt:119-130 | an empty filter list or a null URL never triggers success |
| WebView.PageEventFinishes | packages/kuron_native/android/src/main/kotlin/id/nhasix/kuron_native/kuron_native/WebViewActivity.kt:90-130 | a page start or finish ends the activity exactly when its URL matches a filter, with that URL's cookies |
| WebView.ManualCloseSucceeds | packages/kuron_native/android/src/main/kotlin/id/nhasix/kuron_native/kuron_native/WebViewActivity.kt:159-176 | home, or back without history, ends with RESULT_OK whatever the filters say, with cookies exactly when the store has some for the current URL; back with history only navigates |
| WebView.ResultCookiesRoundTrip | packages/kuron_native/android/src/main/kotlin/id/nhasix/kuron_native/kuron_native/WebViewActivity.kt:137-151 | a cookie header of `;`-joined parts comes back as those parts, each trimmed |
| WebView.ResultCookiesClean | packages/kuron_native/android/src/main/kotlin/id/nhasix/kuron_native/kuron_native/WebViewActivity.kt:148-151 | no returned cookie holds a `;` or begins or ends with whitespace |
| WebView.SessionFirstFinish | packages/kuron_native/android/src/main/kotlin/id/nhasix/kuron_native/kuron_native/WebViewActivity.kt:90-176 | a session has a result exactly when some event finishes the activity, and then the result is that of the first such event |
| CanonicalPath.Normalize | android/app/src/main/kotlin/id/nhasix/app/backup/BackupMethodChannel.kt:201-203 | resolving segments onto a clean stack leaves a clean stack: no empty, `.` or `..` segment survives |
| CanonicalPath.Segments | android/app/src/main/kotlin/id/nhasix/app/backup/BackupMethodChannel.kt:201-203 | the segments of a canonical path are clean |
| CanonicalPath.Canonical | android/app/src/main/kotlin/id/nhasix/app/backup/BackupMethodChannel.kt:203 | a canonical path is absolute, starting with the separator |
| CanonicalPath.NormalizeAppend | android/app/src/main/kotlin/id/nhasix/app/backup/BackupMethodChannel.kt:201-203 | resolving a concatenation resolves its halves one after the other |
| CanonicalPath.CleanChild | android/app/src/main/kotlin/id/nhasix/app/backup/BackupMethodChannel.kt:201 | a file named by a plain name lies exactly one segment below its directory |
| CanonicalPath.CanonicalInjective | android/app/src/main/kotlin/id/nhasix/app/backup/BackupMethodChannel.kt:203 | two paths have the same canonical form exactly when they resolve to the same segments |
| CanonicalPath.BelowIffPrefix | android/app/src/main/kotlin/id/nhasix/app/backup/BackupMethodChannel.kt:203 | one canonical form is the other or lies below it exactly when its segments extend the other's |
| Backup.GuardSegments | android/app/src/main/kotlin/id/nhasix/app/backup/BackupMethodChannel.kt:201-205 | the intended guard admits an entry exactly when its resolved segments extend the target's |
| Backup.GuardStricter | android/app/src/main/kotlin/id/nhasix/app/backup/BackupMethodChannel.kt:201-205 | whatever the intended guard admits, the guard as written admits too |
| Backup.CleanNameAdmitted | android/app/src/main/kotlin/id/nhasix/app/backup/BackupMethodChannel.kt:201-205 | a plain entry name is always admitted and lands one segment below the target |
| Backup.ZipSlipPrefixLeak | android/app/src/main/kotlin/id/nhasix/app/backup/BackupMethodChannel.kt:201-205 | the guard as written admits `../tx` into `/t` although its canonical path `/tx` is outside; the intended guard rejects it |
| Backup.UnzipEntries | android/app/src/main/kotlin/id/nhasix/app/backup/BackupMethodChannel.kt:197-218 | extraction only adds or overwrites the keys of the archive's entries and keeps the rest, and with the intended guard every new key lies below the target |
| Backup.Unzip | android/app/src/main/kotlin/id/nhasix/app/backup/BackupMethodChannel.kt:197-218 | everything the intended unzip adds lies below the target |
| Backup.UnzipAsWrittenEscapes | android/app/src/main/kotlin/id/nhasix/app/backup/BackupMethodChannel.kt:197-218 | with the written guard an archive holding `../tx` writes `/tx` outside `/t`; the intended unzip rejects it |
| Backup.UnzipPlainFiles | android/app/src/main/kotlin/id/nhasix/app/backup/BackupMethodChannel.kt:197-218 | under the written guard and the intended one alike, an archive of distinctly named plain files extracts each file to its own key with its own contents |
| Backup.KeyInjective | android/app/src/main/kotlin/id/nhasix/app/backup/BackupMethodChannel.kt:201 | distinct plain names land on distinct paths, none of them the target itself |
| Backup.BackupFiles | android/app/src/main/kotlin/id/nhasix/app/backup/BackupMethodChannel.kt:66-79 | the settings file is written first, and it is the only file when there is no database |
| Backup.BackupFileNames | android/app/src/main/kotlin/id/nhasix/app/backup/BackupMethodChannel.kt:66-79 | with a database the file names are plain and distinct, and the database follows the settings |
| Backup.BackupNames | android/app/src/main/kotlin/id/nhasix/app/backup/BackupMethodChannel.kt:66-79 | with or without a database the file names are plain and distinct, and `nhasix_app.db` is among them exactly when the database existed |
| Backup.BackupWalk | android/app/src/main/kotlin/id/nhasix/app/backup/BackupMethodChannel.kt:184-195 | `walkTopDown` of the backup directory visits the directory and then each listed child below it, in whatever order `listFiles` gives; exactly the written names are regular files |
| Backup.ZipArchive | android/app/src/main/kotlin/id/nhasix/app/backup/BackupMethodChannel.kt:184-195 | the archive holds no directory entries and no more entries than the walk has steps |
| Backup.ZipArchiveNames | android/app/src/main/kotlin/id/nhasix/app/backup/BackupMethodChannel.kt:184-195 | one entry per regular file of the walk, in order, whose name resolved against the directory is that file's path and whose data is its contents |
| Backup.Lookup | android/app/src/main/kotlin/id/nhasix/app/backup/BackupMethodChannel.kt:66-79 | the contents found under a name exist exactly when the name was written, and are that file's contents |
| Backup.ZipOfFiles | android/app/src/main/kotlin/id/nhasix/app/backup/BackupMethodChannel.kt:184-195 | zipping that walk gives one plain entry per listed name, in listing order, carrying the contents written under the name |
| Backup.CreateBackup | android/app/src/main/kotlin/id/nhasix/app/backup/BackupMethodChannel.kt:43-98 | INVALID_ARGS without dbPath or settingsJson, BACKUP_FAILED when the worker throws, and a backup path on success |
| Backup.WriteBackup | android/app/src/main/kotlin/id/nhasix/app/backup/BackupMethodChannel.kt:52-89 | a worker run that does not throw answers a path under `Kuron/settings/backup_` |
| Backup.BackupArchive | android/app/src/main/kotlin/id/nhasix/app/backup/BackupMethodChannel.kt:43-98 | for every `listFiles` order, a successful backup lands under `Kuron/settings/backup_`, its entries follow the listing, it is a permutation (equal multisets) of the written files, and it holds the database exactly when the database existed |
| Backup.ListedPermutation | android/app/src/main/kotlin/id/nhasix/app/backup/BackupMethodChannel.kt:184-195 | listing every written name once gives the written entries in listing order, with the same multiset, and the database among them exactly when it was written |
| Backup.ExtractBackupData | android/app/src/main/kotlin/id/nhasix/app/backup/BackupMethodChannel.kt:134-182 | runs the unzip with its guard as written; INVALID_ARGS without contentUri, and a restore reports the database inside `restore_temp` |
| Backup.ExtractNeedsBoth | android/app/src/main/kotlin/id/nhasix/app/backup/BackupMethodChannel.kt:134-182 | a restore succeeds exactly when the URI is given, the archive opens, the unzip with the written guard extracts it, and both the settings (as a file) and the database exist afterwards |
| Backup.RestorePlainArchive | android/app/src/main/kotlin/id/nhasix/app/backup/BackupMethodChannel.kt:141-174 | an archive of distinct plain files that holds the settings and the database, at any positions, restores exactly those settings |
| Backup.BackupRestoreRoundTrip | android/app/src/main/kotlin/id/nhasix/app/backup/BackupMethodChannel.kt:43-182 | for every `listFiles` order, a backup taken while the database existed restores the very settings it was given |
| Backup.BackupWithoutDatabaseNotRestorable | android/app/src/main/kotlin/id/nhasix/app/backup/BackupMethodChannel.kt:43-182 | for every `listFiles` order, a backup taken without a database succeeds but can never be restored |
| Backup.PickBackupFile | android/app/src/main/kotlin/id/nhasix/app/backup/BackupMethodChannel.kt:100-119 | BUSY while a result is pending; otherwise the call waits in the slot exactly when the launch did not throw |
| Backup.OnActivityResult | android/app/src/main/kotlin/id/nhasix/app/backup/BackupMethodChannel.kt:121-132 | only request code 8888 is handled; an unhandled result changes nothing, and a handled one frees the slot |
| Backup.PickerResultDelivered | android/app/src/main/kotlin/id/nhasix/app/backup/BackupMethodChannel.kt:121-128 | the waiting call gets the URI on RESULT_OK with data and null otherwise |
| Backup.PickerCycle | android/app/src/main/kotlin/id/nhasix/app/backup/BackupMethodChannel.kt:100-132 | after a successful launch and the picker's answer the waiting call is answered and the next pick is not BUSY |
| Backup.HandleMethodCall | android/app/src/main/kotlin/id/nhasix/app/backup/BackupMethodChannel.kt:34-41 | names other than the three methods are answered not-implemented, and only the picker touches the slot |
| Disguise.ModeAlias | android/app/src/main/kotlin/id/nhasix/app/MainActivity.kt:173-191 | a mode selects the alias whose mode name it is, and selects none exactly when no alias has that name |
| Disguise.SetState | android/app/src/main/kotlin/id/nhasix/app/MainActivity.kt:197-237 | a `setComponentEnabledSetting(c, s)` that does not throw gives c the state s, one that throws changes nothing, and no other component changes; each call fails or succeeds on its own |
| Disguise.EnableSurvivesFailedDisable | android/app/src/main/kotlin/id/nhasix/app/MainActivity.kt:197-237 | when the chosen alias's disable throws but its enable does not, the alias still ends ENABLED |
| Disguise.DisableAliases | android/app/src/main/kotlin/id/nhasix/app/MainActivity.kt:156-170 | the disabling loop changes no component other than the aliases it walks |
| Disguise.FirstEnabled | android/app/src/main/kotlin/id/nhasix/app/MainActivity.kt:242-264 | the reader answers the default or the mode of one of the aliases |
| Disguise.HandleCall | android/app/src/main/kotlin/id/nhasix/app/MainActivity.kt:94-125 | unknown names are not-implemented, a set without a mode is INVALID_MODE with no change, and a get always succeeds with no change |
| Disguise.ComponentsDistinct | android/app/src/main/kotlin/id/nhasix/app/MainActivity.kt:157-227 | the three alias components and the main activity of one package are distinct |
| Disguise.DisableAliasesAll | android/app/src/main/kotlin/id/nhasix/app/MainActivity.kt:156-170 | with no failing call, the first loop leaves every alias it walks DISABLED |
| Disguise.SetAppDisguiseStates | android/app/src/main/kotlin/id/nhasix/app/MainActivity.kt:152-237 | with no failing call, the selected alias alone is ENABLED, main is ENABLED exactly when no alias is selected, and no other component changes |
| Disguise.AtMostOneAlias | android/app/src/main/kotlin/id/nhasix/app/MainActivity.kt:152-195 | with no failing call, at most one alias is ENABLED after any mode is set |
| Disguise.FirstEnabledPicks | android/app/src/main/kotlin/id/nhasix/app/MainActivity.kt:242-257 | when exactly one alias reads ENABLED, the reader answers its mode |
| Disguise.NoneEnabledIsDefault | android/app/src/main/kotlin/id/nhasix/app/MainActivity.kt:242-264 | when no alias reads ENABLED, the reader answers `default` |
| Disguise.SetGetRoundTrip | android/app/src/main/kotlin/id/nhasix/app/MainActivity.kt:152-264 | reading back after a set gives the mode for the three disguises and `default` for any other mode |
| Disguise.MainCheckIrrelevant | android/app/src/main/kotlin/com/example/nhasixapp/MainActivity.kt:172-215 | the extra main-activity check under the example package never changes the answer |
| Disguise.HandlerRoundTrip | android/app/src/main/kotlin/com/example/nhasixapp/MainActivity.kt:30-63 | under either package a set answers `Mode set to: ` and the mode, and a following get answers what was set |

## Left out

- HTTP transport (OkHttp) and the DNS-over-HTTPS client construction in `createDohDns` are not modelled. A fetch is an oracle with three outcomes: a complete body of some byte count, an HTTP error, or a stream that fails after the output file was opened, leaving the bytes copied so far. Building the resolver is an oracle that may fail.
- WorkManager scheduling, constraints, retry back-off and Flow/EventChannel delivery are not modelled. `pruneWork()` is modelled as removing every finished work, since no work here has dependents. The registry is a list of `WorkInfo` records, and every emission is a function of one snapshot of it.
- Coroutines, threads, `Handler` and `runOnUiThread` hops are not modelled. An asynchronous reply is treated as the call's immediate answer.
- Notifications are left out, since they carry no state the core reads. This covers the app worker's foreground notification and the `enableNotifications` argument the plugin handler passes.
- Bitmap decoding and scaling in `loadBitmap` (float `Math.round` and `createScaledBitmap`) are not modelled. A decoded image is its final width and height.
- PdfDocument drawing and writing are not modelled. What `addPageToPdf` does with each bitmap is an oracle with three outcomes: added, thrown before `startPage`, or thrown while drawing after `startPage`. The final write is also an oracle. A `finishPage` that throws inside the `finally` is taken as leaving the page in the document. An exception inside one image's processing is modelled as thrown before that image adds any page (a `Broken` image), so pages added before a throw part-way through a webtoon are not modelled.
- The metadata file's `download_date` and its JSON text formatting are left out. The record's other fields are modelled, and write errors are swallowed as in the source. The file itself is a regular file whose byte length is an input, since the JSON text is not rendered.
- NativeWorker.Finish: the temporary URL file lives in a store of its own (`urlFiles`), apart from the download tree `fs`. A URL file placed inside the content directory would be deleted there too, which the model does not show.
- `SystemInfoUtils` values are abstract. `getSystemInfo` is modelled only as type validation and a failure flag.
- Parsing of URIs and hosts, the WebView cookie store and the browser history are oracles. The session ends at the first event that finishes the activity.
- `openWebView`, `openPdf`, `clearCookies` and `getPlatformVersion` of the plugin are modelled only as dispatch with their argument checks and failure codes, since each only launches an activity or forwards to the platform.
- The plugin calls `createIntent` with nine arguments while `WebViewActivity` declares five. The declared five-argument signature is modelled.
- The app's `NativeDownloadManager` stores cookies under `DownloadWorker.KEY_COOKIES`, which the app worker does not declare. The model puts the entry under the plugin's key name `cookies`; the app worker never reads it.
- Ad SDK views, `ZoomableImageView`, `PdfReaderActivity`, `PdfMethodChannel`, `PdfReaderMethodChannel` and `DnsMethodChannel` are not modelled. They are views or forward to the components above.
- `refreshLauncher` of the `com.example.nhasixapp` activity is not modelled, because nothing calls it.
- `unzip` creating parent directories (`parentFile.mkdirs`) is not modelled. An extracted file is its own entry in the store.
- The backup's temporary `backup_gen` directory and its clean-up are not modelled. So is the creation of the `Downloads/Kuron/settings` folder; only the archive contents and the reported path are.
- The order of `walkTopDown` and `listFiles` is taken as an input. The backup lemmas hold for every order that lists each written file once.
- NativeWorker.DownloadDirectory and AppDownload.AppDownloadDirectory normalise a given destination path, but not the fallback `Downloads/<folder>/<source>/<content>`. An empty source or content id there gives an empty segment that `File` would collapse, and the platform's downloads directory is taken as already normal.
- DownloadHandler.StorageFaultReply: a throw inside the recursive delete is taken as happening before anything is removed. The files deleted before such a throw are not modelled.
- PdfWorker.RunParts: a part whose write throws is modelled as leaving no file, though `FileOutputStream` may already have created a truncated one. The exception message is a string oracle, so a null message is not modelled.
- CanonicalPath: lexical only. Symbolic links are not resolved, which the platform's `canonicalPath` would do.
- PageLoop.Percent: exact integer division `(i+1)*100/n`. The source computes `((i+1).toFloat() / n * 100).toInt()` in single precision, and the rounded quotient can fall just below a whole number. Then the source reports one less than the model: 53 of 100 gives 52, 59 of 100 gives 58, 106 of 200 gives 52 and 118 of 200 gives 58. Very long lists can also reach 100 before the last page. Monotonicity and the 0..100 bounds are stated for the exact version only.
- Plugin.ConvertEvents: the conversion percentage is the exact `(i+1)*100/n`, where the source computes it in single precision as for PageLoop.Percent, so it reports one more than the source at the same inputs (53 of 100, 59 of 100, 106 of 200, 118 of 200).
- PdfWorker.PartProgress: the part percentage is the exact `(k+1)*100/parts`, where the source computes `((chunkIndex + 1).toFloat() / totalChunks * 100).toInt()` in single precision as for PageLoop.Percent, so it reports one more than the source at the same inputs (53 of 100 parts, 59 of 100, 106 of 200, 118 of 200).
- PdfGenerator.IsWebtoon: the float test `height / width > 2.5` is taken as the exact `2 * height > 5 * width`, so single-precision rounding at the boundary is not modelled.
- Text.ToLower and Text.ToUpper: ASCII only. Kotlin's `lowercase()` and `uppercase()` also map non-ASCII letters.
- Text.LexLe: compares code points, where Kotlin's `compareTo` compares UTF-16 code units. The two orders differ only for characters outside the Basic Multilingual Plane, for example U+1F600 against U+FF5E.
- Channel.ArgString: an argument of the wrong type reads as absent. Kotlin's `call.argument<T>` would throw a `ClassCastException` at the first use instead.

Behaviour the code has that a reader might not expect, and that the model follows:
- An empty URL list succeeds with zero pages.
- Neither event stream removes duplicates or remembers a finished download; every update re-emits every qualifying work.
- The plugin's status priority never looks at BLOCKED works.
- The PDF generator's last progress report can stay below 90 when the last image does not decode.

## Findings

| source | as written | input that shows it | evidently intended | confidence | as-written member | corrected member |
|---|---|---|---|---|---|---|
| packages/kuron_native/android/src/main/kotlin/id/nhasix/kuron_native/kuron_native/download/DownloadWorker.kt:286 | the cookie jar sends the stored cookies to any host whose name ends with `crotpedia.com` | request host `evilcrotpedia.com` receives every cookie | send them only to `crotpedia.com` and its subdomains | medium, not executed | Cookies.SuffixTestLeaks | Cookies.CorrectedNarrowsSuffixTest |
| android/app/src/main/kotlin/id/nhasix/app/backup/BackupMethodChannel.kt:201-205 | the zip-slip guard checks that the entry's canonical path starts with the target's canonical path as a string | target `/t` and entry `../tx` give `/tx`, which passes the test and is written outside `/t` | accept only the target itself or paths below it, segment by segment | high, not executed | Backup.UnzipAsWrittenEscapes | Backup.GuardSegments |
| android/app/src/main/kotlin/id/nhasix/app/download/DownloadMethodChannel.kt:55-59 | the app's progress stream looks up the content id under `contentId` | a running app work whose progress holds `content_id` and 10 pages yields no event | read the key `content_id` that the app worker writes | high, not executed | AppDownload.AppStreamSilentAsWritten | AppDownload.AppRunningProgressEmitted |
