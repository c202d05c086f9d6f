/**
 * `DownloadWorker` of the kuron_native plugin: resolves the URL list,
 * downloads every page into `<dir>/images/page_NNN.jpg` with resume and
 * cooperative cancellation, then writes the metadata record and the
 * `.nomedia` marker.
 */
module NativeWorker {
  import opened Wrappers
  import opened Text
  import opened FileSystem
  import opened Work
  import opened PageLoop

  const KeyContentId: string := "content_id"
  const KeySourceId: string := "source_id"
  const KeyImageUrls: string := "image_urls"
  const KeyImageUrlsFile: string := "image_urls_file"
  const KeyDestinationPath: string := "destination_path"
  const KeyCookies: string := "cookies"
  const KeyTitle: string := "title"
  const KeyUrl: string := "url"
  const KeyCoverUrl: string := "cover_url"
  const KeyLanguage: string := "language"
  const KeyBackupFolder: string := "backup_folder"
  const KeyProgress: string := "progress"

  // ---------------------------------------------------------------------
  // Page names and the download directory
  // ---------------------------------------------------------------------

  /** The file for the resource at 0-based index `i`: `page_` + (i+1) padded to three digits + `.jpg`. */
  function PageFileName(i: nat): (name: string)
    ensures StartsWith(name, "page_") && EndsWith(name, ".jpg")
    ensures Extension(name) == "jpg"
  {
    var name := "page_" + PadStart(Decimal(i + 1), 3, '0') + ".jpg";
    ExtensionJpg(name);
    name
  }

  /** Distinct indices give distinct page names. */
  lemma PageFileNameInjective(a: nat, b: nat)
    requires PageFileName(a) == PageFileName(b)
    ensures a == b
  {
    PageFileNameNumber(a);
    PageFileNameNumber(b);
  }

  /** The number a page name carries is its 1-based page number. */
  lemma PageFileNameNumber(i: nat)
    ensures var name := PageFileName(i);
      AllDigits(name[5..|name| - 4]) && ParseDecimal(name[5..|name| - 4]) == i + 1
  {
    var name := PageFileName(i);
    assert name[5..|name| - 4] == PadStart(Decimal(i + 1), 3, '0');
    PadDecimalValue(i + 1, 3);
  }

  function PagePaths(imagesDir: string, n: nat): (ps: seq<string>)
    ensures |ps| == n
    ensures forall k :: 0 <= k < n ==> ps[k] == Child(imagesDir, PageFileName(k))
    ensures DistinctPaths(ps)
  {
    var ps := seq(n, k requires 0 <= k < n => Child(imagesDir, PageFileName(k)));
    assert DistinctPaths(ps) by {
      forall a, b | 0 <= a < b < n ensures ps[a] != ps[b] {
        if ps[a] == ps[b] {
          ChildInjective(imagesDir, PageFileName(a), PageFileName(b));
          PageFileNameInjective(a, b);
        }
      }
    }
    ps
  }

  /** `getDownloadDirectory`: a non-empty destination as `File` normalises it, else `Downloads/<folder>/<source>/<content>`. */
  function DownloadDirectory(input: Data, downloads: string, sourceId: string, contentId: string): (dir: string)
    ensures var dest := GetString(input, KeyDestinationPath);
      dest.Some? && |dest.value| > 0 ==> dir == FilePath(dest.value) && NormalPath(dir) && |dir| > 0
    ensures var dest := GetString(input, KeyDestinationPath);
      dest.Some? && NormalPath(dest.value) && |dest.value| > 0 ==> dir == dest.value
    ensures var dest := GetString(input, KeyDestinationPath);
      !(dest.Some? && |dest.value| > 0) ==>
        dir == Child(Child(Child(downloads, GetString(input, KeyBackupFolder).GetOr("nhasix")), sourceId), contentId)
  {
    var dest := GetString(input, KeyDestinationPath);
    if dest.Some? && |dest.value| > 0 then FilePath(dest.value)
    else
      var folder := GetString(input, KeyBackupFolder).GetOr("nhasix");
      assert downloads + "/" + (folder + "/" + sourceId + "/" + contentId)
          == Child(Child(Child(downloads, folder), sourceId), contentId);
      downloads + "/" + (folder + "/" + sourceId + "/" + contentId)
  }

  // ---------------------------------------------------------------------
  // Resolving the URL list
  // ---------------------------------------------------------------------

  /**
   * The URL list: from the named temporary file when `image_urls_file` is a
   * non-empty string, else from `image_urls`. `urlFiles` maps each existing
   * file to its parsed contents, or to None when reading or parsing throws.
   */
  function ResolveUrls(input: Data, urlFiles: map<string, Option<seq<string>>>): (r: Option<seq<string>>)
    ensures var f := GetString(input, KeyImageUrlsFile);
      f.Some? && |f.value| > 0 ==> r == (if f.value in urlFiles then urlFiles[f.value] else None)
    ensures var f := GetString(input, KeyImageUrlsFile);
      !(f.Some? && |f.value| > 0) ==> r == GetStringArray(input, KeyImageUrls)
  {
    var f := GetString(input, KeyImageUrlsFile);
    if f.Some? && |f.value| > 0 then
      if f.value in urlFiles then urlFiles[f.value] else None
    else GetStringArray(input, KeyImageUrls)
  }

  // ---------------------------------------------------------------------
  // Metadata record
  // ---------------------------------------------------------------------

  /** The fields of `metadata.json` (schema 2.1) other than the download date. */
  datatype Metadata = Metadata(
    schemaVersion: string,
    source: string,
    contentId: string,
    title: string,
    url: string,
    totalPages: nat,
    downloadedFiles: nat,
    files: seq<string>,
    language: string,
    coverUrl: string,
    isRangeDownload: bool,
    startPage: nat,
    endPage: nat,
    pagesDownloaded: nat)

  function MetadataFor(input: Data, sourceId: string, contentId: string, n: nat): (m: Metadata)
    ensures |m.files| == n && forall k :: 0 <= k < n ==> m.files[k] == PageFileName(k)
    ensures m.totalPages == n && m.downloadedFiles == n && m.endPage == n && m.pagesDownloaded == n
    ensures m.startPage == 1 && !m.isRangeDownload && m.schemaVersion == "2.1"
    ensures m.source == sourceId && m.contentId == contentId
    ensures m.title == GetString(input, KeyTitle).GetOr("Unknown") && m.url == GetString(input, KeyUrl).GetOr("")
    ensures m.coverUrl == GetString(input, KeyCoverUrl).GetOr("") && m.language == GetString(input, KeyLanguage).GetOr("unknown")
  {
    Metadata(
      "2.1", sourceId, contentId,
      GetString(input, KeyTitle).GetOr("Unknown"),
      GetString(input, KeyUrl).GetOr(""),
      n, n,
      seq(n, k requires 0 <= k < n => PageFileName(k)),
      GetString(input, KeyLanguage).GetOr("unknown"),
      GetString(input, KeyCoverUrl).GetOr(""),
      false, 1, n, n)
  }

  // ---------------------------------------------------------------------
  // doWork
  // ---------------------------------------------------------------------

  /**
   * Everything the worker learns from outside its input bag: the public
   * Downloads directory, the temporary URL files, whether `mkdirs` succeeds,
   * the HTTP and stop-flag oracles, whether the metadata write succeeds, the
   * byte length of the JSON text it writes (the JSON rendering itself is not
   * modelled), and whether `createNewFile` of the `.nomedia` marker succeeds.
   */
  datatype Env = Env(
    downloads: string,
    urlFiles: map<string, Option<seq<string>>>,
    mkdirsOk: bool,
    fetch: nat -> Fetch,
    stopped: nat -> bool,
    metadataWritable: bool,
    metadataBytes: nat,
    nomediaWritable: bool)

  /** The worker's verdict; `Cancellation` is the rethrown cancellation. */
  datatype Outcome = Success(output: Data) | Failure | Retry | Cancellation

  datatype WorkRun = WorkRun(
    outcome: Outcome,
    fs: Fs,
    progress: seq<Data>,
    metadata: Option<Metadata>,
    urlFiles: map<string, Option<seq<string>>>)

  /** The bag passed to `setProgress` after an iteration. */
  function ProgressData(r: Report, contentId: string): Data {
    map[KeyProgress := IntV(r.percent),
        "downloadedCount" := IntV(r.downloadedCount),
        "totalCount" := IntV(r.totalCount),
        "downloadedBytes" := LongV(r.downloadedBytes),
        KeyContentId := StrV(contentId)]
  }

  function SuccessOutput(contentId: string, n: nat): Data {
    map[KeyContentId := StrV(contentId), "downloadedCount" := IntV(n), "totalCount" := IntV(n)]
  }

  /** The content directory `doWork` downloads into. */
  function ContentDir(input: Data, env: Env): string {
    var cid := GetString(input, KeyContentId).GetOr("");
    var sid := GetString(input, KeySourceId).GetOr("unknown");
    DownloadDirectory(input, env.downloads, sid, cid)
  }

  function ImagesDir(input: Data, env: Env): string {
    Child(ContentDir(input, env), "images")
  }

  /** The metadata file `createMetadataFile` writes in the content directory. */
  function MetadataPath(input: Data, env: Env): string {
    Child(ContentDir(input, env), "metadata.json")
  }

  function DoWork(input: Data, fs: Fs, env: Env): (w: WorkRun)
  {
    var contentId := GetString(input, KeyContentId);
    var urls := ResolveUrls(input, env.urlFiles);
    if contentId.None? || urls.None? then WorkRun(Failure, fs, [], None, env.urlFiles)
    else
      var cid := contentId.value;
      var sid := GetString(input, KeySourceId).GetOr("unknown");
      var dir := DownloadDirectory(input, env.downloads, sid, cid);
      var imagesDir := Child(dir, "images");
      if !Exists(fs, imagesDir) && !env.mkdirsOk then WorkRun(Retry, fs, [], None, env.urlFiles)
      else
        var fs1 := if Exists(fs, imagesDir) then fs else MkDirs(fs, imagesDir);
        var n := |urls.value|;
        var run := Loop(fs1, imagesDir, PagePaths(imagesDir, n), 0, 0, env.fetch, env.stopped);
        Finish(input, env, cid, sid, dir, n, run)
  }

  /**
   * What `doWork` returns once the page loop has run: the publishes, then the
   * ending the loop chose. On completion the metadata file is created or
   * overwritten, the `.nomedia` marker is created when missing, and the
   * temporary URL file is deleted.
   */
  function Finish(input: Data, env: Env, cid: string, sid: string, dir: string, n: nat, run: Run): (w: WorkRun)
    ensures |w.progress| == |run.reports|
    ensures forall k :: 0 <= k < |run.reports| ==> w.progress[k] == ProgressData(run.reports[k], cid)
    ensures run.end.Stopped? <==> w.outcome == Cancellation
    ensures run.end.Errored? <==> w.outcome == Retry
    ensures run.end.Completed? <==> w.outcome.Success?
    ensures !run.end.Completed? ==> w.fs == run.fs && w.urlFiles == env.urlFiles
    ensures run.end.Completed? ==> w.outcome == Success(SuccessOutput(cid, n))
    ensures forall p :: p in run.fs ==> p in w.fs
    ensures forall p :: p in run.fs && p != Child(dir, "metadata.json") ==> w.fs[p] == run.fs[p]
    ensures w.metadata.Some? <==> run.end.Completed? && env.metadataWritable
    ensures w.metadata.Some? ==>
      w.metadata.value == MetadataFor(input, sid, cid, n)
      && Child(dir, "metadata.json") in w.fs && w.fs[Child(dir, "metadata.json")] == RegularFile(env.metadataBytes)
    ensures w.metadata.None? ==>
      (Child(dir, "metadata.json") in w.fs <==> Child(dir, "metadata.json") in run.fs)
    ensures forall f :: f in w.urlFiles ==> f in env.urlFiles && w.urlFiles[f] == env.urlFiles[f]
    ensures run.end.Completed? ==>
      var urlFile := GetString(input, KeyImageUrlsFile);
      (urlFile.Some? && |urlFile.value| > 0 ==> urlFile.value !in w.urlFiles)
      && forall f :: f in env.urlFiles && !(urlFile.Some? && f == urlFile.value) ==> f in w.urlFiles
  {
    var progress := seq(|run.reports|, k requires 0 <= k < |run.reports| => ProgressData(run.reports[k], cid));
    match run.end
    case Stopped(_) => WorkRun(Cancellation, run.fs, progress, None, env.urlFiles)
    case Errored(_) => WorkRun(Retry, run.fs, progress, None, env.urlFiles)
    case Completed =>
      WorkRun(Success(SuccessOutput(cid, n)), CompletedFs(run.fs, dir, env), progress,
              if env.metadataWritable then Some(MetadataFor(input, sid, cid, n)) else None,
              DeleteUrlFile(env.urlFiles, GetString(input, KeyImageUrlsFile)))
  }

  /**
   * The files after `createMetadataFile` and `createNoMediaFile`: the metadata
   * file is created or overwritten when the write succeeds, and the marker is
   * added only when missing and its creation succeeds (a throw is swallowed),
   * so every other file keeps its node.
   */
  function CompletedFs(fs: Fs, dir: string, env: Env): (r: Fs)
    ensures forall p :: p in fs ==> p in r
    ensures forall p :: p in fs && p != Child(dir, "metadata.json") ==> r[p] == fs[p]
    ensures env.metadataWritable ==>
      Child(dir, "metadata.json") in r && r[Child(dir, "metadata.json")] == RegularFile(env.metadataBytes)
    ensures !env.metadataWritable ==> (Child(dir, "metadata.json") in r <==> Child(dir, "metadata.json") in fs)
    ensures Child(dir, ".nomedia") in r <==>
      Child(dir, ".nomedia") in fs || (IsDirectory(fs, dir) && env.nomediaWritable)
  {
    var meta := Child(dir, "metadata.json");
    var fs1 := if env.metadataWritable then fs[meta := RegularFile(env.metadataBytes)] else fs;
    var nomedia := Child(dir, ".nomedia");
    assert nomedia != meta by { assert nomedia[|dir| + 1] != meta[|dir| + 1]; }
    assert dir != meta;
    if !Exists(fs1, nomedia) && IsDirectory(fs1, dir) && env.nomediaWritable then fs1[nomedia := RegularFile(0)] else fs1
  }

  /** The temporary URL store after the `image_urls_file` delete: that file alone goes. */
  function DeleteUrlFile(urlFiles: map<string, Option<seq<string>>>, urlFile: Option<string>): (r: map<string, Option<seq<string>>>)
    ensures forall f :: f in r ==> f in urlFiles && r[f] == urlFiles[f]
    ensures urlFile.Some? && |urlFile.value| > 0 ==> urlFile.value !in r
    ensures forall f :: f in urlFiles && !(urlFile.Some? && f == urlFile.value) ==> f in r
  {
    if urlFile.Some? && |urlFile.value| > 0 then urlFiles - {urlFile.value} else urlFiles
  }

  // ---------------------------------------------------------------------
  // Properties of doWork
  // ---------------------------------------------------------------------

  /** The images directory once creation has been attempted. */
  function PreparedFs(fs: Fs, imagesDir: string): Fs {
    if Exists(fs, imagesDir) then fs else MkDirs(fs, imagesDir)
  }

  /** The page loop `doWork` runs, for inputs that name a content id and a URL list. */
  function WorkLoop(input: Data, fs: Fs, env: Env, n: nat): Run {
    var imagesDir := ImagesDir(input, env);
    Loop(PreparedFs(fs, imagesDir), imagesDir, PagePaths(imagesDir, n), 0, 0, env.fetch, env.stopped)
  }

  lemma DoWorkUnfold(input: Data, fs: Fs, env: Env)
    requires GetString(input, KeyContentId).Some? && ResolveUrls(input, env.urlFiles).Some?
    requires Exists(fs, ImagesDir(input, env)) || env.mkdirsOk
    ensures var n := |ResolveUrls(input, env.urlFiles).value|;
      var run := WorkLoop(input, fs, env, n);
      var w := DoWork(input, fs, env);
      |w.progress| == |run.reports|
      && (forall k :: 0 <= k < |run.reports| ==> w.progress[k] == ProgressData(run.reports[k], GetString(input, KeyContentId).value))
      && (run.end.Stopped? <==> w.outcome == Cancellation)
      && (run.end.Errored? <==> w.outcome == Retry)
      && (run.end.Completed? <==> w.outcome.Success?)
      && (!run.end.Completed? ==> w.fs == run.fs)
      && (run.end.Completed? ==> w.outcome == Success(SuccessOutput(GetString(input, KeyContentId).value, n)))
      && (forall p :: p in run.fs ==> p in w.fs)
      && (forall p :: p in run.fs && p != MetadataPath(input, env) ==> w.fs[p] == run.fs[p])
      && (w.metadata.Some? <==> run.end.Completed? && env.metadataWritable)
      && (w.metadata.Some? ==>
            w.metadata.value.files == seq(n, k requires 0 <= k < n => PageFileName(k))
            && MetadataPath(input, env) in w.fs && w.fs[MetadataPath(input, env)] == RegularFile(env.metadataBytes))
  {
    var cid := GetString(input, KeyContentId).value;
    var sid := GetString(input, KeySourceId).GetOr("unknown");
    var n := |ResolveUrls(input, env.urlFiles).value|;
    var dir := DownloadDirectory(input, env.downloads, sid, cid);
    assert DoWork(input, fs, env) == Finish(input, env, cid, sid, dir, n, WorkLoop(input, fs, env, n));
  }

  /** `doWork` fails exactly when the content id or the URL list is missing or unreadable. */
  lemma FailureIffMissingInput(input: Data, fs: Fs, env: Env)
    ensures DoWork(input, fs, env).outcome == Failure <==>
      GetString(input, KeyContentId).None? || ResolveUrls(input, env.urlFiles).None?
  {
    if GetString(input, KeyContentId).Some? && ResolveUrls(input, env.urlFiles).Some?
       && (Exists(fs, ImagesDir(input, env)) || env.mkdirsOk) {
      DoWorkUnfold(input, fs, env);
    }
  }

  /**
   * With its inputs present, `doWork` retries exactly when the images
   * directory cannot be created or an iteration throws, and reports
   * cancellation exactly when the stop flag ends the loop.
   */
  lemma RetryAndCancellation(input: Data, fs: Fs, env: Env)
    requires GetString(input, KeyContentId).Some? && ResolveUrls(input, env.urlFiles).Some?
    ensures var w := DoWork(input, fs, env);
      var n := |ResolveUrls(input, env.urlFiles).value|;
      var dirOk := Exists(fs, ImagesDir(input, env)) || env.mkdirsOk;
      (w.outcome == Retry <==> !dirOk || WorkLoop(input, fs, env, n).end.Errored?)
      && (w.outcome == Cancellation <==> dirOk && WorkLoop(input, fs, env, n).end.Stopped?)
  {
    if Exists(fs, ImagesDir(input, env)) || env.mkdirsOk {
      DoWorkUnfold(input, fs, env);
    }
  }

  /** Cancellation is never turned into a retry: a stopped run saw the flag raised at an index before N. */
  lemma CancellationSawFlag(input: Data, fs: Fs, env: Env)
    requires DoWork(input, fs, env).outcome == Cancellation
    ensures exists k :: 0 <= k < |ResolveUrls(input, env.urlFiles).value| && env.stopped(k)
  {
    FailureIffMissingInput(input, fs, env);
    RetryAndCancellation(input, fs, env);
    var n := |ResolveUrls(input, env.urlFiles).value|;
    var imagesDir := ImagesDir(input, env);
    var run := WorkLoop(input, fs, env, n);
    LoopStops(PreparedFs(fs, imagesDir), imagesDir, PagePaths(imagesDir, n), 0, 0, env.fetch, env.stopped);
    assert env.stopped(run.end.at);
  }

  /**
   * On success the output carries the content id and N as both counts,
   * every page file exists as a regular file, and the metadata record (when
   * written) lists exactly those files.
   */
  lemma SuccessOutcome(input: Data, fs: Fs, env: Env)
    requires DoWork(input, fs, env).outcome.Success?
    ensures GetString(input, KeyContentId).Some? && ResolveUrls(input, env.urlFiles).Some?
    ensures var w := DoWork(input, fs, env);
      var n := |ResolveUrls(input, env.urlFiles).value|;
      w.outcome.output == SuccessOutput(GetString(input, KeyContentId).value, n)
      && (forall k :: 0 <= k < n ==> IsFile(w.fs, Child(ImagesDir(input, env), PageFileName(k))))
      && (w.metadata.Some? ==>
            |w.metadata.value.files| == n
            && (forall k :: 0 <= k < n ==> IsFile(w.fs, Child(ImagesDir(input, env), w.metadata.value.files[k]))))
  {
    FailureIffMissingInput(input, fs, env);
    RetryAndCancellation(input, fs, env);
    var n := |ResolveUrls(input, env.urlFiles).value|;
    var imagesDir := ImagesDir(input, env);
    var paths := PagePaths(imagesDir, n);
    var run := WorkLoop(input, fs, env, n);
    DoWorkUnfold(input, fs, env);
    LoopLeavesFiles(PreparedFs(fs, imagesDir), imagesDir, paths, 0, 0, env.fetch, env.stopped);
    var w := DoWork(input, fs, env);
    forall k | 0 <= k < n ensures IsFile(w.fs, Child(imagesDir, PageFileName(k))) {
      assert paths[k] == Child(imagesDir, PageFileName(k));
      assert IsFile(run.fs, paths[k]);
      PageNotMetadata(ContentDir(input, env), PageFileName(k));
    }
  }

  /** No file in the images directory is the metadata file. */
  lemma PageNotMetadata(dir: string, name: string)
    ensures Child(Child(dir, "images"), name) != Child(dir, "metadata.json")
  {
    assert Child(Child(dir, "images"), name)[|dir| + 1] == 'i';
    assert Child(dir, "metadata.json")[|dir| + 1] == 'm';
  }

  /** An empty URL list succeeds with zero pages once the images directory is in place. */
  lemma EmptyListSucceeds(input: Data, fs: Fs, env: Env)
    requires GetString(input, KeyContentId).Some? && ResolveUrls(input, env.urlFiles) == Some([])
    requires Exists(fs, ImagesDir(input, env)) || env.mkdirsOk
    ensures DoWork(input, fs, env).outcome == Success(SuccessOutput(GetString(input, KeyContentId).value, 0))
    ensures DoWork(input, fs, env).progress == []
  {
    DoWorkUnfold(input, fs, env);
  }

  /**
   * Report k (0-based) says k+1 of N done, with a percentage in 0..100 that
   * is 100 exactly at the last page, and names the content id.
   */
  lemma ProgressReports(input: Data, fs: Fs, env: Env)
    requires GetString(input, KeyContentId).Some? && ResolveUrls(input, env.urlFiles).Some?
    ensures var w := DoWork(input, fs, env);
      var n := |ResolveUrls(input, env.urlFiles).value|;
      |w.progress| <= n
      && (w.outcome.Success? ==> |w.progress| == n)
      && forall k :: 0 <= k < |w.progress| ==>
        GetInt(w.progress[k], "downloadedCount", 0) == k + 1
        && GetInt(w.progress[k], "totalCount", 0) == n
        && 0 <= GetInt(w.progress[k], KeyProgress, 0) <= 100
        && (GetInt(w.progress[k], KeyProgress, 0) == 100 <==> k == n - 1)
        && GetString(w.progress[k], KeyContentId) == GetString(input, KeyContentId)
  {
    var w := DoWork(input, fs, env);
    if Exists(fs, ImagesDir(input, env)) || env.mkdirsOk {
      var n := |ResolveUrls(input, env.urlFiles).value|;
      var cid := GetString(input, KeyContentId).value;
      var imagesDir := ImagesDir(input, env);
      var run := WorkLoop(input, fs, env, n);
      DoWorkUnfold(input, fs, env);
      LoopShape(PreparedFs(fs, imagesDir), imagesDir, PagePaths(imagesDir, n), 0, 0, env.fetch, env.stopped);
      forall k | 0 <= k < |w.progress|
        ensures GetInt(w.progress[k], "downloadedCount", 0) == k + 1
        ensures GetInt(w.progress[k], "totalCount", 0) == n
        ensures 0 <= GetInt(w.progress[k], KeyProgress, 0) <= 100
        ensures GetInt(w.progress[k], KeyProgress, 0) == 100 <==> k == n - 1
        ensures GetString(w.progress[k], KeyContentId) == Some(cid)
      {
        assert w.progress[k] == ProgressData(run.reports[k], cid);
        ProgressDataFields(run.reports[k], cid);
      }
    }
  }

  lemma ProgressDataFields(r: Report, cid: string)
    ensures var d := ProgressData(r, cid);
      GetInt(d, "downloadedCount", 0) == r.downloadedCount
      && GetInt(d, "totalCount", 0) == r.totalCount
      && GetInt(d, KeyProgress, 0) == r.percent
      && GetLong(d, "downloadedBytes", 0) == r.downloadedBytes
      && GetString(d, KeyContentId) == Some(cid)
  {
  }

  /** Neither the percentage nor the byte counter ever goes down from one report to the next. */
  lemma ProgressMonotone(input: Data, fs: Fs, env: Env)
    requires GetString(input, KeyContentId).Some? && ResolveUrls(input, env.urlFiles).Some?
    ensures var w := DoWork(input, fs, env);
      forall k :: 0 < k < |w.progress| ==>
        GetInt(w.progress[k - 1], KeyProgress, 0) <= GetInt(w.progress[k], KeyProgress, 0)
        && GetLong(w.progress[k - 1], "downloadedBytes", 0) <= GetLong(w.progress[k], "downloadedBytes", 0)
  {
    var w := DoWork(input, fs, env);
    if Exists(fs, ImagesDir(input, env)) || env.mkdirsOk {
      var n := |ResolveUrls(input, env.urlFiles).value|;
      var imagesDir := ImagesDir(input, env);
      var run := WorkLoop(input, fs, env, n);
      var cid := GetString(input, KeyContentId).value;
      assert |w.progress| == |run.reports|
        && forall k :: 0 <= k < |run.reports| ==> w.progress[k] == ProgressData(run.reports[k], cid) by {
        DoWorkUnfold(input, fs, env);
      }
      assert ReportsInOrder(run.reports, n) by {
        LoopShape(PreparedFs(fs, imagesDir), imagesDir, PagePaths(imagesDir, n), 0, 0, env.fetch, env.stopped);
      }
      ProgressListMonotone(w.progress, run.reports, cid, n);
    }
  }

  /** Report k says k+1 of n done, and byte counters never go down. */
  predicate ReportsInOrder(reports: seq<Report>, n: nat) {
    && |reports| <= n
    && (forall k :: 0 <= k < |reports| ==> reports[k].percent == Percent(k + 1, n))
    && (forall k :: 0 < k < |reports| ==> reports[k - 1].downloadedBytes <= reports[k].downloadedBytes)
  }

  lemma ProgressListMonotone(progress: seq<Data>, reports: seq<Report>, cid: string, n: nat)
    requires ReportsInOrder(reports, n)
    requires |progress| == |reports| && forall k :: 0 <= k < |reports| ==> progress[k] == ProgressData(reports[k], cid)
    ensures forall k :: 0 < k < |progress| ==>
      GetInt(progress[k - 1], KeyProgress, 0) <= GetInt(progress[k], KeyProgress, 0)
      && GetLong(progress[k - 1], "downloadedBytes", 0) <= GetLong(progress[k], "downloadedBytes", 0)
  {
    forall k | 0 < k < |progress|
      ensures GetInt(progress[k - 1], KeyProgress, 0) <= GetInt(progress[k], KeyProgress, 0)
      ensures GetLong(progress[k - 1], "downloadedBytes", 0) <= GetLong(progress[k], "downloadedBytes", 0)
    {
      ProgressDataFields(reports[k - 1], cid);
      ProgressDataFields(reports[k], cid);
      PercentMonotone(k, k + 1, n);
    }
  }

  /**
   * Resume: a non-empty file present before the run is still there afterwards
   * and, unless it is the metadata file `doWork` rewrites, exactly as it was.
   */
  lemma NonEmptyFilesKept(input: Data, fs: Fs, env: Env, q: string)
    requires IsFile(fs, q) && fs[q].size > 0
    ensures q in DoWork(input, fs, env).fs
    ensures q != MetadataPath(input, env) ==> DoWork(input, fs, env).fs[q] == fs[q]
  {
    if GetString(input, KeyContentId).Some? && ResolveUrls(input, env.urlFiles).Some?
       && (Exists(fs, ImagesDir(input, env)) || env.mkdirsOk) {
      var n := |ResolveUrls(input, env.urlFiles).value|;
      var imagesDir := ImagesDir(input, env);
      var run := WorkLoop(input, fs, env, n);
      assert q in run.fs && run.fs[q] == fs[q] by {
        var fs1 := PreparedFs(fs, imagesDir);
        assert IsFile(fs1, q) && fs1[q] == fs[q];
        LoopFrame(fs1, imagesDir, PagePaths(imagesDir, n), 0, 0, env.fetch, env.stopped);
      }
      DoWorkUnfold(input, fs, env);
    }
  }

  /**
   * A completed run with a working metadata write leaves `metadata.json` as
   * the freshly written record, whatever file was there before.
   */
  lemma MetadataRewritten(input: Data, fs: Fs, env: Env)
    requires DoWork(input, fs, env).outcome.Success? && env.metadataWritable
    ensures var w := DoWork(input, fs, env);
      MetadataPath(input, env) in w.fs && w.fs[MetadataPath(input, env)] == RegularFile(env.metadataBytes)
      && w.metadata == Some(MetadataFor(input, GetString(input, KeySourceId).GetOr("unknown"),
                                        GetString(input, KeyContentId).value, |ResolveUrls(input, env.urlFiles).value|))
  {
    FailureIffMissingInput(input, fs, env);
    RetryAndCancellation(input, fs, env);
    var cid := GetString(input, KeyContentId).value;
    var sid := GetString(input, KeySourceId).GetOr("unknown");
    var n := |ResolveUrls(input, env.urlFiles).value|;
    var dir := DownloadDirectory(input, env.downloads, sid, cid);
    assert DoWork(input, fs, env) == Finish(input, env, cid, sid, dir, n, WorkLoop(input, fs, env, n));
  }

  /** A stale `metadata.json` from an earlier download is replaced on success. */
  lemma StaleMetadataReplaced(input: Data, fs: Fs, env: Env)
    requires DoWork(input, fs, env).outcome.Success? && env.metadataWritable
    requires IsFile(fs, MetadataPath(input, env)) && fs[MetadataPath(input, env)].size != env.metadataBytes
    ensures DoWork(input, fs, env).fs[MetadataPath(input, env)] != fs[MetadataPath(input, env)]
  {
    MetadataRewritten(input, fs, env);
  }

  /** With the stop flag raised before page k, page k and every later page file are untouched. */
  lemma StopLeavesLaterPages(input: Data, fs: Fs, env: Env, k: nat)
    requires GetString(input, KeyContentId).Some? && ResolveUrls(input, env.urlFiles).Some?
    requires k < |ResolveUrls(input, env.urlFiles).value| && env.stopped(k)
    ensures forall j :: k <= j < |ResolveUrls(input, env.urlFiles).value| ==>
      var p := Child(ImagesDir(input, env), PageFileName(j));
      (p in DoWork(input, fs, env).fs <==> p in fs)
      && (p in fs ==> DoWork(input, fs, env).fs[p] == fs[p])
  {
    var n := |ResolveUrls(input, env.urlFiles).value|;
    var imagesDir := ImagesDir(input, env);
    if Exists(fs, imagesDir) || env.mkdirsOk {
      var fs1 := PreparedFs(fs, imagesDir);
      StopRunLeavesPages(fs1, imagesDir, n, k, env.fetch, env.stopped);
      DoWorkKeepsRun(input, fs, env);
      forall j | k <= j < n
        ensures var p := Child(imagesDir, PageFileName(j));
          (p in fs1 <==> p in fs) && (p in fs ==> fs1[p] == fs[p])
      {
        MkDirsKeepsChildren(fs, imagesDir, PageFileName(j));
      }
    }
  }

  /** A page loop whose stop flag is up at index k ends early and leaves page k and every later page as they were. */
  lemma StopRunLeavesPages(fs: Fs, imagesDir: string, n: nat, k: nat, fetch: nat -> Fetch, stopped: nat -> bool)
    requires k < n && stopped(k)
    ensures var run := Loop(fs, imagesDir, PagePaths(imagesDir, n), 0, 0, fetch, stopped);
      !run.end.Completed?
      && forall j :: k <= j < n ==>
        var p := Child(imagesDir, PageFileName(j));
        (p in run.fs <==> p in fs) && (p in fs ==> run.fs[p] == fs[p])
  {
    StopLeavesTargets(fs, imagesDir, PagePaths(imagesDir, n), k, fetch, stopped);
  }

  /** The same for any distinct targets. */
  lemma StopLeavesTargets(fs: Fs, dir: string, paths: seq<string>, k: nat, fetch: nat -> Fetch, stopped: nat -> bool)
    requires k < |paths| && stopped(k) && DistinctPaths(paths)
    ensures var run := Loop(fs, dir, paths, 0, 0, fetch, stopped);
      !run.end.Completed?
      && forall j :: k <= j < |paths| ==>
        (paths[j] in run.fs <==> paths[j] in fs) && (paths[j] in fs ==> run.fs[paths[j]] == fs[paths[j]])
  {
    var run := Loop(fs, dir, paths, 0, 0, fetch, stopped);
    LoopStops(fs, dir, paths, 0, 0, fetch, stopped);
    assert Processed(run, |paths|) <= k;
    assert run.end.Errored? ==> run.end.at != k;
    assert Touched(run, |paths|) <= k;
    LoopLeavesRest(fs, dir, paths, 0, 0, fetch, stopped);
  }

  /** A run that does not complete leaves `doWork` with the loop's filesystem. */
  lemma DoWorkKeepsRun(input: Data, fs: Fs, env: Env)
    requires GetString(input, KeyContentId).Some? && ResolveUrls(input, env.urlFiles).Some?
    requires Exists(fs, ImagesDir(input, env)) || env.mkdirsOk
    ensures var run := WorkLoop(input, fs, env, |ResolveUrls(input, env.urlFiles).value|);
      !run.end.Completed? ==> DoWork(input, fs, env).fs == run.fs
  {
    var cid := GetString(input, KeyContentId).value;
    var sid := GetString(input, KeySourceId).GetOr("unknown");
    var n := |ResolveUrls(input, env.urlFiles).value|;
    var dir := DownloadDirectory(input, env.downloads, sid, cid);
    assert DoWork(input, fs, env) == Finish(input, env, cid, sid, dir, n, WorkLoop(input, fs, env, n));
  }


}
