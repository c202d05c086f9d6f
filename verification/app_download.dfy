/**
 * The app module's own download path, the older generation: a worker that
 * names pages `<n>.jpg` straight into the content directory, and a method
 * channel with four methods and its own progress stream.
 */
module AppDownload {
  import opened Wrappers
  import opened Text
  import opened FileSystem
  import opened Work
  import opened PageLoop
  import NativeWorker
  import DownloadManager
  import DownloadHandler
  import Channel

  // ---------------------------------------------------------------------
  // Worker
  // ---------------------------------------------------------------------

  /** The file for the resource at 0-based index `i`: its 1-based number, unpadded, then `.jpg`. */
  function AppPageFileName(i: nat): (name: string)
    ensures EndsWith(name, ".jpg") && Extension(name) == "jpg"
    ensures AllDigits(name[..|name| - 4]) && ParseDecimal(name[..|name| - 4]) == i + 1
  {
    var name := Decimal(i + 1) + ".jpg";
    ExtensionJpg(name);
    assert name[..|name| - 4] == Decimal(i + 1);
    name
  }

  lemma AppPageFileNameInjective(a: nat, b: nat)
    requires AppPageFileName(a) == AppPageFileName(b)
    ensures a == b
  {
  }

  function AppPagePaths(dir: string, n: nat): (ps: seq<string>)
    ensures |ps| == n
    ensures forall k :: 0 <= k < n ==> ps[k] == Child(dir, AppPageFileName(k))
    ensures DistinctPaths(ps)
  {
    var ps := seq(n, k requires 0 <= k < n => Child(dir, AppPageFileName(k)));
    assert DistinctPaths(ps) by {
      forall a, b | 0 <= a < b < n ensures ps[a] != ps[b] {
        if ps[a] == ps[b] {
          ChildInjective(dir, AppPageFileName(a), AppPageFileName(b));
          AppPageFileNameInjective(a, b);
        }
      }
    }
    ps
  }

  /** A non-empty destination as `File` normalises it, else `Downloads/nhasix/<source>/<content>`. */
  function AppDownloadDirectory(input: Data, downloads: string, sourceId: string, contentId: string): (dir: string)
    ensures var dest := GetString(input, NativeWorker.KeyDestinationPath);
      dest.Some? && |dest.value| > 0 ==> dir == FilePath(dest.value) && NormalPath(dir) && |dir| > 0
    ensures var dest := GetString(input, NativeWorker.KeyDestinationPath);
      dest.Some? && NormalPath(dest.value) && |dest.value| > 0 ==> dir == dest.value
    ensures var dest := GetString(input, NativeWorker.KeyDestinationPath);
      !(dest.Some? && |dest.value| > 0) ==> dir == Child(Child(Child(downloads, "nhasix"), sourceId), contentId)
  {
    var dest := GetString(input, NativeWorker.KeyDestinationPath);
    if dest.Some? && |dest.value| > 0 then FilePath(dest.value)
    else Child(Child(Child(downloads, "nhasix"), sourceId), contentId)
  }

  /** The app worker's progress bag: no byte counter. */
  function AppProgressData(r: Report, contentId: string): Data {
    map[NativeWorker.KeyProgress := IntV(r.percent),
        "downloadedCount" := IntV(r.downloadedCount),
        "totalCount" := IntV(r.totalCount),
        NativeWorker.KeyContentId := StrV(contentId)]
  }

  /** One progress bag per loop report. */
  function AppProgressList(reports: seq<Report>, contentId: string): (ds: seq<Data>)
    ensures |ds| == |reports|
    ensures forall k :: 0 <= k < |reports| ==> ds[k] == AppProgressData(reports[k], contentId)
  {
    seq(|reports|, k requires 0 <= k < |reports| => AppProgressData(reports[k], contentId))
  }

  /** The app worker's success output: the page count only. */
  function AppSuccessOutput(n: nat): Data {
    map["downloadedCount" := IntV(n)]
  }

  datatype AppEnv = AppEnv(downloads: string, mkdirsOk: bool, fetch: nat -> Fetch, stopped: nat -> bool)

  datatype AppRun = AppRun(outcome: NativeWorker.Outcome, fs: Fs, progress: seq<Data>)

  function AppDir(input: Data, env: AppEnv): string {
    AppDownloadDirectory(input, env.downloads,
                         GetString(input, NativeWorker.KeySourceId).GetOr("unknown"),
                         GetString(input, NativeWorker.KeyContentId).GetOr(""))
  }

  /** The app worker's `doWork`. */
  function AppDoWork(input: Data, fs: Fs, env: AppEnv): AppRun {
    var contentId := GetString(input, NativeWorker.KeyContentId);
    var urls := GetStringArray(input, NativeWorker.KeyImageUrls);
    if contentId.None? || urls.None? then AppRun(NativeWorker.Failure, fs, [])
    else
      var dir := AppDir(input, env);
      if !Exists(fs, dir) && !env.mkdirsOk then AppRun(NativeWorker.Retry, fs, [])
      else
        var fs1 := if Exists(fs, dir) then fs else MkDirs(fs, dir);
        var n := |urls.value|;
        var run := Loop(fs1, dir, AppPagePaths(dir, n), 0, 0, env.fetch, env.stopped);
        var progress := AppProgressList(run.reports, contentId.value);
        match run.end
        case Stopped(_) => AppRun(NativeWorker.Cancellation, run.fs, progress)
        case Errored(_) => AppRun(NativeWorker.Retry, run.fs, progress)
        case Completed => AppRun(NativeWorker.Success(AppSuccessOutput(n)), run.fs, progress)
  }


  /** Failure exactly when the content id or the URL array is missing. */
  lemma AppFailureIffMissingInput(input: Data, fs: Fs, env: AppEnv)
    ensures AppDoWork(input, fs, env).outcome.Failure? <==>
      GetString(input, NativeWorker.KeyContentId).None? || GetStringArray(input, NativeWorker.KeyImageUrls).None?
    ensures AppDoWork(input, fs, env).outcome.Failure? ==> AppDoWork(input, fs, env).fs == fs
  {
  }

  /**
   * Success means every page file exists in the content directory, and the
   * output carries the page count and nothing else.
   */
  lemma AppSuccessOutcome(input: Data, fs: Fs, env: AppEnv)
    requires AppDoWork(input, fs, env).outcome.Success?
    ensures GetString(input, NativeWorker.KeyContentId).Some? && GetStringArray(input, NativeWorker.KeyImageUrls).Some?
    ensures var n := |GetStringArray(input, NativeWorker.KeyImageUrls).value|;
      var w := AppDoWork(input, fs, env);
      w.outcome.output == AppSuccessOutput(n)
      && w.outcome.output.Keys == {"downloadedCount"}
      && forall k :: 0 <= k < n ==> IsFile(w.fs, Child(AppDir(input, env), AppPageFileName(k)))
  {
    var n := |GetStringArray(input, NativeWorker.KeyImageUrls).value|;
    var dir := AppDir(input, env);
    var fs1 := if Exists(fs, dir) then fs else MkDirs(fs, dir);
    var paths := AppPagePaths(dir, n);
    var run := Loop(fs1, dir, paths, 0, 0, env.fetch, env.stopped);
    assert run.end.Completed?;
    LoopLeavesFiles(fs1, dir, paths, 0, 0, env.fetch, env.stopped);
    assert forall k :: 0 <= k < n ==> paths[k] == Child(dir, AppPageFileName(k));
  }

  /** Each progress report carries the 1-based page count, the total, a percentage that is 100 only at the last page, and the content id under `content_id`. */
  lemma AppProgressReports(input: Data, fs: Fs, env: AppEnv)
    requires GetString(input, NativeWorker.KeyContentId).Some? && GetStringArray(input, NativeWorker.KeyImageUrls).Some?
    ensures var w := AppDoWork(input, fs, env);
      var n := |GetStringArray(input, NativeWorker.KeyImageUrls).value|;
      |w.progress| <= n
      && (w.outcome.Success? ==> |w.progress| == n)
      && forall k :: 0 <= k < |w.progress| ==>
        GetInt(w.progress[k], "downloadedCount", 0) == k + 1
        && GetInt(w.progress[k], "totalCount", 0) == n
        && 0 <= GetInt(w.progress[k], NativeWorker.KeyProgress, 0) <= 100
        && (GetInt(w.progress[k], NativeWorker.KeyProgress, 0) == 100 <==> k == n - 1)
        && GetString(w.progress[k], NativeWorker.KeyContentId) == GetString(input, NativeWorker.KeyContentId)
        && GetString(w.progress[k], "contentId").None?
  {
    var n := |GetStringArray(input, NativeWorker.KeyImageUrls).value|;
    var cid := GetString(input, NativeWorker.KeyContentId).value;
    var w := AppDoWork(input, fs, env);
    if Exists(fs, AppDir(input, env)) || env.mkdirsOk {
      var dir := AppDir(input, env);
      var fs1 := if Exists(fs, dir) then fs else MkDirs(fs, dir);
      var paths := AppPagePaths(dir, n);
      var run := Loop(fs1, dir, paths, 0, 0, env.fetch, env.stopped);
      assert w.progress == AppProgressList(run.reports, cid) && (w.outcome.Success? ==> run.end.Completed?);
      RunReportsCount(fs1, dir, paths, env.fetch, env.stopped);
      AppProgressOfRun(w, run, cid, n);
    }
  }

  /** A run from index 0 reports once per processed index, in order. */
  lemma RunReportsCount(fs: Fs, dir: string, paths: seq<string>, fetch: nat -> Fetch, stopped: nat -> bool)
    ensures ReportsCount(Loop(fs, dir, paths, 0, 0, fetch, stopped), |paths|)
  {
    LoopShape(fs, dir, paths, 0, 0, fetch, stopped);
  }

  /** The reports of a run from index 0 over `n` targets: one per processed index, all of them on completion. */
  predicate ReportsCount(run: Run, n: nat) {
    |run.reports| <= n && (run.end.Completed? ==> |run.reports| == n)
    && forall j :: 0 <= j < |run.reports| ==>
         run.reports[j].downloadedCount == j + 1 && run.reports[j].totalCount == n
         && run.reports[j].percent == Percent(j + 1, n)
  }

  /** The app worker's progress bags, given the run they were built from. */
  lemma AppProgressOfRun(w: AppRun, run: Run, cid: string, n: nat)
    requires w.progress == AppProgressList(run.reports, cid) && (w.outcome.Success? ==> run.end.Completed?)
    requires ReportsCount(run, n)
    ensures |w.progress| <= n
      && (w.outcome.Success? ==> |w.progress| == n)
      && forall k :: 0 <= k < |w.progress| ==>
        GetInt(w.progress[k], "downloadedCount", 0) == k + 1
        && GetInt(w.progress[k], "totalCount", 0) == n
        && 0 <= GetInt(w.progress[k], NativeWorker.KeyProgress, 0) <= 100
        && (GetInt(w.progress[k], NativeWorker.KeyProgress, 0) == 100 <==> k == n - 1)
        && GetString(w.progress[k], NativeWorker.KeyContentId) == Some(cid)
        && GetString(w.progress[k], "contentId").None?
  {
    AppProgressListFields(run.reports, cid, n);
  }

  /** The bags built from a run's reports carry each report's fields. */
  lemma AppProgressListFields(reports: seq<Report>, cid: string, n: nat)
    requires |reports| <= n
    requires forall j :: 0 <= j < |reports| ==>
      reports[j].downloadedCount == j + 1 && reports[j].totalCount == n && reports[j].percent == Percent(j + 1, n)
    ensures var ps := AppProgressList(reports, cid);
      forall k :: 0 <= k < |ps| ==>
        GetInt(ps[k], "downloadedCount", 0) == k + 1
        && GetInt(ps[k], "totalCount", 0) == n
        && 0 <= GetInt(ps[k], NativeWorker.KeyProgress, 0) <= 100
        && (GetInt(ps[k], NativeWorker.KeyProgress, 0) == 100 <==> k == n - 1)
        && GetString(ps[k], NativeWorker.KeyContentId) == Some(cid)
        && GetString(ps[k], "contentId").None?
  {
    var ps := AppProgressList(reports, cid);
    forall k | 0 <= k < |ps|
      ensures GetInt(ps[k], "downloadedCount", 0) == k + 1
           && GetInt(ps[k], "totalCount", 0) == n
           && 0 <= GetInt(ps[k], NativeWorker.KeyProgress, 0) <= 100
           && (GetInt(ps[k], NativeWorker.KeyProgress, 0) == 100 <==> k == n - 1)
           && GetString(ps[k], NativeWorker.KeyContentId) == Some(cid)
           && GetString(ps[k], "contentId").None?
    {
      AppProgressDataFields(reports[k], cid);
    }
  }

  lemma AppProgressDataFields(r: Report, cid: string)
    ensures var d := AppProgressData(r, cid);
      GetInt(d, "downloadedCount", 0) == r.downloadedCount
      && GetInt(d, "totalCount", 0) == r.totalCount
      && GetInt(d, NativeWorker.KeyProgress, 0) == r.percent
      && GetString(d, NativeWorker.KeyContentId) == Some(cid)
      && GetString(d, "contentId").None?
      && AppWorkerBag(d)
  {
  }

  // ---------------------------------------------------------------------
  // Progress stream
  // ---------------------------------------------------------------------

  /** The key the app channel reads the content id from, as written. */
  const AppEventKeyAsWritten: string := "contentId"

  /** The stream as written: it looks for `contentId`, which the app worker never writes. */
  function AppEventsAsWritten(ws: seq<WorkInfo>): seq<DownloadHandler.Event> {
    DownloadHandler.Events(ws, AppEventKeyAsWritten)
  }

  /** The stream as intended: the id is read under `content_id`, where the worker puts it. */
  function AppEvents(ws: seq<WorkInfo>): seq<DownloadHandler.Event> {
    DownloadHandler.Events(ws, NativeWorker.KeyContentId)
  }

  /** The keys the app worker writes into a progress bag. */
  const AppProgressKeys: set<string> := {NativeWorker.KeyProgress, "downloadedCount", "totalCount", NativeWorker.KeyContentId}

  /** A progress bag the app worker could have written: only its own keys. */
  predicate AppWorkerBag(d: Data) {
    d.Keys <= AppProgressKeys
  }

  /** An output bag the app worker could have written: only the page count. */
  predicate AppWorkerOutput(d: Data) {
    d.Keys <= AppSuccessOutput(0).Keys
  }

  lemma {:induction false} AppEventsAsWrittenEmpty(ws: seq<WorkInfo>)
    requires forall k :: 0 <= k < |ws| ==> AppWorkerBag(ws[k].progress) && AppWorkerOutput(ws[k].output)
    ensures AppEventsAsWritten(ws) == []
  {
    if |ws| > 0 {
      var w := ws[0];
      assert AppEventKeyAsWritten !in AppProgressKeys;
      assert GetString(w.progress, AppEventKeyAsWritten).None?;
      assert GetString(w.output, AppEventKeyAsWritten).None?;
      AppEventsAsWrittenEmpty(ws[1..]);
    }
  }

  /**
   * As written, no update of works the app worker wrote ever yields an
   * event: the stream stays silent for the whole download.
   */
  lemma AppStreamSilentAsWritten(ws: seq<WorkInfo>)
    requires forall k :: 0 <= k < |ws| ==> AppWorkerBag(ws[k].progress) && AppWorkerOutput(ws[k].output)
    ensures AppEventsAsWritten(ws) == []
  {
    AppEventsAsWrittenEmpty(ws);
  }

  /** A concrete case: a running work with its first of ten pages reported, silent as written. */
  lemma AppStreamSilentExample()
    ensures var w := WorkInfo(0, Running, {"native_download"}, None, true, map[],
                              AppProgressData(Report(10, 1, 10, 0), "123"), map[]);
      AppEventsAsWritten([w]) == []
      && AppEvents([w]) == [DownloadHandler.Event("123", 1, 10, "RUNNING")]
  {
    var w := WorkInfo(0, Running, {"native_download"}, None, true, map[],
                      AppProgressData(Report(10, 1, 10, 0), "123"), map[]);
    AppProgressDataFields(Report(10, 1, 10, 0), "123");
    assert [w][1..] == [];
  }

  /** Corrected, every running report of the app worker reaches the stream with its counts. */
  lemma AppRunningProgressEmitted(w: WorkInfo, r: Report, contentId: string)
    requires w.state == Running && w.progress == AppProgressData(r, contentId) && r.totalCount > 0
    ensures AppEvents([w]) == [DownloadHandler.Event(contentId, r.downloadedCount, r.totalCount, "RUNNING")]
  {
    AppProgressDataFields(r, contentId);
    assert [w][1..] == [];
  }

  /**
   * Even corrected, a finished work yields no COMPLETED event: the app's
   * success output carries no content id.
   */
  lemma AppCompletionUnseen(w: WorkInfo, n: nat)
    requires w.state == Succeeded && w.progress == map[] && w.output == AppSuccessOutput(n)
    ensures AppEvents([w]) == []
  {
    assert [w][1..] == [];
  }

  // ---------------------------------------------------------------------
  // Method channel
  // ---------------------------------------------------------------------

  const AppMethods: set<string> := {"startDownload", "cancelDownload", "pauseDownload", "getDownloadStatus"}

  /** `onMethodCall` of the app channel, against the registry only. */
  function AppHandleMethodCall(call: string, args: Channel.Args, reg: Registry, faults: DownloadHandler.Faults)
    : (out: (DownloadHandler.Reply, Registry))
    ensures call !in AppMethods ==> out == (DownloadHandler.NotImplemented, reg)
    ensures call == "startDownload" ==>
      (out.0 == DownloadHandler.Error("DOWNLOAD_ERROR") <==> DownloadHandler.StartRequest(args).None? || faults.enqueue)
    ensures call in AppMethods - {"startDownload"} ==>
      (out.0 == DownloadHandler.Error("INVALID_ARGUMENT") <==> Channel.ArgString(args, "contentId").None?)
    ensures out.0.Error? ==> out.1 == reg
  {
    var cid := Channel.ArgString(args, "contentId");
    if call == "startDownload" then
      match DownloadHandler.StartRequest(args)
      case None => (DownloadHandler.Error("DOWNLOAD_ERROR"), reg)
      case Some(req) =>
        if faults.enqueue then (DownloadHandler.Error("DOWNLOAD_ERROR"), reg)
        else
          var q := DownloadManager.AppQueueDownload(reg, req.contentId, req.sourceId, req.imageUrls, req.destinationPath, req.cookies);
          (DownloadHandler.Success(DownloadHandler.WorkId(q.1)), q.0)
    else if call !in AppMethods then (DownloadHandler.NotImplemented, reg)
    else if cid.None? then (DownloadHandler.Error("INVALID_ARGUMENT"), reg)
    else if call == "cancelDownload" then
      (DownloadHandler.Success(DownloadHandler.NoValue), DownloadManager.CancelDownload(reg, cid.value))
    else if call == "pauseDownload" then
      (DownloadHandler.Success(DownloadHandler.NoValue), DownloadManager.PauseDownload(reg, cid.value))
    else
      var query := if faults.query then None else Some(ByTag(reg.works, DownloadManager.ContentTag(cid.value)));
      (DownloadHandler.Success(DownloadHandler.StatusValue(DownloadManager.AppGetDownloadStatus(query, cid.value))), reg)
  }

  /**
   * The app's start validates like the plugin's (same three required
   * arguments, same error code) but queues with a plain enqueue: it keeps
   * every earlier work, where the plugin's prune may drop finished ones, and
   * both end with a new request under the same id.
   */
  lemma AppStartLikePlugin(args: Channel.Args, reg: Registry, host: DownloadHandler.Host, faults: DownloadHandler.Faults,
                           canDelete: string -> bool)
    requires host.reg == reg
    ensures var app := AppHandleMethodCall("startDownload", args, reg, faults);
      var plugin := DownloadHandler.HandleMethodCall("kuronNativeStartDownload", args, host, faults, canDelete);
      app.0 == plugin.0
      && (app.0.Success? ==>
            |app.1.works| == |reg.works| + 1 && app.1.works[..|reg.works|] == reg.works
            && 1 <= |plugin.1.reg.works| <= |app.1.works|
            && plugin.1.reg.works[|plugin.1.reg.works| - 1].id == app.1.works[|reg.works|].id)
  {
    var app := AppHandleMethodCall("startDownload", args, reg, faults);
    if app.0.Success? {
      assert app.1.works[..|reg.works|] == reg.works;
    }
  }
}
