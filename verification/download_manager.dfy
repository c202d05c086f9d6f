/**
 * `NativeDownloadManager`, both generations: turning a start request into
 * a WorkManager request, cancelling and pausing by content tag, and
 * reporting the status of a content id.
 */
module DownloadManager {
  import opened Wrappers
  import opened Work
  import Cookies
  import NativeWorker

  const NativeDownloadTag: string := "native_download"

  /** The tag (and, in the plugin, the unique work name) of one content id. */
  function ContentTag(contentId: string): string {
    "content_" + contentId
  }

  lemma ContentTagInjective(a: string, b: string)
    requires ContentTag(a) == ContentTag(b)
    ensures a == b
  {
    assert a == ContentTag(a)[8..];
  }

  /** The arguments of `queueDownload`, after the caller has applied its defaults. */
  datatype Request = Request(
    contentId: string,
    sourceId: string,
    imageUrls: seq<string>,
    destinationPath: string,
    cookies: Option<Cookies.Pairs>,
    title: string,
    url: string,
    coverUrl: string,
    language: string)

  /** `Data` drops a null value, so a null cookie string leaves the key out. */
  function WithOptional(d: Data, key: string, v: Option<string>): (r: Data)
    ensures v.None? ==> r == d
    ensures v.Some? ==> r == d[key := StrV(v.value)]
  {
    if v.Some? then d[key := StrV(v.value)] else d
  }

  /** The plugin worker's input bag. */
  function InputData(req: Request): Data {
    var base := map[
      NativeWorker.KeyContentId := StrV(req.contentId),
      NativeWorker.KeySourceId := StrV(req.sourceId),
      NativeWorker.KeyImageUrls := StrArrayV(req.imageUrls),
      NativeWorker.KeyDestinationPath := StrV(req.destinationPath),
      NativeWorker.KeyTitle := StrV(req.title),
      NativeWorker.KeyUrl := StrV(req.url),
      NativeWorker.KeyCoverUrl := StrV(req.coverUrl),
      NativeWorker.KeyLanguage := StrV(req.language)];
    WithOptional(base, NativeWorker.KeyCookies, Cookies.Serialize(req.cookies))
  }

  /** The bag round-trips through the worker's readers: the worker sees exactly what was queued. */
  lemma InputDataReadBack(req: Request)
    ensures var d := InputData(req);
      GetString(d, NativeWorker.KeyContentId) == Some(req.contentId)
      && GetString(d, NativeWorker.KeySourceId) == Some(req.sourceId)
      && GetStringArray(d, NativeWorker.KeyImageUrls) == Some(req.imageUrls)
      && GetString(d, NativeWorker.KeyDestinationPath) == Some(req.destinationPath)
      && GetString(d, NativeWorker.KeyCookies) == Cookies.Serialize(req.cookies)
      && GetString(d, NativeWorker.KeyImageUrlsFile) == None
      && GetString(d, NativeWorker.KeyTitle) == Some(req.title)
  {
  }

  // ---------------------------------------------------------------------
  // Queueing, cancelling, pausing (plugin)
  // ---------------------------------------------------------------------

  /**
   * `queueDownload`: cancel every work tagged for the content, prune every
   * finished work from the registry, then enqueue the new request as unique
   * work under the same name with REPLACE, tagged for the content and as a
   * native download. Returns the new request id.
   */
  function QueueDownload(reg: Registry, req: Request): (r: (Registry, nat))
    ensures r.1 == reg.nextId
    ensures 1 <= |r.0.works| <= |reg.works| + 1
    ensures var w := r.0.works[|r.0.works| - 1];
      w.id == r.1 && w.state == Enqueued && w.requiresNetwork
      && w.tags == {ContentTag(req.contentId), NativeDownloadTag}
      && w.uniqueName == Some(ContentTag(req.contentId))
      && w.input == InputData(req) && w.progress == map[] && w.output == map[]
  {
    var tag := ContentTag(req.contentId);
    var pruned := Registry(Prune(CancelByTag(reg.works, tag)), reg.nextId);
    (EnqueueUniqueReplace(pruned, tag, {tag, NativeDownloadTag}, InputData(req)), reg.nextId)
  }

  /** The works before the new request, as cancel, prune and REPLACE leave them. */
  function PriorWorks(reg: Registry, tag: string): seq<WorkInfo> {
    CancelByName(Prune(CancelByTag(reg.works, tag)), tag)
  }

  lemma QueueUnfold(reg: Registry, req: Request)
    ensures var r := QueueDownload(reg, req).0;
      r.works == PriorWorks(reg, ContentTag(req.contentId)) + [r.works[|r.works| - 1]]
  {
  }

  /**
   * Where a work before the new request comes from: an unfinished work of
   * the old registry, without the content tag, with the same id and tags,
   * and unchanged unless REPLACE cancelled it for sharing the unique name.
   */
  lemma PriorWorkOrigin(reg: Registry, tag: string, k: nat) returns (v: WorkInfo)
    requires k < |PriorWorks(reg, tag)|
    ensures v in reg.works && !v.state.IsFinished() && tag !in v.tags
    ensures var x := PriorWorks(reg, tag)[k];
      x.tags == v.tags && x.id == v.id && x.uniqueName == v.uniqueName
      && (x.uniqueName != Some(tag) ==> x == v)
      && (x.uniqueName == Some(tag) ==> x.state == Cancelled)
  {
    var c := CancelByTag(reg.works, tag);
    var p := Prune(c);
    var y := p[k];
    assert y in c && !y.state.IsFinished();
    var j :| 0 <= j < |c| && c[j] == y;
    v := reg.works[j];
  }

  /**
   * After queueing, the new request is the only work left for the content
   * id. Before it, every work either was unfinished in the old registry and
   * is unchanged, or shared the unique name and was cancelled by REPLACE; no
   * finished work survives the prune except those. Every unfinished work of
   * another content id outside the unique name is still there.
   */
  lemma QueueLeavesSingleActive(reg: Registry, req: Request)
    ensures var r := QueueDownload(reg, req).0;
      var tag := ContentTag(req.contentId);
      ByTag(r.works, tag) == [r.works[|r.works| - 1]] && r.works[|r.works| - 1].state == Enqueued
    ensures var r := QueueDownload(reg, req).0;
      var tag := ContentTag(req.contentId);
      forall k :: 0 <= k < |r.works| - 1 ==>
        (r.works[k].uniqueName != Some(tag) ==> r.works[k] in reg.works && !r.works[k].state.IsFinished())
        && (r.works[k].uniqueName == Some(tag) ==> r.works[k].state == Cancelled)
    ensures var r := QueueDownload(reg, req).0;
      var tag := ContentTag(req.contentId);
      forall w :: w in reg.works && !w.state.IsFinished() && tag !in w.tags && w.uniqueName != Some(tag) ==>
        w in r.works
  {
    var tag := ContentTag(req.contentId);
    var r := QueueDownload(reg, req).0;
    var prior := PriorWorks(reg, tag);
    var w := r.works[|r.works| - 1];
    QueueUnfold(reg, req);
    PriorUntagged(reg, tag, tag);
    ByTagAppend(prior, [w], tag);
    assert ByTag([w], tag) == [w];
    forall k | 0 <= k < |r.works| - 1
      ensures r.works[k].uniqueName != Some(tag) ==> r.works[k] in reg.works && !r.works[k].state.IsFinished()
      ensures r.works[k].uniqueName == Some(tag) ==> r.works[k].state == Cancelled
    {
      assert r.works[k] == prior[k];
      var v := PriorWorkOrigin(reg, tag, k);
    }
    forall v | v in reg.works && !v.state.IsFinished() && tag !in v.tags && v.uniqueName != Some(tag)
      ensures v in r.works
    {
      var j :| 0 <= j < |reg.works| && reg.works[j] == v;
      var c := CancelByTag(reg.works, tag);
      assert c[j] == v;
      var p := Prune(c);
      assert v in p;
      var i :| 0 <= i < |p| && p[i] == v;
      assert prior[i] == v;
      assert r.works[i] == v;
    }
  }

  /**
   * Queueing one content prunes the finished works of every other: a content
   * id whose works had all finished has no work left, so its status is null.
   */
  lemma QueuePrunesOtherFinished(reg: Registry, req: Request, other: string)
    requires other != req.contentId
    requires forall w :: w in reg.works && ContentTag(other) in w.tags ==> w.state.IsFinished()
    ensures var r := QueueDownload(reg, req).0;
      ByTag(r.works, ContentTag(other)) == []
      && GetDownloadStatus(Some(ByTag(r.works, ContentTag(other))), other).None?
  {
    var tag := ContentTag(req.contentId);
    var t2 := ContentTag(other);
    var r := QueueDownload(reg, req).0;
    var prior := PriorWorks(reg, tag);
    QueueUnfold(reg, req);
    assert t2 != tag by {
      if t2 == tag { ContentTagInjective(other, req.contentId); }
    }
    assert t2 != NativeDownloadTag by { assert t2[0] == 'c'; }
    forall k | 0 <= k < |prior| && t2 in prior[k].tags ensures false {
      var v := PriorWorkOrigin(reg, tag, k);
    }
    NoneTagged(prior, t2);
    ByTagAppend(prior, [r.works[|r.works| - 1]], t2);
    assert ByTag([r.works[|r.works| - 1]], t2) == [];
  }

  /**
   * A re-queue followed by a pause reports CANCELLED: the prune has dropped
   * any earlier finished work, so the cancelled new request is all that is left.
   */
  lemma RequeueThenPauseCancelled(reg: Registry, req: Request)
    ensures var r := PauseDownload(QueueDownload(reg, req).0, req.contentId);
      GetDownloadStatus(Some(ByTag(r.works, ContentTag(req.contentId))), req.contentId)
        == Some(StatusReport("CANCELLED", 0, 0, req.contentId))
  {
    var q := QueueDownload(reg, req).0;
    var w := q.works[|q.works| - 1];
    PauseAfterQueue(reg, req);
    StatusCountsFromProgress(CancelWork(w), req.contentId);
  }

  /** After a re-queue and a pause, the lookup finds only the new request, cancelled. */
  lemma PauseAfterQueue(reg: Registry, req: Request)
    ensures var q := QueueDownload(reg, req).0;
      var r := PauseDownload(q, req.contentId);
      ByTag(r.works, ContentTag(req.contentId)) == [CancelWork(q.works[|q.works| - 1])]
  {
    var tag := ContentTag(req.contentId);
    var q := QueueDownload(reg, req).0;
    var r := PauseDownload(q, req.contentId);
    var prior := PriorWorks(reg, tag);
    var w := q.works[|q.works| - 1];
    QueueUnfold(reg, req);
    PriorUntagged(reg, tag, tag);
    assert r.works == prior + [CancelWork(w)] by {
      forall k | 0 <= k < |prior| ensures r.works[k] == prior[k] {
        assert q.works[k] == prior[k];
      }
    }
    ByTagAppend(prior, [CancelWork(w)], tag);
    assert ByTag([CancelWork(w)], tag) == [CancelWork(w)];
  }

  /** No work before the new request carries the content tag. */
  lemma PriorUntagged(reg: Registry, tag: string, t: string)
    requires t == tag
    ensures forall k :: 0 <= k < |PriorWorks(reg, tag)| ==> t !in PriorWorks(reg, tag)[k].tags
    ensures ByTag(PriorWorks(reg, tag), t) == []
  {
    var prior := PriorWorks(reg, tag);
    forall k | 0 <= k < |prior| ensures t !in prior[k].tags {
      var v := PriorWorkOrigin(reg, tag, k);
    }
    NoneTagged(prior, t);
  }

  /** A lookup finds nothing when no work carries the tag. */
  lemma {:induction false} NoneTagged(ws: seq<WorkInfo>, tag: string)
    requires forall k :: 0 <= k < |ws| ==> tag !in ws[k].tags
    ensures ByTag(ws, tag) == []
  {
    if |ws| > 0 {
      NoneTagged(ws[1..], tag);
    }
  }

  /** `cancelDownload`: cancel every work tagged for the content id. */
  function CancelDownload(reg: Registry, contentId: string): (r: Registry)
    ensures r.nextId == reg.nextId && |r.works| == |reg.works|
    ensures forall k :: 0 <= k < |reg.works| && ContentTag(contentId) in reg.works[k].tags ==>
      r.works[k].state.IsFinished()
    ensures forall k :: 0 <= k < |reg.works| && ContentTag(contentId) !in reg.works[k].tags ==>
      r.works[k] == reg.works[k]
  {
    Registry(CancelByTag(reg.works, ContentTag(contentId)), reg.nextId)
  }

  /** `pauseDownload`: pausing is cancelling; the worker's resume rule makes a later start continue. */
  function PauseDownload(reg: Registry, contentId: string): (r: Registry)
    ensures |r.works| == |reg.works|
    ensures forall k :: 0 <= k < |reg.works| && ContentTag(contentId) in reg.works[k].tags ==>
      r.works[k].state.IsFinished()
  {
    CancelDownload(reg, contentId)
  }

  lemma PauseIsCancel(reg: Registry, contentId: string)
    ensures PauseDownload(reg, contentId) == CancelDownload(reg, contentId)
  {
  }

  // ---------------------------------------------------------------------
  // Queueing (app)
  // ---------------------------------------------------------------------

  /** The app worker's input bag: no metadata; the cookie entry travels under the plugin's key name. */
  function AppInputData(contentId: string, sourceId: string, imageUrls: seq<string>, destinationPath: string,
                        cookies: Option<Cookies.Pairs>): Data {
    var base := map[
      NativeWorker.KeyContentId := StrV(contentId),
      NativeWorker.KeySourceId := StrV(sourceId),
      NativeWorker.KeyImageUrls := StrArrayV(imageUrls),
      NativeWorker.KeyDestinationPath := StrV(destinationPath)];
    WithOptional(base, NativeWorker.KeyCookies, Cookies.Serialize(cookies))
  }

  /** The app's `queueDownload`: a plain enqueue, with no cancel and no replace. */
  function AppQueueDownload(reg: Registry, contentId: string, sourceId: string, imageUrls: seq<string>,
                            destinationPath: string, cookies: Option<Cookies.Pairs>): (r: (Registry, nat))
    ensures r.1 == reg.nextId
    ensures r.0.works == reg.works + [NewRequest(reg.nextId, {ContentTag(contentId), NativeDownloadTag}, None,
                                                 AppInputData(contentId, sourceId, imageUrls, destinationPath, cookies))]
  {
    (Enqueue(reg, {ContentTag(contentId), NativeDownloadTag},
             AppInputData(contentId, sourceId, imageUrls, destinationPath, cookies)), reg.nextId)
  }

  /** Queueing the same content twice in the app leaves two unfinished works for it. */
  lemma AppQueueTwiceCoexists(reg: Registry, contentId: string, urls: seq<string>, dest: string)
    ensures var r1 := AppQueueDownload(reg, contentId, "unknown", urls, dest, None).0;
      var r2 := AppQueueDownload(r1, contentId, "unknown", urls, dest, None).0;
      var ws := ByTag(r2.works, ContentTag(contentId));
      |ws| >= 2 && !ws[|ws| - 2].state.IsFinished() && !ws[|ws| - 1].state.IsFinished()
  {
    var r1 := AppQueueDownload(reg, contentId, "unknown", urls, dest, None).0;
    var r2 := AppQueueDownload(r1, contentId, "unknown", urls, dest, None).0;
    var tag := ContentTag(contentId);
    var a := r1.works[|reg.works|];
    var b := r2.works[|r1.works|];
    ByTagAppend(reg.works, [a], tag);
    ByTagAppend(r1.works, [b], tag);
    assert r1.works == reg.works + [a] && r2.works == r1.works + [b];
    assert ByTag([a], tag) == [a];
    assert ByTag([b], tag) == [b];
  }

  lemma {:induction false} ByTagAppend(a: seq<WorkInfo>, b: seq<WorkInfo>, tag: string)
    ensures ByTag(a + b, tag) == ByTag(a, tag) + ByTag(b, tag)
  {
    if |a| > 0 {
      assert (a + b)[1..] == a[1..] + b;
      ByTagAppend(a[1..], b, tag);
    } else {
      assert a + b == b;
    }
  }

  // ---------------------------------------------------------------------
  // Status
  // ---------------------------------------------------------------------

  /** The status name a WorkManager state is reported as; total over all six states. */
  function StatusName(s: State): (name: string)
    ensures s == Running <==> name == "RUNNING"
    ensures s == Succeeded <==> name == "COMPLETED"
    ensures s == Failed <==> name == "FAILED"
    ensures s == Cancelled <==> name == "CANCELLED"
    ensures s == Enqueued || s == Blocked <==> name == "PENDING"
  {
    match s
    case Running => "RUNNING"
    case Succeeded => "COMPLETED"
    case Failed => "FAILED"
    case Enqueued => "PENDING"
    case Blocked => "PENDING"
    case Cancelled => "CANCELLED"
  }

  datatype StatusReport = StatusReport(status: string, downloadedPages: int, totalPages: int, contentId: string)

  /** `workInfos.firstOrNull { it.state == s }`. */
  function FirstInState(ws: seq<WorkInfo>, s: State): (r: Option<nat>)
    ensures r.Some? ==> r.value < |ws| && ws[r.value].state == s
    ensures r.Some? ==> forall j :: 0 <= j < r.value ==> ws[j].state != s
    ensures r.None? ==> forall j :: 0 <= j < |ws| ==> ws[j].state != s
  {
    if |ws| == 0 then None
    else if ws[0].state == s then Some(0)
    else
      match FirstInState(ws[1..], s)
      case None => None
      case Some(k) => Some(k + 1)
  }

  /** The plugin's choice: first RUNNING, else ENQUEUED, else SUCCEEDED, else FAILED, else the first work. */
  function SelectByPriority(ws: seq<WorkInfo>): (r: Option<nat>)
    ensures r.None? <==> |ws| == 0
    ensures r.Some? ==> r.value < |ws|
  {
    OrElse(FirstInState(ws, Running),
      OrElse(FirstInState(ws, Enqueued),
        OrElse(FirstInState(ws, Succeeded),
          OrElse(FirstInState(ws, Failed),
            if |ws| > 0 then Some(0) else None))))
  }

  /** The priority order as a rank; BLOCKED and CANCELLED share the lowest priority. */
  function Rank(s: State): nat {
    match s
    case Running => 0
    case Enqueued => 1
    case Succeeded => 2
    case Failed => 3
    case Blocked => 4
    case Cancelled => 4
  }

  /** The selection is the first work of the best rank present. */
  lemma SelectionIsFirstOfBestRank(ws: seq<WorkInfo>)
    requires |ws| > 0
    ensures var k := SelectByPriority(ws).value;
      (forall j :: 0 <= j < |ws| ==> Rank(ws[k].state) <= Rank(ws[j].state))
      && (forall j :: 0 <= j < k ==> Rank(ws[j].state) > Rank(ws[k].state))
  {
  }

  /** `getDownloadStatus`: `query` is the tag lookup, or None when it times out or throws. */
  function GetDownloadStatus(query: Option<seq<WorkInfo>>, contentId: string): (r: Option<StatusReport>)
    ensures query.None? || query == Some([]) ==> r.None?
    ensures r.Some? ==> r.value.contentId == contentId
  {
    match query
    case None => None
    case Some(ws) =>
      match SelectByPriority(ws)
      case None => None
      case Some(k) =>
        var w := ws[k];
        Some(StatusReport(StatusName(w.state),
                          GetInt(w.progress, "downloadedCount", 0),
                          GetInt(w.progress, "totalCount", 0),
                          contentId))
  }

  /** The app's `getDownloadStatus`: the first work, with no priority order. */
  function AppGetDownloadStatus(query: Option<seq<WorkInfo>>, contentId: string): (r: Option<StatusReport>)
    ensures query.None? || query == Some([]) ==> r.None?
    ensures r.Some? ==> r.value.contentId == contentId
  {
    match query
    case None => None
    case Some(ws) =>
      if |ws| == 0 then None
      else
        var w := ws[0];
        Some(StatusReport(StatusName(w.state),
                          GetInt(w.progress, "downloadedCount", 0),
                          GetInt(w.progress, "totalCount", 0),
                          contentId))
  }

  /** Counts come from the progress bag even for a finished work: an empty bag reads as 0 of 0. */
  lemma StatusCountsFromProgress(w: WorkInfo, contentId: string)
    requires w.progress == map[]
    ensures GetDownloadStatus(Some([w]), contentId)
         == Some(StatusReport(StatusName(w.state), 0, 0, contentId))
    ensures AppGetDownloadStatus(Some([w]), contentId) == GetDownloadStatus(Some([w]), contentId)
  {
  }

  /** With one ENQUEUED work and every other work finished, the priority choice is that work. */
  lemma SelectsOnlyActive(ws: seq<WorkInfo>, i: nat)
    requires i < |ws| && ws[i].state == Enqueued
    requires forall j :: 0 <= j < |ws| && j != i ==> ws[j].state.IsFinished()
    ensures SelectByPriority(ws) == Some(i)
  {
    var run := FirstInState(ws, Running);
    assert run.None?;
    var enq := FirstInState(ws, Enqueued);
    assert enq == Some(i);
  }

  /** After a (re-)queue in the plugin, the status of the content id is the new request's: PENDING, 0 of 0. */
  lemma StatusAfterQueue(reg: Registry, req: Request)
    ensures var r := QueueDownload(reg, req).0;
      GetDownloadStatus(Some(ByTag(r.works, ContentTag(req.contentId))), req.contentId)
        == Some(StatusReport("PENDING", 0, 0, req.contentId))
  {
    var r := QueueDownload(reg, req).0;
    QueueLeavesSingleActive(reg, req);
    StatusCountsFromProgress(r.works[|r.works| - 1], req.contentId);
  }

  /** After a pause nothing for the content id is reported as RUNNING or PENDING. */
  lemma StatusAfterPause(reg: Registry, contentId: string)
    ensures var r := PauseDownload(reg, contentId);
      var st := GetDownloadStatus(Some(ByTag(r.works, ContentTag(contentId))), contentId);
      st.Some? ==> st.value.status != "RUNNING" && st.value.status != "PENDING"
  {
    var tag := ContentTag(contentId);
    var r := PauseDownload(reg, contentId);
    var ws := ByTag(r.works, tag);
    forall j | 0 <= j < |ws| ensures ws[j].state.IsFinished() {
      var k :| 0 <= k < |r.works| && r.works[k] == ws[j];
    }
  }

  /** With an prior finished work listed first, the app reports it while the plugin reports the new one. */
  lemma AppStatusMayBeStale(prior: WorkInfo, newer: WorkInfo, contentId: string)
    requires prior.state == Succeeded && newer.state == Enqueued
    ensures AppGetDownloadStatus(Some([prior, newer]), contentId).value.status == "COMPLETED"
    ensures GetDownloadStatus(Some([prior, newer]), contentId).value.status == "PENDING"
  {
    var ws := [prior, newer];
    assert ws[1..] == [newer];
    SelectsOnlyActive(ws, 1);
  }
}
