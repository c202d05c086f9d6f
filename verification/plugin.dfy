/**
 * `KuronNativePlugin`: the `kuron_native` method channel. Calls are
 * dispatched by name; the login web view and the directory picker share one
 * pending-result slot that the activity result later answers.
 *
 * Everything the Android framework decides (the system download id,
 * whether launching an activity throws, bitmap decoding, the file write,
 * cookie clearing, system-info lookups) is a field of `Env`. A pending
 * `Result` is identified by the number of the call that left it.
 */
module Plugin {
  import opened Wrappers
  import opened Text
  import opened Channel
  import PageLoop
  import Pdf = PdfGenerator

  const WebViewRequestCode: int := 1001
  const PickDirectoryRequestCode: int := 1002
  /** `Activity.RESULT_OK`. */
  const ResultOk: int := -1
  const StorageRoot: string := "/storage/emulated/0/"

  /** The method names `onMethodCall` answers. */
  const Methods: set<string> := {"getPlatformVersion", "startDownload", "convertImagesToPdf", "openWebView",
                                 "openPdf", "showLoginWebView", "clearCookies", "getSystemInfo", "pickDirectory"}

  /** The info types `getSystemInfo` knows. */
  const InfoTypes: set<string> := {"ram", "storage", "battery"}

  datatype Value =
    | NoValue
    | Text(s: string)
    | Flag(b: bool)
    | PdfDone(pdfPath: string, pageCount: nat, fileSize: nat)
    | LoginResult(success: bool, cookies: Option<seq<string>>, userAgent: Option<string>)
    | Info(kind: string)

  datatype Reply = Success(value: Value) | Error(code: string) | NotImplemented

  /** A reply handed to the `Result` of call `to`. */
  datatype Delivery = Delivery(to: nat, reply: Reply)

  /** The plugin's own state: the pending `Result` (by call number) and whether an activity is attached. */
  datatype State = State(pending: Option<nat>, hasActivity: bool)

  /** A system download request: URL, destination below Downloads, headers, and the optional details. */
  datatype DownloadRequest = DownloadRequest(url: string, subPath: string, headers: seq<(string, string)>,
                                             title: Option<string>, description: Option<string>, mimeType: Option<string>)

  /** A progress event of the PDF conversion: image index and percent. */
  datatype ProgressEvent = ProgressEvent(index: nat, percent: int)

  datatype Env = Env(
    release: string,
    downloadId: nat,
    enqueueThrows: bool,
    launchThrows: bool,
    decode: string -> Pdf.Image,
    oom: (nat, nat) -> bool,
    add: (nat, nat) -> Pdf.PageAdd,
    write: Pdf.Write,
    cookiesCleared: Option<bool>,
    infoThrows: bool)

  /** What one call does: the next state, the immediate reply (none while it waits in the slot), and its effects. */
  datatype Outcome = Outcome(state: State, reply: Option<Reply>, download: Option<DownloadRequest>, progress: seq<ProgressEvent>)

  function Answer(st: State, r: Reply): Outcome {
    Outcome(st, Some(r), None, [])
  }

  // ---------------------------------------------------------------------
  // startDownload
  // ---------------------------------------------------------------------

  /** The destination below Downloads: `destinationDir/fileName`, or the file name alone. */
  function SubPath(destinationDir: Option<string>, fileName: string): (p: string)
    ensures EndsWith(p, fileName)
    ensures destinationDir.None? <==> p == fileName
    ensures destinationDir.Some? ==> StartsWith(p, destinationDir.value + "/")
  {
    match destinationDir
    case None => fileName
    case Some(d) =>
      var p := d + "/" + fileName;
      assert p[|p| - |fileName|..] == fileName && p[..|d| + 1] == d + "/";
      p
  }

  /** A header is added for each of cookie and user agent that was given, in that order. */
  function Headers(cookie: Option<string>, userAgent: Option<string>): (hs: seq<(string, string)>)
    ensures ("Cookie", cookie.GetOr("")) in hs <== cookie.Some?
    ensures ("User-Agent", userAgent.GetOr("")) in hs <== userAgent.Some?
    ensures |hs| == (if cookie.Some? then 1 else 0) + (if userAgent.Some? then 1 else 0)
  {
    (if cookie.Some? then [("Cookie", cookie.value)] else []) + (if userAgent.Some? then [("User-Agent", userAgent.value)] else [])
  }

  function StartDownload(st: State, args: Args, env: Env): Outcome {
    var url := ArgString(args, "url");
    var fileName := ArgString(args, "fileName");
    if url.None? || fileName.None? then Answer(st, Error("INVALID_ARGS"))
    else if env.enqueueThrows then Answer(st, Error("DOWNLOAD_FAILED"))
    else
      var request := DownloadRequest(url.value, SubPath(ArgString(args, "destinationDir"), fileName.value),
                                     Headers(ArgString(args, "cookie"), ArgString(args, "userAgent")),
                                     ArgString(args, "title"), ArgString(args, "description"), ArgString(args, "mimeType"));
      Outcome(st, Some(Success(Text(Decimal(env.downloadId)))), Some(request), [])
  }

  // ---------------------------------------------------------------------
  // convertImagesToPdf
  // ---------------------------------------------------------------------

  /** Progress events from image `i` on: one per decoded image, none for undecodable ones, none after a throw. */
  function ConvertEvents(images: seq<Pdf.Image>, i: nat): (es: seq<ProgressEvent>)
    requires i <= |images|
    decreases |images| - i
    ensures forall k :: 0 <= k < |es| ==> i <= es[k].index < |images| && images[es[k].index].Decoded?
    ensures forall k :: 0 <= k < |es| ==> es[k].percent == PageLoop.Percent(es[k].index + 1, |images|)
    ensures forall k, k' :: 0 <= k < k' < |es| ==> es[k].index < es[k'].index
  {
    if i == |images| then []
    else match images[i]
      case Broken => []
      case Undecodable => ConvertEvents(images, i + 1)
      case Decoded(_, _) =>
        var rest := ConvertEvents(images, i + 1);
        var es := [ProgressEvent(i, PageLoop.Percent(i + 1, |images|))] + rest;
        assert forall k :: 0 < k < |es| ==> es[k] == rest[k - 1];
        es
  }

  predicate HasBroken(images: seq<Pdf.Image>) {
    exists k :: 0 <= k < |images| && images[k].Broken?
  }

  /** The images the paths decode to, in order. */
  function Decode(paths: seq<string>, decode: string -> Pdf.Image): (images: seq<Pdf.Image>)
    ensures |images| == |paths| && forall k :: 0 <= k < |paths| ==> images[k] == decode(paths[k])
  {
    seq(|paths|, k requires 0 <= k < |paths| => decode(paths[k]))
  }

  function ConvertToPdf(st: State, args: Args, env: Env): Outcome {
    var paths := ArgList(args, "imagePaths");
    var outputPath := ArgString(args, "outputPath");
    if paths.None? || outputPath.None? then Answer(st, Error("INVALID_ARGS"))
    else
      var images := Decode(paths.value, env.decode);
      var events := ConvertEvents(images, 0);
      if HasBroken(images) || env.write.WriteFails? then Outcome(st, Some(Error("PDF_CONVERSION_FAILED")), None, events)
      else
        var doc := Pdf.ImagePages(images, 0, [], env.oom, env.add);
        Outcome(st, Some(Success(PdfDone(outputPath.value, Pdf.DrawnCount(doc), env.write.size))), None, events)
  }

  // ---------------------------------------------------------------------
  // The pending-result slot
  // ---------------------------------------------------------------------

  /** `handleShowLoginWebView`: URL check, then the slot, then the activity; the slot is filled before launching. */
  function ShowLogin(st: State, caller: nat, args: Args, env: Env): Outcome {
    if ArgString(args, "url").None? then Answer(st, Error("INVALID_ARGS"))
    else if st.pending.Some? then Answer(st, Error("BUSY"))
    else if !st.hasActivity then Answer(st, Error("NO_ACTIVITY"))
    else if env.launchThrows then Answer(st.(pending := None), Error("LAUNCH_FAILED"))
    else Outcome(st.(pending := Some(caller)), None, None, [])
  }

  /** `handlePickDirectory`: the activity is checked before the slot. */
  function PickDirectory(st: State, caller: nat, env: Env): Outcome {
    if !st.hasActivity then Answer(st, Error("NO_ACTIVITY"))
    else if st.pending.Some? then Answer(st, Error("BUSY"))
    else if env.launchThrows then Answer(st.(pending := None), Error("LAUNCH_FAILED"))
    else Outcome(st.(pending := Some(caller)), None, None, [])
  }

  // ---------------------------------------------------------------------
  // Dispatch
  // ---------------------------------------------------------------------

  /** `handleGetSystemInfo`: an unknown type never reaches the platform, so only a known one can fail. */
  function GetSystemInfo(st: State, args: Args, env: Env): (out: Outcome)
    ensures out.state == st
    ensures out.reply == Some(Error("SYSTEM_INFO_FAILED")) <==>
      ArgString(args, "type").Some? && ArgString(args, "type").value in InfoTypes && env.infoThrows
  {
    var kind := ArgString(args, "type");
    if kind.None? || kind.value !in InfoTypes then Answer(st, Error("INVALID_TYPE"))
    else if env.infoThrows then Answer(st, Error("SYSTEM_INFO_FAILED"))
    else Answer(st, Success(Info(kind.value)))
  }

  /** `onMethodCall`, for call number `caller`. */
  function HandleMethodCall(st: State, caller: nat, name: string, args: Args, env: Env): Outcome {
    if name == "getPlatformVersion" then Answer(st, Success(Text("Android " + env.release)))
    else if name == "startDownload" then StartDownload(st, args, env)
    else if name == "convertImagesToPdf" then ConvertToPdf(st, args, env)
    else if name == "openWebView" then
      if ArgString(args, "url").None? then Answer(st, Error("INVALID_ARGS"))
      else if env.launchThrows then Answer(st, Error("WEBVIEW_ERROR"))
      else Answer(st, Success(NoValue))
    else if name == "openPdf" then
      if ArgString(args, "filePath").None? then Answer(st, Error("INVALID_ARGUMENT"))
      else if env.launchThrows then Answer(st, Error("OPEN_PDF_FAILED"))
      else Answer(st, Success(NoValue))
    else if name == "showLoginWebView" then ShowLogin(st, caller, args, env)
    else if name == "clearCookies" then
      match env.cookiesCleared
      case None => Answer(st, Error("CLEAR_COOKIES_FAILED"))
      case Some(ok) => Answer(st, Success(Flag(ok)))
    else if name == "getSystemInfo" then GetSystemInfo(st, args, env)
    else if name == "pickDirectory" then PickDirectory(st, caller, env)
    else Answer(st, NotImplemented)
  }

  /** Exactly the names outside the table are not implemented; they change nothing. */
  lemma UnknownMethodNotImplemented(st: State, caller: nat, name: string, args: Args, env: Env)
    ensures var out := HandleMethodCall(st, caller, name, args, env);
      (out.reply == Some(NotImplemented) <==> name !in Methods)
      && (name !in Methods ==> out.state == st && out.download.None? && out.progress == [])
  {
  }

  /** Only the login and picker calls touch the slot, and a filled slot is never overwritten or cleared by a call. */
  lemma SlotKeptByCalls(st: State, caller: nat, name: string, args: Args, env: Env)
    ensures var out := HandleMethodCall(st, caller, name, args, env);
      (name !in {"showLoginWebView", "pickDirectory"} ==> out.state == st)
      && (st.pending.Some? ==> out.state == st)
      && out.state.hasActivity == st.hasActivity
  {
    if name == "showLoginWebView" {
      assert HandleMethodCall(st, caller, name, args, env) == ShowLogin(st, caller, args, env);
    } else if name == "pickDirectory" {
      assert HandleMethodCall(st, caller, name, args, env) == PickDirectory(st, caller, env);
    } else {
      OtherCallsAnswer(st, caller, name, args, env);
    }
  }

  /** Every call other than login and the picker answers at once and leaves the state alone. */
  lemma OtherCallsAnswer(st: State, caller: nat, name: string, args: Args, env: Env)
    requires name != "showLoginWebView" && name != "pickDirectory"
    ensures var out := HandleMethodCall(st, caller, name, args, env);
      out.state == st && out.reply.Some?
  {
    var out := HandleMethodCall(st, caller, name, args, env);
    if name == "startDownload" {
      assert out == StartDownload(st, args, env);
    } else if name == "convertImagesToPdf" {
      assert out == ConvertToPdf(st, args, env);
    } else if name == "getSystemInfo" {
      assert out == GetSystemInfo(st, args, env);
    }
  }

  /** A call is left waiting in the slot exactly when it launched an activity without a throw. */
  lemma SlotFilledOnLaunch(st: State, caller: nat, name: string, args: Args, env: Env)
    ensures var out := HandleMethodCall(st, caller, name, args, env);
      (out.reply.None? <==> out.state.pending == Some(caller) && st.pending.None?)
      && (out.reply.None? <==>
            st.pending.None? && st.hasActivity && !env.launchThrows
            && (name == "pickDirectory" || (name == "showLoginWebView" && ArgString(args, "url").Some?)))
  {
    if name == "showLoginWebView" {
      assert HandleMethodCall(st, caller, name, args, env) == ShowLogin(st, caller, args, env);
    } else if name == "pickDirectory" {
      assert HandleMethodCall(st, caller, name, args, env) == PickDirectory(st, caller, env);
    } else {
      OtherCallsAnswer(st, caller, name, args, env);
    }
  }

  /** With the slot taken, login (given a URL) and the picker (given an activity) answer BUSY. */
  lemma BusyWhilePending(st: State, caller: nat, args: Args, env: Env)
    requires st.pending.Some?
    ensures ArgString(args, "url").Some? ==> ShowLogin(st, caller, args, env).reply == Some(Error("BUSY"))
    ensures st.hasActivity ==> PickDirectory(st, caller, env).reply == Some(Error("BUSY"))
    ensures !st.hasActivity ==> PickDirectory(st, caller, env).reply == Some(Error("NO_ACTIVITY"))
  {
  }

  /** startDownload: INVALID_ARGS exactly without URL or file name; otherwise the request lands at the sub-path. */
  lemma StartDownloadArgs(st: State, args: Args, env: Env)
    ensures var out := StartDownload(st, args, env);
      (out.reply == Some(Error("INVALID_ARGS")) <==> ArgString(args, "url").None? || ArgString(args, "fileName").None?)
      && (out.download.Some? <==> out.reply.Some? && out.reply.value.Success?)
      && (out.download.Some? ==>
            out.download.value.url == ArgString(args, "url").value
            && EndsWith(out.download.value.subPath, ArgString(args, "fileName").value)
            && (ArgString(args, "destinationDir").None? <==> out.download.value.subPath == ArgString(args, "fileName").value)
            && out.reply == Some(Success(Text(Decimal(env.downloadId)))))
  {
  }

  /** convertImagesToPdf: INVALID_ARGS exactly without list or output path; success exactly when nothing threw. */
  lemma ConvertOutcome(st: State, args: Args, env: Env)
    ensures var out := ConvertToPdf(st, args, env);
      (out.reply == Some(Error("INVALID_ARGS")) <==> ArgList(args, "imagePaths").None? || ArgString(args, "outputPath").None?)
    ensures var out := ConvertToPdf(st, args, env);
      ArgList(args, "imagePaths").Some? && ArgString(args, "outputPath").Some? ==>
        var images := Decode(ArgList(args, "imagePaths").value, env.decode);
        (out.reply.value.Success? <==> !HasBroken(images) && env.write.Written?)
        && (out.reply.value.Success? ==>
              out.reply.value.value == PdfDone(ArgString(args, "outputPath").value,
                                                Pdf.DrawnCount(Pdf.ImagePages(images, 0, [], env.oom, env.add)), env.write.size))
  {
  }

  /** Events come only for decoded images, as `(index + 1) * 100 / total`, within 0..100 and never decreasing. */
  lemma ConvertEventsScaled(images: seq<Pdf.Image>)
    ensures var es := ConvertEvents(images, 0);
      (forall k :: 0 <= k < |es| ==> 0 <= es[k].percent <= 100)
      && (forall k :: 0 <= k < |es| - 1 ==> es[k].percent <= es[k + 1].percent)
  {
    var es := ConvertEvents(images, 0);
    forall k | 0 <= k < |es| - 1 ensures es[k].percent <= es[k + 1].percent {
      PageLoop.PercentMonotone(es[k].index + 1, es[k + 1].index + 1, |images|);
    }
  }

  /** Every decoded image before the first throw gets its event; a decoded last image reports 100. */
  lemma {:induction false} ConvertEventsComplete(images: seq<Pdf.Image>, i: nat, j: nat)
    requires i <= j < |images| && images[j].Decoded?
    requires forall k :: i <= k < j ==> !images[k].Broken?
    decreases |images| - i
    ensures ProgressEvent(j, PageLoop.Percent(j + 1, |images|)) in ConvertEvents(images, i)
  {
    var rest := ConvertEvents(images, i + 1);
    var e := ProgressEvent(i, PageLoop.Percent(i + 1, |images|));
    if i < j {
      ConvertEventsComplete(images, i + 1, j);
    }
    if images[i].Decoded? {
      assert ConvertEvents(images, i) == [e] + rest;
    } else {
      assert ConvertEvents(images, i) == rest;
    }
  }

  // ---------------------------------------------------------------------
  // onActivityResult
  // ---------------------------------------------------------------------

  /** A content URI: its path (may be null) and its string form. */
  datatype Uri = Uri(path: Option<string>, text: string)

  /** The result intent's extras: the login cookies and user agent, the picked URI. */
  datatype Intent = Intent(cookies: Option<seq<string>>, userAgent: Option<string>, uri: Option<Uri>)

  /** The first two rewrite rules: `primary:` anywhere, or a `tree/` path with `primary%3A`. */
  function RewriteFirst(path: Option<string>): Option<string> {
    match path
    case None => None
    case Some(p) =>
      if Contains(p, "primary:") then Some(StorageRoot + SubstringAfter(p, "primary:"))
      else if Contains(p, "tree/") && Contains(p, "primary%3A") then Some(StorageRoot + SubstringAfter(p, "primary%3A"))
      else path
  }

  /** The clean-up rule: a path still starting with `/tree/` and holding `primary:`. */
  function RewriteTree(path: Option<string>): Option<string> {
    match path
    case None => None
    case Some(p) =>
      if StartsWith(p, "/tree/") && Contains(p, "primary:") then Some(StorageRoot + SubstringAfter(p, "primary:"))
      else path
  }

  /** The picked directory's reported path: the rewritten path, or the URI's string when the path is null. */
  function PickedPath(uri: Uri): string {
    RewriteTree(RewriteFirst(uri.path)).GetOr(uri.text)
  }

  /** `onActivityResult`: whether it handled the code, the next state, and the reply to the pending call. */
  function OnActivityResult(st: State, requestCode: int, resultCode: int, data: Option<Intent>): (State, bool, Option<Delivery>)
  {
    if requestCode == WebViewRequestCode then
      if st.pending.None? then (st, true, None)
      else
        var reply :=
          if resultCode == ResultOk && data.Some? then Success(LoginResult(true, data.value.cookies, data.value.userAgent))
          else Success(LoginResult(false, None, None));
        (st.(pending := None), true, Some(Delivery(st.pending.value, reply)))
    else if requestCode == PickDirectoryRequestCode then
      if st.pending.None? then (st, true, None)
      else
        var reply :=
          if resultCode == ResultOk && data.Some? then
            match data.value.uri
            case None => Error("NO_URI")
            case Some(uri) => Success(Text(PickedPath(uri)))
          else Success(NoValue);
        (st.(pending := None), true, Some(Delivery(st.pending.value, reply)))
    else (st, false, None)
  }

  /**
   * Codes 1001 and 1002 are handled and leave the slot empty, answering
   * whoever waited in it; any other code is not handled and changes nothing.
   */
  lemma ActivityResultHandling(st: State, requestCode: int, resultCode: int, data: Option<Intent>)
    ensures var (st', handled, delivery) := OnActivityResult(st, requestCode, resultCode, data);
      (handled <==> requestCode in {WebViewRequestCode, PickDirectoryRequestCode})
      && (handled ==> st'.pending.None?)
      && (!handled ==> st' == st && delivery.None?)
      && (delivery.Some? <==> handled && st.pending.Some?)
      && (delivery.Some? ==> delivery.value.to == st.pending.value)
      && st'.hasActivity == st.hasActivity
  {
  }

  /** The login call learns success exactly for RESULT_OK with data, and then gets the intent's cookies and user agent. */
  lemma LoginResultSuccess(st: State, resultCode: int, data: Option<Intent>)
    requires st.pending.Some?
    ensures var (_, _, delivery) := OnActivityResult(st, WebViewRequestCode, resultCode, data);
      delivery.Some? && delivery.value.reply.Success? && delivery.value.reply.value.LoginResult?
      && (delivery.value.reply.value.success <==> resultCode == ResultOk && data.Some?)
      && (delivery.value.reply.value.success ==>
            delivery.value.reply.value.cookies == data.value.cookies
            && delivery.value.reply.value.userAgent == data.value.userAgent)
  {
  }

  /** A path with `primary:` maps to the storage root plus the text after its first `primary:`. */
  lemma PrimaryPathRewrite(uri: Uri)
    requires uri.path.Some? && Contains(uri.path.value, "primary:")
    ensures PickedPath(uri) == StorageRoot + SubstringAfter(uri.path.value, "primary:")
  {
    RewriteTreeNoOp(RewriteFirst(uri.path), uri.path);
  }

  /** Otherwise a `tree/` path with `primary%3A` maps the same way on the encoded form. */
  lemma EncodedPathRewrite(uri: Uri)
    requires uri.path.Some? && !Contains(uri.path.value, "primary:")
    requires Contains(uri.path.value, "tree/") && Contains(uri.path.value, "primary%3A")
    ensures PickedPath(uri) == StorageRoot + SubstringAfter(uri.path.value, "primary%3A")
  {
    RewriteTreeNoOp(RewriteFirst(uri.path), uri.path);
  }

  /** Any other path is reported unchanged, and a null path falls back to the URI's string. */
  lemma OtherPathKept(uri: Uri)
    requires uri.path.None? || (!Contains(uri.path.value, "primary:")
                                && !(Contains(uri.path.value, "tree/") && Contains(uri.path.value, "primary%3A")))
    ensures PickedPath(uri) == if uri.path.None? then uri.text else uri.path.value
  {
    RewriteTreeNoOp(RewriteFirst(uri.path), uri.path);
  }

  /**
   * The clean-up rule never fires: after the first two rules a path either
   * starts with the storage root, or is the original path, which then holds
   * no `primary:`.
   */
  lemma RewriteTreeNoOp(p1: Option<string>, path: Option<string>)
    requires p1 == RewriteFirst(path)
    ensures RewriteTree(p1) == p1
  {
    match path
    case None =>
    case Some(p) =>
      if Contains(p, "primary:") {
        RootedNotTree(SubstringAfter(p, "primary:"));
      } else if Contains(p, "tree/") && Contains(p, "primary%3A") {
        RootedNotTree(SubstringAfter(p, "primary%3A"));
      } else {
        assert p1 == path;
      }
  }

  /** A path under the storage root does not start with `/tree/`. */
  lemma RootedNotTree(rest: string)
    ensures !StartsWith(StorageRoot + rest, "/tree/")
  {
    var q := StorageRoot + rest;
    assert q[1] == 's';
  }

  /** getSystemInfo: INVALID_TYPE exactly for a type outside ram, storage and battery (a null type included). */
  lemma SystemInfoTypes(st: State, args: Args, env: Env)
    ensures var out := GetSystemInfo(st, args, env);
      out.reply == Some(Error("INVALID_TYPE")) <==> ArgString(args, "type").None? || ArgString(args, "type").value !in InfoTypes
    ensures var out := GetSystemInfo(st, args, env);
      (out.reply.Some? && out.reply.value.Success?) <==>
        ArgString(args, "type").Some? && ArgString(args, "type").value in InfoTypes && !env.infoThrows
    ensures var out := GetSystemInfo(st, args, env);
      out.reply.Some? && out.reply.value.Success? ==> out.reply.value == Success(Info(ArgString(args, "type").value))
  {
  }
}
