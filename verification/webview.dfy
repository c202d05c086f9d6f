/**
 * The plugin's `WebViewActivity`: a login page that finishes with the
 * page's cookies and user agent once the URL reaches one of the success
 * filters, or when the user closes it. The cookie store's `getCookie`, the
 * URL's host and the browser's own history are oracles; events reach the
 * activity as a sequence.
 */
module WebView {
  import opened Wrappers
  import opened Text

  const ResultOk: int := -1
  const CookieDelimiter: char := ';'

  /** The extras of the launching intent, each absent or present. */
  datatype Extras = Extras(
    url: Option<string>,
    userAgent: Option<string>,
    successFilters: Option<seq<string>>,
    initialCookie: Option<string>)

  /** `createIntent`: the URL is always put, the other three only when given. */
  function CreateIntent(url: string, userAgent: Option<string>, successFilters: Option<seq<string>>,
                        initialCookie: Option<string>): (x: Extras)
    ensures x.url == Some(url)
  {
    Extras(Some(url), userAgent, successFilters, initialCookie)
  }

  /** `getDomainFromUrl`: the parsed host, or the raw URL when there is none or parsing throws. */
  function DomainFromUrl(url: string, hostOf: string -> Option<string>): (d: string)
    ensures hostOf(url).Some? ==> d == hostOf(url).value
    ensures hostOf(url).None? ==> d == url
  {
    match hostOf(url)
    case Some(h) => h
    case None => url
  }

  /** Each piece of `s` split on `;`, trimmed, in order. */
  function TrimmedPieces(s: string): (r: seq<string>)
    ensures |r| == |Split(s, CookieDelimiter)|
    ensures forall k :: 0 <= k < |r| ==> r[k] == Trim(Split(s, CookieDelimiter)[k])
  {
    var parts := Split(s, CookieDelimiter);
    seq(|parts|, k requires 0 <= k < |parts| => Trim(parts[k]))
  }

  /** One `CookieManager.setCookie(domain, cookie)` call. */
  datatype SetCookie = SetCookie(domain: string, cookie: string)

  /** The state of a loaded activity. */
  datatype Page = Page(url: string, userAgent: Option<string>, successFilters: seq<string>)

  /** `onCreate`: either the activity finishes at once, or it loads the URL after seeding the cookie store. */
  datatype Created =
    | FinishedWithoutResult
    | Loading(page: Page, cookiesSet: seq<SetCookie>)

  function OnCreate(x: Extras, hostOf: string -> Option<string>): (c: Created)
    ensures c.FinishedWithoutResult? <==> x.url.None?
  {
    match x.url
    case None => FinishedWithoutResult
    case Some(url) =>
      var filters := if x.successFilters.Some? then x.successFilters.value else [];
      var seeded :=
        match x.initialCookie
        case None => []
        case Some(ic) =>
          var domain := DomainFromUrl(url, hostOf);
          var pieces := TrimmedPieces(ic);
          seq(|pieces|, k requires 0 <= k < |pieces| => SetCookie(domain, pieces[k]));
      Loading(Page(url, x.userAgent, filters), seeded)
  }

  /** `checkForSuccess`: a non-null URL that contains any filter. */
  function CheckForSuccess(filters: seq<string>, url: Option<string>): (b: bool)
    ensures b <==> url.Some? && exists j :: 0 <= j < |filters| && Contains(url.value, filters[j])
  {
    url.Some? && ContainsAnyFrom(url.value, filters, 0)
  }

  /** What the activity hands back through `setResult`. */
  datatype ActivityResult = ActivityResult(code: int, cookies: Option<seq<string>>, userAgent: string)

  /** `finishWithSuccess`: the cookie extra only when the store has cookies for the URL. */
  function FinishWithSuccess(currentUrl: string, getCookie: string -> Option<string>, userAgent: string): (r: ActivityResult)
    ensures r.code == ResultOk && r.userAgent == userAgent
    ensures r.cookies.None? <==> getCookie(currentUrl).None?
  {
    match getCookie(currentUrl)
    case None => ActivityResult(ResultOk, None, userAgent)
    case Some(raw) => ActivityResult(ResultOk, Some(TrimmedPieces(raw)), userAgent)
  }

  /** What reaches the activity once it is loading. */
  datatype Event =
    | PageStarted(url: Option<string>)
    | PageFinished(url: Option<string>)
    | HomePressed(currentUrl: Option<string>)
    | OtherMenuItem
    | BackPressed(canGoBack: bool, currentUrl: Option<string>)

  datatype Reaction = Stay | GoBack | Finish(result: ActivityResult)

  /** One event, given the cookie store and the user agent the web view settled on. */
  function React(p: Page, e: Event, getCookie: string -> Option<string>, userAgent: string): Reaction {
    match e
    case PageStarted(url) =>
      if CheckForSuccess(p.successFilters, url) then Finish(FinishWithSuccess(url.value, getCookie, userAgent)) else Stay
    case PageFinished(url) =>
      if CheckForSuccess(p.successFilters, url) then Finish(FinishWithSuccess(url.value, getCookie, userAgent)) else Stay
    case HomePressed(url) =>
      Finish(FinishWithSuccess(if url.Some? then url.value else "", getCookie, userAgent))
    case OtherMenuItem => Stay
    case BackPressed(canGoBack, url) =>
      if canGoBack then GoBack
      else Finish(FinishWithSuccess(if url.Some? then url.value else "", getCookie, userAgent))
  }

  /** The result of a session: the first event that finishes the activity decides it. */
  function Session(p: Page, events: seq<Event>, getCookie: string -> Option<string>, userAgent: string): (r: Option<ActivityResult>)
    ensures r.Some? ==> r.value.code == ResultOk
  {
    if |events| == 0 then None
    else match React(p, events[0], getCookie, userAgent)
      case Finish(res) => Some(res)
      case _ => Session(p, events[1..], getCookie, userAgent)
  }

  // ---------------------------------------------------------------------
  // properties

  /** The activity reads back exactly what `createIntent` put, with an absent filter list read as empty. */
  lemma IntentRoundTrip(url: string, userAgent: Option<string>, successFilters: Option<seq<string>>,
                        hostOf: string -> Option<string>)
    ensures var c := OnCreate(CreateIntent(url, userAgent, successFilters, None), hostOf);
      && c.Loading?
      && c.page == Page(url, userAgent, if successFilters.Some? then successFilters.value else [])
      && c.cookiesSet == []
  {
  }

  /** A missing URL extra finishes the activity without any result and seeds no cookies. */
  lemma MissingUrlFinishes(x: Extras, hostOf: string -> Option<string>)
    requires x.url.None?
    ensures OnCreate(x, hostOf) == FinishedWithoutResult
  {
  }

  /** The initial cookie string becomes one `setCookie` per `;`-piece, trimmed, in order, all for the URL's domain. */
  lemma InitialCookiesSeeded(x: Extras, hostOf: string -> Option<string>)
    requires x.url.Some? && x.initialCookie.Some?
    ensures var c := OnCreate(x, hostOf);
      var parts := Split(x.initialCookie.value, CookieDelimiter);
      && c.Loading?
      && |c.cookiesSet| == |parts|
      && forall k :: 0 <= k < |parts| ==>
           c.cookiesSet[k] == SetCookie(DomainFromUrl(x.url.value, hostOf), Trim(parts[k]))
  {
  }

  /** Without an initial cookie the store is left alone. */
  lemma NoInitialCookie(x: Extras, hostOf: string -> Option<string>)
    requires x.url.Some? && x.initialCookie.None?
    ensures OnCreate(x, hostOf).Loading? && OnCreate(x, hostOf).cookiesSet == []
  {
  }

  /** An empty filter list never triggers, and no filter triggers on a null URL. */
  lemma NoFiltersNeverSucceed(filters: seq<string>, url: Option<string>)
    requires |filters| == 0 || url.None?
    ensures !CheckForSuccess(filters, url)
  {
  }

  /** A page event finishes the activity exactly when its URL matches a filter, and then with that URL's cookies. */
  lemma PageEventFinishes(p: Page, e: Event, getCookie: string -> Option<string>, userAgent: string)
    requires e.PageStarted? || e.PageFinished?
    ensures React(p, e, getCookie, userAgent).Finish? <==> CheckForSuccess(p.successFilters, e.url)
    ensures React(p, e, getCookie, userAgent).Finish? ==>
      React(p, e, getCookie, userAgent).result == FinishWithSuccess(e.url.value, getCookie, userAgent)
  {
  }

  /** Home, or back with no history, finishes with RESULT_OK whether or not any filter matched; back with history only navigates. */
  lemma ManualCloseSucceeds(p: Page, e: Event, getCookie: string -> Option<string>, userAgent: string)
    requires e.HomePressed? || (e.BackPressed? && !e.canGoBack)
    ensures React(p, e, getCookie, userAgent).Finish?
    ensures React(p, e, getCookie, userAgent).result.code == ResultOk
    ensures var u := if e.currentUrl.Some? then e.currentUrl.value else "";
      React(p, e, getCookie, userAgent).result.cookies.None? <==> getCookie(u).None?
    ensures React(p, BackPressed(true, e.currentUrl), getCookie, userAgent) == GoBack
  {
  }

  /** A cookie header joined with `;` comes back as its pieces, each trimmed, in order. */
  lemma ResultCookiesRoundTrip(parts: seq<string>, url: string, getCookie: string -> Option<string>, userAgent: string)
    requires |parts| >= 1
    requires forall k :: 0 <= k < |parts| ==> CookieDelimiter !in parts[k]
    requires getCookie(url) == Some(Join(parts, CookieDelimiter))
    ensures var r := FinishWithSuccess(url, getCookie, userAgent);
      && r.cookies.Some?
      && |r.cookies.value| == |parts|
      && forall k :: 0 <= k < |parts| ==> r.cookies.value[k] == Trim(parts[k])
  {
    SplitJoin(parts, CookieDelimiter);
  }

  /** Every returned cookie is free of `;` and of whitespace at either end. */
  lemma ResultCookiesClean(url: string, getCookie: string -> Option<string>, userAgent: string)
    ensures var r := FinishWithSuccess(url, getCookie, userAgent);
      r.cookies.Some? ==> forall k :: 0 <= k < |r.cookies.value| ==>
        var c := r.cookies.value[k];
        && CookieDelimiter !in c
        && (|c| > 0 ==> !IsWhitespace(c[0]) && !IsWhitespace(c[|c| - 1]))
  {
    var r := FinishWithSuccess(url, getCookie, userAgent);
    if r.cookies.Some? {
      var parts := Split(getCookie(url).value, CookieDelimiter);
      forall k | 0 <= k < |r.cookies.value| ensures CookieDelimiter !in r.cookies.value[k] {
        TrimKeepsAbsent(parts[k], CookieDelimiter);
      }
    }
  }

  /** A session ends with the first finishing event; events before it change nothing, and no finishing event means no result. */
  lemma {:induction false} SessionFirstFinish(p: Page, events: seq<Event>, getCookie: string -> Option<string>, userAgent: string)
    ensures var r := Session(p, events, getCookie, userAgent);
      && (r.None? <==> forall i :: 0 <= i < |events| ==> !React(p, events[i], getCookie, userAgent).Finish?)
      && (r.Some? ==>
            exists i ::
              && 0 <= i < |events|
              && React(p, events[i], getCookie, userAgent) == Finish(r.value)
              && forall j :: 0 <= j < i ==> !React(p, events[j], getCookie, userAgent).Finish?)
  {
    if |events| > 0 {
      SessionFirstFinish(p, events[1..], getCookie, userAgent);
      var r := Session(p, events, getCookie, userAgent);
      if React(p, events[0], getCookie, userAgent).Finish? {
        assert React(p, events[0], getCookie, userAgent) == Finish(r.value);
      } else {
        assert r == Session(p, events[1..], getCookie, userAgent);
        forall i | 1 <= i < |events|
          ensures React(p, events[i], getCookie, userAgent) == React(p, events[1..][i - 1], getCookie, userAgent)
        {
        }
        if r.Some? {
          var i :| 0 <= i < |events[1..]|
            && React(p, events[1..][i], getCookie, userAgent) == Finish(r.value)
            && forall j :: 0 <= j < i ==> !React(p, events[1..][j], getCookie, userAgent).Finish?;
          assert React(p, events[i + 1], getCookie, userAgent) == Finish(r.value);
          forall j | 0 <= j < i + 1 ensures !React(p, events[j], getCookie, userAgent).Finish? {
            if j > 0 {
              assert events[j] == events[1..][j - 1];
            }
          }
        }
      }
    }
  }
}
