/**
 * The plugin's `DownloadHandler`: the progress event stream built from the
 * registry, the method-channel dispatch, and the storage search behind
 * "downloaded files", "download path", "delete" and "count".
 */
module DownloadHandler {
  import opened Wrappers
  import opened Text
  import opened FileSystem
  import opened Work
  import Cookies
  import opened Channel
  import NativeWorker
  import DownloadManager
  import PageLoop

  // ---------------------------------------------------------------------
  // Progress events
  // ---------------------------------------------------------------------

  datatype Event = Event(contentId: string, downloadedPages: int, totalPages: int, status: string)

  /** The event status of a state: anything but RUNNING, SUCCEEDED or FAILED reads as PENDING. */
  function EventStatus(s: State): (name: string)
    ensures s == Running <==> name == "RUNNING"
    ensures s == Succeeded <==> name == "COMPLETED"
    ensures s == Failed <==> name == "FAILED"
    ensures s == Enqueued || s == Blocked || s == Cancelled <==> name == "PENDING"
  {
    match s
    case Running => "RUNNING"
    case Succeeded => "COMPLETED"
    case Failed => "FAILED"
    case _ => "PENDING"
  }

  /** The content id a work carries under `key`: progress first, then output. */
  function ContentIdOf(w: WorkInfo, key: string): (r: Option<string>)
    ensures r.Some? <==> GetString(w.progress, key).Some? || GetString(w.output, key).Some?
    ensures GetString(w.progress, key).Some? ==> r == GetString(w.progress, key)
  {
    OrElse(GetString(w.progress, key), GetString(w.output, key))
  }

  /** Counts come from the output of a SUCCEEDED work and from the progress otherwise. */
  function CountSource(w: WorkInfo): Data {
    if w.state == Succeeded then w.output else w.progress
  }

  /** The event one work item yields in one registry update, if any; `key` is where the id is read. */
  function EventFor(w: WorkInfo, key: string): (e: Option<Event>)
    ensures e.Some? <==>
      ContentIdOf(w, key).Some?
      && (GetInt(CountSource(w), "totalCount", 0) > 0 || w.state == Succeeded)
    ensures e.Some? ==>
      e.value == Event(ContentIdOf(w, key).value,
                       GetInt(CountSource(w), "downloadedCount", 0),
                       GetInt(CountSource(w), "totalCount", 0),
                       EventStatus(w.state))
  {
    match ContentIdOf(w, key)
    case None => None
    case Some(cid) =>
      var status := EventStatus(w.state);
      var src := CountSource(w);
      var downloaded := GetInt(src, "downloadedCount", 0);
      var total := GetInt(src, "totalCount", 0);
      if total > 0 || status == "COMPLETED" then Some(Event(cid, downloaded, total, status)) else None
  }

  /** The events one registry update yields, in registry order. */
  function Events(ws: seq<WorkInfo>, key: string): (es: seq<Event>)
    ensures |es| <= |ws|
  {
    if |ws| == 0 then []
    else
      (match EventFor(ws[0], key) case None => [] case Some(e) => [e]) + Events(ws[1..], key)
  }

  /** Every item is judged on its own: no state carries across items, nothing is deduplicated. */
  lemma {:induction false} EventsAppend(a: seq<WorkInfo>, b: seq<WorkInfo>, key: string)
    ensures Events(a + b, key) == Events(a, key) + Events(b, key)
  {
    if |a| == 0 {
      assert a + b == b;
    } else {
      assert (a + b)[0] == a[0];
      assert (a + b)[1..] == a[1..] + b;
      EventsAppend(a[1..], b, key);
    }
  }

  /** An item yields an event of the update exactly when its own filter lets it through. */
  lemma {:induction false} EventsMembership(ws: seq<WorkInfo>, key: string, e: Event)
    ensures e in Events(ws, key) <==> exists k :: 0 <= k < |ws| && EventFor(ws[k], key) == Some(e)
  {
    if |ws| > 0 {
      EventsMembership(ws[1..], key, e);
      if e in Events(ws[1..], key) {
        var k :| 0 <= k < |ws[1..]| && EventFor(ws[1..][k], key) == Some(e);
        assert EventFor(ws[k + 1], key) == Some(e);
      }
      if exists k :: 0 <= k < |ws| && EventFor(ws[k], key) == Some(e) {
        var k :| 0 <= k < |ws| && EventFor(ws[k], key) == Some(e);
        if k > 0 { assert ws[1..][k - 1] == ws[k]; }
      }
    }
  }

  /** A running plugin worker's progress report reaches the stream as a RUNNING event with its counts. */
  lemma RunningProgressEmitted(w: WorkInfo, r: PageLoop.Report, contentId: string)
    requires w.state == Running && w.progress == NativeWorker.ProgressData(r, contentId)
    requires r.totalCount > 0
    ensures EventFor(w, NativeWorker.KeyContentId)
         == Some(Event(contentId, r.downloadedCount, r.totalCount, "RUNNING"))
  {
    NativeWorker.ProgressDataFields(r, contentId);
  }

  /** A succeeded plugin worker reaches the stream as COMPLETED with n of n pages, read from its output. */
  lemma SucceededOutputEmitted(w: WorkInfo, contentId: string, n: nat)
    requires w.state == Succeeded && w.progress == map[] && w.output == NativeWorker.SuccessOutput(contentId, n)
    ensures EventFor(w, NativeWorker.KeyContentId) == Some(Event(contentId, n, n, "COMPLETED"))
  {
  }

  /** A queued work has no progress yet, so it yields no event until the first report. */
  lemma QueuedWorkSilent(w: WorkInfo)
    requires w.state == Enqueued && w.progress == map[] && w.output == map[]
    ensures EventFor(w, NativeWorker.KeyContentId).None?
  {
  }

  // ---------------------------------------------------------------------
  // Storage search
  // ---------------------------------------------------------------------

  /** The filesystem, the listing order, the custom root from preferences and public Downloads. */
  datatype Storage = Storage(fs: Fs, listing: Listing, customRoot: Option<string>, downloads: string)

  /** The roots searched, in order: the custom root when one is set, then public Downloads. */
  function Bases(st: Storage): (bs: seq<string>)
    ensures |bs| >= 1 && bs[|bs| - 1] == st.downloads
    ensures st.customRoot.Some? ==> bs[0] == st.customRoot.value
  {
    (if st.customRoot.Some? then [st.customRoot.value] else []) + [st.downloads]
  }

  /** The `nhasix/<source>/<id>` test over the listed source directories, first match wins. */
  function FirstSourceMatch(fs: Fs, nhasix: string, names: seq<string>, contentId: string): Option<string>
  {
    if |names| == 0 then None
    else
      var sourceDir := Child(nhasix, names[0]);
      var contentDir := Child(sourceDir, contentId);
      if IsDirectory(fs, sourceDir) && Exists(fs, contentDir) then Some(contentDir)
      else FirstSourceMatch(fs, nhasix, names[1..], contentId)
  }

  /** One root: the standard layout, then the legacy `nhasix/<id>`, then `<root>/<id>`. */
  function SearchBase(st: Storage, base: string, contentId: string): Option<string> {
    if !Exists(st.fs, base) then None
    else
      var nhasix := Child(base, "nhasix");
      var standard :=
        if Exists(st.fs, nhasix) then FirstSourceMatch(st.fs, nhasix, ListFiles(st.fs, st.listing, nhasix).GetOr([]), contentId)
        else None;
      if standard.Some? then standard
      else if Exists(st.fs, nhasix) && Exists(st.fs, Child(nhasix, contentId)) then Some(Child(nhasix, contentId))
      else if Exists(st.fs, Child(base, contentId)) then Some(Child(base, contentId))
      else None
  }

  function SearchBases(st: Storage, bases: seq<string>, contentId: string): Option<string> {
    if |bases| == 0 then None
    else OrElse(SearchBase(st, bases[0], contentId), SearchBases(st, bases[1..], contentId))
  }

  /** `getDownloadPathForContent`. */
  function FindContentDir(st: Storage, contentId: string): Option<string> {
    SearchBases(st, Bases(st), contentId)
  }

  // The same search stated as "the first existing path of one candidate list".

  /** The first path of `ps` that exists. */
  function FirstExisting(fs: Fs, ps: seq<string>): (r: Option<string>)
    ensures r.Some? ==> Exists(fs, r.value) && r.value in ps
    ensures r.None? <==> forall k :: 0 <= k < |ps| ==> !Exists(fs, ps[k])
    ensures r.Some? ==> exists k :: 0 <= k < |ps| && ps[k] == r.value && forall j :: 0 <= j < k ==> !Exists(fs, ps[j])
  {
    if |ps| == 0 then None
    else if Exists(fs, ps[0]) then Some(ps[0])
    else
      var r := FirstExisting(fs, ps[1..]);
      assert r.Some? ==> exists k :: 0 <= k < |ps| && ps[k] == r.value && forall j :: 0 <= j < k ==> !Exists(fs, ps[j]) by {
        if r.Some? {
          var k :| 0 <= k < |ps[1..]| && ps[1..][k] == r.value && forall j :: 0 <= j < k ==> !Exists(fs, ps[1..][j]);
          assert ps[k + 1] == r.value;
          assert forall j :: 0 < j < k + 1 ==> ps[j] == ps[1..][j - 1];
        }
      }
      r
  }

  lemma {:induction false} FirstExistingAppend(fs: Fs, a: seq<string>, b: seq<string>)
    ensures FirstExisting(fs, a + b) == OrElse(FirstExisting(fs, a), FirstExisting(fs, b))
  {
    if |a| == 0 {
      assert a + b == b;
    } else {
      assert (a + b)[0] == a[0];
      assert (a + b)[1..] == a[1..] + b;
      FirstExistingAppend(fs, a[1..], b);
    }
  }

  /** Content directories under the listed source directories, in listing order. */
  function SourceCandidates(fs: Fs, nhasix: string, names: seq<string>, contentId: string): seq<string> {
    if |names| == 0 then []
    else
      (if IsDirectory(fs, Child(nhasix, names[0])) then [Child(Child(nhasix, names[0]), contentId)] else [])
      + SourceCandidates(fs, nhasix, names[1..], contentId)
  }

  /** Every path one root contributes, in the order they are tried. */
  function BaseCandidates(st: Storage, base: string, contentId: string): seq<string> {
    if !Exists(st.fs, base) then []
    else
      var nhasix := Child(base, "nhasix");
      (if Exists(st.fs, nhasix)
       then SourceCandidates(st.fs, nhasix, ListFiles(st.fs, st.listing, nhasix).GetOr([]), contentId) + [Child(nhasix, contentId)]
       else [])
      + [Child(base, contentId)]
  }

  function CandidatesOf(st: Storage, bases: seq<string>, contentId: string): seq<string> {
    if |bases| == 0 then [] else BaseCandidates(st, bases[0], contentId) + CandidatesOf(st, bases[1..], contentId)
  }

  function Candidates(st: Storage, contentId: string): seq<string> {
    CandidatesOf(st, Bases(st), contentId)
  }

  lemma {:induction false} SourceMatchIsFirstExisting(fs: Fs, nhasix: string, names: seq<string>, contentId: string)
    ensures FirstSourceMatch(fs, nhasix, names, contentId) == FirstExisting(fs, SourceCandidates(fs, nhasix, names, contentId))
  {
    if |names| > 0 {
      SourceMatchIsFirstExisting(fs, nhasix, names[1..], contentId);
      var head := if IsDirectory(fs, Child(nhasix, names[0])) then [Child(Child(nhasix, names[0]), contentId)] else [];
      FirstExistingAppend(fs, head, SourceCandidates(fs, nhasix, names[1..], contentId));
    }
  }

  lemma SearchBaseIsFirstExisting(st: Storage, base: string, contentId: string)
    ensures SearchBase(st, base, contentId) == FirstExisting(st.fs, BaseCandidates(st, base, contentId))
  {
    if Exists(st.fs, base) {
      var nhasix := Child(base, "nhasix");
      if Exists(st.fs, nhasix) {
        var names := ListFiles(st.fs, st.listing, nhasix).GetOr([]);
        var sc := SourceCandidates(st.fs, nhasix, names, contentId);
        SourceMatchIsFirstExisting(st.fs, nhasix, names, contentId);
        FirstExistingAppend(st.fs, sc, [Child(nhasix, contentId)]);
        FirstExistingAppend(st.fs, sc + [Child(nhasix, contentId)], [Child(base, contentId)]);
      }
    }
  }

  lemma {:induction false} SearchBasesIsFirstExisting(st: Storage, bases: seq<string>, contentId: string)
    ensures SearchBases(st, bases, contentId) == FirstExisting(st.fs, CandidatesOf(st, bases, contentId))
  {
    if |bases| > 0 {
      SearchBaseIsFirstExisting(st, bases[0], contentId);
      SearchBasesIsFirstExisting(st, bases[1..], contentId);
      FirstExistingAppend(st.fs, BaseCandidates(st, bases[0], contentId), CandidatesOf(st, bases[1..], contentId));
    }
  }

  /**
   * The search returns the first candidate that exists, and null exactly
   * when no candidate exists.
   */
  lemma FindIsFirstExisting(st: Storage, contentId: string)
    ensures FindContentDir(st, contentId) == FirstExisting(st.fs, Candidates(st, contentId))
    ensures FindContentDir(st, contentId).None? <==>
      forall k :: 0 <= k < |Candidates(st, contentId)| ==> !Exists(st.fs, Candidates(st, contentId)[k])
    ensures FindContentDir(st, contentId).Some? ==> Exists(st.fs, FindContentDir(st, contentId).value)
  {
    SearchBasesIsFirstExisting(st, Bases(st), contentId);
  }

  lemma {:induction false} SourceCandidatesContain(fs: Fs, nhasix: string, names: seq<string>, contentId: string, k: nat)
    requires k < |names| && IsDirectory(fs, Child(nhasix, names[k]))
    ensures Child(Child(nhasix, names[k]), contentId) in SourceCandidates(fs, nhasix, names, contentId)
  {
    if k > 0 {
      SourceCandidatesContain(fs, nhasix, names[1..], contentId, k - 1);
    }
  }

  lemma {:induction false} CandidatesOfContain(st: Storage, bases: seq<string>, contentId: string, k: nat, p: string)
    requires k < |bases| && p in BaseCandidates(st, bases[k], contentId)
    ensures p in CandidatesOf(st, bases, contentId)
  {
    if k > 0 {
      CandidatesOfContain(st, bases[1..], contentId, k - 1, p);
    }
  }

  /**
   * What the worker writes by default is found: a content directory under
   * `Downloads/nhasix/<source>/` whose source directory is listed.
   */
  lemma WorkerDefaultLayoutFound(st: Storage, sourceId: string, contentId: string)
    requires var nhasix := Child(st.downloads, "nhasix");
      Exists(st.fs, st.downloads) && IsDirectory(st.fs, nhasix)
      && nhasix in st.listing && sourceId in st.listing[nhasix]
      && IsDirectory(st.fs, Child(nhasix, sourceId))
      && Exists(st.fs, Child(Child(nhasix, sourceId), contentId))
    ensures FindContentDir(st, contentId).Some?
  {
    var nhasix := Child(st.downloads, "nhasix");
    var names := st.listing[nhasix];
    var k :| 0 <= k < |names| && names[k] == sourceId;
    var p := Child(Child(nhasix, sourceId), contentId);
    SourceCandidatesContain(st.fs, nhasix, names, contentId, k);
    assert p in BaseCandidates(st, st.downloads, contentId);
    var bs := Bases(st);
    CandidatesOfContain(st, bs, contentId, |bs| - 1, p);
    FindIsFirstExisting(st, contentId);
    var c := Candidates(st, contentId);
    var i :| 0 <= i < |c| && c[i] == p;
  }

  // ---------------------------------------------------------------------
  // Downloaded files, count
  // ---------------------------------------------------------------------

  /** `filter { it.isFile && it.extension == "jpg" }` over a directory's entry names. */
  function JpgFiles(fs: Fs, dir: string, names: seq<string>): (r: seq<string>)
    ensures |r| <= |names|
    ensures forall x :: x in r <==> x in names && IsFile(fs, Child(dir, x)) && Extension(x) == "jpg"
    ensures forall x :: multiset(r)[x] == if IsFile(fs, Child(dir, x)) && Extension(x) == "jpg" then multiset(names)[x] else 0
  {
    if |names| == 0 then []
    else
      assert names == [names[0]] + names[1..];
      (if IsFile(fs, Child(dir, names[0])) && Extension(names[0]) == "jpg" then [names[0]] else [])
      + JpgFiles(fs, dir, names[1..])
  }

  /** The page names `getDownloadedFilesList` reports, sorted by name; empty when nothing is found. */
  function DownloadedNames(st: Storage, contentId: string): seq<string> {
    match FindContentDir(st, contentId)
    case None => []
    case Some(dir) =>
      var images := Child(dir, "images");
      if !Exists(st.fs, images) then []
      else
        match ListFiles(st.fs, st.listing, images)
        case None => []
        case Some(names) => SortLex(JpgFiles(st.fs, images, names))
  }

  /** `getDownloadedFilesList`: the absolute paths of the sorted names. */
  function DownloadedFiles(st: Storage, contentId: string): (r: seq<string>)
    ensures |r| == |DownloadedNames(st, contentId)|
    ensures FindContentDir(st, contentId).None? ==> r == []
    ensures FindContentDir(st, contentId).Some? ==>
      forall k :: 0 <= k < |r| ==>
        r[k] == Child(Child(FindContentDir(st, contentId).value, "images"), DownloadedNames(st, contentId)[k])
  {
    var names := DownloadedNames(st, contentId);
    match FindContentDir(st, contentId)
    case None => []
    case Some(dir) => seq(|names|, k requires 0 <= k < |names| => Child(Child(dir, "images"), names[k]))
  }

  /** The listing is sorted by name and holds exactly the jpg regular files of `images`. */
  lemma DownloadedNamesSpec(st: Storage, contentId: string)
    requires FindContentDir(st, contentId).Some?
    ensures var images := Child(FindContentDir(st, contentId).value, "images");
      var names := DownloadedNames(st, contentId);
      SortedLex(names)
      && (IsDirectory(st.fs, images) ==>
            var listed := if images in st.listing then st.listing[images] else [];
            forall x :: multiset(names)[x] ==
              if IsFile(st.fs, Child(images, x)) && Extension(x) == "jpg" then multiset(listed)[x] else 0)
      && (!IsDirectory(st.fs, images) ==> names == [])
  {
  }

  /** `countFiles`: the length of the same list. */
  function CountFiles(st: Storage, contentId: string): (n: nat)
    ensures n == |DownloadedFiles(st, contentId)|
    ensures FindContentDir(st, contentId).None? ==> n == 0
  {
    |DownloadedNames(st, contentId)|
  }

  // Page order. Names of up to 999 pages sort in page order; the 1000th does not.

  lemma DigitCharOrder(a: nat, b: nat)
    requires a < 10 && b < 10
    ensures DigitChar(a) < DigitChar(b) <==> a < b
    ensures DigitChar(a) == DigitChar(b) <==> a == b
  {
  }

  /** Three characters then a common suffix compare as the three characters do. */
  lemma LexTriple(x: string, y: string, suffix: string)
    requires |x| == 3 && |y| == 3
    ensures LexLe(x + suffix, y + suffix) <==>
      x[0] < y[0] || (x[0] == y[0] && (x[1] < y[1] || (x[1] == y[1] && x[2] <= y[2])))
  {
    var a := x + suffix;
    var b := y + suffix;
    assert a[1..] == x[1..] + suffix && b[1..] == y[1..] + suffix;
    assert a[1..][1..] == [x[2]] + suffix && b[1..][1..] == [y[2]] + suffix;
    assert a[1..][1..][1..] == suffix && b[1..][1..][1..] == suffix;
    LexReflexive(suffix);
    LexStep(a, b);
    LexStep(a[1..], b[1..]);
    LexStep(a[1..][1..], b[1..][1..]);
  }

  lemma LexStep(a: string, b: string)
    requires |a| > 0 && |b| > 0
    ensures LexLe(a, b) <==> a[0] < b[0] || (a[0] == b[0] && LexLe(a[1..], b[1..]))
  {
  }

  /** Hundreds, tens and units compared in that order is the numeric order. */
  lemma DigitsOrder(m: nat, n: nat)
    requires m < 1000 && n < 1000
    ensures (m / 100 < n / 100 || (m / 100 == n / 100 && (m / 10 % 10 < n / 10 % 10
              || (m / 10 % 10 == n / 10 % 10 && m % 10 <= n % 10)))) <==> m <= n
  {
    var a1, b1, c1 := m / 100, m / 10 % 10, m % 10;
    var a2, b2, c2 := n / 100, n / 10 % 10, n % 10;
    assert m == 100 * a1 + 10 * b1 + c1;
    assert n == 100 * a2 + 10 * b2 + c2;
  }

  /** Comparing three-digit padded numbers followed by a common suffix is comparing the numbers. */
  lemma Pad3Order(m: nat, n: nat, suffix: string)
    requires m < 1000 && n < 1000
    ensures LexLe(PadStart(Decimal(m), 3, '0') + suffix, PadStart(Decimal(n), 3, '0') + suffix) <==> m <= n
  {
    var x := PadStart(Decimal(m), 3, '0');
    var y := PadStart(Decimal(n), 3, '0');
    Pad3Digits(m);
    Pad3Digits(n);
    var a1, b1, c1 := m / 100, m / 10 % 10, m % 10;
    var a2, b2, c2 := n / 100, n / 10 % 10, n % 10;
    assert x == [DigitChar(a1), DigitChar(b1), DigitChar(c1)];
    assert y == [DigitChar(a2), DigitChar(b2), DigitChar(c2)];
    DigitCharOrder(a1, a2);
    DigitCharOrder(b1, b2);
    DigitCharOrder(c1, c2);
    LexTriple(x, y, suffix);
    DigitsOrder(m, n);
  }

  lemma {:induction false} LexReflexive(s: string)
    ensures LexLe(s, s)
  {
    if |s| > 0 {
      LexReflexive(s[1..]);
    }
  }

  /** For galleries of up to 999 pages, name order is page order. */
  lemma PageNamesSortInPageOrder(a: nat, b: nat)
    requires a < 999 && b < 999
    ensures LexLe(NativeWorker.PageFileName(a), NativeWorker.PageFileName(b)) <==> a <= b
  {
    var pa := PadStart(Decimal(a + 1), 3, '0') + ".jpg";
    var pb := PadStart(Decimal(b + 1), 3, '0') + ".jpg";
    assert LexLe(pa, pb) <==> a <= b by {
      Pad3Order(a + 1, b + 1, ".jpg");
    }
    assert NativeWorker.PageFileName(a) == "page_" + pa;
    assert NativeWorker.PageFileName(b) == "page_" + pb;
    LexCommonPrefix("page_", pa, pb);
  }

  lemma DecimalSamples()
    ensures Decimal(1000) == "1000" && Decimal(101) == "101"
  {
    assert Decimal(1) == "1";
    assert Decimal(10) == "10";
    assert Decimal(100) == "100";
  }

  /**
   * Index 999 is named `page_1000.jpg` and index 100 `page_101.jpg`: the two
   * names agree on `page_10` and differ in the eighth character.
   */
  lemma PageNamesDiffer(last: nat, early: nat)
    requires last == 999 && early == 100
    ensures FirstDifference(NativeWorker.PageFileName(last), NativeWorker.PageFileName(early), 7)
  {
    var da := PadStart(Decimal(last + 1), 3, '0');
    var db := PadStart(Decimal(early + 1), 3, '0');
    DecimalSamples();
    assert da == "1000" && db == "101";
    var a, b := "page_" + da + ".jpg", "page_" + db + ".jpg";
    assert NativeWorker.PageFileName(last) == a && NativeWorker.PageFileName(early) == b;
    assert a[..7] == "page_" + da[..2] && b[..7] == "page_" + db[..2];
    assert a[7] == da[2] && b[7] == db[2];
  }

  /** `a` and `b` agree before position `i`, where `a` has the smaller character. */
  predicate FirstDifference(a: string, b: string, i: nat) {
    i < |a| && i < |b| && a[..i] == b[..i] && a[i] < b[i]
  }

  /** Past 999 pages the order breaks: page 1000 (index 999) is listed before page 101 (index 100). */
  lemma PageOrderBreaksPast999(last: nat, early: nat)
    requires last == 999 && early == 100
    ensures last > early && LexLe(NativeWorker.PageFileName(last), NativeWorker.PageFileName(early))
  {
    PageNamesDiffer(last, early);
    LexFirstDifference(NativeWorker.PageFileName(last), NativeWorker.PageFileName(early), 7);
  }

  /** Strings that agree up to `i` and differ there are ordered by that character. */
  lemma {:induction false} LexFirstDifference(a: string, b: string, i: nat)
    requires FirstDifference(a, b, i)
    ensures LexLe(a, b)
  {
    LexStep(a, b);
    if i > 0 {
      assert a[0] == a[..i][0] == b[..i][0] == b[0];
      assert a[1..][..i - 1] == a[..i][1..] && b[1..][..i - 1] == b[..i][1..];
      LexFirstDifference(a[1..], b[1..], i - 1);
    }
  }

  lemma {:induction false} LexTransitive(a: string, b: string, c: string)
    requires LexLe(a, b) && LexLe(b, c)
    ensures LexLe(a, c)
  {
    if |a| > 0 && |b| > 0 && |c| > 0 && a[0] == b[0] && b[0] == c[0] {
      LexTransitive(a[1..], b[1..], c[1..]);
    }
  }

  lemma {:induction false} SortedHeadLeast(s: seq<string>, k: nat)
    requires SortedLex(s) && k < |s|
    ensures LexLe(s[0], s[k])
  {
    if k == 0 {
      LexReflexive(s[0]);
    } else {
      SortedHeadLeast(s, k - 1);
      LexTransitive(s[0], s[k - 1], s[k]);
    }
  }

  /** Two sorted sequences holding the same strings start with the same one. */
  lemma SortedSameHead(s: seq<string>, t: seq<string>)
    requires SortedLex(s) && SortedLex(t) && multiset(s) == multiset(t) && |s| > 0
    ensures |t| > 0 && s[0] == t[0]
  {
    assert s[0] in multiset(t);
    var i :| 0 <= i < |t| && t[i] == s[0];
    assert t[0] in multiset(s);
    var j :| 0 <= j < |s| && s[j] == t[0];
    SortedHeadLeast(t, i);
    SortedHeadLeast(s, j);
    LexAntisymmetric(s[0], t[0]);
  }

  /** Dropping the same head from two sequences holding the same strings leaves tails holding the same strings. */
  lemma SameTails(s: seq<string>, t: seq<string>)
    requires multiset(s) == multiset(t) && |s| > 0 && |t| > 0 && s[0] == t[0]
    ensures multiset(s[1..]) == multiset(t[1..])
  {
    assert s == [s[0]] + s[1..];
    assert t == [t[0]] + t[1..];
    assert multiset(s) == multiset{s[0]} + multiset(s[1..]);
    assert multiset(t) == multiset{t[0]} + multiset(t[1..]);
    assert multiset(s[1..]) == multiset(s) - multiset{s[0]};
    assert multiset(t[1..]) == multiset(t) - multiset{t[0]};
  }

  /** A sorted arrangement of a multiset of strings is unique. */
  lemma {:induction false} SortedUnique(s: seq<string>, t: seq<string>)
    requires SortedLex(s) && SortedLex(t) && multiset(s) == multiset(t)
    ensures s == t
  {
    if |s| == 0 {
      assert |t| == |multiset(t)| == 0;
    } else {
      SortedSameHead(s, t);
      SameTails(s, t);
      SortedUnique(s[1..], t[1..]);
      assert s == [s[0]] + s[1..];
      assert t == [t[0]] + t[1..];
    }
  }

  /** The names the worker gives `n` pages, in page order. */
  function PageNames(n: nat): (ps: seq<string>)
    ensures |ps| == n && forall k :: 0 <= k < n ==> ps[k] == NativeWorker.PageFileName(k)
  {
    seq(n, k requires 0 <= k < n => NativeWorker.PageFileName(k))
  }

  lemma PageNamesSorted(n: nat)
    requires n <= 999
    ensures SortedLex(PageNames(n))
  {
    var pages := PageNames(n);
    forall i | 0 <= i < n - 1 ensures LexLe(pages[i], pages[i + 1]) {
      PageNamesSortInPageOrder(i, i + 1);
    }
  }

  lemma JpgFilterKeepsPages(fs: Fs, images: string, listed: seq<string>, n: nat)
    requires multiset(listed) == multiset(PageNames(n))
    requires forall k :: 0 <= k < n ==> IsFile(fs, Child(images, NativeWorker.PageFileName(k)))
    ensures multiset(JpgFiles(fs, images, listed)) == multiset(PageNames(n))
  {
    var pages := PageNames(n);
    var filtered := JpgFiles(fs, images, listed);
    forall x ensures multiset(filtered)[x] == multiset(pages)[x] {
      if x in pages {
        var k :| 0 <= k < n && pages[k] == x;
        assert IsFile(fs, Child(images, x)) && Extension(x) == "jpg";
      } else {
        assert multiset(pages)[x] == 0;
      }
    }
  }

  /**
   * A content directory holding exactly the worker's page files (listed in
   * any order) is reported page by page in page order, for up to 999 pages.
   */
  lemma ListedPagesInPageOrder(st: Storage, contentId: string, n: nat)
    requires n <= 999 && FindContentDir(st, contentId).Some?
    requires var images := Child(FindContentDir(st, contentId).value, "images");
      IsDirectory(st.fs, images) && images in st.listing
      && multiset(st.listing[images]) == multiset(PageNames(n))
      && forall k :: 0 <= k < n ==> IsFile(st.fs, Child(images, NativeWorker.PageFileName(k)))
    ensures DownloadedNames(st, contentId) == PageNames(n)
  {
    var images := Child(FindContentDir(st, contentId).value, "images");
    var filtered := JpgFiles(st.fs, images, st.listing[images]);
    assert DownloadedNames(st, contentId) == SortLex(filtered);
    JpgFilterKeepsPages(st.fs, images, st.listing[images], n);
    PageNamesSorted(n);
    SortedUnique(SortLex(filtered), PageNames(n));
  }

  // ---------------------------------------------------------------------
  // Delete
  // ---------------------------------------------------------------------

  /** `deleteContent`: a recursive delete, then an itemised cleanup if the directory survived. */
  function DeleteContent(st: Storage, contentId: string, canDelete: string -> bool): (r: Fs)
    ensures FindContentDir(st, contentId).None? ==> r == st.fs
    ensures forall q :: q in r ==> q in st.fs && r[q] == st.fs[q]
    ensures FindContentDir(st, contentId).Some? ==>
      forall q :: q in st.fs && !InSubtree(q, FindContentDir(st, contentId).value) ==> q in r
  {
    match FindContentDir(st, contentId)
    case None => st.fs
    case Some(d) =>
      var fs1 := DeleteRecursively(st.fs, d, canDelete);
      if !Exists(fs1, d) then fs1
      else
        var images := Child(d, "images");
        var fs2 := if Exists(fs1, images) then DeleteRecursively(fs1, images, canDelete) else fs1;
        SubtreeOfChild(d, "images");
        var fs3 := DeleteOne(fs2, Child(d, "metadata.json"), canDelete);
        var fs4 := DeleteOne(fs3, Child(d, ".nomedia"), canDelete);
        DeleteOne(fs4, d, canDelete)
  }

  lemma SubtreeOfChild(d: string, name: string)
    ensures forall q :: InSubtree(q, Child(d, name)) ==> InSubtree(q, d) && q != d
  {
    forall q | InSubtree(q, Child(d, name)) ensures InSubtree(q, d) && q != d {
      var c := Child(d, name);
      assert StartsWith(c, d + "/") by { assert c[..|d| + 1] == d + "/"; }
      if q != c {
        assert q[..|c| + 1] == c + "/";
        assert q[..|d| + 1] == (c + "/")[..|d| + 1];
      }
    }
  }

  /** When every path under the content directory can be deleted, nothing of it is left. */
  lemma DeleteRemovesAll(st: Storage, contentId: string, canDelete: string -> bool)
    requires FindContentDir(st, contentId).Some?
    requires forall q :: q in st.fs && InSubtree(q, FindContentDir(st, contentId).value) ==> canDelete(q)
    ensures forall q :: q in DeleteContent(st, contentId, canDelete) ==> !InSubtree(q, FindContentDir(st, contentId).value)
  {
    var d := FindContentDir(st, contentId).value;
    var fs1 := DeleteRecursively(st.fs, d, canDelete);
    forall q | q in st.fs && InSubtree(q, d) ensures q !in fs1 {
      forall q' | q' in st.fs && q' != q && InSubtree(q', q) ensures canDelete(q') {
        if q' != d { SubtreeTransitive(q', q, d); }
      }
    }
  }

  lemma SubtreeTransitive(a: string, b: string, c: string)
    requires InSubtree(a, b) && InSubtree(b, c)
    ensures InSubtree(a, c)
  {
    if a != b && b != c {
      assert a[..|b| + 1] == b + "/";
      assert a[..|c| + 1] == a[..|b| + 1][..|c| + 1];
    }
  }

  /** After the recursive pass, deleting any single path under `d` again changes nothing. */
  lemma NoSecondChance(fs: Fs, d: string, p: string, canDelete: string -> bool)
    requires InSubtree(p, d)
    ensures var fs1 := DeleteRecursively(fs, d, canDelete); DeleteOne(fs1, p, canDelete) == fs1
  {
    var fs1 := DeleteRecursively(fs, d, canDelete);
    if p in fs1 {
      assert !Removable(fs, p, canDelete);
      if canDelete(p) {
        var q :| q in fs && q != p && InSubtree(q, p) && !canDelete(q);
        SubtreeTransitive(q, p, d);
        assert q in fs1;
      }
    }
  }

  /**
   * With a fixed answer to "can this path be deleted", the itemised cleanup
   * removes nothing the recursive delete left: the result is the recursive
   * delete's.
   */
  lemma CleanupAddsNothing(st: Storage, contentId: string, canDelete: string -> bool)
    requires FindContentDir(st, contentId).Some?
    ensures DeleteContent(st, contentId, canDelete)
         == DeleteRecursively(st.fs, FindContentDir(st, contentId).value, canDelete)
  {
    var d := FindContentDir(st, contentId).value;
    var fs1 := DeleteRecursively(st.fs, d, canDelete);
    if Exists(fs1, d) {
      var images := Child(d, "images");
      SubtreeOfChild(d, "images");
      SubtreeOfChild(d, "metadata.json");
      SubtreeOfChild(d, ".nomedia");
      assert DeleteRecursively(fs1, images, canDelete) == fs1 by {
        forall q | q in fs1 && InSubtree(q, images) ensures !Removable(fs1, q, canDelete) {
          if Removable(fs1, q, canDelete) {
            NoSecondChance(st.fs, d, q, canDelete);
            assert false;
          }
        }
      }
      NoSecondChance(st.fs, d, Child(d, "metadata.json"), canDelete);
      NoSecondChance(st.fs, d, Child(d, ".nomedia"), canDelete);
      NoSecondChance(st.fs, d, d, canDelete);
    }
  }

  // ---------------------------------------------------------------------
  // Method channel
  // ---------------------------------------------------------------------

  datatype ReplyValue =
    | NoValue
    | WorkId(id: nat)
    | StatusValue(status: Option<DownloadManager.StatusReport>)
    | Files(paths: seq<string>)
    | PathValue(path: Option<string>)
    | Count(n: nat)

  datatype Reply = Success(value: ReplyValue) | Error(code: string) | NotImplemented

  /** What the handler works against: the registry and storage. */
  datatype Host = Host(reg: Registry, storage: Storage)

  /**
   * The exceptions the handler catches, as oracles: `query` for the status
   * lookup throwing or timing out, `storage` for the storage search or the
   * delete throwing, `enqueue` for `queueDownload` throwing.
   */
  datatype Faults = Faults(query: bool, storage: bool, enqueue: bool)

  /** `handleStartDownload`: three required arguments, defaults for the rest. */
  function StartRequest(args: Args): (r: Option<DownloadManager.Request>)
    ensures r.Some? <==>
      ArgString(args, "contentId").Some? && ArgList(args, "imageUrls").Some? && ArgString(args, "destinationPath").Some?
    ensures r.Some? ==>
      r.value.contentId == ArgString(args, "contentId").value
      && r.value.imageUrls == ArgList(args, "imageUrls").value
      && r.value.destinationPath == ArgString(args, "destinationPath").value
      && r.value.sourceId == ArgString(args, "sourceId").GetOr("unknown")
      && r.value.cookies == ArgMap(args, "cookies")
      && r.value.title == ArgString(args, "title").GetOr("Unknown")
      && r.value.url == ArgString(args, "url").GetOr("")
      && r.value.coverUrl == ArgString(args, "coverUrl").GetOr("")
      && r.value.language == ArgString(args, "language").GetOr("unknown")
  {
    match (ArgString(args, "contentId"), ArgList(args, "imageUrls"), ArgString(args, "destinationPath"))
    case (Some(cid), Some(urls), Some(dest)) =>
      Some(DownloadManager.Request(
        cid, ArgString(args, "sourceId").GetOr("unknown"), urls, dest, ArgMap(args, "cookies"),
        ArgString(args, "title").GetOr("Unknown"), ArgString(args, "url").GetOr(""),
        ArgString(args, "coverUrl").GetOr(""), ArgString(args, "language").GetOr("unknown")))
    case _ => None
  }

  /** `handleMethodCall`. `canDelete` stands for which paths the platform lets go. */
  function HandleMethodCall(call: string, args: Args, host: Host, faults: Faults, canDelete: string -> bool): (out: (Reply, Host))
  {
    var cid := ArgString(args, "contentId");
    if call == "kuronNativeStartDownload" then
      match StartRequest(args)
      case None => (Error("DOWNLOAD_ERROR"), host)
      case Some(req) =>
        if faults.enqueue then (Error("DOWNLOAD_ERROR"), host)
        else
          var q := DownloadManager.QueueDownload(host.reg, req);
          (Success(WorkId(q.1)), host.(reg := q.0))
    else if call in ContentMethods then
      if cid.None? then (Error("INVALID_ARGUMENT"), host)
      else HandleContentCall(call, cid.value, host, faults, canDelete)
    else (NotImplemented, host)
  }

  const ContentMethods: set<string> := {
    "kuronNativeCancelDownload", "kuronNativePauseDownload", "kuronNativeGetDownloadStatus",
    "kuronNativeGetDownloadedFiles", "kuronNativeGetDownloadPath",
    "kuronNativeDeleteDownloadedContent", "kuronNativeCountDownloadedFiles"}

  /** The error code each storage call answers when the storage work throws. */
  const StorageErrorCodes: map<string, string> := map[
    "kuronNativeGetDownloadedFiles" := "GET_FILES_ERROR", "kuronNativeGetDownloadPath" := "GET_PATH_ERROR",
    "kuronNativeDeleteDownloadedContent" := "DELETE_ERROR", "kuronNativeCountDownloadedFiles" := "COUNT_ERROR"]

  function HandleContentCall(call: string, contentId: string, host: Host, faults: Faults, canDelete: string -> bool): (Reply, Host)
    requires call in ContentMethods
  {
    var st := host.storage;
    if call in StorageErrorCodes && faults.storage then (Error(StorageErrorCodes[call]), host)
    else if call == "kuronNativeCancelDownload" then
      (Success(NoValue), host.(reg := DownloadManager.CancelDownload(host.reg, contentId)))
    else if call == "kuronNativePauseDownload" then
      (Success(NoValue), host.(reg := DownloadManager.PauseDownload(host.reg, contentId)))
    else if call == "kuronNativeGetDownloadStatus" then
      var query := if faults.query then None else Some(ByTag(host.reg.works, DownloadManager.ContentTag(contentId)));
      (Success(StatusValue(DownloadManager.GetDownloadStatus(query, contentId))), host)
    else if call == "kuronNativeGetDownloadedFiles" then
      (Success(Files(DownloadedFiles(st, contentId))), host)
    else if call == "kuronNativeGetDownloadPath" then
      (Success(PathValue(FindContentDir(st, contentId))), host)
    else if call == "kuronNativeDeleteDownloadedContent" then
      (Success(NoValue), host.(storage := st.(fs := DeleteContent(st, contentId, canDelete))))
    else
      (Success(Count(CountFiles(st, contentId))), host)
  }

  /** Start: DOWNLOAD_ERROR exactly when a required argument is missing or the enqueue throws; otherwise the new request id. */
  lemma StartDownloadReply(args: Args, host: Host, faults: Faults, canDelete: string -> bool)
    ensures var out := HandleMethodCall("kuronNativeStartDownload", args, host, faults, canDelete);
      (out.0 == Error("DOWNLOAD_ERROR") <==> StartRequest(args).None? || faults.enqueue)
      && (out.0.Error? ==> out.1 == host)
      && (StartRequest(args).Some? && !faults.enqueue ==>
            out.0 == Success(WorkId(host.reg.nextId))
            && out.1 == host.(reg := DownloadManager.QueueDownload(host.reg, StartRequest(args).value).0))
  {
  }

  /** Every other known call answers INVALID_ARGUMENT, and changes nothing, exactly when contentId is missing. */
  lemma ContentIdRequired(call: string, args: Args, host: Host, faults: Faults, canDelete: string -> bool)
    requires call in ContentMethods
    ensures var out := HandleMethodCall(call, args, host, faults, canDelete);
      (out.0 == Error("INVALID_ARGUMENT") <==> ArgString(args, "contentId").None?)
      && (out.0.Error? ==> out.1 == host)
  {
  }

  /** Unknown methods are answered "not implemented" and change nothing. */
  lemma UnknownMethodNotImplemented(call: string, args: Args, host: Host, faults: Faults, canDelete: string -> bool)
    requires call != "kuronNativeStartDownload" && call !in ContentMethods
    ensures HandleMethodCall(call, args, host, faults, canDelete) == (NotImplemented, host)
  {
  }

  /** The query methods leave the registry and storage as they were. */
  lemma QueriesChangeNothing(call: string, args: Args, host: Host, faults: Faults, canDelete: string -> bool)
    requires call in {"kuronNativeGetDownloadStatus", "kuronNativeGetDownloadedFiles",
                        "kuronNativeGetDownloadPath", "kuronNativeCountDownloadedFiles"}
    ensures HandleMethodCall(call, args, host, faults, canDelete).1 == host
  {
  }

  /**
   * A storage call with a content id answers an error exactly when the storage
   * work throws, with that call's own code, and then changes nothing.
   */
  lemma StorageFaultReply(call: string, args: Args, host: Host, faults: Faults, canDelete: string -> bool)
    requires call in StorageErrorCodes
    ensures var out := HandleMethodCall(call, args, host, faults, canDelete);
      (ArgString(args, "contentId").Some? ==> (out.0.Error? <==> faults.storage))
      && (ArgString(args, "contentId").Some? && faults.storage ==> out.0 == Error(StorageErrorCodes[call]))
      && (out.0.Error? ==> out.1 == host)
  {
  }

  /** The count reply is the length of the files reply for the same storage. */
  lemma CountMatchesFiles(args: Args, host: Host, faults: Faults, canDelete: string -> bool)
    requires ArgString(args, "contentId").Some?
    ensures var files := HandleMethodCall("kuronNativeGetDownloadedFiles", args, host, faults, canDelete).0;
      var count := HandleMethodCall("kuronNativeCountDownloadedFiles", args, host, faults, canDelete).0;
      (!faults.storage ==> files.Success? && files.value.Files? && count == Success(Count(|files.value.paths|)))
      && (faults.storage ==> files == Error("GET_FILES_ERROR") && count == Error("COUNT_ERROR"))
  {
  }
}
