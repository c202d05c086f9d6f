/**
 * The app's `PdfGeneratorWorker`: an image list cut into parts of at most
 * `maxPagesPerFile` images, one PDF file per part, with per-part progress.
 * The PDF files are modelled by the page numbers they hold.
 */
module PdfWorker {
  import opened Wrappers
  import opened Text
  import opened Work
  import opened FileSystem
  import opened Arith
  import opened PageLoop

  const KeyContentId: string := "contentId"
  const KeyImagePaths: string := "imagePaths"
  const KeyMaxPages: string := "maxPagesPerFile"
  const KeyResultPaths: string := "pdfPaths"
  const DefaultMaxPages: int := 50

  function Flatten(cs: seq<seq<string>>): seq<string> {
    if |cs| == 0 then [] else cs[0] + Flatten(cs[1..])
  }

  /** Kotlin `chunked(size)`: consecutive slices of `size`, the last possibly shorter. */
  function Chunked(xs: seq<string>, size: nat): (cs: seq<seq<string>>)
    requires size > 0
    decreases |xs|
    ensures Flatten(cs) == xs
    ensures forall k :: 0 <= k < |cs| ==> 0 < |cs[k]| <= size
    ensures forall k :: 0 <= k < |cs| - 1 ==> |cs[k]| == size
    ensures |cs| == (|xs| + size - 1) / size
  {
    if |xs| == 0 then
      CeilDivCases(0, size);
      []
    else if |xs| <= size then
      CeilDivCases(|xs|, size);
      assert Flatten([xs]) == xs + Flatten([]);
      [xs]
    else
      var rest := Chunked(xs[size..], size);
      var cs := [xs[..size]] + rest;
      CeilDivCases(|xs|, size);
      assert cs[1..] == rest;
      assert Flatten(cs) == xs[..size] + xs[size..] == xs;
      assert forall k :: 1 <= k < |cs| ==> cs[k] == rest[k - 1];
      cs
  }

  /** The file name of part `part` (1-based) out of `totalParts`. */
  function PartFileName(contentId: string, part: nat, totalParts: nat): (name: string)
    ensures totalParts <= 1 ==> name == contentId + ".pdf"
    ensures EndsWith(name, ".pdf") && StartsWith(name, contentId)
  {
    var name := if totalParts > 1 then contentId + "_part_" + Decimal(part) + ".pdf" else contentId + ".pdf";
    assert name[..|contentId|] == contentId;
    name
  }

  /** Distinct parts of one run get distinct file names. */
  lemma PartFileNamesDistinct(contentId: string, a: nat, b: nat, totalParts: nat)
    requires 1 <= a <= totalParts && 1 <= b <= totalParts && a != b
    ensures PartFileName(contentId, a, totalParts) != PartFileName(contentId, b, totalParts)
  {
    var na := PartFileName(contentId, a, totalParts);
    var nb := PartFileName(contentId, b, totalParts);
    var p := |contentId| + 6;
    assert na[p..|na| - 4] == Decimal(a);
    assert nb[p..|nb| - 4] == Decimal(b);
    assert ParseDecimal(Decimal(a)) != ParseDecimal(Decimal(b));
  }

  /** The page numbers a part's document gets: the image's index in the part plus one, decodable images only. */
  function PartPages(chunk: seq<string>, decodes: string -> bool, from: nat): (pages: seq<nat>)
    requires from <= |chunk|
    decreases |chunk| - from
    ensures forall j :: 0 <= j < |pages| ==> from < pages[j] <= |chunk|
    ensures forall j, j' :: 0 <= j < j' < |pages| ==> pages[j] < pages[j']
    ensures forall p :: p in pages <==> from < p <= |chunk| && decodes(chunk[p - 1])
  {
    if from == |chunk| then []
    else
      var rest := PartPages(chunk, decodes, from + 1);
      if decodes(chunk[from]) then
        var pages := [from + 1] + rest;
        assert forall j :: 1 <= j < |pages| ==> pages[j] == rest[j - 1];
        pages
      else rest
  }

  /** Where the part files go: `<external files>/pdf/<contentId>`. */
  function PdfDir(filesDir: string, contentId: string): string {
    Child(Child(filesDir, "pdf"), contentId)
  }

  /** The path of part `part` (1-based) in `dir`. */
  function PartPath(dir: string, contentId: string, part: nat, totalParts: nat): string {
    Child(dir, PartFileName(contentId, part, totalParts))
  }

  lemma PartPathsDistinct(dir: string, contentId: string, a: nat, b: nat, totalParts: nat)
    requires 1 <= a <= totalParts && 1 <= b <= totalParts && a != b
    ensures PartPath(dir, contentId, a, totalParts) != PartPath(dir, contentId, b, totalParts)
  {
    PartFileNamesDistinct(contentId, a, b, totalParts);
    if PartPath(dir, contentId, a, totalParts) == PartPath(dir, contentId, b, totalParts) {
      ChildInjective(dir, PartFileName(contentId, a, totalParts), PartFileName(contentId, b, totalParts));
    }
  }

  /**
   * The first part, from `k` on, at which the loop ends: the worker finds
   * itself stopped at its start, or writing its file throws; `n` when none.
   */
  function FirstHalt(env: PdfEnv, k: nat, n: nat): (m: nat)
    requires k <= n
    decreases n - k
    ensures k <= m <= n
    ensures forall i :: k <= i < m ==> !env.stopped(i) && !env.writeFails(i)
    ensures m < n ==> env.stopped(m) || env.writeFails(m)
  {
    if k == n then n else if env.stopped(k) || env.writeFails(k) then k else FirstHalt(env, k + 1, n)
  }

  /** Writing parts `k+1 .. m` (1-based), each replacing whatever file had its name. */
  function WritePdfs(chunks: seq<seq<string>>, k: nat, m: nat, contentId: string, dir: string,
                     decodes: string -> bool, pdfs: map<string, seq<nat>>): (r: map<string, seq<nat>>)
    requires k <= m <= |chunks|
    decreases m - k
    ensures pdfs.Keys <= r.Keys
  {
    if k == m then pdfs
    else WritePdfs(chunks, k + 1, m, contentId, dir, decodes,
                   pdfs[PartPath(dir, contentId, k + 1, |chunks|) := PartPages(chunks[k], decodes, 0)])
  }

  /** A part written before step `k` is not touched again. */
  lemma {:induction false} WritePdfsKeeps(chunks: seq<seq<string>>, k: nat, m: nat, contentId: string, dir: string,
                                           decodes: string -> bool, pdfs: map<string, seq<nat>>, part: nat)
    requires k <= m <= |chunks| && 1 <= part <= k && PartPath(dir, contentId, part, |chunks|) in pdfs
    decreases m - k
    ensures var q := PartPath(dir, contentId, part, |chunks|);
      WritePdfs(chunks, k, m, contentId, dir, decodes, pdfs)[q] == pdfs[q]
  {
    if k < m {
      var q := PartPath(dir, contentId, part, |chunks|);
      var path := PartPath(dir, contentId, k + 1, |chunks|);
      PartPathsDistinct(dir, contentId, part, k + 1, |chunks|);
      var pdfs' := pdfs[path := PartPages(chunks[k], decodes, 0)];
      assert pdfs'[q] == pdfs[q];
      WritePdfsKeeps(chunks, k + 1, m, contentId, dir, decodes, pdfs', part);
    }
  }

  /** After the loop, part `j+1`'s file holds exactly the decodable pages of chunk `j`. */
  lemma {:induction false} WritePdfsContents(chunks: seq<seq<string>>, k: nat, m: nat, contentId: string, dir: string,
                                              decodes: string -> bool, pdfs: map<string, seq<nat>>, j: nat)
    requires k <= j < m <= |chunks|
    decreases m - k
    ensures var q := PartPath(dir, contentId, j + 1, |chunks|);
      var r := WritePdfs(chunks, k, m, contentId, dir, decodes, pdfs);
      q in r && r[q] == PartPages(chunks[j], decodes, 0)
  {
    var path := PartPath(dir, contentId, k + 1, |chunks|);
    var pdfs' := pdfs[path := PartPages(chunks[k], decodes, 0)];
    assert WritePdfs(chunks, k, m, contentId, dir, decodes, pdfs)
        == WritePdfs(chunks, k + 1, m, contentId, dir, decodes, pdfs');
    if j == k {
      assert path in pdfs' && pdfs'[path] == PartPages(chunks[k], decodes, 0);
      WritePdfsKeeps(chunks, k + 1, m, contentId, dir, decodes, pdfs', k + 1);
    } else {
      WritePdfsContents(chunks, k + 1, m, contentId, dir, decodes, pdfs', j);
    }
  }

  /** Files whose names are not part names of this run are left alone. */
  lemma {:induction false} WritePdfsFrame(chunks: seq<seq<string>>, k: nat, m: nat, contentId: string, dir: string,
                                           decodes: string -> bool, pdfs: map<string, seq<nat>>, q: string)
    requires k <= m <= |chunks| && q in pdfs
    requires forall part :: k < part <= m ==> q != PartPath(dir, contentId, part, |chunks|)
    decreases m - k
    ensures WritePdfs(chunks, k, m, contentId, dir, decodes, pdfs)[q] == pdfs[q]
  {
    if k < m {
      var path := PartPath(dir, contentId, k + 1, |chunks|);
      var pdfs' := pdfs[path := PartPages(chunks[k], decodes, 0)];
      assert q != path;
      calc {
        WritePdfs(chunks, k, m, contentId, dir, decodes, pdfs)[q];
        WritePdfs(chunks, k + 1, m, contentId, dir, decodes, pdfs')[q];
        { WritePdfsFrame(chunks, k + 1, m, contentId, dir, decodes, pdfs', q); }
        pdfs'[q];
      }
    }
  }

  /**
   * The platform as the worker sees it: the files directory, the stop flag
   * before each part, which images decode, the message of `chunked`'s
   * exception, and whether (and with what message) writing part k's file throws.
   */
  datatype PdfEnv = PdfEnv(filesDir: string, stopped: nat -> bool, decodes: string -> bool, sizeErrorMessage: string,
                           writeFails: nat -> bool, writeError: nat -> string)

  datatype PdfOutcome = PdfSuccess(output: Data) | PdfFailure(output: Data)

  datatype PdfRun = PdfRun(outcome: PdfOutcome, progress: seq<int>, pdfs: map<string, seq<nat>>)

  /** The progress reports after the initial 0: one per written part, `part * 100 / parts`. */
  function PartProgress(m: nat, parts: nat): (p: seq<int>)
    requires m <= parts
    ensures |p| == m
    ensures forall j :: 0 <= j < m ==> p[j] == Percent(j + 1, parts)
  {
    seq(m, j requires 0 <= j < m => Percent(j + 1, parts))
  }

  /**
   * The part loop: per part, check for a stop, write the part, report
   * progress. A part whose write throws has had its old file deleted and
   * leaves no file of its own.
   */
  function RunParts(chunks: seq<seq<string>>, contentId: string, pdfs: map<string, seq<nat>>, env: PdfEnv): (r: PdfRun)
    ensures var m := FirstHalt(env, 0, |chunks|);
      var written := WritePdfs(chunks, 0, m, contentId, PdfDir(env.filesDir, contentId), env.decodes, pdfs);
      r.progress == [0] + PartProgress(m, |chunks|)
      && (r.outcome.PdfFailure? <==> m < |chunks|)
      && (m < |chunks| && env.stopped(m) ==>
            r.outcome.output == map["error" := StrV("Worker stopped")] && r.pdfs == written)
      && (m < |chunks| && !env.stopped(m) ==>
            r.outcome.output == map["error" := StrV(env.writeError(m))]
            && r.pdfs == written - {PartPath(PdfDir(env.filesDir, contentId), contentId, m + 1, |chunks|)})
      && (m == |chunks| ==> r.pdfs == written)
  {
    var dir := PdfDir(env.filesDir, contentId);
    var m := FirstHalt(env, 0, |chunks|);
    var written := WritePdfs(chunks, 0, m, contentId, dir, env.decodes, pdfs);
    if m < |chunks| && env.stopped(m) then
      PdfRun(PdfFailure(map["error" := StrV("Worker stopped")]), [0] + PartProgress(m, |chunks|), written)
    else if m < |chunks| then
      PdfRun(PdfFailure(map["error" := StrV(env.writeError(m))]), [0] + PartProgress(m, |chunks|),
             written - {PartPath(dir, contentId, m + 1, |chunks|)})
    else
      var paths := seq(m, j requires 0 <= j < m => PartPath(dir, contentId, j + 1, |chunks|));
      PdfRun(PdfSuccess(map[KeyResultPaths := StrArrayV(paths)]), [0] + PartProgress(m, |chunks|), written)
  }

  /** `doWork`: read the inputs, report 0, cut into parts and run the part loop. */
  function DoWork(input: Data, pdfs: map<string, seq<nat>>, env: PdfEnv): PdfRun {
    var contentId := GetString(input, KeyContentId);
    var images := GetStringArray(input, KeyImagePaths);
    if contentId.None? || images.None? then PdfRun(PdfFailure(map[]), [], pdfs)
    else
      var max := GetInt(input, KeyMaxPages, DefaultMaxPages);
      if max <= 0 then PdfRun(PdfFailure(map["error" := StrV(env.sizeErrorMessage)]), [0], pdfs)
      else RunParts(Chunked(images.value, max), contentId.value, pdfs, env)
  }

  /** The parts for inputs that name an image list with a positive part size. */
  function Parts(input: Data): seq<seq<string>>
    requires GetStringArray(input, KeyImagePaths).Some? && GetInt(input, KeyMaxPages, DefaultMaxPages) > 0
  {
    Chunked(GetStringArray(input, KeyImagePaths).value, GetInt(input, KeyMaxPages, DefaultMaxPages))
  }

  /**
   * Failure without data exactly when an input is missing; otherwise failure
   * (with an error entry) exactly when the part size is not positive, or the
   * worker is stopped before some part, or writing some part throws. The
   * entry names the first of those that the loop meets.
   */
  lemma FailureCases(input: Data, pdfs: map<string, seq<nat>>, env: PdfEnv)
    ensures var r := DoWork(input, pdfs, env);
      r.outcome == PdfFailure(map[]) <==> GetString(input, KeyContentId).None? || GetStringArray(input, KeyImagePaths).None?
    ensures var r := DoWork(input, pdfs, env);
      GetString(input, KeyContentId).Some? && GetStringArray(input, KeyImagePaths).Some? ==>
        (r.outcome.PdfFailure? <==>
           GetInt(input, KeyMaxPages, DefaultMaxPages) <= 0
           || exists k :: 0 <= k < |Parts(input)| && (env.stopped(k) || env.writeFails(k)))
        && (r.outcome.PdfFailure? ==> "error" in r.outcome.output)
    ensures var r := DoWork(input, pdfs, env);
      GetString(input, KeyContentId).Some? && GetStringArray(input, KeyImagePaths).Some?
      && GetInt(input, KeyMaxPages, DefaultMaxPages) > 0 && r.outcome.PdfFailure? ==>
        var m := FirstHalt(env, 0, |Parts(input)|);
        m < |Parts(input)|
        && r.outcome.output["error"] == StrV(if env.stopped(m) then "Worker stopped" else env.writeError(m))
  {
    if GetString(input, KeyContentId).Some? && GetStringArray(input, KeyImagePaths).Some? {
      var r := DoWork(input, pdfs, env);
      if GetInt(input, KeyMaxPages, DefaultMaxPages) > 0 {
        var chunks := Parts(input);
        var m := FirstHalt(env, 0, |chunks|);
        assert r == RunParts(chunks, GetString(input, KeyContentId).value, pdfs, env);
        if m < |chunks| {
          assert env.stopped(m) || env.writeFails(m);
        }
      }
      if r.outcome.PdfFailure? {
        assert "error" in r.outcome.output;
      }
    }
  }

  /**
   * A run leaves every file that is not one of its written parts as it was,
   * except the file of a part whose write threw, which is gone.
   */
  lemma StoppedRunFrame(input: Data, pdfs: map<string, seq<nat>>, env: PdfEnv, q: string)
    requires GetString(input, KeyContentId).Some? && GetStringArray(input, KeyImagePaths).Some?
    requires GetInt(input, KeyMaxPages, DefaultMaxPages) > 0
    requires q in pdfs
    requires forall part :: 0 < part <= FirstHalt(env, 0, |Parts(input)|) ==>
      q != PartPath(PdfDir(env.filesDir, GetString(input, KeyContentId).value), GetString(input, KeyContentId).value, part, |Parts(input)|)
    ensures var cid := GetString(input, KeyContentId).value;
      var m := FirstHalt(env, 0, |Parts(input)|);
      var failedPart := m < |Parts(input)| && !env.stopped(m) && q == PartPath(PdfDir(env.filesDir, cid), cid, m + 1, |Parts(input)|);
      (failedPart ==> q !in DoWork(input, pdfs, env).pdfs)
      && (!failedPart ==> q in DoWork(input, pdfs, env).pdfs && DoWork(input, pdfs, env).pdfs[q] == pdfs[q])
  {
    var cid := GetString(input, KeyContentId).value;
    var m := FirstHalt(env, 0, |Parts(input)|);
    WritePdfsFrame(Parts(input), 0, m, cid, PdfDir(env.filesDir, cid), env.decodes, pdfs, q);
  }

  /** A part loop that completes names one path per part and leaves each part's pages in its file. */
  lemma RunPartsSuccess(chunks: seq<seq<string>>, contentId: string, pdfs: map<string, seq<nat>>, env: PdfEnv)
    requires RunParts(chunks, contentId, pdfs, env).outcome.PdfSuccess?
    ensures var r := RunParts(chunks, contentId, pdfs, env);
      KeyResultPaths in r.outcome.output && r.outcome.output[KeyResultPaths].StrArrayV?
      && |r.outcome.output[KeyResultPaths].a| == |chunks|
    ensures var r := RunParts(chunks, contentId, pdfs, env);
      var paths := r.outcome.output[KeyResultPaths].a;
      forall j :: 0 <= j < |chunks| ==>
        paths[j] == PartPath(PdfDir(env.filesDir, contentId), contentId, j + 1, |chunks|)
        && paths[j] in r.pdfs && r.pdfs[paths[j]] == PartPages(chunks[j], env.decodes, 0)
  {
    var dir := PdfDir(env.filesDir, contentId);
    var r := RunParts(chunks, contentId, pdfs, env);
    var m := FirstHalt(env, 0, |chunks|);
    assert m == |chunks|;
    var paths := seq(m, j requires 0 <= j < m => PartPath(dir, contentId, j + 1, |chunks|));
    assert r.outcome.output == map[KeyResultPaths := StrArrayV(paths)];
    assert r.pdfs == WritePdfs(chunks, 0, m, contentId, dir, env.decodes, pdfs);
    forall j | 0 <= j < |chunks|
      ensures paths[j] == PartPath(dir, contentId, j + 1, |chunks|)
      ensures paths[j] in r.pdfs && r.pdfs[paths[j]] == PartPages(chunks[j], env.decodes, 0)
    {
      WritePdfsContents(chunks, 0, m, contentId, dir, env.decodes, pdfs, j);
    }
  }

  /**
   * On success all inputs were present, and there is exactly one path per
   * part, in part order, each named after its part, and each file holds
   * exactly its part's decodable pages, whatever was there before.
   */
  lemma SuccessParts(input: Data, pdfs: map<string, seq<nat>>, env: PdfEnv)
    requires DoWork(input, pdfs, env).outcome.PdfSuccess?
    ensures GetString(input, KeyContentId).Some? && GetStringArray(input, KeyImagePaths).Some?
    ensures GetInt(input, KeyMaxPages, DefaultMaxPages) > 0
    ensures var r := DoWork(input, pdfs, env);
      r == RunParts(Parts(input), GetString(input, KeyContentId).value, pdfs, env)
      && KeyResultPaths in r.outcome.output && r.outcome.output[KeyResultPaths].StrArrayV?
      && |r.outcome.output[KeyResultPaths].a| == |Parts(input)|
    ensures var r := DoWork(input, pdfs, env);
      var cid := GetString(input, KeyContentId).value;
      var paths := r.outcome.output[KeyResultPaths].a;
      forall j :: 0 <= j < |Parts(input)| ==>
        paths[j] == PartPath(PdfDir(env.filesDir, cid), cid, j + 1, |Parts(input)|)
        && paths[j] in r.pdfs && r.pdfs[paths[j]] == PartPages(Parts(input)[j], env.decodes, 0)
  {
    RunPartsSuccess(Parts(input), GetString(input, KeyContentId).value, pdfs, env);
  }

  /** Progress starts at 0, stays within 0..100, never goes down, and a successful run ends at 100. */
  lemma ProgressSchedule(input: Data, pdfs: map<string, seq<nat>>, env: PdfEnv)
    requires GetString(input, KeyContentId).Some? && GetStringArray(input, KeyImagePaths).Some?
    ensures var p := DoWork(input, pdfs, env).progress;
      |p| >= 1 && p[0] == 0
      && (forall j :: 0 <= j < |p| ==> 0 <= p[j] <= 100)
      && (forall j :: 0 <= j < |p| - 1 ==> p[j] <= p[j + 1])
    ensures var r := DoWork(input, pdfs, env);
      r.outcome.PdfSuccess? && |GetStringArray(input, KeyImagePaths).value| > 0 ==> r.progress[|r.progress| - 1] == 100
  {
    var r := DoWork(input, pdfs, env);
    if GetInt(input, KeyMaxPages, DefaultMaxPages) > 0 {
      var chunks := Parts(input);
      var m := FirstHalt(env, 0, |chunks|);
      assert r == RunParts(chunks, GetString(input, KeyContentId).value, pdfs, env);
      forall j | 0 <= j < |r.progress| - 1 ensures r.progress[j] <= r.progress[j + 1] {
        if j > 0 {
          PercentMonotone(j, j + 1, |chunks|);
        }
      }
      if r.outcome.PdfSuccess? && |GetStringArray(input, KeyImagePaths).value| > 0 {
        assert |chunks| > 0;
        assert r.progress[|r.progress| - 1] == Percent(|chunks|, |chunks|);
      }
    }
  }
}
