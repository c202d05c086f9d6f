/**
 * The per-resource loop both generations of the download worker run over
 * their URL list (`imageUrls.forEachIndexed`). The loop is stated once,
 * over the target path of each index; the workers differ only in how they
 * name those paths and which progress keys they publish.
 *
 * The outside world enters as two oracles: `stopped(i)` is the value of
 * `isStopped` when iteration i starts, `fetch(i)` is what the HTTP request
 * for resource i returns.
 */
module PageLoop {
  import opened FileSystem
  import opened Arith

  /**
   * The outcome of one HTTP request: a body of some size; a non-2xx or
   * transport failure before anything is written; or a body whose stream
   * fails after `written` bytes were copied into the freshly truncated file.
   */
  datatype Fetch = Fetched(bytes: nat) | HttpError | Interrupted(written: nat)

  /** What one iteration publishes with `setProgress`. */
  datatype Report = Report(percent: int, downloadedCount: nat, totalCount: nat, downloadedBytes: nat)

  /** How the loop ended: ran to the end, hit the stop flag at `at`, or threw at `at`. */
  datatype End = Completed | Stopped(at: nat) | Errored(at: nat)

  datatype Run = Run(end: End, fs: Fs, reports: seq<Report>, fetched: seq<nat>)

  /** `((done).toFloat() / total * 100).toInt()`, taken as exact integer division. */
  function Percent(done: nat, total: nat): (p: int)
    requires 0 < done <= total
    ensures 0 <= p <= 100
    ensures done == total ==> p == 100
    ensures done < total ==> p < 100
  {
    PercentRange(done, total);
    done * 100 / total
  }

  lemma PercentRange(done: nat, total: nat)
    requires 0 < done <= total
    ensures 0 <= done * 100 / total <= 100
    ensures done == total ==> done * 100 / total == 100
    ensures done < total ==> done * 100 / total < 100
  {
    DivBelow(done * 100, total, 100);
    if done < total {
      DivBelow(done * 100, total, 99);
    }
  }

  /** The percentage never goes down as the count of finished items grows. */
  lemma PercentMonotone(a: nat, b: nat, n: nat)
    requires 0 < a <= b <= n
    ensures Percent(a, n) <= Percent(b, n)
  {
    MulMonotone(100, a, b);
    assert a * 100 <= b * 100;
    DivMonotone(a * 100, b * 100, n);
  }

  /** Resume rule: fetch only when the target is absent or empty. */
  predicate NeedsFetch(fs: Fs, p: string) {
    !Exists(fs, p) || Length(fs, p) == 0
  }

  /** Iteration i throws: the request or its body stream fails, or the file cannot be opened. */
  predicate Throws(fs: Fs, dir: string, p: string, f: Fetch) {
    NeedsFetch(fs, p) && (!f.Fetched? || !IsDirectory(fs, dir) || IsDirectory(fs, p))
  }

  /** The filesystem an iteration that throws leaves behind: an interrupted body leaves its truncated file. */
  function Failed(fs: Fs, dir: string, p: string, f: Fetch): Fs {
    if NeedsFetch(fs, p) && f.Interrupted? && IsDirectory(fs, dir) && !IsDirectory(fs, p) then fs[p := RegularFile(f.written)] else fs
  }

  /** The filesystem after an iteration that does not throw. */
  function Written(fs: Fs, p: string, f: Fetch): Fs {
    if NeedsFetch(fs, p) && f.Fetched? then fs[p := RegularFile(f.bytes)] else fs
  }

  /** The number of indices the run got through. */
  function Processed(r: Run, n: nat): nat {
    match r.end
    case Completed => n
    case Stopped(k) => k
    case Errored(k) => k
  }

  /** The number of indices whose file the run may have written: a throwing index counts too. */
  function Touched(r: Run, n: nat): nat {
    if r.end.Errored? then r.end.at + 1 else Processed(r, n)
  }

  /** Iterations i .. |paths|-1 into directory `dir`, having accumulated `bytes` so far. */
  function Loop(fs: Fs, dir: string, paths: seq<string>, i: nat, bytes: nat,
                fetch: nat -> Fetch, stopped: nat -> bool): (r: Run)
    requires i <= |paths|
    ensures i <= Processed(r, |paths|) <= |paths|
    ensures r.end.Completed? || Processed(r, |paths|) < |paths|
    decreases |paths| - i
  {
    if i == |paths| then Run(Completed, fs, [], [])
    else if stopped(i) then Run(Stopped(i), fs, [], [])
    else if Throws(fs, dir, paths[i], fetch(i)) then Run(Errored(i), Failed(fs, dir, paths[i], fetch(i)), [], [])
    else
      var fs' := Written(fs, paths[i], fetch(i));
      var total := bytes + Length(fs', paths[i]);
      var rest := Loop(fs', dir, paths, i + 1, total, fetch, stopped);
      Run(rest.end, rest.fs,
          [Report(Percent(i + 1, |paths|), i + 1, |paths|, total)] + rest.reports,
          (if NeedsFetch(fs, paths[i]) then [i] else []) + rest.fetched)
  }

  /** Distinct indices name distinct files. */
  predicate DistinctPaths(paths: seq<string>) {
    forall a, b :: 0 <= a < b < |paths| ==> paths[a] != paths[b]
  }

  /** Total size of the files at `ps`. */
  function SumLengths(fs: Fs, ps: seq<string>): nat {
    if |ps| == 0 then 0 else Length(fs, ps[0]) + SumLengths(fs, ps[1..])
  }

  lemma SumLengthsFront(fs: Fs, paths: seq<string>, i: nat, j: nat)
    requires i + j + 1 <= |paths|
    ensures SumLengths(fs, paths[i..i + j + 1]) == Length(fs, paths[i]) + SumLengths(fs, paths[i + 1..i + j + 1])
  {
    var ps := paths[i..i + j + 1];
    assert ps[0] == paths[i] && ps[1..] == paths[i + 1..i + j + 1];
  }

  // ---------------------------------------------------------------------
  // Shape of a run: where it stops and what each report says
  // ---------------------------------------------------------------------

  /** One iteration that neither stops nor throws: its report goes in front of the rest of the run. */
  lemma LoopStep(fs: Fs, dir: string, paths: seq<string>, i: nat, bytes: nat,
                 fetch: nat -> Fetch, stopped: nat -> bool)
    requires i < |paths| && !stopped(i) && !Throws(fs, dir, paths[i], fetch(i))
    ensures var fs' := Written(fs, paths[i], fetch(i));
      var total := bytes + Length(fs', paths[i]);
      var rest := Loop(fs', dir, paths, i + 1, total, fetch, stopped);
      var r := Loop(fs, dir, paths, i, bytes, fetch, stopped);
      r.end == rest.end && r.fs == rest.fs
      && r.reports == [Report(Percent(i + 1, |paths|), i + 1, |paths|, total)] + rest.reports
      && r.fetched == (if NeedsFetch(fs, paths[i]) then [i] else []) + rest.fetched
  {
  }

  /** Where a run stops, what each report says and how the byte counter grows. */
  lemma LoopShape(fs: Fs, dir: string, paths: seq<string>, i: nat, bytes: nat,
                  fetch: nat -> Fetch, stopped: nat -> bool)
    requires i <= |paths|
    ensures var r := Loop(fs, dir, paths, i, bytes, fetch, stopped);
      i <= Processed(r, |paths|) <= |paths|
      && (!r.end.Completed? ==> Processed(r, |paths|) < |paths|)
      && |r.reports| == Processed(r, |paths|) - i
    ensures var r := Loop(fs, dir, paths, i, bytes, fetch, stopped);
      forall j :: 0 <= j < |r.reports| ==>
        r.reports[j].downloadedCount == i + j + 1
        && r.reports[j].totalCount == |paths|
        && r.reports[j].percent == Percent(i + j + 1, |paths|)
    ensures var r := Loop(fs, dir, paths, i, bytes, fetch, stopped);
      (forall j :: 0 <= j < |r.reports| ==> bytes <= r.reports[j].downloadedBytes)
      && (forall j :: 0 < j < |r.reports| ==> r.reports[j - 1].downloadedBytes <= r.reports[j].downloadedBytes)
  {
    LoopCount(fs, dir, paths, i, bytes, fetch, stopped);
    LoopReports(fs, dir, paths, i, bytes, fetch, stopped);
    LoopBytesGrow(fs, dir, paths, i, bytes, fetch, stopped);
  }

  lemma {:induction false} LoopCount(fs: Fs, dir: string, paths: seq<string>, i: nat, bytes: nat,
                                     fetch: nat -> Fetch, stopped: nat -> bool)
    requires i <= |paths|
    ensures var r := Loop(fs, dir, paths, i, bytes, fetch, stopped);
      |r.reports| == Processed(r, |paths|) - i
    decreases |paths| - i
  {
    if i < |paths| && !stopped(i) && !Throws(fs, dir, paths[i], fetch(i)) {
      var fs' := Written(fs, paths[i], fetch(i));
      LoopStep(fs, dir, paths, i, bytes, fetch, stopped);
      LoopCount(fs', dir, paths, i + 1, bytes + Length(fs', paths[i]), fetch, stopped);
    }
  }

  lemma {:induction false} LoopReports(fs: Fs, dir: string, paths: seq<string>, i: nat, bytes: nat,
                                       fetch: nat -> Fetch, stopped: nat -> bool)
    requires i <= |paths|
    ensures var r := Loop(fs, dir, paths, i, bytes, fetch, stopped);
      forall j :: 0 <= j < |r.reports| ==>
        i + j + 1 <= |paths|
        && r.reports[j].downloadedCount == i + j + 1
        && r.reports[j].totalCount == |paths|
        && r.reports[j].percent == Percent(i + j + 1, |paths|)
    decreases |paths| - i
  {
    if i < |paths| && !stopped(i) && !Throws(fs, dir, paths[i], fetch(i)) {
      var fs' := Written(fs, paths[i], fetch(i));
      var total := bytes + Length(fs', paths[i]);
      var r := Loop(fs, dir, paths, i, bytes, fetch, stopped);
      var rest := Loop(fs', dir, paths, i + 1, total, fetch, stopped);
      LoopStep(fs, dir, paths, i, bytes, fetch, stopped);
      LoopCount(fs, dir, paths, i, bytes, fetch, stopped);
      LoopReports(fs', dir, paths, i + 1, total, fetch, stopped);
      ReportsStep(r.reports, rest.reports, i, |paths|, total);
    }
  }

  /** The inductive step of LoopReports, on the report lists alone. */
  lemma ReportsStep(reports: seq<Report>, tail: seq<Report>, i: nat, n: nat, total: nat)
    requires i < n && reports == [Report(Percent(i + 1, n), i + 1, n, total)] + tail
    requires |reports| <= n - i
    requires forall j :: 0 <= j < |tail| ==>
      i + 1 + j + 1 <= n
      && tail[j].downloadedCount == i + 1 + j + 1
      && tail[j].totalCount == n
      && tail[j].percent == Percent(i + 1 + j + 1, n)
    ensures forall j :: 0 <= j < |reports| ==>
      i + j + 1 <= n
      && reports[j].downloadedCount == i + j + 1
      && reports[j].totalCount == n
      && reports[j].percent == Percent(i + j + 1, n)
  {
    forall j | 0 < j < |reports|
      ensures i + j + 1 <= n && reports[j].downloadedCount == i + j + 1
      ensures reports[j].totalCount == n && reports[j].percent == Percent(i + j + 1, n)
    {
      assert reports[j] == tail[j - 1];
    }
  }

  lemma {:induction false} LoopBytesGrow(fs: Fs, dir: string, paths: seq<string>, i: nat, bytes: nat,
                                         fetch: nat -> Fetch, stopped: nat -> bool)
    requires i <= |paths|
    ensures var r := Loop(fs, dir, paths, i, bytes, fetch, stopped);
      (forall j :: 0 <= j < |r.reports| ==> bytes <= r.reports[j].downloadedBytes)
      && (forall j :: 0 < j < |r.reports| ==> r.reports[j - 1].downloadedBytes <= r.reports[j].downloadedBytes)
    decreases |paths| - i
  {
    if i < |paths| && !stopped(i) && !Throws(fs, dir, paths[i], fetch(i)) {
      var fs' := Written(fs, paths[i], fetch(i));
      var total := bytes + Length(fs', paths[i]);
      var r := Loop(fs, dir, paths, i, bytes, fetch, stopped);
      var rest := Loop(fs', dir, paths, i + 1, total, fetch, stopped);
      LoopStep(fs, dir, paths, i, bytes, fetch, stopped);
      LoopBytesGrow(fs', dir, paths, i + 1, total, fetch, stopped);
      assert forall j :: 0 < j < |r.reports| ==> r.reports[j] == rest.reports[j - 1];
    }
  }

  /** The stop flag is read at the top of every iteration, and only a raised flag stops the run. */
  lemma {:induction false} LoopStops(fs: Fs, dir: string, paths: seq<string>, i: nat, bytes: nat,
                                     fetch: nat -> Fetch, stopped: nat -> bool)
    requires i <= |paths|
    ensures var r := Loop(fs, dir, paths, i, bytes, fetch, stopped);
      (forall j :: i <= j < Processed(r, |paths|) ==> !stopped(j))
      && (r.end.Stopped? ==> stopped(r.end.at))
      && (r.end.Errored? ==> !stopped(r.end.at))
    decreases |paths| - i
  {
    if i < |paths| && !stopped(i) && !Throws(fs, dir, paths[i], fetch(i)) {
      var fs' := Written(fs, paths[i], fetch(i));
      var total := bytes + Length(fs', paths[i]);
      assert Loop(fs, dir, paths, i, bytes, fetch, stopped).end == Loop(fs', dir, paths, i + 1, total, fetch, stopped).end by {
        LoopStep(fs, dir, paths, i, bytes, fetch, stopped);
      }
      LoopStops(fs', dir, paths, i + 1, total, fetch, stopped);
    }
  }

  // ---------------------------------------------------------------------
  // What a run does to the filesystem
  // ---------------------------------------------------------------------

  /** Only the targets of the remaining indices can change, and a non-empty file is never rewritten. */
  lemma LoopFrame(fs: Fs, dir: string, paths: seq<string>, i: nat, bytes: nat,
                  fetch: nat -> Fetch, stopped: nat -> bool)
    requires i <= |paths|
    ensures var r := Loop(fs, dir, paths, i, bytes, fetch, stopped);
      forall q :: q !in paths[i..] ==> (q in r.fs <==> q in fs) && (q in fs ==> r.fs[q] == fs[q])
    ensures var r := Loop(fs, dir, paths, i, bytes, fetch, stopped);
      forall q :: IsFile(fs, q) && fs[q].size > 0 ==> q in r.fs && r.fs[q] == fs[q]
    ensures var r := Loop(fs, dir, paths, i, bytes, fetch, stopped);
      forall q :: q in fs ==> q in r.fs
  {
    var r := Loop(fs, dir, paths, i, bytes, fetch, stopped);
    forall q | q !in paths[i..] ensures (q in r.fs <==> q in fs) && (q in fs ==> r.fs[q] == fs[q]) {
      LoopOutside(fs, dir, paths, i, bytes, fetch, stopped, q);
    }
    forall q | IsFile(fs, q) && fs[q].size > 0 ensures q in r.fs && r.fs[q] == fs[q] {
      LoopNonEmptyKept(fs, dir, paths, i, bytes, fetch, stopped, q);
    }
    forall q | q in fs ensures q in r.fs {
      LoopNothingRemoved(fs, dir, paths, i, bytes, fetch, stopped, q);
    }
  }

  lemma {:induction false} LoopOutside(fs: Fs, dir: string, paths: seq<string>, i: nat, bytes: nat,
                                       fetch: nat -> Fetch, stopped: nat -> bool, q: string)
    requires i <= |paths| && q !in paths[i..]
    ensures var r := Loop(fs, dir, paths, i, bytes, fetch, stopped);
      (q in r.fs <==> q in fs) && (q in fs ==> r.fs[q] == fs[q])
    decreases |paths| - i
  {
    if i < |paths| && !stopped(i) && !Throws(fs, dir, paths[i], fetch(i)) {
      var fs' := Written(fs, paths[i], fetch(i));
      assert q != paths[i] && q !in paths[i + 1..];
      LoopStep(fs, dir, paths, i, bytes, fetch, stopped);
      LoopOutside(fs', dir, paths, i + 1, bytes + Length(fs', paths[i]), fetch, stopped, q);
    }
  }

  lemma {:induction false} LoopNonEmptyKept(fs: Fs, dir: string, paths: seq<string>, i: nat, bytes: nat,
                                            fetch: nat -> Fetch, stopped: nat -> bool, q: string)
    requires i <= |paths| && IsFile(fs, q) && fs[q].size > 0
    ensures var r := Loop(fs, dir, paths, i, bytes, fetch, stopped);
      q in r.fs && r.fs[q] == fs[q]
    decreases |paths| - i
  {
    if i < |paths| && !stopped(i) && !Throws(fs, dir, paths[i], fetch(i)) {
      var fs' := Written(fs, paths[i], fetch(i));
      assert q in fs' && fs'[q] == fs[q];
      LoopStep(fs, dir, paths, i, bytes, fetch, stopped);
      LoopNonEmptyKept(fs', dir, paths, i + 1, bytes + Length(fs', paths[i]), fetch, stopped, q);
    }
  }

  lemma {:induction false} LoopNothingRemoved(fs: Fs, dir: string, paths: seq<string>, i: nat, bytes: nat,
                                              fetch: nat -> Fetch, stopped: nat -> bool, q: string)
    requires i <= |paths| && q in fs
    ensures q in Loop(fs, dir, paths, i, bytes, fetch, stopped).fs
    decreases |paths| - i
  {
    if i < |paths| && !stopped(i) && !Throws(fs, dir, paths[i], fetch(i)) {
      var fs' := Written(fs, paths[i], fetch(i));
      LoopStep(fs, dir, paths, i, bytes, fetch, stopped);
      LoopNothingRemoved(fs', dir, paths, i + 1, bytes + Length(fs', paths[i]), fetch, stopped, q);
    }
  }

  /** With distinct targets, the run fetches exactly the processed indices whose file was absent or empty. */
  lemma {:induction false} LoopFetchesExactly(fs: Fs, dir: string, paths: seq<string>, i: nat, bytes: nat,
                                              fetch: nat -> Fetch, stopped: nat -> bool)
    requires i <= |paths| && DistinctPaths(paths)
    ensures var r := Loop(fs, dir, paths, i, bytes, fetch, stopped);
      forall j :: j in r.fetched <==> i <= j < Processed(r, |paths|) && NeedsFetch(fs, paths[j])
    decreases |paths| - i
  {
    var r := Loop(fs, dir, paths, i, bytes, fetch, stopped);
    if i < |paths| && !stopped(i) && !Throws(fs, dir, paths[i], fetch(i)) {
      var fs' := Written(fs, paths[i], fetch(i));
      var total := bytes + Length(fs', paths[i]);
      var rest := Loop(fs', dir, paths, i + 1, total, fetch, stopped);
      var p := Processed(rest, |paths|);
      assert r.fetched == (if NeedsFetch(fs, paths[i]) then [i] else []) + rest.fetched
        && Processed(r, |paths|) == p by {
        LoopStep(fs, dir, paths, i, bytes, fetch, stopped);
      }
      assert forall j :: j in rest.fetched <==> i + 1 <= j < p && NeedsFetch(fs', paths[j]) by {
        LoopFetchesExactly(fs', dir, paths, i + 1, total, fetch, stopped);
      }
      forall j | i + 1 <= j < |paths| ensures NeedsFetch(fs', paths[j]) == NeedsFetch(fs, paths[j]) {
        assert paths[j] != paths[i];
      }
      FetchedStep(fs, fs', paths, i, p, r.fetched, rest.fetched);
    }
  }

  /** The inductive step of LoopFetchesExactly, on the index lists alone. */
  lemma FetchedStep(fs: Fs, fs': Fs, paths: seq<string>, i: nat, p: nat, fetched: seq<nat>, tail: seq<nat>)
    requires i < p <= |paths|
    requires fetched == (if NeedsFetch(fs, paths[i]) then [i] else []) + tail
    requires forall j :: j in tail <==> i + 1 <= j < p && NeedsFetch(fs', paths[j])
    requires forall j :: i + 1 <= j < |paths| ==> NeedsFetch(fs', paths[j]) == NeedsFetch(fs, paths[j])
    ensures forall j :: j in fetched <==> i <= j < p && NeedsFetch(fs, paths[j])
  {
    forall j ensures j in fetched <==> i <= j < p && NeedsFetch(fs, paths[j]) {
      assert j in fetched <==> (j == i && NeedsFetch(fs, paths[i])) || j in tail;
    }
  }

  /**
   * With distinct targets, indices the run never reached are left exactly
   * as they were; that includes the index where it stopped, but not the one where it threw.
   */
  lemma {:induction false} LoopLeavesRest(fs: Fs, dir: string, paths: seq<string>, i: nat, bytes: nat,
                                          fetch: nat -> Fetch, stopped: nat -> bool)
    requires i <= |paths| && DistinctPaths(paths)
    ensures var r := Loop(fs, dir, paths, i, bytes, fetch, stopped);
      forall j :: Touched(r, |paths|) <= j < |paths| ==>
        (paths[j] in r.fs <==> paths[j] in fs) && (paths[j] in fs ==> r.fs[paths[j]] == fs[paths[j]])
    decreases |paths| - i
  {
    if i < |paths| && !stopped(i) && !Throws(fs, dir, paths[i], fetch(i)) {
      var fs' := Written(fs, paths[i], fetch(i));
      LoopStep(fs, dir, paths, i, bytes, fetch, stopped);
      var total := bytes + Length(fs', paths[i]);
      LoopLeavesRest(fs', dir, paths, i + 1, total, fetch, stopped);
      forall j | i + 1 <= j < |paths| ensures (paths[j] in fs' <==> paths[j] in fs) && (paths[j] in fs ==> fs'[paths[j]] == fs[paths[j]]) {
        assert paths[j] != paths[i];
      }
    }
  }

  /** Every index the run got through ends with a regular file at its target. */
  lemma {:induction false} LoopLeavesFiles(fs: Fs, dir: string, paths: seq<string>, i: nat, bytes: nat,
                                           fetch: nat -> Fetch, stopped: nat -> bool)
    requires i <= |paths|
    ensures var r := Loop(fs, dir, paths, i, bytes, fetch, stopped);
      forall j :: i <= j < Processed(r, |paths|) ==> IsFile(r.fs, paths[j])
    decreases |paths| - i
  {
    if i < |paths| && !stopped(i) && !Throws(fs, dir, paths[i], fetch(i)) {
      var fs' := Written(fs, paths[i], fetch(i));
      LoopStep(fs, dir, paths, i, bytes, fetch, stopped);
      var total := bytes + Length(fs', paths[i]);
      LoopLeavesFiles(fs', dir, paths, i + 1, total, fetch, stopped);
      LoopKeepsFiles(fs', dir, paths, i + 1, total, fetch, stopped, paths[i]);
    }
  }

  /** A regular file stays a regular file for the rest of the run. */
  lemma {:induction false} LoopKeepsFiles(fs: Fs, dir: string, paths: seq<string>, i: nat, bytes: nat,
                                          fetch: nat -> Fetch, stopped: nat -> bool, q: string)
    requires i <= |paths| && IsFile(fs, q)
    ensures IsFile(Loop(fs, dir, paths, i, bytes, fetch, stopped).fs, q)
    decreases |paths| - i
  {
    if i < |paths| && !stopped(i) && !Throws(fs, dir, paths[i], fetch(i)) {
      var fs' := Written(fs, paths[i], fetch(i));
      LoopStep(fs, dir, paths, i, bytes, fetch, stopped);
      LoopKeepsFiles(fs', dir, paths, i + 1, bytes + Length(fs', paths[i]), fetch, stopped, q);
    }
  }

  /** A path outside the remaining targets is left as it was. */
  lemma {:induction false} LoopKeeps(fs: Fs, dir: string, paths: seq<string>, i: nat, bytes: nat,
                                     fetch: nat -> Fetch, stopped: nat -> bool, q: string)
    requires i <= |paths| && q !in paths[i..]
    ensures Length(Loop(fs, dir, paths, i, bytes, fetch, stopped).fs, q) == Length(fs, q)
    decreases |paths| - i
  {
    if i < |paths| && !stopped(i) && !Throws(fs, dir, paths[i], fetch(i)) {
      var fs' := Written(fs, paths[i], fetch(i));
      LoopStep(fs, dir, paths, i, bytes, fetch, stopped);
      assert q != paths[i] && q !in paths[i + 1..];
      LoopKeeps(fs', dir, paths, i + 1, bytes + Length(fs', paths[i]), fetch, stopped, q);
    }
  }

  /** Every report j counts `bytes` plus the sizes in `fs` of files i .. i+j. */
  ghost predicate CountsBytes(reports: seq<Report>, fs: Fs, paths: seq<string>, i: nat, bytes: nat) {
    forall j: nat :: CountsBytesAt(reports, fs, paths, i, bytes, j)
  }

  predicate CountsBytesAt(reports: seq<Report>, fs: Fs, paths: seq<string>, i: nat, bytes: nat, j: nat) {
    j < |reports| ==>
      i + j + 1 <= |paths| && reports[j].downloadedBytes == bytes + SumLengths(fs, paths[i..i + j + 1])
  }

  /**
   * With distinct targets, the byte counter of report j is the starting
   * count plus the final sizes of the first j+1 processed files.
   */
  lemma {:induction false} LoopBytes(fs: Fs, dir: string, paths: seq<string>, i: nat, bytes: nat,
                                     fetch: nat -> Fetch, stopped: nat -> bool)
    requires i <= |paths| && DistinctPaths(paths)
    ensures var r := Loop(fs, dir, paths, i, bytes, fetch, stopped);
      CountsBytes(r.reports, r.fs, paths, i, bytes)
    decreases |paths| - i
  {
    if i < |paths| && !stopped(i) && !Throws(fs, dir, paths[i], fetch(i)) {
      var r := Loop(fs, dir, paths, i, bytes, fetch, stopped);
      var fs' := Written(fs, paths[i], fetch(i));
      var len := Length(fs', paths[i]);
      var rest := Loop(fs', dir, paths, i + 1, bytes + len, fetch, stopped);
      LoopBytes(fs', dir, paths, i + 1, bytes + len, fetch, stopped);
      assert r.fs == rest.fs && |r.reports| == |rest.reports| + 1 && r.reports[1..] == rest.reports
        && r.reports[0].downloadedBytes == bytes + len by {
        LoopStep(fs, dir, paths, i, bytes, fetch, stopped);
      }
      assert i + |r.reports| <= |paths| by {
        LoopCount(fs, dir, paths, i, bytes, fetch, stopped);
      }
      assert Length(rest.fs, paths[i]) == len by {
        assert paths[i] !in paths[i + 1..] by {
          forall k | i + 1 <= k < |paths| ensures paths[k] != paths[i] { }
        }
        LoopKeeps(fs', dir, paths, i + 1, bytes + len, fetch, stopped, paths[i]);
      }
      BytesStep(r.reports, rest.reports, rest.fs, paths, i, bytes, len);
    }
  }

  /** The inductive step of LoopBytes, on the report lists alone. */
  lemma BytesStep(reports: seq<Report>, tail: seq<Report>, fs: Fs, paths: seq<string>, i: nat, bytes: nat, len: nat)
    requires |reports| == |tail| + 1 && reports[1..] == tail
    requires i + |reports| <= |paths|
    requires Length(fs, paths[i]) == len
    requires reports[0].downloadedBytes == bytes + len
    requires CountsBytes(tail, fs, paths, i + 1, bytes + len)
    ensures CountsBytes(reports, fs, paths, i, bytes)
  {
    forall j: nat
      ensures CountsBytesAt(reports, fs, paths, i, bytes, j)
    {
      if j < |reports| {
        SumLengthsFront(fs, paths, i, j);
        if j > 0 {
          assert reports[j] == tail[j - 1];
          assert CountsBytesAt(tail, fs, paths, i + 1, bytes + len, j - 1);
        } else {
          assert paths[i + 1..i + 1] == [];
        }
      }
    }
  }

  /**
   * A body interrupted after some bytes leaves a non-empty, truncated file,
   * and the resume test then takes it for a finished page: no later run fetches it again.
   */
  lemma InterruptedPageKept(fs: Fs, dir: string, paths: seq<string>, i: nat, bytes: nat,
                            fetch: nat -> Fetch, stopped: nat -> bool)
    requires i < |paths| && !stopped(i) && fetch(i).Interrupted? && fetch(i).written > 0
    requires NeedsFetch(fs, paths[i]) && IsDirectory(fs, dir) && !IsDirectory(fs, paths[i])
    ensures var r := Loop(fs, dir, paths, i, bytes, fetch, stopped);
      && r.end == Errored(i)
      && r.fs == fs[paths[i] := RegularFile(fetch(i).written)]
      && !NeedsFetch(r.fs, paths[i])
    ensures forall fetch': nat -> Fetch, stopped': nat -> bool, b: nat ::
      var r := Loop(fs, dir, paths, i, bytes, fetch, stopped);
      i !in Loop(r.fs, dir, paths, i, b, fetch', stopped').fetched
  {
    var r := Loop(fs, dir, paths, i, bytes, fetch, stopped);
    forall fetch': nat -> Fetch, stopped': nat -> bool, b: nat
      ensures i !in Loop(r.fs, dir, paths, i, b, fetch', stopped').fetched
    {
      LoopFetchedAfter(r.fs, dir, paths, i, b, fetch', stopped');
    }
  }

  /** A run started at index i fetches only indices from i on, and index i only when its file needs it. */
  lemma {:induction false} LoopFetchedAfter(fs: Fs, dir: string, paths: seq<string>, i: nat, bytes: nat,
                                            fetch: nat -> Fetch, stopped: nat -> bool)
    requires i <= |paths|
    ensures var r := Loop(fs, dir, paths, i, bytes, fetch, stopped);
      forall j :: j in r.fetched ==> i <= j && (j == i ==> NeedsFetch(fs, paths[i]))
    decreases |paths| - i
  {
    if i < |paths| && !stopped(i) && !Throws(fs, dir, paths[i], fetch(i)) {
      var fs' := Written(fs, paths[i], fetch(i));
      LoopStep(fs, dir, paths, i, bytes, fetch, stopped);
      LoopFetchedAfter(fs', dir, paths, i + 1, bytes + Length(fs', paths[i]), fetch, stopped);
    }
  }
}
