/**
 * The app's `NativePdfGenerator`: one PDF from an image list, tall
 * ("webtoon") images cut into strips of at most 3000 px, with a progress
 * schedule reserved to 0..90 for the image pass and 92 for the write.
 *
 * Bitmap decoding, out-of-memory while cutting a strip, `addPageToPdf`
 * and the final write are oracles. The document is the list of pages
 * started, each with the page number `addPageToPdf` was given and whether
 * its bitmap was drawn.
 */
module PdfGenerator {
  import opened Wrappers
  import opened Text
  import opened Arith

  const MaxChunkHeight: nat := 3000
  const ProgressScale: nat := 90
  const SavingProgress: int := 92

  /** `height.toFloat() / width > 2.5`, compared over the integers. */
  predicate IsWebtoon(width: nat, height: nat) {
    2 * height > 5 * width
  }

  function Min(a: int, b: int): (m: int)
    ensures m <= a && m <= b && (m == a || m == b)
  {
    if a <= b then a else b
  }

  /** One strip of `splitBitmap`: rows `y .. y + height` of the source. */
  datatype Strip = Strip(y: nat, height: nat)

  /**
   * `splitBitmap` from offset `y` on: while `y < height`, cut a strip of
   * `min(max, height - y)` rows, unless that allocation runs out of memory
   * (`oom(y)`), which ends the split.
   */
  function SplitFrom(height: nat, max: nat, y: nat, oom: nat -> bool): (s: seq<Strip>)
    requires max > 0
    decreases if y < height then height - y else 0
    ensures forall k :: 0 <= k < |s| ==> s[k].y == y + k * max && s[k].y < height
    ensures forall k :: 0 <= k < |s| ==> s[k].height == Min(max, height - s[k].y) && s[k].height > 0
    ensures forall k :: 0 <= k < |s| ==> !oom(s[k].y)
  {
    if y >= height || oom(y) then []
    else
      var rest := SplitFrom(height, max, y + max, oom);
      var s := [Strip(y, Min(max, height - y))] + rest;
      assert forall k :: 0 < k < |s| ==> s[k] == rest[k - 1];
      assert forall k :: 0 < k < |s| ==> s[k].y == y + k * max by {
        forall k | 0 < k < |s| ensures s[k].y == y + k * max {
          OffsetStep(y, max, k);
        }
      }
      s
  }

  lemma OffsetStep(y: nat, max: nat, k: nat)
    requires k > 0
    ensures y + k * max == (y + max) + (k - 1) * max
  {
  }

  function SumHeights(s: seq<Strip>): nat {
    if |s| == 0 then 0 else s[0].height + SumHeights(s[1..])
  }

  /** Without out-of-memory the strips cover the rows exactly: ceil((height - y) / max) of them, heights summing to the rest. */
  lemma SplitCovers(height: nat, max: nat, y: nat, oom: nat -> bool)
    requires max > 0 && y <= height
    requires forall z :: !oom(z)
    ensures SumHeights(SplitFrom(height, max, y, oom)) == height - y
    ensures |SplitFrom(height, max, y, oom)| == (height - y + max - 1) / max
  {
    SplitSum(height, max, y, oom);
    SplitCount(height, max, y, oom);
  }

  /** The first strip of a split that has not reached the end. */
  lemma SplitStep(height: nat, max: nat, y: nat, oom: nat -> bool)
    requires max > 0 && y < height && !oom(y)
    ensures var s := SplitFrom(height, max, y, oom);
      |s| > 0 && s[0] == Strip(y, Min(max, height - y)) && s[1..] == SplitFrom(height, max, y + max, oom)
  {
    var rest := SplitFrom(height, max, y + max, oom);
    assert SplitFrom(height, max, y, oom) == [Strip(y, Min(max, height - y))] + rest;
  }

  lemma {:induction false} SplitSum(height: nat, max: nat, y: nat, oom: nat -> bool)
    requires max > 0 && y <= height
    requires forall z :: !oom(z)
    decreases height - y
    ensures SumHeights(SplitFrom(height, max, y, oom)) == height - y
  {
    if y < height {
      SplitStep(height, max, y, oom);
      if y + max < height {
        SplitSum(height, max, y + max, oom);
      }
    }
  }

  lemma {:induction false} SplitCount(height: nat, max: nat, y: nat, oom: nat -> bool)
    requires max > 0 && y <= height
    requires forall z :: !oom(z)
    decreases height - y
    ensures |SplitFrom(height, max, y, oom)| == (height - y + max - 1) / max
  {
    CeilDivCases(height - y, max);
    if y < height {
      SplitStep(height, max, y, oom);
      if y + max < height {
        SplitCount(height, max, y + max, oom);
      }
    }
  }

  /** Running out of memory only truncates: the strips cut are a prefix of the full split. */
  lemma {:induction false} SplitOomPrefix(height: nat, max: nat, y: nat, oom: nat -> bool)
    requires max > 0
    decreases if y < height then height - y else 0
    ensures var s := SplitFrom(height, max, y, oom);
      var full := SplitFrom(height, max, y, z => false);
      |s| <= |full| && s == full[..|s|]
  {
    if y < height && !oom(y) {
      SplitOomPrefix(height, max, y + max, oom);
    }
  }

  /** A source image as the decoder sees it; `Broken` throws inside the per-image block before any page. */
  datatype Image = Undecodable | Decoded(width: nat, height: nat) | Broken

  /** A page of the document: the number `addPageToPdf` was given, the bitmap's size, and whether it was drawn. */
  datatype Page = Page(number: nat, width: nat, height: nat, drawn: bool)

  /**
   * What `addPageToPdf` does with one bitmap: adds it; throws before
   * `startPage`, so no page is started; or throws while drawing, after
   * `startPage`, when its `finally` still finishes the page. Only `Added`
   * returns true.
   */
  datatype PageAdd = Added | NotStarted | DrawFailed

  /** The pages whose bitmap was drawn: what the generator's `totalPages` counts. */
  function DrawnCount(doc: seq<Page>): nat {
    if |doc| == 0 then 0 else DrawnCount(doc[..|doc| - 1]) + (if doc[|doc| - 1].drawn then 1 else 0)
  }

  /** No more pages are drawn than are in the document. */
  lemma {:induction false} DrawnAtMost(doc: seq<Page>)
    ensures DrawnCount(doc) <= |doc|
  {
    if |doc| > 0 {
      DrawnAtMost(doc[..|doc| - 1]);
    }
  }

  /** When every page was drawn, each prefix's count is its length. */
  lemma {:induction false} AllDrawnCount(doc: seq<Page>)
    requires forall k :: 0 <= k < |doc| ==> doc[k].drawn
    ensures forall k :: 0 <= k <= |doc| ==> DrawnCount(doc[..k]) == k
  {
    if |doc| > 0 {
      var init := doc[..|doc| - 1];
      AllDrawnCount(init);
      forall k | 0 <= k <= |doc| ensures DrawnCount(doc[..k]) == k {
        if k < |doc| {
          assert doc[..k] == init[..k];
        } else {
          assert doc[..k] == doc;
          assert init[..|init|] == init;
        }
      }
    }
  }

  /** Every page carries the page count at the time it was started: the number of drawn pages before it. */
  predicate CountNumbered(doc: seq<Page>, from: nat) {
    forall k :: from <= k < |doc| ==> doc[k].number == DrawnCount(doc[..k])
  }

  /** The bitmaps one decoded image offers to `addPageToPdf`: its strips, or itself whole. */
  function Bitmaps(width: nat, height: nat, oom: nat -> bool): (bs: seq<(nat, nat)>)
    ensures !IsWebtoon(width, height) ==> bs == [(width, height)]
    ensures IsWebtoon(width, height) ==>
      var strips := SplitFrom(height, MaxChunkHeight, 0, oom);
      |bs| == |strips| && forall k :: 0 <= k < |bs| ==> bs[k] == (width, strips[k].height)
  {
    if IsWebtoon(width, height) then
      var strips := SplitFrom(height, MaxChunkHeight, 0, oom);
      seq(|strips|, k requires 0 <= k < |strips| => (width, strips[k].height))
    else [(width, height)]
  }

  /**
   * The bitmaps of image `i` from `j` on, each offered as page number
   * `DrawnCount(doc)`: a started page stays in the document, but only a
   * drawn one advances the count.
   */
  function AddPages(doc: seq<Page>, bs: seq<(nat, nat)>, j: nat, i: nat, add: (nat, nat) -> PageAdd): (r: seq<Page>)
    requires j <= |bs|
    decreases |bs| - j
    ensures |doc| <= |r| <= |doc| + |bs| - j
    ensures r[..|doc|] == doc
    ensures CountNumbered(r, |doc|)
    ensures (forall b :: j <= b < |bs| ==> add(i, b) != DrawFailed) ==> forall k :: |doc| <= k < |r| ==> r[k].drawn
  {
    if j == |bs| then doc
    else if add(i, j) == NotStarted then AddPages(doc, bs, j + 1, i, add)
    else
      var doc' := doc + [Page(DrawnCount(doc), bs[j].0, bs[j].1, add(i, j) == Added)];
      var r := AddPages(doc', bs, j + 1, i, add);
      assert r[..|doc|] == r[..|doc'|][..|doc|];
      assert r[|doc|] == doc'[|doc|];
      r
  }

  /** The image pass from image `i` on. */
  function ImagePages(images: seq<Image>, i: nat, doc: seq<Page>,
                      oom: (nat, nat) -> bool, add: (nat, nat) -> PageAdd): (r: seq<Page>)
    requires i <= |images|
    decreases |images| - i
    ensures |doc| <= |r| && r[..|doc|] == doc
    ensures CountNumbered(r, |doc|)
    ensures (forall a, b :: add(a, b) != DrawFailed) ==> forall k :: |doc| <= k < |r| ==> r[k].drawn
  {
    if i == |images| then doc
    else match images[i]
      case Decoded(w, h) =>
        var doc' := AddPages(doc, Bitmaps(w, h, (y: nat) => oom(i, y)), 0, i, add);
        var r := ImagePages(images, i + 1, doc', oom, add);
        assert r[..|doc|] == r[..|doc'|][..|doc|];
        assert forall k :: |doc| <= k < |doc'| ==> r[..k] == doc'[..k] && r[k] == doc'[k];
        r
      case _ => ImagePages(images, i + 1, doc, oom, add)
  }

  function PageHeights(doc: seq<Page>): nat {
    if |doc| == 0 then 0 else doc[0].height + PageHeights(doc[1..])
  }

  function DecodedHeights(images: seq<Image>): nat {
    if |images| == 0 then 0
    else (if images[0].Decoded? then images[0].height else 0) + DecodedHeights(images[1..])
  }

  lemma {:induction false} PageHeightsAppend(a: seq<Page>, b: seq<Page>)
    ensures PageHeights(a + b) == PageHeights(a) + PageHeights(b)
  {
    if |a| > 0 {
      assert (a + b)[0] == a[0] && (a + b)[1..] == a[1..] + b;
      PageHeightsAppend(a[1..], b);
    } else {
      assert a + b == b;
    }
  }

  lemma {:induction false} DecodedHeightsAppend(a: seq<Image>, b: seq<Image>)
    ensures DecodedHeights(a + b) == DecodedHeights(a) + DecodedHeights(b)
  {
    if |a| > 0 {
      assert (a + b)[0] == a[0] && (a + b)[1..] == a[1..] + b;
      DecodedHeightsAppend(a[1..], b);
    } else {
      assert a + b == b;
    }
  }

  /** When every page is added, the added pages carry exactly the bitmaps' heights. */
  lemma {:induction false} AddAllPages(doc: seq<Page>, bs: seq<(nat, nat)>, j: nat, i: nat, add: (nat, nat) -> PageAdd)
    requires j <= |bs|
    requires forall a, b :: add(a, b) == Added
    decreases |bs| - j
    ensures |AddPages(doc, bs, j, i, add)| == |doc| + |bs| - j
    ensures PageHeights(AddPages(doc, bs, j, i, add)) == PageHeights(doc) + BitmapHeights(bs[j..])
  {
    if j < |bs| {
      var p := Page(DrawnCount(doc), bs[j].0, bs[j].1, true);
      AddAllPages(doc + [p], bs, j + 1, i, add);
      PageHeightsAppend(doc, [p]);
      assert bs[j..][1..] == bs[j + 1..];
    }
  }

  function BitmapHeights(bs: seq<(nat, nat)>): nat {
    if |bs| == 0 then 0 else bs[0].1 + BitmapHeights(bs[1..])
  }

  /** The strips of one image, as bitmaps, carry its full height. */
  lemma {:induction false} StripBitmapHeights(width: nat, strips: seq<Strip>, bs: seq<(nat, nat)>)
    requires |bs| == |strips| && forall k :: 0 <= k < |bs| ==> bs[k] == (width, strips[k].height)
    ensures BitmapHeights(bs) == SumHeights(strips)
  {
    if |bs| > 0 {
      StripBitmapHeights(width, strips[1..], bs[1..]);
    }
  }

  /** Without out-of-memory, an image's bitmaps carry its whole height, whether cut or not. */
  lemma BitmapsCoverImage(width: nat, height: nat, oom: nat -> bool)
    requires forall z :: !oom(z)
    ensures BitmapHeights(Bitmaps(width, height, oom)) == height
    ensures IsWebtoon(width, height) ==> |Bitmaps(width, height, oom)| == (height + MaxChunkHeight - 1) / MaxChunkHeight
  {
    var bs := Bitmaps(width, height, oom);
    if IsWebtoon(width, height) {
      var strips := SplitFrom(height, MaxChunkHeight, 0, oom);
      SplitCovers(height, MaxChunkHeight, 0, oom);
      StripBitmapHeights(width, strips, bs);
    } else {
      assert bs[1..] == [];
    }
  }

  /**
   * With no out-of-memory and every page added, nothing is lost: the
   * document's pages together are exactly as tall as the decoded images.
   */
  lemma {:induction false} NothingLost(images: seq<Image>, i: nat, doc: seq<Page>,
                                       oom: (nat, nat) -> bool, add: (nat, nat) -> PageAdd)
    requires i <= |images|
    requires forall a, b :: !oom(a, b)
    requires forall a, b :: add(a, b) == Added
    decreases |images| - i
    ensures PageHeights(ImagePages(images, i, doc, oom, add)) == PageHeights(doc) + DecodedHeights(images[i..])
  {
    if i < |images| {
      assert images[i..] == [images[i]] + images[i + 1..];
      DecodedHeightsAppend([images[i]], images[i + 1..]);
      assert DecodedHeights([images[i]]) == if images[i].Decoded? then images[i].height else 0 by {
        assert [images[i]][1..] == [];
      }
      match images[i]
      case Decoded(w, h) =>
        var bs := Bitmaps(w, h, (y: nat) => oom(i, y));
        var doc' := AddPages(doc, bs, 0, i, add);
        AddAllPages(doc, bs, 0, i, add);
        assert bs[0..] == bs;
        BitmapsCoverImage(w, h, (y: nat) => oom(i, y));
        NothingLost(images, i + 1, doc', oom, add);
      case _ =>
        NothingLost(images, i + 1, doc, oom, add);
    }
  }

  /** The page count is the number of accepted bitmaps: a refused page is not counted. */
  lemma {:induction false} RefusedPagesUncounted(doc: seq<Page>, bs: seq<(nat, nat)>, j: nat, i: nat, add: (nat, nat) -> PageAdd)
    requires j <= |bs|
    decreases |bs| - j
    ensures |AddPages(doc, bs, j, i, add)| == |doc| + Started(bs, j, i, add)
    ensures DrawnCount(AddPages(doc, bs, j, i, add)) == DrawnCount(doc) + Accepted(bs, j, i, add)
  {
    if j < |bs| {
      if add(i, j) == NotStarted {
        RefusedPagesUncounted(doc, bs, j + 1, i, add);
      } else {
        var doc' := doc + [Page(DrawnCount(doc), bs[j].0, bs[j].1, add(i, j) == Added)];
        assert doc'[..|doc|] == doc;
        RefusedPagesUncounted(doc', bs, j + 1, i, add);
      }
    }
  }

  /** How many of the bitmaps from `j` on `addPageToPdf` adds. */
  function Accepted(bs: seq<(nat, nat)>, j: nat, i: nat, add: (nat, nat) -> PageAdd): nat
    requires j <= |bs|
    decreases |bs| - j
  {
    if j == |bs| then 0 else (if add(i, j) == Added then 1 else 0) + Accepted(bs, j + 1, i, add)
  }

  /** How many of the bitmaps from `j` on get as far as `startPage`. */
  function Started(bs: seq<(nat, nat)>, j: nat, i: nat, add: (nat, nat) -> PageAdd): nat
    requires j <= |bs|
    decreases |bs| - j
  {
    if j == |bs| then 0 else (if add(i, j) != NotStarted then 1 else 0) + Started(bs, j + 1, i, add)
  }

  /** A progress report of the image pass, for image `index`. */
  datatype Report = Report(index: nat, percent: int)

  /** Image `j` reports progress when it was processed and is every fifth or the last. */
  predicate ReportsAt(images: seq<Image>, j: nat)
    requires j < |images|
  {
    images[j].Decoded? && ((j + 1) % 5 == 0 || j == |images| - 1)
  }

  /** The reports of the image pass from image `i` on, scaled to 0..90. */
  function Reports(images: seq<Image>, i: nat): (rs: seq<Report>)
    requires i <= |images|
    decreases |images| - i
    ensures forall k :: 0 <= k < |rs| ==> i <= rs[k].index < |images| && ReportsAt(images, rs[k].index)
    ensures forall k :: 0 <= k < |rs| ==> rs[k].percent == (rs[k].index + 1) * ProgressScale / |images|
    ensures forall k, k' :: 0 <= k < k' < |rs| ==> rs[k].index < rs[k'].index
  {
    if i == |images| then []
    else
      var rest := Reports(images, i + 1);
      if ReportsAt(images, i) then
        var rs := [Report(i, (i + 1) * ProgressScale / |images|)] + rest;
        assert forall k :: 0 < k < |rs| ==> rs[k] == rest[k - 1];
        rs
      else rest
  }

  /** Every image that should report does. */
  lemma {:induction false} ReportsComplete(images: seq<Image>, i: nat, j: nat)
    requires i <= j < |images| && ReportsAt(images, j)
    decreases |images| - i
    ensures exists k :: 0 <= k < |Reports(images, i)| && Reports(images, i)[k].index == j
  {
    var rs := Reports(images, i);
    if i == j {
      assert rs[0].index == j;
    } else {
      ReportsComplete(images, i + 1, j);
      var rest := Reports(images, i + 1);
      var k :| 0 <= k < |rest| && rest[k].index == j;
      if ReportsAt(images, i) {
        assert rs[k + 1].index == j;
      } else {
        assert rs[k].index == j;
      }
    }
  }

  /** `(j + 1) * 90 / n` lies in 0..90, grows with `j`, and is 90 for the last image. */
  lemma ScaledProgress(j: nat, j': nat, n: nat)
    requires j <= j' < n
    ensures 0 <= (j + 1) * ProgressScale / n <= (j' + 1) * ProgressScale / n <= ProgressScale
    ensures (n * ProgressScale) / n == ProgressScale
  {
    MulMonotone(ProgressScale, j + 1, j' + 1);
    MulMonotone(ProgressScale, j' + 1, n);
    DivMonotone((j + 1) * ProgressScale, (j' + 1) * ProgressScale, n);
    DivMonotone((j' + 1) * ProgressScale, n * ProgressScale, n);
    DivExact(n * ProgressScale, n, ProgressScale, 0);
  }

  /** What `generatePdf` tells its callback. */
  datatype Callback = Progress(percent: int) | Complete(path: string, pageCount: nat, fileSize: nat) | Error(message: string)

  /** The final write: the file's size, or the exception's message. */
  datatype Write = Written(size: nat) | WriteFails(message: string)

  datatype Generation = Generation(callbacks: seq<Callback>, doc: seq<Page>, outputKept: bool)

  const ErrorPrefix: string := "Native PDF generation failed: "

  function ProgressCallbacks(rs: seq<Report>): (cs: seq<Callback>)
    ensures |cs| == |rs| && forall k :: 0 <= k < |cs| ==> cs[k] == Progress(rs[k].percent)
  {
    seq(|rs|, k requires 0 <= k < |rs| => Progress(rs[k].percent))
  }

  /** `generatePdf`: the image pass, 92 before saving, then completion or error (the output file deleted). */
  function Generate(images: seq<Image>, outputPath: string, oom: (nat, nat) -> bool, add: (nat, nat) -> PageAdd,
                    write: Write): Generation
  {
    var doc := ImagePages(images, 0, [], oom, add);
    var progress := ProgressCallbacks(Reports(images, 0)) + [Progress(SavingProgress)];
    Generation(progress + [Terminal(outputPath, DrawnCount(doc), write)], doc, write.Written?)
  }

  /** `onComplete` after a successful write, `onError` after a failed one. */
  function Terminal(outputPath: string, pageCount: nat, write: Write): Callback {
    match write
    case Written(size) => Complete(outputPath, pageCount, size)
    case WriteFails(message) => Error(ErrorPrefix + message)
  }

  /** The image pass's reports lie in 0..90 and never decrease. */
  lemma ReportsScaled(images: seq<Image>)
    ensures var rs := Reports(images, 0);
      (forall k :: 0 <= k < |rs| ==> 0 <= rs[k].percent <= ProgressScale)
      && (forall k :: 0 <= k < |rs| - 1 ==> rs[k].percent <= rs[k + 1].percent)
  {
    var rs := Reports(images, 0);
    forall k | 0 <= k < |rs| ensures 0 <= rs[k].percent <= ProgressScale {
      ScaledProgress(rs[k].index, rs[k].index, |images|);
    }
    forall k | 0 <= k < |rs| - 1 ensures rs[k].percent <= rs[k + 1].percent {
      ScaledProgress(rs[k].index, rs[k + 1].index, |images|);
    }
  }

  /** Reports in 0..90 that never decrease, followed by 92 and a terminal callback. */
  lemma ProgressTrace(rs: seq<Report>, t: Callback)
    requires forall k :: 0 <= k < |rs| ==> 0 <= rs[k].percent <= ProgressScale
    requires forall k :: 0 <= k < |rs| - 1 ==> rs[k].percent <= rs[k + 1].percent
    ensures var cs := ProgressCallbacks(rs) + [Progress(SavingProgress), t];
      (forall k :: 0 <= k < |cs| - 1 ==> cs[k].Progress?)
      && (forall k :: 0 <= k < |cs| - 2 ==> 0 <= cs[k].percent <= ProgressScale)
      && (forall k :: 0 <= k < |cs| - 2 ==> cs[k].percent <= cs[k + 1].percent)
  {
    var ps := ProgressCallbacks(rs);
    var cs := ps + [Progress(SavingProgress), t];
    forall k | 0 <= k < |cs| - 2 ensures cs[k].percent <= cs[k + 1].percent {
      assert cs[k] == ps[k];
      if k + 1 < |rs| {
        assert cs[k + 1] == ps[k + 1];
      }
    }
  }

  lemma GenerateShape(images: seq<Image>, outputPath: string, oom: (nat, nat) -> bool, add: (nat, nat) -> PageAdd, write: Write)
    ensures Generate(images, outputPath, oom, add, write).callbacks
      == ProgressCallbacks(Reports(images, 0)) + [Progress(SavingProgress), Terminal(outputPath, DrawnCount(ImagePages(images, 0, [], oom, add)), write)]
  {
  }

  /**
   * The callback trace: progress values that never decrease, at most 90
   * during the image pass, then 92, then exactly one terminal callback.
   */
  lemma GenerateProgress(images: seq<Image>, outputPath: string, oom: (nat, nat) -> bool, add: (nat, nat) -> PageAdd, write: Write)
    ensures var cs := Generate(images, outputPath, oom, add, write).callbacks;
      |cs| == |Reports(images, 0)| + 2 && cs[|cs| - 2] == Progress(SavingProgress)
      && (forall k :: 0 <= k < |cs| - 1 ==> cs[k].Progress?)
      && (forall k :: 0 <= k < |cs| - 2 ==> 0 <= cs[k].percent <= ProgressScale)
      && (forall k :: 0 <= k < |cs| - 2 ==> cs[k].percent <= cs[k + 1].percent)
  {
    var rs := Reports(images, 0);
    var t := Terminal(outputPath, DrawnCount(ImagePages(images, 0, [], oom, add)), write);
    GenerateShape(images, outputPath, oom, add, write);
    ReportsScaled(images);
    ProgressTrace(rs, t);
  }

  /**
   * Completion carries the number of pages drawn and keeps the file; an
   * error removes it; every page carries the number of drawn pages before it.
   */
  lemma GenerateEnd(images: seq<Image>, outputPath: string, oom: (nat, nat) -> bool, add: (nat, nat) -> PageAdd, write: Write)
    ensures var g := Generate(images, outputPath, oom, add, write);
      |g.callbacks| > 0
      && var last := g.callbacks[|g.callbacks| - 1];
      (write.Written? <==> last.Complete?) && (write.Written? <==> g.outputKept) && (last.Complete? || last.Error?)
      && (last.Complete? ==> last.pageCount == DrawnCount(g.doc) <= |g.doc| && last.path == outputPath)
      && (last.Error? ==> StartsWith(last.message, ErrorPrefix))
    ensures var g := Generate(images, outputPath, oom, add, write);
      CountNumbered(g.doc, 0)
  {
    var g := Generate(images, outputPath, oom, add, write);
    DrawnAtMost(g.doc);
    if write.WriteFails? {
      var m := ErrorPrefix + write.message;
      assert g.callbacks[|g.callbacks| - 1] == Error(m);
      assert m[..|ErrorPrefix|] == ErrorPrefix;
    }
  }

  /**
   * When no drawing fails, every page is drawn, the pages are numbered
   * 0, 1, 2, ... in the order added, and completion counts all of them.
   */
  lemma GenerateInOrder(images: seq<Image>, outputPath: string, oom: (nat, nat) -> bool, add: (nat, nat) -> PageAdd, write: Write)
    requires forall a, b :: add(a, b) != DrawFailed
    ensures var g := Generate(images, outputPath, oom, add, write);
      (forall k :: 0 <= k < |g.doc| ==> g.doc[k].drawn && g.doc[k].number == k)
      && (write.Written? ==> g.callbacks[|g.callbacks| - 1] == Complete(outputPath, |g.doc|, write.size))
  {
    var g := Generate(images, outputPath, oom, add, write);
    AllDrawnCount(g.doc);
    assert g.doc[..|g.doc|] == g.doc;
  }

  /**
   * A bitmap whose drawing fails after `startPage` leaves a blank page that
   * is not counted, so the next bitmap is given the same page number.
   */
  lemma DrawFailureReusesNumber(doc: seq<Page>, bs: seq<(nat, nat)>, i: nat, add: (nat, nat) -> PageAdd)
    requires |bs| == 2 && add(i, 0) == DrawFailed && add(i, 1) == Added
    ensures var r := AddPages(doc, bs, 0, i, add);
      |r| == |doc| + 2 && !r[|doc|].drawn && r[|doc| + 1].drawn
      && r[|doc|].number == r[|doc| + 1].number == DrawnCount(doc)
      && DrawnCount(r) == DrawnCount(doc) + 1
  {
    var p0 := Page(DrawnCount(doc), bs[0].0, bs[0].1, false);
    var d1 := doc + [p0];
    assert d1[..|doc|] == doc;
    var p1 := Page(DrawnCount(d1), bs[1].0, bs[1].1, true);
    var d2 := d1 + [p1];
    assert d2[..|d1|] == d1;
    assert AddPages(doc, bs, 0, i, add) == d2;
  }

  /** Image `j` gets a progress report iff it was processed and is every fifth or the last; a processed last image reports 90. */
  lemma ReportSchedule(images: seq<Image>, j: nat)
    requires j < |images|
    ensures (exists k :: 0 <= k < |Reports(images, 0)| && Reports(images, 0)[k].index == j) <==> ReportsAt(images, j)
    ensures j == |images| - 1 && images[j].Decoded? ==>
      var rs := Reports(images, 0);
      |rs| > 0 && rs[|rs| - 1] == Report(j, ProgressScale)
  {
    var rs := Reports(images, 0);
    if ReportsAt(images, j) {
      ReportsComplete(images, 0, j);
    }
    if j == |images| - 1 && images[j].Decoded? {
      var k :| 0 <= k < |rs| && rs[k].index == j;
      var last := |rs| - 1;
      assert rs[k].index <= rs[last].index;
      assert rs[last].index == j;
      ScaledProgress(j, j, |images|);
    }
  }

  /** The unit `formatFileSize` picks for a byte count. */
  function SizeUnit(bytes: nat): string {
    if bytes < 1024 then "B" else if bytes < 1024 * 1024 then "KB" else "MB"
  }

  /** The scale a size unit stands for. */
  function UnitScale(unit: string): nat {
    if unit == "B" then 1 else if unit == "KB" then 1024 else if unit == "MB" then 1024 * 1024 else 0
  }

  /**
   * `formatFileSize`: bytes below 1 KiB, kibibytes below 1 MiB, else mebibytes,
   * by integer division. Its text only reaches the completion log line.
   */
  function FormatFileSize(bytes: nat): string {
    if bytes < 1024 then Decimal(bytes) + " B"
    else if bytes < 1024 * 1024 then Decimal(bytes / 1024) + " KB"
    else Decimal(bytes / (1024 * 1024)) + " MB"
  }

  /** Reading a formatted size back: the number before the last space and the scale of the unit after it. */
  function ReadFileSize(s: string): (nat, nat) {
    match LastIndexOfChar(s, ' ')
    case None => (0, 0)
    case Some(i) => if AllDigits(s[..i]) then (ParseDecimal(s[..i]), UnitScale(s[i + 1..])) else (0, 0)
  }

  /** A digit string, a space and a unit read back as the digits' value and the unit's scale. */
  lemma ReadFileSizeOf(digits: string, unit: string)
    requires AllDigits(digits) && unit in {"B", "KB", "MB"}
    ensures ReadFileSize(digits + " " + unit) == (ParseDecimal(digits), UnitScale(unit))
  {
    var s := digits + " " + unit;
    var i := |digits|;
    assert s[i] == ' ';
    LastIndexOfCharIs(s, ' ', i);
    assert s[..i] == digits && s[i + 1..] == unit;
  }

  /** The quotient by the chosen scale brackets the count, and stays below 1024 unless in MB. */
  lemma SizeBracket(bytes: nat)
    ensures var scale := UnitScale(SizeUnit(bytes));
      var value := bytes / scale;
      scale > 0 && value * scale <= bytes < (value + 1) * scale
      && (scale < 1024 * 1024 ==> value < 1024)
  {
    var scale := UnitScale(SizeUnit(bytes));
    var q := bytes / scale;
    assert bytes == scale * q + bytes % scale;
    if scale == 1024 {
      DivBelow(bytes, 1024, 1023);
    }
  }

  /**
   * The formatted size reads back as a value and a scale that bracket the
   * byte count (`value * scale <= bytes < (value + 1) * scale`), with the
   * largest unit not above the count, and a value below 1024 unless in MB.
   */
  lemma FileSizeRoundTrip(bytes: nat)
    ensures var (value, scale) := ReadFileSize(FormatFileSize(bytes));
      scale > 0 && value * scale <= bytes < (value + 1) * scale
      && (scale == 1 <==> bytes < 1024)
      && (scale == 1024 * 1024 <==> bytes >= 1024 * 1024)
      && (scale < 1024 * 1024 ==> value < 1024)
  {
    var unit := SizeUnit(bytes);
    var digits := Decimal(bytes / UnitScale(unit));
    assert FormatFileSize(bytes) == digits + " " + unit;
    ReadFileSizeOf(digits, unit);
    SizeBracket(bytes);
  }

  /** The last occurrence of `c` is at `i` when `c` is at `i` and not after it. */
  lemma {:induction false} LastIndexOfCharIs(s: string, c: char, i: nat)
    requires i < |s| && s[i] == c && forall j :: i < j < |s| ==> s[j] != c
    ensures LastIndexOfChar(s, c) == Some(i)
    decreases |s|
  {
    if i < |s| - 1 {
      var t := s[..|s| - 1];
      assert t[i] == c;
      LastIndexOfCharIs(t, c, i);
    }
  }
}
