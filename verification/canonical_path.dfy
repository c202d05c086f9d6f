/**
 * `File.canonicalPath` as lexical normalisation of an absolute path: empty
 * and `.` segments vanish, `..` drops the segment before it and stays put at
 * the root. Symbolic links are not followed.
 */
module CanonicalPath {
  import opened Text
  import FileSystem

  const Separator: char := '/'

  /** A segment that survives normalisation: not empty, not `.` or `..`, free of the separator. */
  predicate CleanSegment(s: string) {
    s != "" && s != "." && s != ".." && Separator !in s
  }

  predicate Clean(segs: seq<string>) {
    forall k :: 0 <= k < |segs| ==> CleanSegment(segs[k])
  }

  predicate SeparatorFree(segs: seq<string>) {
    forall k :: 0 <= k < |segs| ==> Separator !in segs[k]
  }

  /** Resolves `segs` onto the stack of segments `acc`. */
  function Normalize(segs: seq<string>, acc: seq<string>): (r: seq<string>)
    requires SeparatorFree(segs) && Clean(acc)
    ensures Clean(r)
    decreases |segs|
  {
    if |segs| == 0 then acc
    else
      var s := segs[0];
      var next :=
        if s == "" || s == "." then acc
        else if s == ".." then (if |acc| == 0 then acc else acc[..|acc| - 1])
        else acc + [s];
      Normalize(segs[1..], next)
  }

  /** The segments of the canonical form of `p`. */
  function Segments(p: string): (r: seq<string>)
    ensures Clean(r)
  {
    Normalize(Split(p, Separator), [])
  }

  /** `File(p).canonicalPath`. */
  function Canonical(p: string): (c: string)
    ensures |c| >= 1 && c[0] == Separator
  {
    [Separator] + Join(Segments(p), Separator)
  }

  /** `c` is `t` or lies below it, both canonical: the intended containment test. */
  predicate Below(c: string, t: string) {
    c == t || StartsWith(c, if t == [Separator] then t else t + [Separator])
  }

  // ---------------------------------------------------------------------
  // lemmas

  /** Splitting at an inserted separator splits the two sides independently. */
  lemma SplitAppend(a: string, b: string)
    ensures Split(a + [Separator] + b, Separator) == Split(a, Separator) + Split(b, Separator)
  {
    var parts := Split(a, Separator);
    assert Join(parts, Separator) == a;
    SplitJoinAppend(parts, Separator, b);
  }

  /** Normalisation is a left fold: the two halves of a segment list can be resolved one after the other. */
  lemma {:induction false} NormalizeAppend(xs: seq<string>, ys: seq<string>, acc: seq<string>)
    requires SeparatorFree(xs) && SeparatorFree(ys) && Clean(acc)
    ensures SeparatorFree(xs + ys)
    ensures Normalize(xs + ys, acc) == Normalize(ys, Normalize(xs, acc))
  {
    assert SeparatorFree(xs + ys) by {
      forall k | 0 <= k < |xs + ys| ensures Separator !in (xs + ys)[k] {
        if k < |xs| { assert (xs + ys)[k] == xs[k]; } else { assert (xs + ys)[k] == ys[k - |xs|]; }
      }
    }
    if |xs| > 0 {
      var s := xs[0];
      var next :=
        if s == "" || s == "." then acc
        else if s == ".." then (if |acc| == 0 then acc else acc[..|acc| - 1])
        else acc + [s];
      assert (xs + ys)[0] == s;
      assert (xs + ys)[1..] == xs[1..] + ys;
      NormalizeAppend(xs[1..], ys, next);
    } else {
      assert xs + ys == ys;
    }
  }

  /** Clean segments are pushed unchanged. */
  lemma {:induction false} NormalizeClean(ys: seq<string>, acc: seq<string>)
    requires Clean(ys) && Clean(acc)
    ensures SeparatorFree(ys)
    ensures Normalize(ys, acc) == acc + ys
  {
    if |ys| > 0 {
      NormalizeClean(ys[1..], acc + [ys[0]]);
      assert acc + [ys[0]] + ys[1..] == acc + ys;
    }
  }

  /** The canonical form of `File(dir, name)` resolves `name` on top of the canonical form of `dir`. */
  lemma ChildSegments(dir: string, name: string)
    ensures SeparatorFree(Split(name, Separator))
    ensures Segments(FileSystem.Child(dir, name)) == Normalize(Split(name, Separator), Segments(dir))
  {
    assert FileSystem.Child(dir, name) == dir + [Separator] + name;
    SplitAppend(dir, name);
    NormalizeAppend(Split(dir, Separator), Split(name, Separator), []);
  }

  /** A clean name adds exactly one segment. */
  lemma CleanChild(dir: string, name: string)
    requires CleanSegment(name)
    ensures Segments(FileSystem.Child(dir, name)) == Segments(dir) + [name]
  {
    ChildSegments(dir, name);
    SplitNoDelimiter(name, Separator);
    NormalizeClean([name], Segments(dir));
  }

  lemma {:induction false} JoinAppend(a: seq<string>, b: seq<string>)
    requires |a| >= 1 && |b| >= 1
    ensures Join(a + b, Separator) == Join(a, Separator) + [Separator] + Join(b, Separator)
  {
    if |a| > 1 {
      JoinAppend(a[1..], b);
      assert (a + b)[1..] == a[1..] + b;
    } else {
      assert (a + b)[1..] == b;
    }
  }

  /** A non-empty clean list joins to a non-empty string. */
  lemma JoinNonEmpty(a: seq<string>)
    requires Clean(a) && |a| >= 1
    ensures |Join(a, Separator)| >= 1
  {
    if |a| > 1 {
      assert Join(a, Separator) == a[0] + [Separator] + Join(a[1..], Separator);
    }
  }

  /** Clean segment lists join injectively. */
  lemma JoinInjective(a: seq<string>, b: seq<string>)
    requires Clean(a) && Clean(b)
    requires Join(a, Separator) == Join(b, Separator)
    ensures a == b
  {
    if |a| == 0 || |b| == 0 {
      if |a| >= 1 { JoinNonEmpty(a); }
      if |b| >= 1 { JoinNonEmpty(b); }
    } else {
      SplitJoin(a, Separator);
      SplitJoin(b, Separator);
    }
  }

  /** Two paths have the same canonical form exactly when they resolve to the same segments. */
  lemma CanonicalInjective(p: string, q: string)
    ensures Canonical(p) == Canonical(q) <==> Segments(p) == Segments(q)
  {
    if Canonical(p) == Canonical(q) {
      assert Join(Segments(p), Separator) == Canonical(p)[1..];
      assert Join(Segments(q), Separator) == Canonical(q)[1..];
      JoinInjective(Segments(p), Segments(q));
    }
  }

  /** A segment prefix puts the longer path's canonical form below the shorter one's. */
  lemma PrefixBelow(p: string, q: string)
    requires Segments(p) <= Segments(q)
    ensures Below(Canonical(q), Canonical(p))
  {
    var P, Q := Segments(p), Segments(q);
    var t, c := Canonical(p), Canonical(q);
    var R := Q[|P|..];
    assert Q == P + R;
    if |R| == 0 {
      assert Q == P;
    } else if |P| == 0 {
      assert Join(P, Separator) == "";
      assert t == [Separator];
      assert StartsWith(c, t);
    } else {
      JoinAppend(P, R);
      JoinNonEmpty(P);
      assert t != [Separator];
      assert c == t + [Separator] + Join(R, Separator);
      assert c[..|t| + 1] == t + [Separator];
    }
  }

  /** A canonical form below another one extends its segments. */
  lemma BelowPrefix(p: string, q: string)
    requires Below(Canonical(q), Canonical(p))
    ensures Segments(p) <= Segments(q)
  {
    var P, Q := Segments(p), Segments(q);
    var t, c := Canonical(p), Canonical(q);
    if c == t {
      CanonicalInjective(p, q);
    } else if t == [Separator] {
      assert Join(P, Separator) == "";
      if |P| >= 1 { JoinNonEmpty(P); }
    } else {
      var u := t + [Separator];
      assert c[..|u|] == u;
      var r := c[|u|..];
      assert c == u + r;
      assert |P| >= 1;
      assert Join(Q, Separator) == c[1..] == Join(P, Separator) + [Separator] + r;
      assert |Q| >= 1;
      JoinExtendsPrefix(P, Q, r);
    }
  }

  /** A clean list whose join extends another's join past a separator extends that list. */
  lemma JoinExtendsPrefix(P: seq<string>, Q: seq<string>, r: string)
    requires Clean(P) && Clean(Q) && |P| >= 1 && |Q| >= 1
    requires Join(Q, Separator) == Join(P, Separator) + [Separator] + r
    ensures P <= Q
  {
    SplitJoinAppend(P, Separator, r);
    SplitJoin(Q, Separator);
  }

  /** Containment of canonical forms is exactly a prefix relation on segments. */
  lemma BelowIffPrefix(p: string, q: string)
    ensures Below(Canonical(q), Canonical(p)) <==> Segments(p) <= Segments(q)
  {
    if Segments(p) <= Segments(q) { PrefixBelow(p, q); }
    if Below(Canonical(q), Canonical(p)) { BelowPrefix(p, q); }
  }
}
