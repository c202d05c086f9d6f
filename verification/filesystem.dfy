/**
 * The filesystem as the core sees it through `java.io.File`: a map from
 * absolute path to node, plus the order in which `listFiles()` reports a
 * directory's entries (the platform does not specify that order, so it is
 * an input of the model).
 */
module FileSystem {
  import opened Wrappers
  import opened Text

  datatype Node = RegularFile(size: nat) | Directory

  type Fs = map<string, Node>

  /** `listFiles()` results: directory path to entry names, in platform order. */
  type Listing = map<string, seq<string>>

  /** `File(dir, name).path`. */
  function Child(dir: string, name: string): string {
    dir + "/" + name
  }

  /** No two separators in a row. */
  predicate NoDoubleSeparator(s: string) {
    forall i :: 0 <= i < |s| - 1 ==> !(s[i] == '/' && s[i + 1] == '/')
  }

  /** A path as `java.io.File` stores it: no empty segment, no trailing separator unless it is the root. */
  predicate NormalPath(s: string) {
    NoDoubleSeparator(s) && (|s| > 1 ==> s[|s| - 1] != '/')
  }

  /** Runs of separators collapsed to one. */
  function CollapseSeparators(s: string): (r: string)
    ensures NoDoubleSeparator(r)
    ensures |r| <= |s| && (|s| > 0 ==> |r| > 0 && r[0] == s[0] && r[|r| - 1] == s[|s| - 1])
    ensures NoDoubleSeparator(s) ==> r == s
  {
    if |s| <= 1 then s
    else if s[0] == '/' && s[1] == '/' then CollapseSeparators(s[1..])
    else [s[0]] + CollapseSeparators(s[1..])
  }

  /**
   * `File(path).path`: the constructor normalises its argument, collapsing
   * separator runs and dropping a trailing separator.
   */
  function FilePath(s: string): (r: string)
    ensures NormalPath(r)
    ensures |s| > 0 ==> |r| > 0
    ensures NormalPath(s) ==> r == s
  {
    var c := CollapseSeparators(s);
    if |c| > 1 && c[|c| - 1] == '/' then
      assert c[|c| - 2] != '/';
      c[..|c| - 1]
    else c
  }

  /** Normalising twice is normalising once. */
  lemma FilePathIdempotent(s: string)
    ensures FilePath(FilePath(s)) == FilePath(s)
  {
  }

  /** A doubled separator and a trailing one are both removed. */
  lemma FilePathExample()
    ensures FilePath("d//") == "d" && Child(FilePath("d//"), "images") == "d/images"
  {
    assert CollapseSeparators("/") == "/";
    assert CollapseSeparators("//") == "/";
    assert CollapseSeparators("d//") == "d/";
  }

  /** Distinct names in one directory are distinct paths. */
  lemma ChildInjective(dir: string, a: string, b: string)
    requires Child(dir, a) == Child(dir, b)
    ensures a == b
  {
    assert a == Child(dir, a)[|dir| + 1..];
  }

  /** The proper ancestors of `d`: every prefix that ends just before a separator. */
  function Ancestors(d: string): set<string> {
    set k | 0 < k < |d| && d[k] == '/' :: d[..k]
  }

  /**
   * `File.mkdirs()` when it succeeds: `d` and every missing ancestor become
   * directories; existing entries are left alone.
   */
  function MkDirs(fs: Fs, d: string): (r: Fs)
    ensures forall q :: q in fs ==> q in r && r[q] == fs[q]
    ensures d in r && (d !in fs ==> r[d] == Directory)
    ensures forall q :: q in r && q !in fs ==> q == d || q in Ancestors(d)
  {
    map q | q in fs.Keys + Ancestors(d) + {d} :: if q in fs then fs[q] else Directory
  }

  /** `mkdirs` on `d` creates nothing below `d`: an entry of `d` is present afterwards exactly when it was before. */
  lemma MkDirsKeepsChildren(fs: Fs, d: string, name: string)
    ensures var q := Child(d, name);
      (q in MkDirs(fs, d) <==> q in fs) && (q in fs ==> MkDirs(fs, d)[q] == fs[q])
  {
    var q := Child(d, name);
    assert q != d && q !in Ancestors(d) by {
      assert |q| > |d|;
      assert forall a :: a in Ancestors(d) ==> |a| < |d|;
    }
  }

  predicate Exists(fs: Fs, p: string) {
    p in fs
  }

  predicate IsFile(fs: Fs, p: string) {
    p in fs && fs[p].RegularFile?
  }

  predicate IsDirectory(fs: Fs, p: string) {
    p in fs && fs[p].Directory?
  }

  /** `File.length()`: the size of a regular file, 0 for anything else. */
  function Length(fs: Fs, p: string): nat {
    if IsFile(fs, p) then fs[p].size else 0
  }

  /** `File.listFiles()`: null unless `p` is a directory. */
  function ListFiles(fs: Fs, listing: Listing, p: string): Option<seq<string>> {
    if IsDirectory(fs, p) then Some(if p in listing then listing[p] else []) else None
  }

  /** `q` is `d` itself or lies below it. */
  predicate InSubtree(q: string, d: string) {
    q == d || StartsWith(q, d + "/")
  }

  /**
   * Whether `File.delete()` succeeds on `q` once everything below it has been
   * attempted: the path itself must be deletable and, being a directory,
   * everything below it too (a non-empty directory cannot be deleted).
   */
  predicate Removable(fs: Fs, q: string, canDelete: string -> bool) {
    canDelete(q) && forall q' :: q' in fs && q' != q && InSubtree(q', q) ==> canDelete(q')
  }

  /** Kotlin `File.deleteRecursively()`: a bottom-up walk that carries on past failures. */
  function DeleteRecursively(fs: Fs, d: string, canDelete: string -> bool): (r: Fs)
    ensures forall q :: q in r ==> q in fs && r[q] == fs[q]
    ensures forall q :: q in fs && !InSubtree(q, d) ==> q in r
    ensures forall q :: q in fs && InSubtree(q, d) ==> (q in r <==> !Removable(fs, q, canDelete))
  {
    map q | q in fs && !(InSubtree(q, d) && Removable(fs, q, canDelete)) :: fs[q]
  }

  /** `File.delete()` on a single path: only a file or an empty directory goes. */
  function DeleteOne(fs: Fs, p: string, canDelete: string -> bool): (r: Fs)
    ensures forall q :: q in r ==> q in fs && r[q] == fs[q]
    ensures forall q :: q in fs && q != p ==> q in r
    ensures p in fs ==> (p !in r <==> Removable(fs, p, canDelete))
  {
    if p in fs && Removable(fs, p, canDelete) then fs - {p} else fs
  }
}
