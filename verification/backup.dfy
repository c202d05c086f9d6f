/**
 * The app's `BackupMethodChannel`: zips the settings and the database into
 * an archive, lets the user pick an archive, and extracts it again. The
 * Downloads and cache directories, the clock, the content resolver and the
 * picker launch are parameters. Archives are their entry lists; the
 * extracted files are a map from canonical path to item.
 */
module Backup {
  import opened Wrappers
  import opened Text
  import opened Channel
  import opened CanonicalPath
  import FileSystem

  const ChannelName: string := "id.nhasix.app/backup"
  const PickBackupFileRequestCode: int := 8888
  const ResultOk: int := -1
  const SettingsName: string := "settings.json"
  const DbName: string := "nhasix_app.db"
  const WalName: string := "nhasix_app.db-wal"
  const ShmName: string := "nhasix_app.db-shm"

  datatype Value = BackupPath(path: string) | PickedUri(uri: Option<string>) | Restored(settingsJson: string, dbPath: string)

  datatype Reply = Success(value: Value) | Error(code: string) | NotImplemented

  /** The pending picker result: the call waiting for it, if any. */
  datatype State = State(pending: Option<nat>)

  datatype ZipEntry = ZipEntry(name: string, isDirectory: bool, data: string)

  // ---------------------------------------------------------------------
  // The zip-slip guard

  function File(target: string, name: string): string {
    FileSystem.Child(target, name)
  }

  /** The guard as written: the canonical entry path starts with the canonical target path, as a string. */
  predicate GuardAsWritten(target: string, name: string) {
    StartsWith(Canonical(File(target, name)), Canonical(target))
  }

  /** The guard as intended: the canonical entry path is the target or lies below it. */
  predicate Guard(target: string, name: string) {
    Below(Canonical(File(target, name)), Canonical(target))
  }

  /** The intended guard admits exactly the entries whose resolved segments extend the target's. */
  lemma GuardSegments(target: string, name: string)
    ensures Guard(target, name) <==> Segments(target) <= Segments(File(target, name))
  {
    BelowIffPrefix(target, File(target, name));
  }

  /** The intended guard is stricter than the written one: whatever it admits, the written one admits too. */
  lemma GuardStricter(target: string, name: string)
    requires Guard(target, name)
    ensures GuardAsWritten(target, name)
  {
    var c, t := Canonical(File(target, name)), Canonical(target);
    if c != t && t != [Separator] {
      assert c[..|t|] == (t + [Separator])[..|t|];
    }
  }

  /** A plain file name is always admitted, and lands one segment below the target. */
  lemma CleanNameAdmitted(target: string, name: string)
    requires CleanSegment(name)
    ensures Guard(target, name)
    ensures Segments(File(target, name)) == Segments(target) + [name]
  {
    CleanChild(target, name);
    GuardSegments(target, name);
  }

  lemma TargetT()
    ensures Segments("/t") == ["t"] && Canonical("/t") == "/t"
  {
    SplitNoDelimiter("t", Separator);
    SplitAppend("", "t");
    assert "" + [Separator] + "t" == "/t";
    assert Split("/t", Separator) == ["", "t"];
    assert Normalize(["", "t"], []) == Normalize(["t"], []) by {
      assert ["", "t"][1..] == ["t"];
    }
    assert Normalize(["t"], []) == Normalize([], ["t"]) by {
      assert ["t"][1..] == [];
    }
  }

  lemma EntryDotDotTx()
    ensures Split("../tx", Separator) == ["..", "tx"]
  {
    SplitNoDelimiter("tx", Separator);
    SplitNoDelimiter("..", Separator);
    SplitAppend("..", "tx");
    assert ".." + [Separator] + "tx" == "../tx";
  }

  lemma LeakSegments()
    ensures Segments(File("/t", "../tx")) == ["tx"]
  {
    TargetT();
    EntryDotDotTx();
    ChildSegments("/t", "../tx");
    assert Normalize(["..", "tx"], ["t"]) == Normalize(["tx"], []) by {
      assert ["..", "tx"][1..] == ["tx"];
    }
    assert Normalize(["tx"], []) == Normalize([], ["tx"]) by {
      assert ["tx"][1..] == [];
    }
  }

  /** The written guard lets `../tx` out of `/t`: its canonical path `/tx` starts with `/t` as a string. */
  lemma ZipSlipPrefixLeak()
    ensures Canonical(File("/t", "../tx")) == "/tx"
    ensures GuardAsWritten("/t", "../tx")
    ensures !Guard("/t", "../tx")
    ensures !Below("/tx", Canonical("/t"))
  {
    TargetT();
    LeakSegments();
    assert Canonical(File("/t", "../tx")) == "/tx";
    assert "/tx"[..2] == "/t";
    assert !Below("/tx", "/t") by {
      assert "/tx" != "/t";
      assert "/t" + [Separator] == "/t/";
      assert "/tx"[2] != '/';
    }
  }

  // ---------------------------------------------------------------------
  // unzip

  datatype Item = Folder | Data(text: string)

  /** Extracted files and directories, by canonical path. */
  type Store = map<string, Item>

  datatype Unzipped = Extracted(store: Store) | Rejected(name: string) | WriteFailed(name: string)

  /** Where an entry lands. */
  function Key(target: string, name: string): string {
    Canonical(File(target, name))
  }

  function Admits(target: string, name: string, asWritten: bool): bool {
    if asWritten then GuardAsWritten(target, name) else Guard(target, name)
  }

  /**
   * `unzip` with the written guard (`asWritten`) or the intended one: each
   * entry is checked, then a directory is created (nothing happens if the
   * path exists) or a file written (failing on an existing directory).
   */
  function UnzipEntries(target: string, entries: seq<ZipEntry>, store: Store, asWritten: bool): (r: Unzipped)
    decreases |entries|
    ensures r.Extracted? ==> forall p :: p in store ==> p in r.store
    ensures r.Extracted? ==> forall p :: p in r.store ==> p in store || exists k :: 0 <= k < |entries| && p == Key(target, entries[k].name)
    ensures r.Extracted? ==> forall p :: p in store && (forall k :: 0 <= k < |entries| ==> p != Key(target, entries[k].name)) ==> r.store[p] == store[p]
    ensures r.Extracted? && !asWritten ==> forall p :: p in r.store && p !in store ==> Below(p, Canonical(target))
  {
    if |entries| == 0 then Extracted(store)
    else
      var e := entries[0];
      var p := Key(target, e.name);
      if !Admits(target, e.name, asWritten) then Rejected(e.name)
      else if e.isDirectory then
        var store' := if p in store then store else store[p := Folder];
        var r := UnzipEntries(target, entries[1..], store', asWritten);
        KeysShift(target, entries, store, store', r);
        r
      else if p in store && store[p].Folder? then WriteFailed(e.name)
      else
        var store' := store[p := Data(e.data)];
        var r := UnzipEntries(target, entries[1..], store', asWritten);
        KeysShift(target, entries, store, store', r);
        r
  }

  /** The key bookkeeping of one UnzipEntries step: the first entry's key joins the keys of the rest. */
  lemma KeysShift(target: string, entries: seq<ZipEntry>, store: Store, store': Store, r: Unzipped)
    requires |entries| > 0
    requires forall p :: p in store' <==> p in store || p == Key(target, entries[0].name)
    requires forall p :: p in store && p != Key(target, entries[0].name) ==> store'[p] == store[p]
    requires r.Extracted? ==> forall p :: p in store' ==> p in r.store
    requires r.Extracted? ==> forall p :: p in r.store ==> p in store' || exists k :: 0 <= k < |entries[1..]| && p == Key(target, entries[1..][k].name)
    requires r.Extracted? ==> forall p :: p in store' && (forall k :: 0 <= k < |entries[1..]| ==> p != Key(target, entries[1..][k].name)) ==> r.store[p] == store'[p]
    ensures r.Extracted? ==> forall p :: p in r.store ==> p in store || exists k :: 0 <= k < |entries| && p == Key(target, entries[k].name)
    ensures r.Extracted? ==> forall p :: p in store && (forall k :: 0 <= k < |entries| ==> p != Key(target, entries[k].name)) ==> r.store[p] == store[p]
  {
    var rest := entries[1..];
    if r.Extracted? {
      forall p | p in r.store ensures p in store || exists k :: 0 <= k < |entries| && p == Key(target, entries[k].name) {
        if p !in store {
          if p == Key(target, entries[0].name) {
          } else {
            var k :| 0 <= k < |rest| && p == Key(target, rest[k].name);
            assert rest[k] == entries[k + 1];
          }
        }
      }
      forall p | p in store && (forall k :: 0 <= k < |entries| ==> p != Key(target, entries[k].name)) ensures r.store[p] == store[p] {
        assert p != Key(target, entries[0].name);
        forall k | 0 <= k < |rest| ensures p != Key(target, rest[k].name) {
          assert rest[k] == entries[k + 1];
        }
      }
    }
  }

  /** The unzip with the intended guard (the corrected half of the zip-slip finding). */
  function Unzip(target: string, entries: seq<ZipEntry>, store: Store): (r: Unzipped)
    ensures r.Extracted? ==> forall p :: p in r.store && p !in store ==> Below(p, Canonical(target))
  {
    UnzipEntries(target, entries, store, false)
  }

  /** With the written guard, an archive holding `../tx` writes `/tx`, outside the target `/t`. */
  lemma UnzipAsWrittenEscapes(data: string)
    ensures var r := UnzipEntries("/t", [ZipEntry("../tx", false, data)], map[], true);
      && r.Extracted? && r.store == map["/tx" := Data(data)]
      && !Below("/tx", Canonical("/t"))
    ensures Unzip("/t", [ZipEntry("../tx", false, data)], map[]) == Rejected("../tx")
  {
    ZipSlipPrefixLeak();
    UnzipOneEntry("/t", "../tx", data, map[], true);
  }

  /** Under either guard, an archive of plain files with distinct names extracts every file to its own key with its own contents. */
  lemma {:induction false} UnzipPlainFiles(target: string, entries: seq<ZipEntry>, store: Store, asWritten: bool)
    requires forall k :: 0 <= k < |entries| ==> CleanSegment(entries[k].name) && !entries[k].isDirectory
    requires forall i, j :: 0 <= i < j < |entries| ==> entries[i].name != entries[j].name
    requires forall k :: 0 <= k < |entries| ==> Key(target, entries[k].name) !in store
    ensures UnzipEntries(target, entries, store, asWritten).Extracted?
    ensures forall k :: 0 <= k < |entries| ==>
      Key(target, entries[k].name) in UnzipEntries(target, entries, store, asWritten).store
      && UnzipEntries(target, entries, store, asWritten).store[Key(target, entries[k].name)] == Data(entries[k].data)
  {
    if |entries| > 0 {
      var e := entries[0];
      var p := Key(target, e.name);
      CleanNameAdmitted(target, e.name);
      GuardStricter(target, e.name);
      var store' := store[p := Data(e.data)];
      var rest := entries[1..];
      forall k | 0 <= k < |rest| ensures Key(target, rest[k].name) !in store' {
        assert rest[k] == entries[k + 1];
        KeyInjective(target, e.name, rest[k].name);
      }
      UnzipPlainFiles(target, rest, store', asWritten);
      var r := UnzipEntries(target, entries, store, asWritten);
      assert r == UnzipEntries(target, rest, store', asWritten);
      forall k | 0 <= k < |entries|
        ensures Key(target, entries[k].name) in r.store && r.store[Key(target, entries[k].name)] == Data(entries[k].data)
      {
        if k == 0 {
          forall j | 0 <= j < |rest| ensures p != Key(target, rest[j].name) {
            assert rest[j] == entries[j + 1];
            KeyInjective(target, e.name, rest[j].name);
          }
        } else {
          assert entries[k] == rest[k - 1];
        }
      }
    }
  }

  /** Distinct plain names land on distinct keys, none of them the target itself. */
  lemma KeyInjective(target: string, a: string, b: string)
    requires CleanSegment(a) && CleanSegment(b)
    ensures Key(target, a) == Key(target, b) <==> a == b
    ensures Key(target, a) != Canonical(target)
  {
    CleanChild(target, a);
    CleanChild(target, b);
    CanonicalInjective(File(target, a), File(target, b));
    if Segments(target) + [a] == Segments(target) + [b] {
      assert (Segments(target) + [a])[|Segments(target)|] == a;
    }
    CanonicalInjective(File(target, a), target);
  }

  // ---------------------------------------------------------------------
  // createBackup

  /** The database file and its journal files, by contents, when they exist. */
  datatype Database = Database(db: string, wal: Option<string>, shm: Option<string>)

  /**
   * The platform side of `createBackup`. `listing` is the order in which
   * `listFiles` returns the names in `backup_gen`; the platform does not
   * fix it.
   */
  datatype BackupEnv = BackupEnv(downloadsDir: string, millis: nat, database: Option<Database>, listing: seq<string>, fails: bool)

  /** `Downloads/Kuron/settings`. */
  function KuronSettingsDir(downloadsDir: string): string {
    FileSystem.Child(downloadsDir, "Kuron/settings")
  }

  function BackupGenDir(downloadsDir: string): string {
    FileSystem.Child(KuronSettingsDir(downloadsDir), "backup_gen")
  }

  /** The files written into the fresh `backup_gen` directory, by name, in the order they are written. */
  function BackupFiles(settingsJson: string, database: Option<Database>): (files: seq<(string, string)>)
    ensures |files| >= 1 && files[0] == (SettingsName, settingsJson)
    ensures database.None? ==> |files| == 1
  {
    match database
    case None => [(SettingsName, settingsJson)]
    case Some(d) =>
      [(SettingsName, settingsJson), (DbName, d.db)]
      + (if d.wal.Some? then [(WalName, d.wal.value)] else [])
      + (if d.shm.Some? then [(ShmName, d.shm.value)] else [])
  }

  /** One step of `walkTopDown()`: a path, whether it is a regular file, and its contents. */
  datatype Walked = Walked(path: string, isFile: bool, data: string)

  predicate WalkedBelow(dir: string, walk: seq<Walked>) {
    forall k :: 0 <= k < |walk| && walk[k].isFile ==> StartsWith(walk[k].path, dir + "/")
  }

  /** `zip`: one entry per regular file of the walk, named by its path relative to `dir`. */
  function ZipArchive(dir: string, walk: seq<Walked>): (entries: seq<ZipEntry>)
    requires WalkedBelow(dir, walk)
    ensures forall k :: 0 <= k < |entries| ==> !entries[k].isDirectory
    ensures |entries| <= |walk|
  {
    if |walk| == 0 then []
    else
      var rest := ZipArchive(dir, walk[1..]);
      if walk[0].isFile then [ZipEntry(walk[0].path[|dir| + 1..], false, walk[0].data)] + rest else rest
  }

  /** Every entry name points back at the file it came from, and directories are skipped. */
  lemma {:induction false} ZipArchiveNames(dir: string, walk: seq<Walked>)
    requires WalkedBelow(dir, walk)
    ensures var entries := ZipArchive(dir, walk);
      && |entries| == |FilesOf(walk)|
      && forall k :: 0 <= k < |entries| ==>
           FileSystem.Child(dir, entries[k].name) == FilesOf(walk)[k].path && entries[k].data == FilesOf(walk)[k].data
  {
    if |walk| > 0 {
      ZipArchiveNames(dir, walk[1..]);
      if walk[0].isFile {
        var p := walk[0].path;
        assert p[..|dir| + 1] == dir + "/";
        assert FileSystem.Child(dir, p[|dir| + 1..]) == p;
      }
    }
  }

  /** The regular files of a walk, in walk order. */
  function FilesOf(walk: seq<Walked>): seq<Walked> {
    if |walk| == 0 then []
    else if walk[0].isFile then [walk[0]] + FilesOf(walk[1..])
    else FilesOf(walk[1..])
  }

  /** The written file names, in write order. */
  function Names(files: seq<(string, string)>): (names: seq<string>)
    ensures |names| == |files|
    ensures forall k :: 0 <= k < |files| ==> names[k] == files[k].0
  {
    seq(|files|, k requires 0 <= k < |files| => files[k].0)
  }

  /** The contents of the first file written under `name`. */
  function Lookup(files: seq<(string, string)>, name: string): (r: Option<string>)
    ensures r.Some? <==> name in Names(files)
    ensures r.Some? ==> (name, r.value) in files
  {
    if |files| == 0 then None
    else
      assert Names(files) == [files[0].0] + Names(files[1..]);
      if files[0].0 == name then Some(files[0].1) else Lookup(files[1..], name)
  }

  /** With distinct names, each file is found under its own name. */
  lemma {:induction false} LookupDistinct(files: seq<(string, string)>, k: nat)
    requires k < |files|
    requires forall i, j :: 0 <= i < j < |files| ==> files[i].0 != files[j].0
    ensures Lookup(files, files[k].0) == Some(files[k].1)
  {
    if k > 0 {
      assert files[k] == files[1..][k - 1];
      LookupDistinct(files[1..], k - 1);
    }
  }

  /** A `listFiles` order of the written files: each written name exactly once. */
  predicate ListsEach(listing: seq<string>, files: seq<(string, string)>) {
    && (forall i, j :: 0 <= i < j < |listing| ==> listing[i] != listing[j])
    && (forall k :: 0 <= k < |listing| ==> listing[k] in Names(files))
    && (forall k :: 0 <= k < |files| ==> files[k].0 in listing)
  }

  /**
   * `walkTopDown()` of the fresh `backup_gen` directory: the directory, then
   * its children in `listFiles` order. A listed name that was never written
   * is walked as a non-file.
   */
  function BackupWalk(dir: string, files: seq<(string, string)>, listing: seq<string>): (walk: seq<Walked>)
    ensures WalkedBelow(dir, walk)
    ensures |walk| == |listing| + 1 && !walk[0].isFile
    ensures forall k :: 0 <= k < |listing| ==>
      walk[k + 1].path == FileSystem.Child(dir, listing[k]) && (walk[k + 1].isFile <==> listing[k] in Names(files))
  {
    [Walked(dir, false, "")] + seq(|listing|, k requires 0 <= k < |listing| =>
      var c := Lookup(files, listing[k]);
      Walked(FileSystem.Child(dir, listing[k]), c.Some?, c.GetOr("")))
  }

  /** One archive entry per written file, in write order. */
  function FileEntries(files: seq<(string, string)>): (entries: seq<ZipEntry>) {
    seq(|files|, k requires 0 <= k < |files| => ZipEntry(files[k].0, false, files[k].1))
  }

  /** One archive entry per listed name, in listing order, with the contents written under it. */
  function ListedEntries(files: seq<(string, string)>, listing: seq<string>): (entries: seq<ZipEntry>) {
    seq(|listing|, k requires 0 <= k < |listing| => ZipEntry(listing[k], false, Lookup(files, listing[k]).GetOr("")))
  }

  /** A walk of regular files directly inside `dir` zips to one entry per file, named by the file's name. */
  lemma {:induction false} ZipChildren(dir: string, walk: seq<Walked>, names: seq<string>)
    requires |walk| == |names|
    requires forall k :: 0 <= k < |walk| ==> walk[k].isFile && walk[k].path == FileSystem.Child(dir, names[k])
    ensures WalkedBelow(dir, walk)
    ensures ZipArchive(dir, walk) == seq(|walk|, k requires 0 <= k < |walk| => ZipEntry(names[k], false, walk[k].data))
  {
    if |walk| > 0 {
      ZipChildren(dir, walk[1..], names[1..]);
      var p := FileSystem.Child(dir, names[0]);
      assert p[|dir| + 1..] == names[0];
    }
  }

  /** Zipping the walk gives the written files in `listFiles` order. */
  lemma ZipOfFiles(dir: string, files: seq<(string, string)>, listing: seq<string>)
    requires forall k :: 0 <= k < |listing| ==> listing[k] in Names(files)
    ensures ZipArchive(dir, BackupWalk(dir, files, listing)) == ListedEntries(files, listing)
  {
    var walk := BackupWalk(dir, files, listing);
    assert ZipArchive(dir, walk) == ZipArchive(dir, walk[1..]);
    ZipChildren(dir, walk[1..], listing);
  }

  /** A listed name that was written gives the entry of that file. */
  lemma ListedEntryWritten(files: seq<(string, string)>, listing: seq<string>, k: nat)
    requires k < |listing| && listing[k] in Names(files)
    ensures ListedEntries(files, listing)[k] in FileEntries(files)
  {
    var v := Lookup(files, listing[k]).value;
    var j :| 0 <= j < |files| && files[j] == (listing[k], v);
    assert FileEntries(files)[j] == ListedEntries(files, listing)[k];
  }

  /** With distinct names, a written file whose name is listed has its entry among the listed ones. */
  lemma WrittenEntryListed(files: seq<(string, string)>, listing: seq<string>, j: nat)
    requires forall i, j :: 0 <= i < j < |files| ==> files[i].0 != files[j].0
    requires j < |files| && files[j].0 in listing
    ensures FileEntries(files)[j] in ListedEntries(files, listing)
  {
    var k :| 0 <= k < |listing| && listing[k] == files[j].0;
    LookupDistinct(files, j);
    assert ListedEntries(files, listing)[k] == FileEntries(files)[j];
  }

  /** A sequence without repeats counts each of its elements once. */
  lemma {:induction false} DistinctCount<T>(s: seq<T>, x: T)
    requires forall i, j :: 0 <= i < j < |s| ==> s[i] != s[j]
    ensures multiset(s)[x] == if x in s then 1 else 0
  {
    if |s| > 0 {
      assert s == [s[0]] + s[1..];
      DistinctCount(s[1..], x);
    }
  }

  /** Two sequences without repeats and with the same elements are permutations of each other. */
  lemma SameElements<T>(a: seq<T>, b: seq<T>)
    requires forall i, j :: 0 <= i < j < |a| ==> a[i] != a[j]
    requires forall i, j :: 0 <= i < j < |b| ==> b[i] != b[j]
    requires forall x :: x in a <==> x in b
    ensures multiset(a) == multiset(b)
  {
    forall x ensures multiset(a)[x] == multiset(b)[x] {
      DistinctCount(a, x);
      DistinctCount(b, x);
    }
  }

  datatype BackupOutcome = BackupOutcome(reply: Reply, archive: seq<ZipEntry>)

  /** `createBackup`: both arguments required; any exception on the worker thread becomes BACKUP_FAILED. */
  function CreateBackup(args: Args, env: BackupEnv): (out: BackupOutcome)
    ensures ArgString(args, "dbPath").None? || ArgString(args, "settingsJson").None? ==> out.reply == Error("INVALID_ARGS")
    ensures ArgString(args, "dbPath").Some? && ArgString(args, "settingsJson").Some? && env.fails ==> out.reply == Error("BACKUP_FAILED")
    ensures out.reply.Success? ==> out.reply.value.BackupPath?
  {
    var dbPath := ArgString(args, "dbPath");
    var settingsJson := ArgString(args, "settingsJson");
    if dbPath.None? || settingsJson.None? then BackupOutcome(Error("INVALID_ARGS"), [])
    else if env.fails then BackupOutcome(Error("BACKUP_FAILED"), [])
    else WriteBackup(settingsJson.value, env)
  }

  /** The worker thread without an exception: write the files, zip `backup_gen` and answer the archive's path. */
  function WriteBackup(settingsJson: string, env: BackupEnv): (out: BackupOutcome)
    ensures out.reply.Success? && out.reply.value.BackupPath?
    ensures StartsWith(out.reply.value.path, KuronSettingsDir(env.downloadsDir) + "/backup_")
  {
    var dir := BackupGenDir(env.downloadsDir);
    var zipPath := FileSystem.Child(KuronSettingsDir(env.downloadsDir), "backup_" + Decimal(env.millis) + ".zip");
    BackupOutcome(Success(BackupPath(zipPath)), ZipArchive(dir, BackupWalk(dir, BackupFiles(settingsJson, env.database), env.listing)))
  }

  /** The backup's file names are distinct, and the database is among them exactly when it existed. */
  lemma BackupNames(settingsJson: string, database: Option<Database>)
    ensures var files := BackupFiles(settingsJson, database);
      && (forall k :: 0 <= k < |files| ==> CleanSegment(files[k].0))
      && (forall i, j :: 0 <= i < j < |files| ==> files[i].0 != files[j].0)
      && (DbName in Names(files) <==> database.Some?)
  {
    var files := BackupFiles(settingsJson, database);
    if database.Some? {
      BackupFileNames(settingsJson, database.value);
      assert Names(files)[1] == DbName;
    } else {
      assert CleanSegment(SettingsName);
      assert SettingsName[0] != DbName[0];
      assert Names(files) == [SettingsName];
    }
  }

  /**
   * A successful backup holds exactly the written files, each once, in
   * whatever order `listFiles` gave; the database is among them only when it existed.
   */
  lemma BackupArchive(args: Args, env: BackupEnv)
    requires ArgString(args, "dbPath").Some? && ArgString(args, "settingsJson").Some? && !env.fails
    requires ListsEach(env.listing, BackupFiles(ArgString(args, "settingsJson").value, env.database))
    ensures var out := CreateBackup(args, env);
      var files := BackupFiles(ArgString(args, "settingsJson").value, env.database);
      && out.reply.Success? && out.reply.value.BackupPath?
      && StartsWith(out.reply.value.path, KuronSettingsDir(env.downloadsDir) + "/backup_")
      && |out.archive| == |env.listing|
      && (forall k :: 0 <= k < |out.archive| ==> out.archive[k].name == env.listing[k])
      && multiset(out.archive) == multiset(FileEntries(files))
      && ((exists k :: 0 <= k < |out.archive| && out.archive[k].name == DbName) <==> env.database.Some?)
  {
    var json := ArgString(args, "settingsJson").value;
    assert CreateBackup(args, env) == WriteBackup(json, env);
    WrittenArchive(json, env);
  }

  /** The archive of a backup that did not throw: the written files, each once, in `listFiles` order. */
  lemma WrittenArchive(settingsJson: string, env: BackupEnv)
    requires ListsEach(env.listing, BackupFiles(settingsJson, env.database))
    ensures var out := WriteBackup(settingsJson, env);
      var files := BackupFiles(settingsJson, env.database);
      && |out.archive| == |env.listing|
      && (forall k :: 0 <= k < |out.archive| ==> out.archive[k].name == env.listing[k])
      && multiset(out.archive) == multiset(FileEntries(files))
      && ((exists k :: 0 <= k < |out.archive| && out.archive[k].name == DbName) <==> env.database.Some?)
  {
    var files := BackupFiles(settingsJson, env.database);
    assert WriteBackup(settingsJson, env).archive == ListedEntries(files, env.listing) by {
      ZipOfFiles(BackupGenDir(env.downloadsDir), files, env.listing);
    }
    BackupNames(settingsJson, env.database);
    ListedPermutation(files, env.listing);
  }

  /** Listing every file once, by distinct names, gives the written entries in another order. */
  lemma ListedPermutation(files: seq<(string, string)>, listing: seq<string>)
    requires forall i, j :: 0 <= i < j < |files| ==> files[i].0 != files[j].0
    requires ListsEach(listing, files)
    ensures |ListedEntries(files, listing)| == |listing|
    ensures forall k :: 0 <= k < |listing| ==> ListedEntries(files, listing)[k].name == listing[k]
    ensures multiset(ListedEntries(files, listing)) == multiset(FileEntries(files))
    ensures (exists k :: 0 <= k < |listing| && ListedEntries(files, listing)[k].name == DbName) <==> DbName in Names(files)
  {
    var archive := ListedEntries(files, listing);
    var fe := FileEntries(files);
    forall x ensures x in archive <==> x in fe {
      if x in archive {
        var k :| 0 <= k < |archive| && archive[k] == x;
        ListedEntryWritten(files, listing, k);
      }
      if x in fe {
        var j :| 0 <= j < |fe| && fe[j] == x;
        WrittenEntryListed(files, listing, j);
      }
    }
    forall i, j | 0 <= i < j < |fe| ensures fe[i] != fe[j] {
      assert fe[i].name == files[i].0;
    }
    SameElements(archive, fe);
    if DbName in Names(files) {
      var k :| 0 <= k < |listing| && listing[k] == DbName;
      assert archive[k].name == DbName;
    }
  }

  // ---------------------------------------------------------------------
  // extractBackupData

  /** The cache directory, and the archive behind the URI (none when it cannot be opened). */
  datatype ExtractEnv = ExtractEnv(cacheDir: string, archive: Option<seq<ZipEntry>>)

  function RestoreDir(cacheDir: string): string {
    FileSystem.Child(cacheDir, "restore_temp")
  }

  /**
   * `extractBackupData`: a fresh `restore_temp` directory, the unzip with
   * its guard as written, then both files must exist; the settings are read as text.
   */
  function ExtractBackupData(args: Args, env: ExtractEnv): (r: Reply)
    ensures ArgString(args, "contentUri").None? ==> r == Error("INVALID_ARGS")
    ensures r.Success? ==> r.value.Restored? && r.value.dbPath == File(RestoreDir(env.cacheDir), DbName)
  {
    if ArgString(args, "contentUri").None? then Error("INVALID_ARGS")
    else if env.archive.None? then Error("RESTORE_FAILED")
    else
      var dir := RestoreDir(env.cacheDir);
      match UnzipEntries(dir, env.archive.value, map[Canonical(dir) := Folder], true)
      case Extracted(s) =>
        var sp, dp := Key(dir, SettingsName), Key(dir, DbName);
        if sp !in s || dp !in s || s[sp].Folder? then Error("RESTORE_FAILED")
        else Success(Restored(s[sp].text, File(dir, DbName)))
      case _ => Error("RESTORE_FAILED")
  }

  /** A restore succeeds only when the archive extracted and produced both files, the settings as a file. */
  lemma ExtractNeedsBoth(args: Args, env: ExtractEnv)
    ensures var dir := RestoreDir(env.cacheDir);
      ExtractBackupData(args, env).Success? <==>
        && ArgString(args, "contentUri").Some?
        && env.archive.Some?
        && var u := UnzipEntries(dir, env.archive.value, map[Canonical(dir) := Folder], true);
           && u.Extracted?
           && Key(dir, SettingsName) in u.store && u.store[Key(dir, SettingsName)].Data?
           && Key(dir, DbName) in u.store
  {
  }

  /** The backup's file names are plain and distinct, with the database right after the settings. */
  lemma BackupFileNames(settingsJson: string, d: Database)
    ensures var files := BackupFiles(settingsJson, Some(d));
      && |files| >= 2 && files[1] == (DbName, d.db)
      && (forall k :: 0 <= k < |files| ==> CleanSegment(files[k].0))
      && (forall i, j :: 0 <= i < j < |files| ==> files[i].0 != files[j].0)
  {
    assert CleanSegment(SettingsName) && CleanSegment(DbName) && CleanSegment(WalName) && CleanSegment(ShmName);
    assert SettingsName != DbName && SettingsName != WalName && SettingsName != ShmName by {
      assert SettingsName[0] != DbName[0];
      assert SettingsName[0] != WalName[0] && SettingsName[0] != ShmName[0];
    }
    assert DbName != WalName && DbName != ShmName && WalName != ShmName by {
      assert |DbName| != |WalName| && |DbName| != |ShmName|;
      assert WalName[14] != ShmName[14];
    }
  }

  /** An archive of plain, distinctly named files holding the settings and the database, at any positions, restores those settings. */
  lemma RestorePlainArchive(entries: seq<ZipEntry>, settingsJson: string, restoreArgs: Args, cacheDir: string)
    requires ArgString(restoreArgs, "contentUri").Some?
    requires PlainBackup(entries, settingsJson)
    ensures ExtractBackupData(restoreArgs, ExtractEnv(cacheDir, Some(entries)))
      == Success(Restored(settingsJson, File(RestoreDir(cacheDir), DbName)))
  {
    var dir := RestoreDir(cacheDir);
    PlainUnzip(dir, entries, settingsJson);
  }

  /** Unzipping a plain backup into a fresh directory yields the settings file and a database file. */
  lemma PlainUnzip(dir: string, entries: seq<ZipEntry>, settingsJson: string)
    requires PlainBackup(entries, settingsJson)
    ensures var u := UnzipEntries(dir, entries, map[Canonical(dir) := Folder], true);
      && u.Extracted?
      && Key(dir, SettingsName) in u.store && u.store[Key(dir, SettingsName)] == Data(settingsJson)
      && Key(dir, DbName) in u.store
  {
    var start: Store := map[Canonical(dir) := Folder];
    forall k | 0 <= k < |entries| ensures Key(dir, entries[k].name) !in start {
      KeyInjective(dir, entries[k].name, entries[k].name);
    }
    UnzipPlainFiles(dir, entries, start, true);
    var i :| 0 <= i < |entries| && entries[i] == ZipEntry(SettingsName, false, settingsJson);
    var j :| 0 <= j < |entries| && entries[j].name == DbName;
  }

  /** A backup taken while the database existed restores the very settings it was given, whatever the `listFiles` order. */
  lemma BackupRestoreRoundTrip(args: Args, env: BackupEnv, restoreArgs: Args, cacheDir: string)
    requires ArgString(args, "dbPath").Some? && ArgString(args, "settingsJson").Some? && !env.fails
    requires env.database.Some?
    requires ListsEach(env.listing, BackupFiles(ArgString(args, "settingsJson").value, env.database))
    requires ArgString(restoreArgs, "contentUri").Some?
    ensures var out := CreateBackup(args, env);
      ExtractBackupData(restoreArgs, ExtractEnv(cacheDir, Some(out.archive)))
        == Success(Restored(ArgString(args, "settingsJson").value, File(RestoreDir(cacheDir), DbName)))
  {
    var json := ArgString(args, "settingsJson").value;
    assert CreateBackup(args, env) == WriteBackup(json, env);
    WrittenRestores(json, env, restoreArgs, cacheDir);
  }

  /** The archive written with a database restores the settings it was written with. */
  lemma WrittenRestores(settingsJson: string, env: BackupEnv, restoreArgs: Args, cacheDir: string)
    requires env.database.Some?
    requires ListsEach(env.listing, BackupFiles(settingsJson, env.database))
    requires ArgString(restoreArgs, "contentUri").Some?
    ensures ExtractBackupData(restoreArgs, ExtractEnv(cacheDir, Some(WriteBackup(settingsJson, env).archive)))
      == Success(Restored(settingsJson, File(RestoreDir(cacheDir), DbName)))
  {
    var files := BackupFiles(settingsJson, env.database);
    var entries := WriteBackup(settingsJson, env).archive;
    assert PlainBackup(entries, settingsJson) by {
      WrittenArchive(settingsJson, env);
      BackupNames(settingsJson, env.database);
      ArchiveIsPlain(entries, files, env.listing, settingsJson);
    }
    RestorePlainArchive(entries, settingsJson, restoreArgs, cacheDir);
  }

  /** Plain, distinctly named files, among them the given settings and a database. */
  predicate PlainBackup(entries: seq<ZipEntry>, settingsJson: string) {
    && (forall k :: 0 <= k < |entries| ==> CleanSegment(entries[k].name) && !entries[k].isDirectory)
    && (forall i, j :: 0 <= i < j < |entries| ==> entries[i].name != entries[j].name)
    && ZipEntry(SettingsName, false, settingsJson) in entries
    && (exists k :: 0 <= k < |entries| && entries[k].name == DbName)
  }

  /** A listing-order permutation of the written entries, with the database among them, is a plain backup. */
  lemma ArchiveIsPlain(entries: seq<ZipEntry>, files: seq<(string, string)>, listing: seq<string>, settingsJson: string)
    requires |files| > 0 && files[0] == (SettingsName, settingsJson)
    requires forall k :: 0 <= k < |files| ==> CleanSegment(files[k].0)
    requires ListsEach(listing, files)
    requires |entries| == |listing| && forall k :: 0 <= k < |entries| ==> entries[k].name == listing[k]
    requires multiset(entries) == multiset(FileEntries(files))
    requires exists k :: 0 <= k < |entries| && entries[k].name == DbName
    ensures PlainBackup(entries, settingsJson)
  {
    var fe := FileEntries(files);
    SameMembers(entries, fe);
    forall k | 0 <= k < |entries| ensures CleanSegment(entries[k].name) && !entries[k].isDirectory {
      assert entries[k] in fe;
    }
    assert fe[0] == ZipEntry(SettingsName, false, settingsJson);
  }

  /** Permutations have the same members. */
  lemma SameMembers<T>(a: seq<T>, b: seq<T>)
    requires multiset(a) == multiset(b)
    ensures forall x :: x in a <==> x in b
  {
    forall x ensures x in a <==> x in b {
      assert x in a <==> x in multiset(a);
      assert x in b <==> x in multiset(b);
    }
  }

  /** A backup taken without a database extracts, but can never be restored. */
  lemma BackupWithoutDatabaseNotRestorable(args: Args, env: BackupEnv, restoreArgs: Args, cacheDir: string)
    requires ArgString(args, "dbPath").Some? && ArgString(args, "settingsJson").Some? && !env.fails
    requires env.database.None?
    requires ListsEach(env.listing, BackupFiles(ArgString(args, "settingsJson").value, env.database))
    ensures CreateBackup(args, env).reply.Success?
    ensures ExtractBackupData(restoreArgs, ExtractEnv(cacheDir, Some(CreateBackup(args, env).archive))).Error?
  {
    var json := ArgString(args, "settingsJson").value;
    assert CreateBackup(args, env) == WriteBackup(json, env);
    WrittenNotRestorable(json, env, restoreArgs, cacheDir);
  }

  /** The archive written without a database holds only the settings, so its restore fails. */
  lemma WrittenNotRestorable(settingsJson: string, env: BackupEnv, restoreArgs: Args, cacheDir: string)
    requires env.database.None?
    requires ListsEach(env.listing, BackupFiles(settingsJson, env.database))
    ensures ExtractBackupData(restoreArgs, ExtractEnv(cacheDir, Some(WriteBackup(settingsJson, env).archive))).Error?
  {
    var archive := WriteBackup(settingsJson, env).archive;
    assert forall k :: 0 <= k < |archive| ==> archive[k].name == SettingsName by {
      WrittenArchive(settingsJson, env);
      assert Names(BackupFiles(settingsJson, env.database)) == [SettingsName];
    }
    SettingsOnlyNotRestorable(archive, restoreArgs, cacheDir);
  }

  /** An archive whose every entry is named `settings.json` never restores: the database is missing. */
  lemma SettingsOnlyNotRestorable(archive: seq<ZipEntry>, restoreArgs: Args, cacheDir: string)
    requires forall k :: 0 <= k < |archive| ==> archive[k].name == SettingsName
    ensures ExtractBackupData(restoreArgs, ExtractEnv(cacheDir, Some(archive))).Error?
  {
    var dir := RestoreDir(cacheDir);
    var u := UnzipEntries(dir, archive, map[Canonical(dir) := Folder], true);
    assert u.Extracted? ==> Key(dir, DbName) !in u.store by {
      BackupKeys(dir);
    }
    ExtractNeedsBoth(restoreArgs, ExtractEnv(cacheDir, Some(archive)));
  }

  /** The settings and database files land on distinct keys below the target. */
  lemma BackupKeys(target: string)
    ensures CleanSegment(SettingsName) && CleanSegment(DbName)
    ensures Key(target, SettingsName) != Key(target, DbName)
    ensures Key(target, SettingsName) != Canonical(target) && Key(target, DbName) != Canonical(target)
  {
    assert CleanSegment(SettingsName) && CleanSegment(DbName);
    assert SettingsName[0] != DbName[0];
    KeyInjective(target, DbName, SettingsName);
    KeyInjective(target, SettingsName, DbName);
  }

  /** A one-file archive whose entry the guard admits extracts that file and nothing else. */
  lemma UnzipOneEntry(target: string, name: string, data: string, store: Store, asWritten: bool)
    requires Admits(target, name, asWritten) && Key(target, name) !in store
    ensures UnzipEntries(target, [ZipEntry(name, false, data)], store, asWritten)
      == Extracted(store[Key(target, name) := Data(data)])
  {
    var es := [ZipEntry(name, false, data)];
    var store' := store[Key(target, name) := Data(data)];
    assert es[1..] == [];
    assert UnzipEntries(target, es[1..], store', asWritten) == Extracted(store');
  }

  /** A one-file archive with a plain name extracts that file and nothing else. */
  lemma UnzipOneFile(target: string, name: string, data: string, store: Store)
    requires CleanSegment(name) && Key(target, name) !in store
    ensures Unzip(target, [ZipEntry(name, false, data)], store) == Extracted(store[Key(target, name) := Data(data)])
  {
    CleanNameAdmitted(target, name);
    UnzipOneEntry(target, name, data, store, false);
  }

  // ---------------------------------------------------------------------
  // the picker slot

  datatype Outcome = Outcome(state: State, reply: Option<Reply>)

  /** `pickBackupFile`: BUSY while a result is pending; the slot is filled before the launch and cleared if it throws. */
  function PickBackupFile(st: State, caller: nat, launchThrows: bool): (out: Outcome)
    ensures st.pending.Some? ==> out == Outcome(st, Some(Error("BUSY")))
    ensures st.pending.None? ==> (out.state.pending.None? <==> launchThrows)
  {
    if st.pending.Some? then Outcome(st, Some(Error("BUSY")))
    else if launchThrows then Outcome(State(None), Some(Error("ACTIVITY_ERROR")))
    else Outcome(State(Some(caller)), None)
  }

  /** A reply to the call waiting in the slot. */
  datatype Delivery = Delivery(to: nat, reply: Reply)

  datatype ActivityResult = ActivityResult(handled: bool, state: State, delivery: Option<Delivery>)

  /** `onActivityResult`; `uri` is absent when the intent or its data is null. */
  function OnActivityResult(st: State, requestCode: int, resultCode: int, uri: Option<string>): (r: ActivityResult)
    ensures r.handled <==> requestCode == PickBackupFileRequestCode
    ensures !r.handled ==> r.state == st && r.delivery.None?
    ensures r.handled ==> r.state.pending.None?
  {
    if requestCode != PickBackupFileRequestCode then ActivityResult(false, st, None)
    else
      var picked := if resultCode == ResultOk && uri.Some? then uri else None;
      var delivery := if st.pending.Some? then Some(Delivery(st.pending.value, Success(PickedUri(picked)))) else None;
      ActivityResult(true, State(None), delivery)
  }

  /** The waiting call gets the URI on RESULT_OK with data, and null on anything else. */
  lemma PickerResultDelivered(caller: nat, resultCode: int, uri: Option<string>)
    ensures var r := OnActivityResult(State(Some(caller)), PickBackupFileRequestCode, resultCode, uri);
      && r.delivery.Some? && r.delivery.value.to == caller
      && r.delivery.value.reply == Success(PickedUri(if resultCode == ResultOk then uri else None))
  {
  }

  /** A successful launch followed by the picker's answer leaves the slot free for the next pick. */
  lemma PickerCycle(caller: nat, next: nat, resultCode: int, uri: Option<string>, launchThrows: bool)
    ensures var a := PickBackupFile(State(None), caller, false);
      var b := OnActivityResult(a.state, PickBackupFileRequestCode, resultCode, uri);
      && a.reply.None?
      && b.delivery.Some? && b.delivery.value.to == caller
      && PickBackupFile(b.state, next, launchThrows).reply != Some(Error("BUSY"))
  {
  }

  /** `onMethodCall`, for call number `caller`. */
  function HandleMethodCall(st: State, caller: nat, name: string, args: Args,
                            backupEnv: BackupEnv, launchThrows: bool, extractEnv: ExtractEnv): (out: Outcome)
    ensures name !in {"createBackup", "pickBackupFile", "extractBackupData"} ==> out == Outcome(st, Some(NotImplemented))
    ensures name != "pickBackupFile" ==> out.state == st
  {
    if name == "createBackup" then Outcome(st, Some(CreateBackup(args, backupEnv).reply))
    else if name == "pickBackupFile" then PickBackupFile(st, caller, launchThrows)
    else if name == "extractBackupData" then Outcome(st, Some(ExtractBackupData(args, extractEnv)))
    else Outcome(st, Some(NotImplemented))
  }
}
