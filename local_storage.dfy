/**
 * The storage over a directory of the server (src/Local/LocalStorage.php):
 * every path of a request is taken relative to the base directory; listing,
 * creating, deleting and renaming go through a `LocalDirectory` opened on
 * the folder; upload, copy and move work on the file system directly.
 */
module LocalStorage {
  import opened Outcomes
  import opened PhpStrings
  import opened Paths
  import opened Entries
  import opened Disk
  import opened Platform
  import opened OrderedMaps
  import opened Storages
  import opened LocalDirectory
  import opened Utils
  import opened Requests

  const OptionBaseDir: string := "BASE_DIR"

  /** The folder a `LocalDirectory` opened on `dir` works in. */
  function FolderOf(dir: string): string {
    TrimRight(dir, {'/'}) + "/"
  }

  // ---------------------------------------------------------------------------
  // Paths below the base directory.

  /** No component of `s` climbs to the parent directory. */
  predicate NoClimb(s: string) {
    forall i :: 0 <= i < |Split(s)| ==> Split(s)[i] != ".."
  }

  lemma {:induction false} NormalizeExtends(xs: seq<string>, ys: seq<string>)
    requires forall i :: 0 <= i < |xs| ==> '/' !in xs[i]
    requires forall i :: 0 <= i < |ys| ==> '/' !in ys[i] && ys[i] != ".."
    ensures Normalize(xs) <= Normalize(xs + ys)
    decreases |ys|
  {
    if ys != [] {
      var init := ys[..|ys| - 1];
      assert (xs + ys)[..|xs + ys| - 1] == xs + init;
      NormalizeExtends(xs, init);
    } else {
      assert xs + ys == xs;
    }
  }

  /** A directory string ending in '/' followed by `b` splits into the directory's parts and `b`'s. */
  lemma {:induction false} SplitAfterSlash(a: string, b: string)
    requires a != [] && a[|a| - 1] == '/'
    ensures Split(a + b) == Split(a[..|a| - 1]) + Split(b)
    decreases |b|
  {
    var s := a + b;
    var k := AfterLastSlash(b);
    if k == 0 {
      assert AfterLastSlash(s) == |a| by {
        AfterLastSlashAt(s, |a|);
      }
      assert s[..|a| - 1] == a[..|a| - 1] && s[|a|..] == b;
    } else {
      var init := b[..k - 1];
      assert AfterLastSlash(s) == |a| + k by {
        assert forall i :: |a| + k <= i < |s| ==> s[i] == b[i - |a|];
        AfterLastSlashAt(s, |a| + k);
      }
      calc {
        Split(s);
        Split(s[..|a| + k - 1]) + [s[|a| + k..]];
        { assert s[..|a| + k - 1] == a + init && s[|a| + k..] == b[k..]; }
        Split(a + init) + [b[k..]];
        { SplitAfterSlash(a, init); }
        Split(a[..|a| - 1]) + Split(init) + [b[k..]];
        Split(a[..|a| - 1]) + (Split(init) + [b[k..]]);
        Split(a[..|a| - 1]) + Split(b);
      }
    }
  }

  /** Below a directory string ending in '/', a path resolves by the directory's parts followed by its own. */
  lemma BelowSlashEnded(baseDir: string, t: string)
    requires baseDir != "" && baseDir[|baseDir| - 1] == '/'
    ensures var d := baseDir[..|baseDir| - 1];
      && Resolve(baseDir + t) == Normalize(Split(d) + Split(t))
      && Resolve(baseDir) == Normalize(Split(d))
  {
    var d := baseDir[..|baseDir| - 1];
    assert baseDir == d + "/";
    SplitAfterSlash(baseDir, t);
    ResolveTrailingSlash(d);
  }

  /**
   * `absPath` below a base directory: a path none of whose components is
   * ".." names an entry inside the base directory.
   */
  lemma AbsPathStaysInside(baseDir: string, path: string)
    requires SlashEnded(baseDir)
    requires NoClimb(Trim(path, {'/'}))
    ensures Resolve(baseDir) <= Resolve(baseDir + Trim(path, {'/'}))
  {
    var t := Trim(path, {'/'});
    if baseDir != "" {
      var d := baseDir[..|baseDir| - 1];
      BelowSlashEnded(baseDir, t);
      NormalizeExtends(Split(d), Split(t));
    } else {
      assert baseDir + t == t;
      ResolveEmpty();
    }
  }

  /**
   * ... but a ".." component leaves it: below the base directory `d` + "/",
   * the path "../" + `name` names `name` beside `d`.
   */
  lemma AbsPathClimbsOut(d: string, name: string)
    requires Resolve(d) != [] && ProperName(name) && name != Resolve(d)[|Resolve(d)| - 1]
    ensures var r := Resolve(d + "/" + Trim("../" + name, {'/'}));
      r == Parent(Resolve(d)) + [name] && !(Resolve(d + "/") <= r)
  {
    var path := "../" + name;
    assert Trim(path, {'/'}) == path by {
      assert path[0] == '.' && path[|path| - 1] == name[|name| - 1];
      TrimOfClean(path, {'/'});
    }
    assert d + "/" + path == d + "/" + ".." + "/" + name;
    ResolveClimb(d);
    ResolveJoin(d + "/" + "..", name);
    ResolveTrailingSlash(d);
    var r := Parent(Resolve(d)) + [name];
    assert |r| == |Resolve(d)| && r[|r| - 1] == name;
  }

  // ---------------------------------------------------------------------------
  // Listings handed to the client.

  /** Every file of a listing with its directory URL set (`setDirectoryUrl`). */
  function WithDirectoryUrl(files: OMap<File>, url: string): (r: OMap<File>)
    requires files.Valid()
    ensures r.Valid()
  {
    OMap(files.keys, map k | k in files.values :: files.values[k].(directoryUrl := url))
  }

  /** The loop of `getFiles` that stamps every listed file with the folder's URL. */
  method SetDirectoryUrl(files: OMap<File>, url: string) returns (r: OMap<File>)
    requires files.Valid()
    ensures r == WithDirectoryUrl(files, url)
  {
    var values := files.values;
    var i := 0;
    while i < |files.keys|
      invariant 0 <= i <= |files.keys|
      invariant values.Keys == files.values.Keys
      invariant forall k :: k in values ==>
        values[k] == if k in files.keys[..i] then files.values[k].(directoryUrl := url) else files.values[k]
    {
      var k := files.keys[i];
      assert k !in files.keys[..i];
      assert files.keys[..i + 1] == files.keys[..i] + [k];
      values := values[k := values[k].(directoryUrl := url)];
      i := i + 1;
    }
    assert files.keys[..i] == files.keys;
    r := OMap(files.keys, values);
  }

  /**
   * The URL of each listed file is the base URL, the request's path and the
   * file name, concatenated with no separator between path and name.
   */
  lemma ListedUrls(files: OMap<File>, baseUrl: string, path: string)
    requires files.Valid() && Consistent(files.values)
    ensures var r := WithDirectoryUrl(files, baseUrl + path);
      && r.keys == files.keys
      && (forall k :: k in r.values ==> r.values[k].Url() == baseUrl + path + k)
      && (forall k :: k in r.values ==> r.values[k].(directoryUrl := "") == files.values[k].(directoryUrl := ""))
  {
  }

  /** As the URL is built, "docs" and "a.txt" under "http://host/" give "http://host/docsa.txt". */
  lemma ListedUrlOfSubfolder(f: File)
    requires f.name == "a.txt"
    ensures f.(directoryUrl := "http://host/" + "docs").Url() == "http://host/docsa.txt"
  {
  }

  // ---------------------------------------------------------------------------
  // Uploads.

  /** The name an upload is stored under: its base name, normalised when the storage says so. */
  function UploadName(probe: Probe, normalize: bool, u: Upload): string {
    var n := Basename(u.name);
    if normalize then NormalizeFileName(probe, n) else n
  }

  /** The file system after `copy($from, $to)`, whose result the upload ignores. */
  function CopyResult(fs: Fs, clock: int, from: string, to: string): Fs {
    if from != "" && to != "" && CanCopy(fs, Resolve(from), Resolve(to)) then
      fs[Resolve(to) := FileNode(fs[Resolve(from)].content, clock)]
    else fs
  }

  /**
   * The uploads, one after the other, into the directory string `dir`: a
   * failed upload throws at once; with overwriting off, a name that is a
   * file already is skipped and reported at the end.
   */
  ghost function UploadAll(probe: Probe, normalize: bool, overwrite: bool, clock: int, dir: string,
                           fs: Fs, uploads: seq<Upload>, skipped: seq<string>): (Outcome, Fs)
    decreases |uploads|
  {
    if uploads == [] then
      (if skipped == [] then Pass else Throw(Error(StorageFailure, "files were not overwritten: " + Join(skipped, ","))), fs)
    else
      var u := uploads[0];
      if u.error != 0 then (Throw(Error(StorageFailure, "upload " + Quote(u.name) + " failed")), fs)
      else
        var target := dir + UploadName(probe, normalize, u);
        if !overwrite && target != "" && IsFileAt(fs, Resolve(target)) then
          UploadAll(probe, normalize, overwrite, clock, dir, fs, uploads[1..], skipped + [UploadName(probe, normalize, u)])
        else
          UploadAll(probe, normalize, overwrite, clock, dir, CopyResult(fs, clock, u.tmpName, target), uploads[1..], skipped)
  }

  /** `fs'` keeps every entry of `fs`, leaves its directories as they were, and differs from it only in files. */
  ghost predicate OnlyFilesWritten(fs: Fs, fs': Fs) {
    && (forall q :: q in fs ==> q in fs')
    && (forall q :: IsDirAt(fs, q) ==> fs'[q] == fs[q])
    && (forall q :: q in fs' && !(q in fs && fs'[q] == fs[q]) ==> fs'[q].FileNode?)
  }

  lemma OnlyFilesWrittenTrans(fs0: Fs, fs1: Fs, fs2: Fs)
    requires OnlyFilesWritten(fs0, fs1) && OnlyFilesWritten(fs1, fs2)
    ensures OnlyFilesWritten(fs0, fs2)
  {
    forall q | IsDirAt(fs0, q)
      ensures fs2[q] == fs0[q]
    {
      assert IsDirAt(fs1, q);
    }
  }

  /** One copied upload writes one file. */
  lemma CopyResultWritesFile(fs: Fs, clock: int, from: string, to: string)
    ensures OnlyFilesWritten(fs, CopyResult(fs, clock, from, to))
  {
  }

  /** Uploads only add or rewrite files: every entry stays, and directories stay as they were. */
  lemma {:induction false} UploadOnlyWritesFiles(probe: Probe, normalize: bool, overwrite: bool, clock: int, dir: string,
                                                 fs: Fs, uploads: seq<Upload>, skipped: seq<string>)
    ensures OnlyFilesWritten(fs, UploadAll(probe, normalize, overwrite, clock, dir, fs, uploads, skipped).1)
    decreases |uploads|
  {
    if uploads != [] && uploads[0].error == 0 {
      var u := uploads[0];
      var target := dir + UploadName(probe, normalize, u);
      if !overwrite && target != "" && IsFileAt(fs, Resolve(target)) {
        UploadOnlyWritesFiles(probe, normalize, overwrite, clock, dir, fs, uploads[1..], skipped + [UploadName(probe, normalize, u)]);
      } else {
        var fs1 := CopyResult(fs, clock, u.tmpName, target);
        CopyResultWritesFile(fs, clock, u.tmpName, target);
        UploadOnlyWritesFiles(probe, normalize, overwrite, clock, dir, fs1, uploads[1..], skipped);
        OnlyFilesWrittenTrans(fs, fs1, UploadAll(probe, normalize, overwrite, clock, dir, fs1, uploads[1..], skipped).1);
      }
    }
  }

  /** With overwriting off, no file that existed before the upload is changed by it. */
  lemma {:induction false} UploadKeepsFiles(probe: Probe, normalize: bool, clock: int, dir: string,
                                            fs: Fs, uploads: seq<Upload>, skipped: seq<string>, q: Path)
    requires IsFileAt(fs, q)
    ensures var fs' := UploadAll(probe, normalize, false, clock, dir, fs, uploads, skipped).1;
      q in fs' && fs'[q] == fs[q]
    decreases |uploads|
  {
    if uploads != [] && uploads[0].error == 0 {
      var u := uploads[0];
      var target := dir + UploadName(probe, normalize, u);
      if target != "" && IsFileAt(fs, Resolve(target)) {
        UploadKeepsFiles(probe, normalize, clock, dir, fs, uploads[1..], skipped + [UploadName(probe, normalize, u)], q);
      } else {
        var fs1 := CopyResult(fs, clock, u.tmpName, target);
        assert IsFileAt(fs1, q) && fs1[q] == fs[q];
        UploadKeepsFiles(probe, normalize, clock, dir, fs1, uploads[1..], skipped, q);
      }
    }
  }

  /**
   * The upload passes exactly when no upload reports an error and, with
   * overwriting off, no name was skipped; the first failed upload is the
   * one named in the message.
   */
  lemma {:induction false} UploadOutcome(probe: Probe, normalize: bool, overwrite: bool, clock: int, dir: string,
                                         fs: Fs, uploads: seq<Upload>, skipped: seq<string>)
    ensures var out := UploadAll(probe, normalize, overwrite, clock, dir, fs, uploads, skipped).0;
      && (out.Pass? ==> skipped == [] && forall i :: 0 <= i < |uploads| ==> uploads[i].error == 0)
      && (overwrite && skipped == [] && (forall i :: 0 <= i < |uploads| ==> uploads[i].error == 0) ==> out.Pass?)
      && (out.Throw? ==> out.error.kind == StorageFailure)
    decreases |uploads|
  {
    if uploads != [] && uploads[0].error == 0 {
      var u := uploads[0];
      var target := dir + UploadName(probe, normalize, u);
      if !overwrite && target != "" && IsFileAt(fs, Resolve(target)) {
        UploadOutcome(probe, normalize, overwrite, clock, dir, fs, uploads[1..], skipped + [UploadName(probe, normalize, u)]);
      } else {
        UploadOutcome(probe, normalize, overwrite, clock, dir, CopyResult(fs, clock, u.tmpName, target), uploads[1..], skipped);
      }
    }
  }

  /**
   * The entry `name` of the folder string `dir` as the upload, `copy` and
   * `move` evidently mean it, and as `copy` and `move` already write their
   * targets: the name inside the folder, a '/' between the two.
   */
  function EntryIn(dir: string, name: string): string {
    dir + "/" + name
  }

  /**
   * `EntryIn` names the entry inside the folder, whether or not the folder
   * string ends in '/' (the base directory does, a folder below it does not).
   */
  lemma EntryInResolves(dir: string, name: string)
    requires ProperName(name)
    ensures Resolve(EntryIn(dir, name)) == Resolve(dir) + [name]
    ensures Resolve(EntryIn(dir + "/", name)) == Resolve(dir) + [name]
  {
    ResolveJoin(dir, name);
    ResolveJoin(dir + "/", name);
    ResolveTrailingSlash(dir);
  }

  /**
   * As written, the upload target is the folder string and the file name
   * with no separator. In the base directory, whose string ends in '/', that
   * is the intended entry; in a folder below it, it is not: a file "a.txt"
   * sent to "docs" below "/srv/" lands in "/srv/docsa.txt", beside the
   * folder, and not in "/srv/docs/a.txt".
   */
  lemma UploadTargetMissesSeparator(base: string, folder: string, name: string)
    requires ProperName(folder) && ProperName(name)
    ensures Resolve(base + "/" + name) == Resolve(EntryIn(base + "/", name))
    ensures Resolve(base + "/" + folder + name) != Resolve(EntryIn(base + "/" + folder, name))
    ensures "/srv/" + Trim("docs", {'/'}) + "a.txt" == "/srv/docsa.txt"
  {
    ResolveJoin(base, name);
    EntryInResolves(base, name);
    SourceMissesSeparator(base, folder, name);
    TrimOfClean("docs", {'/'});
  }

  // ---------------------------------------------------------------------------
  // The folder tree.

  /** The path a `DirectoryIterator` keeps: one trailing '/' dropped, unless the path is "/" alone. */
  function IteratorPath(dir: string): (r: string)
    ensures dir != "" ==> Resolve(r) == Resolve(dir)
  {
    if |dir| > 1 && dir[|dir| - 1] == '/' then
      ResolveTrailingSlash(dir[..|dir| - 1]);
      assert dir[..|dir| - 1] + "/" == dir;
      dir[..|dir| - 1]
    else dir
  }

  /** `trim(str_replace([$baseDir, '\\'], ['', '/'], $pathname), '/')` */
  function RelativePath(baseDir: string, pathname: string): string {
    Trim(ReplaceAll(ReplaceAll(pathname, baseDir, ""), "\\", "/"), {'/'})
  }

  /** Below the base directory, the path of a folder is what follows the base directory. */
  lemma RelativePathBelowBase(baseDir: string, rel: string)
    requires baseDir != ""
    requires '\\' !in rel && forall i :: !OccursAt(rel, baseDir, i)
    ensures RelativePath(baseDir, baseDir + rel) == Trim(rel, {'/'})
  {
    var s := baseDir + rel;
    assert ReplaceAll(s, baseDir, "") == rel by {
      assert s[..|baseDir|] == baseDir && s[|baseDir|..] == rel;
      ReplaceAbsent(rel, baseDir, "");
    }
    assert ReplaceAll(rel, "\\", "/") == rel by {
      forall i ensures !OccursAt(rel, "\\", i) {
        if 0 <= i < |rel| {
          assert rel[i..i + 1] == [rel[i]];
        }
      }
      ReplaceAbsent(rel, "\\", "/");
    }
  }

  function FolderNames(items: seq<Folder>): (ns: seq<string>)
    ensures |ns| == |items| && forall i :: 0 <= i < |items| ==> ns[i] == items[i].name
  {
    seq(|items|, i requires 0 <= i < |items| => items[i].name)
  }

  /**
   * `items` is the folder tree below the directory string `dir`: one item
   * per sub-directory, each once, with its path taken relative to the base
   * directory and its own sub-tree.
   */
  ghost predicate FolderTree(fs: Fs, baseDir: string, dir: string, items: seq<Folder>)
    decreases items, 1
  {
    && (forall i, j :: 0 <= i < j < |items| ==> items[i].name != items[j].name)
    && (forall n :: IsDirAt(fs, Resolve(dir) + [n]) <==> n in FolderNames(items))
    && forall i :: 0 <= i < |items| ==> FolderItem(fs, baseDir, dir, items[i])
  }

  /** One folder of the tree below `dir`: its path relative to the base directory, and its own tree. */
  ghost predicate FolderItem(fs: Fs, baseDir: string, dir: string, item: Folder)
    decreases item, 0
  {
    var pathname := IteratorPath(dir) + "/" + item.name;
    && item.path == RelativePath(baseDir, pathname)
    && FolderTree(fs, baseDir, pathname, item.folders)
  }

  /**
   * `items` lists the sub-directories of `dir` among the names in `done`,
   * as `FolderTree` lists them all.
   */
  ghost predicate Listed(fs: Fs, baseDir: string, dir: string, done: set<string>, items: seq<Folder>) {
    var p := Resolve(dir);
    && (forall i, j :: 0 <= i < j < |items| ==> items[i].name != items[j].name)
    && (forall n :: n in FolderNames(items) <==> n in done && IsDirAt(fs, p + [n]))
    && forall i :: 0 <= i < |items| ==> FolderItem(fs, baseDir, dir, items[i])
  }

  lemma ListedAdd(fs: Fs, baseDir: string, dir: string, done: set<string>, items: seq<Folder>, item: Folder)
    requires Listed(fs, baseDir, dir, done, items)
    requires item.name !in done && IsDirAt(fs, Resolve(dir) + [item.name])
    requires FolderItem(fs, baseDir, dir, item)
    ensures Listed(fs, baseDir, dir, done + {item.name}, items + [item])
  {
    var r := items + [item];
    assert FolderNames(r) == FolderNames(items) + [item.name];
    forall i | 0 <= i < |r| ensures r[i] == if i < |items| then items[i] else item {
    }
  }

  lemma ListedSkip(fs: Fs, baseDir: string, dir: string, done: set<string>, items: seq<Folder>, n: string)
    requires Listed(fs, baseDir, dir, done, items)
    requires !IsDirAt(fs, Resolve(dir) + [n])
    ensures Listed(fs, baseDir, dir, done + {n}, items)
  {
  }

  lemma ListedAll(fs: Fs, baseDir: string, dir: string, items: seq<Folder>)
    requires Listed(fs, baseDir, dir, ChildNames(fs, Resolve(dir)), items)
    ensures FolderTree(fs, baseDir, dir, items)
  {
    var p := Resolve(dir);
    forall n ensures IsDirAt(fs, p + [n]) <==> n in FolderNames(items) {
      ChildNamesIff(fs, p, n);
    }
  }

  // ---------------------------------------------------------------------------
  // Copying and moving trees.

  /** Neither path lies at or under the other. */
  predicate Disjoint(s: Path, t: Path) {
    !(s <= t) && !(t <= s)
  }

  /** Below `t` + [n] lies below `t`, under its entry `n`. */
  lemma BelowChild(t: Path, n: string, q: Path)
    ensures t <= t + [n] && t < t + [n]
    ensures t + [n] <= q ==> t < q && q[|t|] == n
  {
    if t + [n] <= q {
      assert q[..|t|] == (t + [n])[..|t|];
    }
  }

  /** A prefix of `s` + [n] is a prefix of `s`, or all of it. */
  lemma PrefixOfExtension(x: Path, s: Path, n: string)
    ensures x <= s + [n] ==> x <= s || x == s + [n]
  {
    if x <= s + [n] && |x| <= |s| {
      assert x == s[..|x|];
    }
  }

  lemma DisjointChildren(s: Path, t: Path, m: string, n: string)
    requires Disjoint(s, t)
    ensures Disjoint(s + [m], t + [n]) && s + [m] != t + [n]
  {
    BelowChild(s, m, t + [n]);
    BelowChild(t, n, s + [m]);
    PrefixOfExtension(s, t, n);
    PrefixOfExtension(t, s, m);
  }

  /** Two prefixes of the same path are comparable. */
  lemma PrefixesMeet(x: Path, y: Path, q: Path)
    requires x <= q && y <= q
    ensures x <= y || y <= x
  {
    if |x| <= |y| {
      assert y[..|x|] == q[..|x|];
    } else {
      assert x[..|y|] == q[..|y|];
    }
  }

  lemma PrefixTrans(x: Path, y: Path, q: Path)
    requires x <= y && y <= q
    ensures x <= q
  {
    assert q[..|x|] == y[..|x|];
  }

  /** `a` and `b` hold the same entries at and below `x`. */
  ghost predicate Agree(a: Fs, b: Fs, x: Path) {
    forall q :: x <= q ==> (q in a <==> q in b) && (q in a ==> a[q] == b[q])
  }

  /** `a` and `b` hold the same entries outside `x`. */
  ghost predicate SameOutside(a: Fs, b: Fs, x: Path) {
    forall q :: !(x <= q) ==> (q in a <==> q in b) && (q in a ==> a[q] == b[q])
  }

  /** `a` and `b` hold the same entries except at and below `x` and `y`. */
  ghost predicate Touched(a: Fs, b: Fs, x: Path, y: Path) {
    forall q :: !(x <= q) && !(y <= q) ==> (q in a <==> q in b) && (q in a ==> a[q] == b[q])
  }

  /** `a` and `b` differ at most at the single path `x`. */
  ghost predicate OnlyAt(a: Fs, b: Fs, x: Path) {
    forall q :: q != x ==> (q in a <==> q in b) && (q in a ==> a[q] == b[q])
  }

  /** Nothing is removed and no directory changes. */
  ghost predicate Keeps(a: Fs, b: Fs) {
    && (forall q :: q in a ==> q in b)
    && (forall q :: IsDirAt(a, q) ==> b[q] == a[q])
  }

  /** What a copy into `t` may do: keep every entry and change nothing outside `t`. */
  ghost predicate Grown(a: Fs, b: Fs, t: Path) {
    Keeps(a, b) && SameOutside(a, b, t)
  }

  lemma AgreeBelow(a: Fs, b: Fs, x: Path, n: string)
    requires Agree(a, b, x)
    ensures Agree(a, b, x + [n])
  {
    forall q | x + [n] <= q ensures (q in a <==> q in b) && (q in a ==> a[q] == b[q]) {
      BelowChild(x, n, q);
    }
  }

  lemma SameOutsideWiden(a: Fs, b: Fs, x: Path, y: Path)
    requires SameOutside(a, b, y) && x <= y
    ensures SameOutside(a, b, x)
  {
    forall q | !(x <= q) ensures (q in a <==> q in b) && (q in a ==> a[q] == b[q]) {
      if y <= q {
        PrefixTrans(x, y, q);
      }
    }
  }

  /** Entries outside the changed part agree. */
  lemma SameOutsideAgree(a: Fs, b: Fs, x: Path, y: Path)
    requires SameOutside(a, b, x) && !(x <= y) && !(y <= x)
    ensures Agree(a, b, y)
  {
    forall q | y <= q ensures (q in a <==> q in b) && (q in a ==> a[q] == b[q]) {
      if x <= q {
        PrefixesMeet(x, y, q);
      }
    }
  }

  // ----- copying

  /**
   * `b` holds a copy of the tree at `s` of `a` at `t`: `t` is a directory,
   * and every entry directly in `s` is copied as `ChildCopied` says.
   */
  ghost predicate Copied(a: Fs, b: Fs, s: Path, t: Path)
    decreases MaxDepth - |s|, 1
  {
    && IsDirAt(b, t)
    && forall n :: n in ChildNames(a, s) ==> ChildCopied(a, b, s, t, n)
  }

  /**
   * The entry `n` of `s`: a file is copied to `t` + [n] with its content
   * wherever a file can be written there (not onto a directory, not deeper
   * than the system allows); a directory is copied in turn.
   */
  ghost predicate ChildCopied(a: Fs, b: Fs, s: Path, t: Path, n: string)
    decreases MaxDepth - |s|, 0
  {
    && (IsFileAt(a, s + [n]) && |t| < MaxDepth && !IsDirAt(a, t + [n]) ==>
          IsFileAt(b, t + [n]) && b[t + [n]].content == a[s + [n]].content)
    && (IsDirAt(a, s + [n]) && |s| < MaxDepth ==> Copied(a, b, s + [n], t + [n]))
  }

  /** Whether a copy is there depends only on the two trees involved. */
  lemma {:induction false} CopiedTransfer(a: Fs, a': Fs, b: Fs, b': Fs, s: Path, t: Path)
    requires Copied(a', b', s, t)
    requires Agree(a, a', s) && Agree(a, a', t) && Agree(b, b', t)
    ensures Copied(a, b, s, t)
    decreases MaxDepth - |s|, 1
  {
    assert t <= t;
    forall n | n in ChildNames(a, s) ensures ChildCopied(a, b, s, t, n) {
      PrefixTrans(s, s + [n], s + [n]);
      assert n in ChildNames(a', s);
      AgreeBelow(a, a', s, n);
      AgreeBelow(a, a', t, n);
      AgreeBelow(b, b', t, n);
      ChildCopiedTransfer(a, a', b, b', s, t, n);
    }
  }

  lemma {:induction false} ChildCopiedTransfer(a: Fs, a': Fs, b: Fs, b': Fs, s: Path, t: Path, n: string)
    requires ChildCopied(a', b', s, t, n)
    requires Agree(a, a', s + [n]) && Agree(a, a', t + [n]) && Agree(b, b', t + [n])
    ensures ChildCopied(a, b, s, t, n)
    decreases MaxDepth - |s|, 0
  {
    assert s + [n] <= s + [n] && t + [n] <= t + [n];
    if IsDirAt(a, s + [n]) && |s| < MaxDepth {
      CopiedTransfer(a, a', b, b', s + [n], t + [n]);
    }
  }

  /** The entries of `t` that `recursiveCopy` has not reached yet are as they were. */
  ghost predicate Untouched(a: Fs, b: Fs, t: Path, done: set<string>) {
    forall q :: t < q && q[|t|] !in done ==> (q in a <==> q in b) && (q in a ==> a[q] == b[q])
  }

  lemma UntouchedAgree(a: Fs, b: Fs, t: Path, done: set<string>, n: string)
    requires Untouched(a, b, t, done) && n !in done
    ensures Agree(a, b, t + [n])
  {
    forall q | t + [n] <= q ensures t < q && q[|t|] == n {
      assert q[..|t| + 1] == t + [n];
    }
  }

  /**
   * Where the loop of `recursiveCopy` has got to, having copied the entries
   * in `done`: measured against `m0`, the tree when the loop began, and `a`,
   * the tree before the target was created.
   */
  ghost predicate CopyProgress(a: Fs, m0: Fs, b: Fs, s: Path, t: Path, done: set<string>) {
    && IsDirAt(b, t) && Grown(m0, b, t) && Untouched(m0, b, t, done)
    && (Disjoint(s, t) ==> forall m :: m in done ==> ChildCopied(a, b, s, t, m))
  }

  lemma Unchanged(a: Fs, t: Path)
    ensures Grown(a, a, t) && Untouched(a, a, t, {})
  {
  }

  /** Progress over every entry of the source is the whole copy. */
  lemma CopyProgressDone(a: Fs, m0: Fs, b: Fs, s: Path, t: Path, done: set<string>)
    requires OnlyAt(a, m0, t) && CopyProgress(a, m0, b, s, t, done) && done == ChildNames(m0, s)
    ensures IsDirAt(b, t) && Grown(m0, b, t)
    ensures Disjoint(s, t) ==> Copied(a, b, s, t)
  {
    if Disjoint(s, t) {
      CopiedAll(a, m0, b, s, t);
    }
  }

  /** Once every entry of the source is copied, the whole source is. */
  lemma CopiedAll(a: Fs, m0: Fs, b: Fs, s: Path, t: Path)
    requires OnlyAt(a, m0, t) && Disjoint(s, t) && IsDirAt(b, t)
    requires forall m :: m in ChildNames(m0, s) ==> ChildCopied(a, b, s, t, m)
    ensures Copied(a, b, s, t)
  {
    forall x ensures s + [x] in a <==> s + [x] in m0 {
      BelowChild(s, x, t);
    }
    assert ChildNames(a, s) == ChildNames(m0, s);
  }

  /** A pass of the loop in `recursiveCopy` that changed `b` into `c` below `t` + [n] only. */
  lemma CopyFrameStep(m0: Fs, b: Fs, c: Fs, t: Path, n: string, done: set<string>)
    requires Untouched(m0, b, t, done) && n !in done
    requires Grown(m0, b, t) && Grown(b, c, t + [n])
    ensures Grown(m0, c, t) && Untouched(m0, c, t, done + {n})
  {
    BelowChild(t, n, []);
    SameOutsideWiden(b, c, t, t + [n]);
    forall q | t < q && q[|t|] !in done + {n} ensures (q in m0 <==> q in c) && (q in m0 ==> m0[q] == c[q]) {
      BelowChild(t, n, q);
    }
  }

  /**
   * ... and that copied the entry `n`: the entries copied before stay
   * copied, and so does `n`, measured against the tree at the start.
   */
  lemma CopyStep(a: Fs, m0: Fs, b: Fs, c: Fs, s: Path, t: Path, n: string, done: set<string>)
    requires OnlyAt(a, m0, t) && Untouched(m0, b, t, done) && n !in done
    requires Grown(m0, b, t) && Grown(b, c, t + [n])
    requires Disjoint(s, t)
    requires forall m :: m in done ==> ChildCopied(a, b, s, t, m)
    requires ChildCopied(b, c, s, t, n)
    ensures forall m :: m in done + {n} ==> ChildCopied(a, c, s, t, m)
  {
    forall m | m in done ensures ChildCopied(a, c, s, t, m) {
      forall q | t + [m] <= q ensures (q in c <==> q in b) && (q in c ==> c[q] == b[q]) {
        BelowChild(t, m, q);
        BelowChild(t, n, q);
      }
      assert Agree(a, a, s + [m]) && Agree(a, a, t + [m]);
      ChildCopiedTransfer(a, a, c, b, s, t, m);
    }
    // The entry `n` is, in the source and in the target, as it was at the start.
    SameOutsideWiden(a, m0, t, t);
    PrefixesDisjoint(s, t, n);
    SameOutsideAgree(a, b, t, s + [n]);
    UntouchedAgree(m0, b, t, done, n);
    forall q | t + [n] <= q ensures (q in a <==> q in b) && (q in a ==> a[q] == b[q]) {
      BelowChild(t, n, q);
    }
    ChildCopiedTransfer(a, b, c, c, s, t, n);
  }

  lemma PrefixesDisjoint(s: Path, t: Path, n: string)
    requires Disjoint(s, t)
    ensures !(t <= s + [n]) && !(s + [n] <= t)
  {
    PrefixOfExtension(t, s, n);
    BelowChild(s, n, t);
  }

  lemma GrownTrans(a: Fs, b: Fs, c: Fs, t: Path, u: Path)
    requires Grown(a, b, t) && Grown(b, c, u) && t <= u
    ensures Grown(a, c, t)
  {
    SameOutsideWiden(b, c, t, u);
  }

  /** Rewriting the sidecar only grows the tree, at the sidecar's path. */
  lemma WithCacheGrown(fs: Fs, cache: Path, files: OMap<File>, clock: int)
    requires files.Valid() && Consistent(files.values)
    ensures Grown(fs, WithCache(fs, cache, files, clock), cache)
  {
  }

  /** A `copy` only grows the tree, at its target. */
  lemma CopyResultGrown(fs: Fs, clock: int, from: string, to: string)
    ensures Grown(fs, CopyResult(fs, clock, from, to), Resolve(to))
  {
    var r := CopyResult(fs, clock, from, to);
    forall q | !(Resolve(to) <= q) ensures (q in fs <==> q in r) && (q in fs ==> fs[q] == r[q]) {
    }
  }

  /** `q` lies at or under none of `roots`. */
  ghost predicate Outside(q: Path, roots: seq<Path>) {
    forall i :: 0 <= i < |roots| ==> !(roots[i] <= q)
  }

  /** `a` and `b` hold the same entries everywhere outside `roots`. */
  ghost predicate SameOutsideAll(a: Fs, b: Fs, roots: seq<Path>) {
    forall q :: Outside(q, roots) ==> (q in a <==> q in b) && (q in a ==> a[q] == b[q])
  }

  lemma SameOutsideAllStep(a: Fs, b: Fs, c: Fs, roots: seq<Path>, x: Path)
    requires SameOutsideAll(a, b, roots) && SameOutside(b, c, x)
    ensures SameOutsideAll(a, c, roots + [x])
  {
    forall q | Outside(q, roots + [x]) ensures (q in a <==> q in c) && (q in a ==> a[q] == c[q]) {
      assert (roots + [x])[|roots|] == x;
      forall i | 0 <= i < |roots| ensures !(roots[i] <= q) {
        assert (roots + [x])[i] == roots[i];
      }
    }
  }

  lemma SameOutsideAllStep2(a: Fs, b: Fs, c: Fs, xs: seq<Path>, ys: seq<Path>, x: Path, y: Path)
    requires SameOutsideAll(a, b, xs + ys) && Touched(b, c, x, y)
    ensures SameOutsideAll(a, c, (xs + [x]) + (ys + [y]))
  {
    var r := (xs + [x]) + (ys + [y]);
    forall q | Outside(q, r) ensures (q in a <==> q in c) && (q in a ==> a[q] == c[q]) {
      assert r[|xs|] == x && r[|xs| + 1 + |ys|] == y;
      forall i | 0 <= i < |xs + ys| ensures !((xs + ys)[i] <= q) {
        if i < |xs| {
          assert r[i] == (xs + ys)[i];
        } else {
          assert r[i + 1] == (xs + ys)[i];
        }
      }
    }
  }

  lemma SameOutsideAllWiden(a: Fs, b: Fs, roots: seq<Path>, k: nat, extra: seq<Path>)
    requires k <= |roots| && SameOutsideAll(a, b, roots[..k])
    ensures SameOutsideAll(a, b, roots + extra)
  {
    forall q | Outside(q, roots + extra) ensures (q in a <==> q in b) && (q in a ==> a[q] == b[q]) {
      forall i | 0 <= i < k ensures !(roots[..k][i] <= q) {
        assert (roots + extra)[i] == roots[..k][i];
      }
    }
  }

  /** `err` is the failure of `copy` or `move` for one of the names in `files`. */
  ghost predicate FailsFor(err: Error, verb: string, files: seq<string>) {
    exists i :: 0 <= i < |files| && err == Error(StorageFailure, verb + Quote(files[i]))
  }

  lemma FailsForAt(err: Error, verb: string, files: seq<string>, i: nat)
    requires i < |files| && err == Error(StorageFailure, verb + Quote(files[i]))
    ensures FailsFor(err, verb, files)
  {
  }

  /**
   * What `move` does once both folders are found: only the moved trees, their
   * new places and the target's sidecar change, the flag is never lowered, a
   * failure is a runtime failure, one of the names or an entry of the
   * reopened target, and on success every name is moved (as `ItemsMoved`
   * says, before the target is reopened) and the target is reopened.
   */
  ghost predicate MovedBetween(fs0: Fs, fs: Fs, sourceDir: string, targetDir: string, files: seq<string>,
                               movedFolder0: bool, movedFolder: bool, out: Outcome,
                               probe: Probe, size: int, clock: int, fs1: Fs, listing: OMap<File>)
  {
    && SameOutsideAll(fs0, fs,
         ItemPaths(sourceDir, "", files) + ItemPaths(targetDir, "/", files) + [Resolve(FolderOf(targetDir) + CacheFile)])
    && (movedFolder0 ==> movedFolder)
    && (out.Throw? ==>
          || out.error.kind == RuntimeFailure || FailsFor(out.error, "cannot move ", files)
          || OpenFailed(probe, size, FolderOf(targetDir), clock, true, fs1, out))
    && (out.Pass? ==>
          && ItemsMoved(fs0, fs1, ItemPaths(sourceDir, "", files), ItemPaths(targetDir, "/", files), |files|, movedFolder)
          && OpenedAt(probe, size, FolderOf(targetDir), clock, true, fs1, fs, listing))
  }

  /**
   * What `copy` does once both folders are found: only the copied trees and
   * the target's sidecar change and nothing is lost, the flag is never
   * lowered, a failure is a runtime failure, one of the names or an entry
   * of the reopened target, and on success every name is copied (as
   * `ItemsCopied` says, before the target is reopened) and the target is
   * reopened.
   */
  ghost predicate CopiedBetween(fs0: Fs, fs: Fs, sourceDir: string, targetDir: string, files: seq<string>,
                                copiedFolder0: bool, copiedFolder: bool, out: Outcome,
                                probe: Probe, size: int, clock: int, fs1: Fs, listing: OMap<File>)
  {
    && Keeps(fs0, fs)
    && SameOutsideAll(fs0, fs, ItemPaths(targetDir, "/", files) + [Resolve(FolderOf(targetDir) + CacheFile)])
    && (copiedFolder0 ==> copiedFolder)
    && (out.Throw? ==>
          || out.error.kind == RuntimeFailure || FailsFor(out.error, "cannot copy ", files)
          || OpenFailed(probe, size, FolderOf(targetDir), clock, true, fs1, out))
    && (out.Pass? ==>
          && DirsCopied(fs0, fs, sourceDir, targetDir, files, |files|, copiedFolder)
          && ItemsCopied(fs0, fs1, ItemPaths(sourceDir, "", files), ItemPaths(targetDir, "/", files), |files|)
          && OpenedAt(probe, size, FolderOf(targetDir), clock, true, fs1, fs, listing))
  }

  /** Each of the first `i` names that was a directory at the start is a directory in the target, and the flag is up. */
  ghost predicate DirsCopied(fs0: Fs, fs: Fs, sourceDir: string, targetDir: string, files: seq<string>, i: nat, flag: bool)
    requires i <= |files|
  {
    forall j :: 0 <= j < i && IsDirAt(fs0, Resolve(sourceDir + files[j])) ==>
      flag && IsDirAt(fs, Resolve(targetDir + "/" + files[j]))
  }

  /** Where the loop of `copy` has got to, after the first `i` names. */
  ghost predicate CopyItemsProgress(fs0: Fs, fs: Fs, sourceDir: string, targetDir: string, files: seq<string>,
                                    i: nat, flag: bool)
    requires i <= |files|
  {
    && Keeps(fs0, fs)
    && SameOutsideAll(fs0, fs, ItemPaths(targetDir, "/", files)[..i])
    && DirsCopied(fs0, fs, sourceDir, targetDir, files, i, flag)
  }

  /**
   * What one name of `copy` adds to the loop's invariant; when it throws,
   * the loop's frame already covers what it did.
   */
  lemma CopyBookkeeping(fs0: Fs, b: Fs, c: Fs, sourceDir: string, targetDir: string, files: seq<string>, i: nat,
                        flag: bool, wasDir: bool, ok: bool)
    requires i < |files| && sourceDir != ""
    requires CopyItemsProgress(fs0, b, sourceDir, targetDir, files, i, flag)
    requires Grown(b, c, Resolve(targetDir + "/" + files[i]))
    requires wasDir == IsDirAt(b, Resolve(sourceDir + files[i]))
    requires ok && wasDir ==> IsDirAt(c, Resolve(targetDir + "/" + files[i]))
    ensures ok ==> CopyItemsProgress(fs0, c, sourceDir, targetDir, files, i + 1, flag || wasDir)
    ensures !ok ==> Keeps(fs0, c) && SameOutsideAll(fs0, c, ItemPaths(targetDir, "/", files))
  {
    var roots := ItemPaths(targetDir, "/", files);
    SameOutsideAllStep(fs0, b, c, roots[..i], roots[i]);
    assert roots[..i + 1] == roots[..i] + [roots[i]];
    if !ok {
      SameOutsideAllWiden(fs0, c, roots, i + 1, []);
      assert roots + [] == roots;
    }
  }

  /** The invariant of the loop of `copy`: its frame and flag, and what the names so far have become. */
  ghost predicate CopyLoop(fs0: Fs, fs: Fs, sourceDir: string, targetDir: string, files: seq<string>, i: nat, flag: bool)
    requires i <= |files|
  {
    && CopyItemsProgress(fs0, fs, sourceDir, targetDir, files, i, flag)
    && ItemsCopied(fs0, fs, ItemPaths(sourceDir, "", files), ItemPaths(targetDir, "/", files), i)
  }

  lemma CopyItemsStart(fs0: Fs, sourceDir: string, targetDir: string, files: seq<string>, flag: bool)
    ensures CopyLoop(fs0, fs0, sourceDir, targetDir, files, 0, flag)
  {
  }

  lemma CopyItemsDone(fs0: Fs, fs: Fs, sourceDir: string, targetDir: string, files: seq<string>, flag: bool)
    requires CopyLoop(fs0, fs, sourceDir, targetDir, files, |files|, flag)
    ensures Keeps(fs0, fs) && SameOutsideAll(fs0, fs, ItemPaths(targetDir, "/", files))
    ensures DirsCopied(fs0, fs, sourceDir, targetDir, files, |files|, flag)
    ensures ItemsCopied(fs0, fs, ItemPaths(sourceDir, "", files), ItemPaths(targetDir, "/", files), |files|)
  {
    assert ItemPaths(targetDir, "/", files)[..|files|] == ItemPaths(targetDir, "/", files);
  }

  /** The entries the names in `files` designate, each appended to the directory string `dir` after `sep`. */
  function ItemPaths(dir: string, sep: string, files: seq<string>): (r: seq<Path>)
    ensures |r| == |files| && forall i :: 0 <= i < |files| ==> r[i] == Resolve(dir + sep + files[i])
    ensures sep == "" ==> forall i :: 0 <= i < |files| ==> r[i] == Resolve(dir + files[i])
  {
    assert sep == "" ==> forall i :: 0 <= i < |files| ==> dir + sep + files[i] == dir + files[i];
    seq(|files|, i requires 0 <= i < |files| => Resolve(dir + sep + files[i]))
  }

  /**
   * As written, `copy` and `move` look a name up as the folder string and
   * the name with no separator between them: the entry `name` of the
   * folder `folder` below `d` is taken to be `folder` + `name` beside the
   * folder, and not `name` inside it, as `EntryIn` has it.
   */
  lemma SourceMissesSeparator(d: string, folder: string, name: string)
    requires ProperName(folder) && ProperName(name)
    ensures Resolve(d + "/" + folder + name) == Resolve(d) + [folder + name]
    ensures Resolve(EntryIn(d + "/" + folder, name)) == Resolve(d) + [folder, name]
    ensures Resolve(d + "/" + folder + name) != Resolve(EntryIn(d + "/" + folder, name))
  {
    assert '/' !in folder + name && |folder + name| >= 2;
    assert (folder + name)[..|folder|] == folder && ".."[..1] == ".";
    assert d + "/" + folder + name == d + "/" + (folder + name);
    ResolveJoin(d, folder + name);
    ResolveJoin(d, folder);
    ResolveJoin(d + "/" + folder, name);
  }

  // ----- moving

  /**
   * `b` holds the tree at `s` of `a` moved to `t`: `t` is a directory, the
   * source directory is gone unless something is left in it, and every
   * entry directly in `s` is moved as `ChildMoved` says.
   */
  ghost predicate Moved(a: Fs, b: Fs, s: Path, t: Path)
    decreases MaxDepth - |s|, 1
  {
    && IsDirAt(b, t)
    && (IsDirAt(b, s) ==> ChildNames(b, s) != {})
    && forall n :: n in ChildNames(a, s) ==> ChildMoved(a, b, s, t, n)
  }

  /**
   * The entry `n` of `s`: a file is renamed to `t` + [n] wherever a rename
   * can put it (not onto a directory, not deeper than the system allows),
   * so that it is found there as it was and no longer at its old place; a
   * directory is moved in turn.
   */
  ghost predicate ChildMoved(a: Fs, b: Fs, s: Path, t: Path, n: string)
    decreases MaxDepth - |s|, 0
  {
    && (IsFileAt(a, s + [n]) && |t| < MaxDepth && !IsDirAt(a, t + [n]) ==>
          s + [n] !in b && t + [n] in b && b[t + [n]] == a[s + [n]])
    && (IsDirAt(a, s + [n]) && |s| < MaxDepth ==> Moved(a, b, s + [n], t + [n]))
  }

  /** Whether a move is complete depends only on the two trees involved, before and after. */
  lemma {:induction false} MovedTransfer(a: Fs, a': Fs, b: Fs, b': Fs, s: Path, t: Path)
    requires Moved(a', b', s, t)
    requires Agree(a, a', s) && Agree(a, a', t) && Agree(b, b', s) && Agree(b, b', t)
    ensures Moved(a, b, s, t)
    decreases MaxDepth - |s|, 1
  {
    assert s <= s && t <= t;
    forall x ensures x in ChildNames(b, s) <==> x in ChildNames(b', s) {
      BelowChild(s, x, []);
    }
    forall n | n in ChildNames(a, s) ensures ChildMoved(a, b, s, t, n) {
      BelowChild(s, n, []);
      assert n in ChildNames(a', s);
      AgreeBelow(a, a', s, n);
      AgreeBelow(a, a', t, n);
      AgreeBelow(b, b', s, n);
      AgreeBelow(b, b', t, n);
      ChildMovedTransfer(a, a', b, b', s, t, n);
    }
  }

  lemma {:induction false} ChildMovedTransfer(a: Fs, a': Fs, b: Fs, b': Fs, s: Path, t: Path, n: string)
    requires ChildMoved(a', b', s, t, n)
    requires Agree(a, a', s + [n]) && Agree(a, a', t + [n]) && Agree(b, b', s + [n]) && Agree(b, b', t + [n])
    ensures ChildMoved(a, b, s, t, n)
    decreases MaxDepth - |s|, 0
  {
    assert s + [n] <= s + [n] && t + [n] <= t + [n];
    if IsDirAt(a, s + [n]) && |s| < MaxDepth {
      MovedTransfer(a, a', b, b', s + [n], t + [n]);
    }
  }

  /** Two prefixes of one path are comparable. */
  lemma Comparable(x: Path, y: Path, q: Path)
    ensures x <= q && y <= q ==> x <= y || y <= x
  {
    if x <= q && y <= q {
      PrefixesMeet(x, y, q);
    }
  }

  /** What lies below one of two paths that lie apart lies neither below the other nor below its entries. */
  lemma Apart(s: Path, t: Path, n: string, q: Path)
    requires Disjoint(s, t)
    ensures s <= q ==> !(t <= q) && !(t + [n] <= q)
  {
    Comparable(s, t, q);
    BelowChild(t, n, q);
  }

  /** A rename changes nothing outside its source and its target. */
  lemma RenameTouched(fs: Fs, from: Path, to: Path)
    ensures Touched(fs, MoveTree(fs, from, to), from, to)
  {
    var r := MoveTree(fs, from, to);
    forall q | !(from <= q) && !(to <= q) ensures (q in fs <==> q in r) && (q in fs ==> fs[q] == r[q]) {
      if q in r {
        MoveTreeKeys(fs, from, to, q);
      }
      if q in fs {
        MoveTreeKept(fs, from, to, q);
      }
    }
  }

  /**
   * Renaming the file `s` + [n] into the directory `t`, onto no directory
   * and within the depth the system allows, succeeds: the file is found at
   * `t` + [n] and no longer at `s` + [n].
   */
  lemma RenameFileMoved(fs: Fs, s: Path, t: Path, n: string)
    requires WellFormed(fs) && Disjoint(s, t) && IsDirAt(fs, t)
    requires IsFileAt(fs, s + [n]) && |t| < MaxDepth && !IsDirAt(fs, t + [n])
    ensures CanRename(fs, s + [n], t + [n])
    ensures var r := MoveTree(fs, s + [n], t + [n]);
      s + [n] !in r && t + [n] in r && r[t + [n]] == fs[s + [n]]
  {
    var from, to := s + [n], t + [n];
    DisjointChildren(s, t, n, n);
    assert AllProper(from) && from[|s|] == n;
    assert AllProper(t);
    assert AllProper(to) by {
      forall i | 0 <= i < |to| ensures ProperName(to[i]) {
        if i < |t| {
          assert to[i] == t[i];
        }
      }
    }
    assert Parent(to) == t;
    forall q | q in fs && from <= q ensures |to| + |q| - |from| <= MaxDepth {
      NothingUnderFile(fs, from, q);
    }
    MoveTreeVacates(fs, from, to);
    assert from + [] == from && to + [] == to;
    MoveTreeAt(fs, from, to, []);
  }

  /** The loop of `recursiveMove` keeps its changes inside the source and the target. */
  lemma TouchedStep(m0: Fs, b: Fs, c: Fs, s: Path, t: Path, n: string)
    requires Touched(m0, b, s, t) && Touched(b, c, s + [n], t + [n])
    ensures Touched(m0, c, s, t)
  {
    forall q | !(s <= q) && !(t <= q) ensures (q in m0 <==> q in c) && (q in m0 ==> m0[q] == c[q]) {
      BelowChild(s, n, q);
      BelowChild(t, n, q);
    }
  }

  /**
   * Where the loop of `recursiveMove` has got to, having moved the entries
   * in `done`: measured against `m0`, the tree when the loop began, and `a`,
   * the tree before the target was created. When source and target lie
   * apart, the entries not reached yet are as they were on both sides.
   */
  ghost predicate MoveProgress(a: Fs, m0: Fs, b: Fs, s: Path, t: Path, done: set<string>) {
    && Touched(m0, b, s, t)
    && (Disjoint(s, t) ==>
          && IsDirAt(b, t) && Untouched(m0, b, s, done) && Untouched(m0, b, t, done)
          && forall m :: m in done ==> ChildMoved(a, b, s, t, m))
  }

  /** A pass of the loop in `recursiveMove` that changed `b` into `c` at and below `s` + [n] and `t` + [n] only. */
  lemma MoveFrameStep(m0: Fs, b: Fs, c: Fs, s: Path, t: Path, n: string, done: set<string>)
    requires Disjoint(s, t) && n !in done && IsDirAt(b, t)
    requires Untouched(m0, b, s, done) && Untouched(m0, b, t, done)
    requires Touched(b, c, s + [n], t + [n])
    ensures IsDirAt(c, t) && Untouched(m0, c, s, done + {n}) && Untouched(m0, c, t, done + {n})
  {
    BelowChild(s, n, t);
    BelowChild(t, n, t);
    assert !(s + [n] <= t) && !(t + [n] <= t);
    forall q | s < q && q[|s|] !in done + {n} ensures (q in m0 <==> q in c) && (q in m0 ==> m0[q] == c[q]) {
      BelowChild(s, n, q);
      Apart(s, t, n, q);
    }
    forall q | t < q && q[|t|] !in done + {n} ensures (q in m0 <==> q in c) && (q in m0 ==> m0[q] == c[q]) {
      BelowChild(t, n, q);
      Apart(t, s, n, q);
    }
  }

  /**
   * ... and that moved the entry `n`: the entries moved before stay moved,
   * and so does `n`, measured against the tree at the start.
   */
  lemma MoveStep(a: Fs, m0: Fs, b: Fs, c: Fs, s: Path, t: Path, n: string, done: set<string>)
    requires OnlyAt(a, m0, t) && Disjoint(s, t) && n !in done
    requires Untouched(m0, b, s, done) && Untouched(m0, b, t, done)
    requires Touched(b, c, s + [n], t + [n])
    requires forall m :: m in done ==> ChildMoved(a, b, s, t, m)
    requires ChildMoved(b, c, s, t, n)
    ensures forall m :: m in done + {n} ==> ChildMoved(a, c, s, t, m)
  {
    forall m | m in done ensures ChildMoved(a, c, s, t, m) {
      forall q | s + [m] <= q ensures (q in c <==> q in b) && (q in c ==> c[q] == b[q]) {
        BelowChild(s, m, q);
        BelowChild(s, n, q);
        Apart(s, t, n, q);
      }
      forall q | t + [m] <= q ensures (q in c <==> q in b) && (q in c ==> c[q] == b[q]) {
        BelowChild(t, m, q);
        BelowChild(t, n, q);
        Apart(t, s, n, q);
      }
      assert Agree(a, a, s + [m]) && Agree(a, a, t + [m]);
      ChildMovedTransfer(a, a, c, b, s, t, m);
    }
    // The entry `n` is, in the source and in the target, as it was at the start.
    UntouchedAgree(m0, b, s, done, n);
    UntouchedAgree(m0, b, t, done, n);
    forall q | s + [n] <= q ensures (q in a <==> q in b) && (q in a ==> a[q] == b[q]) {
      BelowChild(s, n, q);
      Apart(s, t, n, q);
    }
    forall q | t + [n] <= q ensures (q in a <==> q in b) && (q in a ==> a[q] == b[q]) {
      BelowChild(t, n, q);
    }
    assert Agree(c, c, s + [n]) && Agree(c, c, t + [n]);
    ChildMovedTransfer(a, b, c, c, s, t, n);
  }

  /**
   * The end of `recursiveMove`: once every entry is moved, the source
   * directory is removed if it is empty, which completes the move.
   */
  lemma MovedAll(a: Fs, m0: Fs, b: Fs, c: Fs, s: Path, t: Path)
    requires OnlyAt(a, m0, t) && Disjoint(s, t) && IsDirAt(b, t)
    requires forall m :: m in ChildNames(m0, s) ==> ChildMoved(a, b, s, t, m)
    requires c == if CanRmdir(b, s) then b - {s} else b
    ensures Moved(a, c, s, t)
  {
    forall x ensures s + [x] in a <==> s + [x] in m0 {
      BelowChild(s, x, t);
    }
    assert ChildNames(a, s) == ChildNames(m0, s);
    forall m | m in ChildNames(a, s) ensures ChildMoved(a, c, s, t, m) {
      forall q | s + [m] <= q ensures (q in c <==> q in b) && (q in c ==> c[q] == b[q]) {
        BelowChild(s, m, q);
      }
      forall q | t + [m] <= q ensures (q in c <==> q in b) && (q in c ==> c[q] == b[q]) {
        BelowChild(t, m, q);
        Apart(t, s, m, q);
      }
      assert Agree(a, a, s + [m]) && Agree(a, a, t + [m]);
      ChildMovedTransfer(a, a, c, b, s, t, m);
    }
  }

  /** The removal of the source at the end of `recursiveMove` keeps the loop's frame. */
  lemma RmdirTouched(m0: Fs, b: Fs, c: Fs, s: Path, t: Path)
    requires Touched(m0, b, s, t)
    requires c == if CanRmdir(b, s) then b - {s} else b
    ensures Touched(m0, c, s, t)
  {
  }

  /** `a` and `b` hold the same entries outside `xs`, and so outside any `ys` that lists each of `xs`. */
  lemma SameOutsideAllMore(a: Fs, b: Fs, xs: seq<Path>, ys: seq<Path>)
    requires SameOutsideAll(a, b, xs)
    requires forall i :: 0 <= i < |xs| ==> xs[i] in ys
    ensures SameOutsideAll(a, b, ys)
  {
    forall q | Outside(q, ys) ensures (q in a <==> q in b) && (q in a ==> a[q] == b[q]) {
      forall i | 0 <= i < |xs| ensures !(xs[i] <= q) {
        var j :| 0 <= j < |ys| && ys[j] == xs[i];
      }
    }
  }

  /** The file system after `rename($from, $to)`, which fails without a trace. */
  function RenameResult(fs: Fs, from: string, to: string): Fs {
    if from != "" && to != "" && CanRename(fs, Resolve(from), Resolve(to)) then
      MoveTree(fs, Resolve(from), Resolve(to))
    else fs
  }

  /** Where the loop of `move` has got to, after the first `i` names: nothing changed outside their sources and targets. */
  ghost predicate MoveItemsProgress(fs0: Fs, fs: Fs, sourceDir: string, targetDir: string, files: seq<string>, i: nat)
    requires i <= |files|
  {
    SameOutsideAll(fs0, fs, ItemPaths(sourceDir, "", files)[..i] + ItemPaths(targetDir, "/", files)[..i])
  }

  /** What one name of `move` adds to the loop's frame; when it throws, the whole frame already holds. */
  lemma MoveBookkeeping(fs0: Fs, b: Fs, c: Fs, sourceDir: string, targetDir: string, files: seq<string>, i: nat)
    requires i < |files|
    requires MoveItemsProgress(fs0, b, sourceDir, targetDir, files, i)
    requires Touched(b, c, Resolve(sourceDir + files[i]), Resolve(targetDir + "/" + files[i]))
    ensures MoveItemsProgress(fs0, c, sourceDir, targetDir, files, i + 1)
    ensures SameOutsideAll(fs0, c, ItemPaths(sourceDir, "", files) + ItemPaths(targetDir, "/", files))
  {
    var srcs, dsts := ItemPaths(sourceDir, "", files), ItemPaths(targetDir, "/", files);
    assert sourceDir + "" + files[i] == sourceDir + files[i];
    SameOutsideAllStep2(fs0, b, c, srcs[..i], dsts[..i], srcs[i], dsts[i]);
    assert srcs[..i + 1] == srcs[..i] + [srcs[i]] && dsts[..i + 1] == dsts[..i] + [dsts[i]];
    PrefixesWithin(srcs, dsts, i + 1);
    SameOutsideAllMore(fs0, c, srcs[..i + 1] + dsts[..i + 1], srcs + dsts);
  }

  /** Every path of two prefixes is among the paths of the two whole lists. */
  lemma PrefixesWithin(xs: seq<Path>, ys: seq<Path>, n: nat)
    requires n <= |xs| && n <= |ys|
    ensures forall k :: 0 <= k < 2 * n ==> (xs[..n] + ys[..n])[k] in xs + ys
  {
    var done := xs[..n] + ys[..n];
    forall k | 0 <= k < 2 * n ensures done[k] in xs + ys {
      if k < n {
        assert done[k] == (xs + ys)[k];
      } else {
        assert done[k] == (xs + ys)[|xs| + k - n];
      }
    }
  }

  /** The invariant of the loop of `move`: its frame, and what the names so far have become. */
  ghost predicate MoveLoop(fs0: Fs, fs: Fs, sourceDir: string, targetDir: string, files: seq<string>, i: nat, flag: bool)
    requires i <= |files|
  {
    && MoveItemsProgress(fs0, fs, sourceDir, targetDir, files, i)
    && ItemsMoved(fs0, fs, ItemPaths(sourceDir, "", files), ItemPaths(targetDir, "/", files), i, flag)
  }

  lemma MoveItemsStart(fs0: Fs, sourceDir: string, targetDir: string, files: seq<string>, flag: bool)
    ensures MoveLoop(fs0, fs0, sourceDir, targetDir, files, 0, flag)
  {
  }

  lemma MoveItemsDone(fs0: Fs, fs: Fs, sourceDir: string, targetDir: string, files: seq<string>, flag: bool)
    requires MoveLoop(fs0, fs, sourceDir, targetDir, files, |files|, flag)
    ensures SameOutsideAll(fs0, fs, ItemPaths(sourceDir, "", files) + ItemPaths(targetDir, "/", files))
    ensures ItemsMoved(fs0, fs, ItemPaths(sourceDir, "", files), ItemPaths(targetDir, "/", files), |files|, flag)
  {
    assert ItemPaths(sourceDir, "", files)[..|files|] == ItemPaths(sourceDir, "", files);
    assert ItemPaths(targetDir, "/", files)[..|files|] == ItemPaths(targetDir, "/", files);
  }

  /** Creating the target and then moving into it changes nothing outside the source and the target. */
  lemma TargetTouched(a: Fs, m0: Fs, b: Fs, s: Path, t: Path)
    requires OnlyAt(a, m0, t) && Touched(m0, b, s, t)
    ensures Touched(a, b, s, t)
  {
  }

  // ----- what each name of `copy` and `move` becomes

  /**
   * The trees the names of `copy` and `move` designate lie apart: no source
   * lies at or under a target or the other way round, and no two sources
   * and no two targets lie one under the other.
   */
  ghost predicate ItemsApart(srcs: seq<Path>, dsts: seq<Path>) {
    && |srcs| == |dsts|
    && (forall i, j :: 0 <= i < |srcs| && 0 <= j < |dsts| ==> Disjoint(srcs[i], dsts[j]))
    && (forall i, j :: 0 <= i < |dsts| && 0 <= j < |dsts| && i != j ==> Disjoint(dsts[i], dsts[j]))
    && (forall i, j :: 0 <= i < |srcs| && 0 <= j < |srcs| && i != j ==> Disjoint(srcs[i], srcs[j]))
  }

  /** Where `x` lies apart from each of `roots`, trees that agree outside `roots` agree at and below `x`. */
  lemma AgreeApart(a: Fs, b: Fs, roots: seq<Path>, x: Path)
    requires SameOutsideAll(a, b, roots)
    requires forall k :: 0 <= k < |roots| ==> Disjoint(x, roots[k])
    ensures Agree(a, b, x)
  {
    forall q | x <= q ensures (q in a <==> q in b) && (q in a ==> a[q] == b[q]) {
      forall k | 0 <= k < |roots| ensures !(roots[k] <= q) {
        Comparable(x, roots[k], q);
      }
    }
  }

  /** `CopyNamesStep` for the name at `i` of `copy`, in terms of the folder strings. */
  lemma CopyNameDone(a: Fs, b: Fs, c: Fs, sourceDir: string, targetDir: string, files: seq<string>, i: nat)
    requires i < |files|
    requires Keeps(a, b) && SameOutsideAll(a, b, ItemPaths(targetDir, "/", files)[..i])
    requires ItemsCopied(a, b, ItemPaths(sourceDir, "", files), ItemPaths(targetDir, "/", files), i)
    requires Grown(b, c, Resolve(targetDir + "/" + files[i]))
    requires ItemCopied(b, c, Resolve(sourceDir + files[i]), Resolve(targetDir + "/" + files[i]))
    ensures ItemsCopied(a, c, ItemPaths(sourceDir, "", files), ItemPaths(targetDir, "/", files), i + 1)
  {
    var srcs, dsts := ItemPaths(sourceDir, "", files), ItemPaths(targetDir, "/", files);
    assert srcs[i] == Resolve(sourceDir + files[i]) && dsts[i] == Resolve(targetDir + "/" + files[i]);
    CopyNamesStep(a, b, c, srcs, dsts, i);
  }

  /** `MoveNamesStep` for the name at `i` of `move`, in terms of the folder strings. */
  lemma MoveNameDone(a: Fs, b: Fs, c: Fs, sourceDir: string, targetDir: string, files: seq<string>, i: nat,
                     flag: bool, wasDir: bool)
    requires i < |files|
    requires MoveItemsProgress(a, b, sourceDir, targetDir, files, i)
    requires ItemsMoved(a, b, ItemPaths(sourceDir, "", files), ItemPaths(targetDir, "/", files), i, flag)
    requires Touched(b, c, Resolve(sourceDir + files[i]), Resolve(targetDir + "/" + files[i]))
    requires ItemMoved(b, c, Resolve(sourceDir + files[i]), Resolve(targetDir + "/" + files[i]))
    requires wasDir == IsDirAt(b, Resolve(sourceDir + files[i]))
    ensures ItemsMoved(a, c, ItemPaths(sourceDir, "", files), ItemPaths(targetDir, "/", files), i + 1, flag || wasDir)
  {
    var srcs, dsts := ItemPaths(sourceDir, "", files), ItemPaths(targetDir, "/", files);
    assert srcs[i] == Resolve(sourceDir + files[i]) && dsts[i] == Resolve(targetDir + "/" + files[i]);
    MoveNamesStep(a, b, c, srcs, dsts, i, flag, wasDir);
  }

  /**
   * The name copied from `s` to `t`, measured against the tree `a` it
   * started from: a directory is copied as `Copied` says when the two lie
   * apart, and a file is found at `t` with its content wherever `copy` can
   * write it.
   */
  ghost predicate ItemCopied(a: Fs, b: Fs, s: Path, t: Path) {
    && (IsDirAt(a, s) && Disjoint(s, t) ==> Copied(a, b, s, t))
    && (CanCopy(a, s, t) ==> IsFileAt(b, t) && b[t].content == a[s].content)
  }

  /** When the names lie apart, each of the first `i` is copied, measured against the tree `a` before the loop. */
  ghost predicate ItemsCopied(a: Fs, b: Fs, srcs: seq<Path>, dsts: seq<Path>, i: nat)
    requires i <= |srcs| && i <= |dsts|
  {
    ItemsApart(srcs, dsts) ==> forall j :: 0 <= j < i ==> ItemCopied(a, b, srcs[j], dsts[j])
  }

  /** A copy made from `b` is one made from `a` when the two agree on both trees and `b` lost nothing of `a`. */
  lemma ItemCopiedRebase(a: Fs, b: Fs, c: Fs, s: Path, t: Path)
    requires ItemCopied(b, c, s, t) && Agree(a, b, s) && Agree(a, b, t) && Keeps(a, b)
    ensures ItemCopied(a, c, s, t)
  {
    assert s <= s && t <= t;
    if IsDirAt(a, s) && Disjoint(s, t) {
      CopiedTransfer(a, b, c, c, s, t);
    }
    if CanCopy(a, s, t) {
      assert IsDirAt(b, Parent(t));
    }
  }

  /** A copy stays as it was while later copies grow the tree elsewhere. */
  lemma ItemCopiedKept(a: Fs, b: Fs, c: Fs, s: Path, t: Path, u: Path)
    requires ItemCopied(a, b, s, t) && Grown(b, c, u) && Disjoint(t, u)
    ensures ItemCopied(a, c, s, t)
  {
    SameOutsideAgree(b, c, u, t);
    assert t <= t;
    if IsDirAt(a, s) && Disjoint(s, t) {
      CopiedTransfer(a, a, c, b, s, t);
    }
  }

  /** One more name of `copy` done: the names before stay copied and the new one is copied, measured against `a`. */
  lemma CopyNamesStep(a: Fs, b: Fs, c: Fs, srcs: seq<Path>, dsts: seq<Path>, i: nat)
    requires i < |srcs| && i < |dsts|
    requires Keeps(a, b) && SameOutsideAll(a, b, dsts[..i]) && ItemsCopied(a, b, srcs, dsts, i)
    requires Grown(b, c, dsts[i]) && ItemCopied(b, c, srcs[i], dsts[i])
    ensures ItemsCopied(a, c, srcs, dsts, i + 1)
  {
    if ItemsApart(srcs, dsts) {
      forall j | 0 <= j < i ensures ItemCopied(a, c, srcs[j], dsts[j]) {
        ItemCopiedKept(a, b, c, srcs[j], dsts[j], dsts[i]);
      }
      AgreeApart(a, b, dsts[..i], srcs[i]);
      AgreeApart(a, b, dsts[..i], dsts[i]);
      ItemCopiedRebase(a, b, c, srcs[i], dsts[i]);
    }
  }

  /**
   * The name moved from `s` to `t`, measured against the tree `a` it
   * started from: a directory is moved as `Moved` says when the two lie
   * apart, and a file that `rename` can move is found at `t` as it was
   * and no longer at `s`.
   */
  ghost predicate ItemMoved(a: Fs, b: Fs, s: Path, t: Path) {
    && (IsDirAt(a, s) && Disjoint(s, t) ==> Moved(a, b, s, t))
    && (IsFileAt(a, s) && CanRename(a, s, t) && s != t ==> s !in b && t in b && b[t] == a[s])
  }

  /** When the names lie apart, each of the first `i` is moved, and the flag is up if one of them was a directory. */
  ghost predicate ItemsMoved(a: Fs, b: Fs, srcs: seq<Path>, dsts: seq<Path>, i: nat, flag: bool)
    requires i <= |srcs| && i <= |dsts|
  {
    ItemsApart(srcs, dsts) ==>
      forall j :: 0 <= j < i ==> ItemMoved(a, b, srcs[j], dsts[j]) && (IsDirAt(a, srcs[j]) ==> flag)
  }

  /** What changes at and below `x` and `y` only leaves every tree apart from both as it was. */
  lemma TouchedAgree(b: Fs, c: Fs, x: Path, y: Path, z: Path)
    requires Touched(b, c, x, y) && Disjoint(x, z) && Disjoint(y, z)
    ensures Agree(b, c, z)
  {
    forall q | z <= q ensures (q in b <==> q in c) && (q in b ==> b[q] == c[q]) {
      Comparable(x, z, q);
      Comparable(y, z, q);
    }
  }

  /** Whether `rename` can move `s` to `t` depends on the two trees and the target's parent only. */
  lemma CanRenameTransfer(a: Fs, b: Fs, s: Path, t: Path)
    requires t != [] && CanRename(a, s, t)
    requires Agree(a, b, s) && Agree(a, b, t)
    requires (Parent(t) in a <==> Parent(t) in b) && (Parent(t) in a ==> a[Parent(t)] == b[Parent(t)])
    ensures CanRename(b, s, t)
  {
    assert s <= s && t <= t;
    forall n ensures n in ChildNames(a, t) <==> n in ChildNames(b, t) {
      BelowChild(t, n, []);
    }
  }

  /** A move made from `b` is one made from `a` when the two agree on both trees and at the target's parent. */
  lemma ItemMovedRebase(a: Fs, b: Fs, c: Fs, s: Path, t: Path)
    requires ItemMoved(b, c, s, t) && Agree(a, b, s) && Agree(a, b, t) && t != []
    requires (Parent(t) in a <==> Parent(t) in b) && (Parent(t) in a ==> a[Parent(t)] == b[Parent(t)])
    ensures ItemMoved(a, c, s, t)
  {
    assert s <= s && t <= t;
    if IsDirAt(a, s) && Disjoint(s, t) {
      MovedTransfer(a, b, c, c, s, t);
    }
    if IsFileAt(a, s) && CanRename(a, s, t) && s != t {
      CanRenameTransfer(a, b, s, t);
    }
  }

  /** A move stays as it was while later moves change the tree elsewhere. */
  lemma ItemMovedKept(a: Fs, b: Fs, c: Fs, s: Path, t: Path, x: Path, y: Path)
    requires ItemMoved(a, b, s, t) && Touched(b, c, x, y)
    requires Disjoint(x, s) && Disjoint(y, s) && Disjoint(x, t) && Disjoint(y, t)
    ensures ItemMoved(a, c, s, t)
  {
    TouchedAgree(b, c, x, y, s);
    TouchedAgree(b, c, x, y, t);
    assert s <= s && t <= t;
    if IsDirAt(a, s) && Disjoint(s, t) {
      MovedTransfer(a, a, c, b, s, t);
    }
  }

  /** One more name of `move` done: the names before stay moved and the new one is moved, measured against `a`. */
  lemma MoveNamesStep(a: Fs, b: Fs, c: Fs, srcs: seq<Path>, dsts: seq<Path>, i: nat, flag: bool, wasDir: bool)
    requires i < |srcs| && i < |dsts|
    requires SameOutsideAll(a, b, srcs[..i] + dsts[..i]) && ItemsMoved(a, b, srcs, dsts, i, flag)
    requires Touched(b, c, srcs[i], dsts[i]) && ItemMoved(b, c, srcs[i], dsts[i])
    requires wasDir == IsDirAt(b, srcs[i])
    ensures ItemsMoved(a, c, srcs, dsts, i + 1, flag || wasDir)
  {
    if ItemsApart(srcs, dsts) {
      var s, t := srcs[i], dsts[i];
      forall j | 0 <= j < i ensures ItemMoved(a, c, srcs[j], dsts[j]) && (IsDirAt(a, srcs[j]) ==> flag || wasDir) {
        ItemMovedKept(a, b, c, srcs[j], dsts[j], s, t);
      }
      var roots := srcs[..i] + dsts[..i];
      assert forall k :: 0 <= k < |roots| ==> roots[k] == if k < i then srcs[k] else dsts[k - i];
      AgreeApart(a, b, roots, s);
      AgreeApart(a, b, roots, t);
      assert t != [] by {
        assert !(t <= s);
      }
      forall k | 0 <= k < |roots| ensures !(roots[k] <= Parent(t)) {
        if roots[k] <= Parent(t) {
          PrefixTrans(roots[k], Parent(t), t);
        }
      }
      ItemMovedRebase(a, b, c, s, t);
    }
  }

  class LocalStorage {
    /** The settings every storage has; the local storage adds the base directory. */
    const storage: Storage
    const disk: Disk
    const probe: Probe
    /** The base directory, "" until it is set and then ending in one '/'. */
    var baseDir: string

    ghost predicate Valid()
      reads this, storage, disk
    {
      && storage.Valid() && disk.Valid()
      && SlashEnded(baseDir)
    }

    constructor (name: string, disk: Disk, probe: Probe)
      requires disk.Valid()
      ensures Valid() && fresh(storage)
      ensures storage.name == name && this.disk == disk && this.probe == probe
      ensures storage.Current() == Defaults && baseDir == ""
    {
      storage := new Storage(name);
      this.disk := disk;
      this.probe := probe;
      baseDir := "";
    }

    /** Only the disk's contents changed, and the disk is still valid. */
    twostate lemma StillValid()
      requires old(Valid()) && unchanged(this, storage) && disk.Valid()
      ensures Valid()
    {
    }

    /**
     * `setOption`: the base directory must be an existing directory and is
     * kept with one trailing '/'; any other option goes to the storage's
     * own settings.
     */
    method SetOption(key: string, value: Scalar) returns (out: Outcome)
      requires Valid()
      modifies this, storage
      ensures Valid()
      ensures key == OptionBaseDir ==>
        && storage.Current() == old(storage.Current())
        && (if disk.IsDir(CastString(value)) then out == Pass && baseDir == WithOneSlash(CastString(value))
            else out == Throw(Error(InvalidArgument, "directory " + Quote(CastString(value)) + " not found"))
                 && baseDir == old(baseDir))
      ensures key != OptionBaseDir && key in OptionNames ==>
        out == Pass && baseDir == old(baseDir) && storage.Current() == Updated(old(storage.Current()), key, value)
      ensures key != OptionBaseDir && key !in OptionNames ==>
        && out == Throw(Error(InvalidArgument, "invalid option " + Quote(key)))
        && baseDir == old(baseDir) && storage.Current() == old(storage.Current())
    {
      if key == OptionBaseDir {
        out := SetBaseDir(CastString(value));
      } else {
        out := storage.SetOption(key, value);
      }
    }

    /** The base directory option: an existing directory, kept with one trailing '/'. */
    method SetBaseDir(v: string) returns (out: Outcome)
      requires Valid()
      modifies this
      ensures Valid()
      ensures if disk.IsDir(v) then out == Pass && baseDir == WithOneSlash(v)
              else out == Throw(Error(InvalidArgument, "directory " + Quote(v) + " not found")) && baseDir == old(baseDir)
    {
      if !disk.IsDir(v) {
        return Throw(Error(InvalidArgument, "directory " + Quote(v) + " not found"));
      }
      WithOneSlashEnded(v);
      baseDir := WithOneSlash(v);
      out := Pass;
    }

    /** `absPath`: the base directory and the path without surrounding slashes, which must be a directory. */
    function AbsPath(path: string): Result<string>
      reads this, disk
    {
      AbsPathIn(disk.fs, path)
    }

    /** `absPath` when the file system is `fs`. */
    function AbsPathIn(fs: Fs, path: string): Result<string>
      reads this
    {
      var trimmed := Trim(path, {'/'});
      if baseDir + trimmed != "" && IsDirAt(fs, Resolve(baseDir + trimmed)) then Ok(baseDir + trimmed)
      else Fail(Error(StorageFailure, "not found path " + Quote(trimmed)))
    }

    /** The directory is opened where `absPath` leads. */
    lemma AbsPathOpens(path: string)
      requires AbsPath(path).Ok?
      ensures disk.IsDir(FolderOf(AbsPath(path).value))
      ensures Resolve(FolderOf(AbsPath(path).value)) == Resolve(AbsPath(path).value)
    {
      ResolveTrimmed(AbsPath(path).value);
    }

    /**
     * A `LocalDirectory` on the folder `absPath(path)` leads to: the error of
     * a path that is not a folder, or of a folder that cannot be opened,
     * with nothing changed, or the folder opened as `OpenedAt` describes.
     */
    method OpenFolder(path: string, ignoreCache: bool) returns (r: Result<LocalDirectory>)
      requires Valid()
      modifies disk
      ensures Valid()
      ensures r.Fail? ==> disk.fs == old(disk.fs)
      ensures old(AbsPath(path)).Fail? ==> r == Fail(old(AbsPath(path)).error)
      ensures old(AbsPath(path)).Ok? ==>
        var folder := FolderOf(old(AbsPath(path)).value);
        && (r.Ok? <==> Openable(probe, storage.thumbnailSize, folder, disk.clock, ignoreCache, old(disk.fs)))
        && (r.Fail? ==> OpenFailed(probe, storage.thumbnailSize, folder, disk.clock, ignoreCache, old(disk.fs), Throw(r.error)))
      ensures r.Ok? ==>
        && old(AbsPath(path)).Ok? && fresh(r.value)
        && r.value.disk == disk && r.value.probe == probe && r.value.thumbnailSize == storage.thumbnailSize
        && r.value.folder == FolderOf(old(AbsPath(path)).value)
        && Opened(r.value, old(disk.fs), ignoreCache)
    {
      var abs := AbsPath(path);
      if abs.Fail? {
        return Fail(abs.error);
      }
      AbsPathOpens(path);
      label pre:
      r := OpenDirectory(disk, probe, abs.value, ignoreCache, storage.thumbnailSize);
      StillValid@pre();
    }

    /**
     * `getFiles`: the folder's listing, as opening a `LocalDirectory` on it
     * gives it, each file stamped with the base URL followed by `path`; or
     * the error of opening it, with nothing changed.
     */
    method GetFiles(path: string, ignoreCache: bool) returns (r: Result<OMap<File>>, ghost listing: OMap<File>)
      requires Valid()
      modifies disk
      ensures Valid()
      ensures old(AbsPath(path)).Fail? ==> r == Fail(old(AbsPath(path)).error) && disk.fs == old(disk.fs)
      ensures old(AbsPath(path)).Ok? ==>
        var folder := FolderOf(old(AbsPath(path)).value);
        if Openable(probe, storage.thumbnailSize, folder, disk.clock, ignoreCache, old(disk.fs)) then
          && OpenedAt(probe, storage.thumbnailSize, folder, disk.clock, ignoreCache, old(disk.fs), disk.fs, listing)
          && r == Ok(WithDirectoryUrl(listing, storage.baseUrl + path))
        else
          && r.Fail? && disk.fs == old(disk.fs)
          && OpenFailed(probe, storage.thumbnailSize, folder, disk.clock, ignoreCache, old(disk.fs), Throw(r.error))
    {
      var d := OpenFolder(path, ignoreCache);
      if d.Fail? {
        return Fail(d.error), Empty();
      }
      listing := d.value.files;
      var stamped := SetDirectoryUrl(d.value.files, storage.baseUrl + path);
      r := Ok(stamped);
    }

    /**
     * What `mkDir(path, newFolder)` does when the file system was `fs0`: it
     * throws the error of a path that is not a folder, or of a folder that
     * cannot be opened, with nothing changed; otherwise the folder is opened
     * (giving `fsOpen` and `listed`) and `LocalDirectory.mkDir` takes it to `fs`.
     */
    ghost predicate MadeFolder(path: string, newFolder: string, fs0: Fs, out: Outcome, fs: Fs, fsOpen: Fs, listed: OMap<File>)
      reads this, storage
    {
      var abs0 := AbsPathIn(fs0, path);
      if abs0.Fail? then out == Throw(abs0.error) && fs == fs0
      else
        var folder := FolderOf(abs0.value);
        if Openable(probe, storage.thumbnailSize, folder, disk.clock, false, fs0) then
          && OpenedAt(probe, storage.thumbnailSize, folder, disk.clock, false, fs0, fsOpen, listed)
          && var e := MkDirEffect(probe, storage.thumbnailSize, folder, disk.clock, fsOpen, listed, newFolder);
             out == e.0 && fs == e.1
        else fs == fs0 && OpenFailed(probe, storage.thumbnailSize, folder, disk.clock, false, fs0, out)
    }

    /** What `delete(path, names, flag0)` does, in the terms of `MadeFolder`, with `DeletedIn` once the folder is open. */
    ghost predicate Deleted(path: string, names: seq<string>, flag0: bool, fs0: Fs, out: Outcome, fs: Fs, flag: bool,
                            fsOpen: Fs, listed: OMap<File>)
      reads this, storage
    {
      var abs0 := AbsPathIn(fs0, path);
      if abs0.Fail? then out == Throw(abs0.error) && fs == fs0 && flag == flag0
      else
        var folder := FolderOf(abs0.value);
        if Openable(probe, storage.thumbnailSize, folder, disk.clock, false, fs0) then
          && OpenedAt(probe, storage.thumbnailSize, folder, disk.clock, false, fs0, fsOpen, listed)
          && DeletedIn(folder, fsOpen, listed, flag0, names, disk.clock, flag, out, fs)
        else
          && fs == fs0 && flag == flag0
          && OpenFailed(probe, storage.thumbnailSize, folder, disk.clock, false, fs0, out)
    }

    /** What `rename(path, oldName, newName, flag0)` does, in the terms of `MadeFolder`, with `RenameEffect` once the folder is open. */
    ghost predicate Renamed(path: string, oldName: string, newName: string, flag0: bool, fs0: Fs, out: Outcome, fs: Fs,
                            flag: bool, fsOpen: Fs, listed: OMap<File>)
      reads this, storage
    {
      var abs0 := AbsPathIn(fs0, path);
      if abs0.Fail? then out == Throw(abs0.error) && fs == fs0 && flag == flag0
      else
        var folder := FolderOf(abs0.value);
        if Openable(probe, storage.thumbnailSize, folder, disk.clock, false, fs0) then
          && OpenedAt(probe, storage.thumbnailSize, folder, disk.clock, false, fs0, fsOpen, listed)
          && var e := RenameEffect(probe, storage.thumbnailSize, folder, disk.clock, fsOpen, listed, oldName, newName, flag0);
             out == e.0 && fs == e.1 && flag == e.3
        else
          && fs == fs0 && flag == flag0
          && OpenFailed(probe, storage.thumbnailSize, folder, disk.clock, false, fs0, out)
    }

    /** `mkDir`: the folder is opened (its sidecar trusted) and `LocalDirectory.mkDir` does the rest. */
    method MkDir(path: string, newFolder: string) returns (out: Outcome, ghost fs1: Fs, ghost files1: OMap<File>)
      requires Valid()
      modifies disk
      ensures Valid()
      ensures MadeFolder(path, newFolder, old(disk.fs), out, disk.fs, fs1, files1)
    {
      var r := OpenFolder(path, false);
      if r.Fail? {
        return Throw(r.error), disk.fs, Empty();
      }
      var d := r.value;
      fs1, files1 := disk.fs, d.files;
      label open:
      out := d.MkDir(newFolder);
      StillValid@open();
    }

    /** `delete`: the folder is opened and `LocalDirectory.deleteFiles` removes the names. */
    method Delete(path: string, names: seq<string>, deletedFolder0: bool)
      returns (deletedFolder: bool, out: Outcome, ghost fs1: Fs, ghost files1: OMap<File>)
      requires Valid()
      modifies disk
      ensures Valid()
      ensures Deleted(path, names, deletedFolder0, old(disk.fs), out, disk.fs, deletedFolder, fs1, files1)
    {
      var r := OpenFolder(path, false);
      if r.Fail? {
        return deletedFolder0, Throw(r.error), disk.fs, Empty();
      }
      var d := r.value;
      fs1, files1 := disk.fs, d.files;
      label open:
      deletedFolder, out := d.DeleteFiles(names, deletedFolder0);
      StillValid@open();
    }

    /** `rename`: the folder is opened and `LocalDirectory.rename` renames the entry. */
    method Rename(path: string, oldName: string, newName: string, renamedFolder0: bool)
      returns (renamedFolder: bool, out: Outcome, ghost fs1: Fs, ghost files1: OMap<File>)
      requires Valid()
      modifies disk
      ensures Valid()
      ensures Renamed(path, oldName, newName, renamedFolder0, old(disk.fs), out, disk.fs, renamedFolder, fs1, files1)
    {
      var r := OpenFolder(path, false);
      if r.Fail? {
        return renamedFolder0, Throw(r.error), disk.fs, Empty();
      }
      var d := r.value;
      fs1, files1 := disk.fs, d.files;
      label open:
      renamedFolder, out := d.Rename(oldName, newName, renamedFolder0);
      StillValid@open();
    }

    /**
     * `upload`: each uploaded file is copied into the folder under its
     * (normalised) base name, as `UploadAll` describes; modes are not
     * modelled.
     */
    method Upload(path: string, uploads: seq<Upload>) returns (out: Outcome)
      requires Valid()
      modifies disk
      ensures Valid()
      ensures old(AbsPath(path)).Fail? ==> out == Throw(old(AbsPath(path)).error) && disk.fs == old(disk.fs)
      ensures old(AbsPath(path)).Ok? ==>
        (out, disk.fs) == UploadAll(probe, storage.normalizeNames, storage.overwriteFiles, disk.clock,
                                    old(AbsPath(path)).value, old(disk.fs), uploads, [])
    {
      var abs := AbsPath(path);
      if abs.Fail? {
        return Throw(abs.error);
      }
      out := UploadInto(abs.value, uploads, storage.normalizeNames, storage.overwriteFiles);
    }

    /** The loop of `upload` over the files that arrived, into the directory string `targetDir`. */
    method UploadInto(targetDir: string, uploads: seq<Upload>, normalize: bool, overwrite: bool) returns (out: Outcome)
      requires disk.Valid()
      modifies disk
      ensures disk.Valid()
      ensures (out, disk.fs) == UploadAll(probe, normalize, overwrite, disk.clock, targetDir, old(disk.fs), uploads, [])
    {
      var noOverwritten: seq<string> := [];
      var i := 0;
      assert uploads[i..] == uploads;
      while i < |uploads|
        invariant 0 <= i <= |uploads| && disk.Valid()
        invariant UploadAll(probe, normalize, overwrite, disk.clock, targetDir, old(disk.fs), uploads, [])
               == UploadAll(probe, normalize, overwrite, disk.clock, targetDir, disk.fs, uploads[i..], noOverwritten)
      {
        var u := uploads[i];
        assert uploads[i..] == [u] + uploads[i + 1..];
        if u.error != 0 {
          out := Throw(Error(StorageFailure, "upload " + Quote(u.name) + " failed"));
          assert UploadAll(probe, normalize, overwrite, disk.clock, targetDir, disk.fs, uploads[i..], noOverwritten) == (out, disk.fs);
          return;
        }
        noOverwritten := StoreUpload(targetDir, u, normalize, overwrite, noOverwritten, uploads[i + 1..]);
        i := i + 1;
      }
      assert uploads[i..] == [];
      if noOverwritten != [] {
        out := Throw(Error(StorageFailure, "files were not overwritten: " + Join(noOverwritten, ",")));
      } else {
        out := Pass;
      }
      assert UploadAll(probe, normalize, overwrite, disk.clock, targetDir, disk.fs, [], noOverwritten) == (out, disk.fs);
    }

    /** One pass of the loop in `upload` for a file that arrived: it is skipped, or copied into place. */
    method StoreUpload(targetDir: string, u: Upload, normalize: bool, overwrite: bool, skipped: seq<string>,
                       ghost rest: seq<Upload>) returns (skipped': seq<string>)
      requires disk.Valid() && u.error == 0
      modifies disk
      ensures disk.Valid()
      ensures UploadAll(probe, normalize, overwrite, disk.clock, targetDir, old(disk.fs), [u] + rest, skipped)
           == UploadAll(probe, normalize, overwrite, disk.clock, targetDir, disk.fs, rest, skipped')
    {
      assert ([u] + rest)[0] == u && ([u] + rest)[1..] == rest;
      var fileName := Basename(u.name);
      if normalize {
        fileName := NormalizeFileName(probe, fileName);
      }
      var target := targetDir + fileName;
      assert fileName == UploadName(probe, normalize, u);
      if !overwrite && disk.IsFile(target) {
        skipped' := skipped + [fileName];
      } else {
        var copied := disk.Copy(u.tmpName, target);
        assert disk.fs == CopyResult(old(disk.fs), disk.clock, u.tmpName, target);
        skipped' := skipped;
      }
    }

    /**
     * `getFolders`: the tree of every directory below the base directory.
     * An unset base directory makes the iterator throw.
     */
    method GetFolders() returns (r: Result<seq<Folder>>)
      requires Valid()
      ensures r.Ok? <==> disk.IsDir(baseDir)
      ensures r.Fail? ==> r.error.kind == ValueFailure || r.error.kind == RuntimeFailure
      ensures r.Ok? ==> FolderTree(disk.fs, baseDir, baseDir, r.value)
    {
      r := GetSubFolders(baseDir);
    }

    /** `getSubFolders`: every sub-directory of `dir`, each with its own sub-folders. */
    method GetSubFolders(dir: string) returns (r: Result<seq<Folder>>)
      requires disk.Valid()
      ensures r.Ok? <==> disk.IsDir(dir)
      ensures r.Fail? ==> r.error.kind == (if dir == "" then ValueFailure else RuntimeFailure)
      ensures r.Ok? ==> FolderTree(disk.fs, baseDir, dir, r.value)
      decreases MaxDepth + 1 - |Resolve(dir)|, 1
    {
      if dir == "" {
        return Fail(Error(ValueFailure, "DirectoryIterator::__construct(): Argument #1 ($directory) cannot be empty"));
      }
      if !disk.IsDir(dir) {
        return Fail(Error(RuntimeFailure, "DirectoryIterator::__construct(" + dir + "): Failed to open directory"));
      }
      var p := Resolve(dir);
      var result: seq<Folder> := [];
      var todo := ChildNames(disk.fs, p);
      ghost var done: set<string> := {};
      while todo != {}
        invariant todo !! done && todo + done == ChildNames(disk.fs, p)
        invariant Listed(disk.fs, baseDir, dir, done, result)
        decreases todo
      {
        var n :| n in todo;
        result := AddSubFolder(dir, n, done, result);
        todo := todo - {n};
        done := done + {n};
      }
      ListedAll(disk.fs, baseDir, dir, result);
      return Ok(result);
    }

    /** One entry of the iteration in `getSubFolders`: a directory is added with its sub-tree, anything else skipped. */
    method AddSubFolder(dir: string, n: string, ghost done: set<string>, items: seq<Folder>) returns (r: seq<Folder>)
      requires disk.Valid() && disk.IsDir(dir)
      requires n in ChildNames(disk.fs, Resolve(dir)) && n !in done
      requires Listed(disk.fs, baseDir, dir, done, items)
      ensures Listed(disk.fs, baseDir, dir, done + {n}, r)
      decreases MaxDepth + 1 - |Resolve(dir)|, 0
    {
      var p := Resolve(dir);
      ChildNamesIff(disk.fs, p, n);
      assert (p + [n])[|p|] == n;
      var pathname := IteratorPath(dir) + "/" + n;
      ResolveJoin(IteratorPath(dir), n);
      if disk.IsDir(pathname) {
        var sub := GetSubFolders(pathname);
        var item := Folder(n, RelativePath(baseDir, pathname), sub.value);
        ListedAdd(disk.fs, baseDir, dir, done, items, item);
        r := items + [item];
      } else {
        ListedSkip(disk.fs, baseDir, dir, done, items, n);
        r := items;
      }
    }

    /**
     * `copy`: every name is looked up as the source folder string followed
     * by the name; a directory is copied with `recursiveCopy`, a file with
     * `copy` (whose failure goes unnoticed), and anything else throws. The
     * target folder is then opened with its sidecar ignored, which rewrites
     * the sidecar.
     */
    method Copy(path: string, files: seq<string>, targetPath: string, copiedFolder0: bool)
      returns (copiedFolder: bool, out: Outcome, ghost fs1: Fs, ghost listing: OMap<File>)
      requires Valid()
      modifies disk
      ensures Valid()
      ensures old(AbsPath(path)).Fail? ==>
        out == Throw(old(AbsPath(path)).error) && disk.fs == old(disk.fs) && copiedFolder == copiedFolder0
      ensures old(AbsPath(path)).Ok? && old(AbsPath(targetPath)).Fail? ==>
        out == Throw(old(AbsPath(targetPath)).error) && disk.fs == old(disk.fs) && copiedFolder == copiedFolder0
      ensures old(AbsPath(path)).Ok? && old(AbsPath(targetPath)).Ok? ==>
        CopiedBetween(old(disk.fs), disk.fs, old(AbsPath(path)).value, old(AbsPath(targetPath)).value, files,
                      copiedFolder0, copiedFolder, out, probe, storage.thumbnailSize, disk.clock, fs1, listing)
    {
      copiedFolder := copiedFolder0;
      fs1, listing := disk.fs, Empty();
      var source := AbsPath(path);
      if source.Fail? {
        return copiedFolder, Throw(source.error), fs1, listing;
      }
      var target := AbsPath(targetPath);
      if target.Fail? {
        return copiedFolder, Throw(target.error), fs1, listing;
      }
      label pre:
      copiedFolder, out, fs1, listing := CopyBetween(source.value, target.value, files, copiedFolder0);
      StillValid@pre();
    }

    /** `copy` once both folders are found: the loop over the names, then the target reopened. */
    method CopyBetween(sourceDir: string, targetDir: string, files: seq<string>, copiedFolder0: bool)
      returns (copiedFolder: bool, out: Outcome, ghost fs1: Fs, ghost listing: OMap<File>)
      requires disk.Valid() && sourceDir != "" && disk.IsDir(targetDir)
      modifies disk
      ensures disk.Valid()
      ensures CopiedBetween(old(disk.fs), disk.fs, sourceDir, targetDir, files,
                            copiedFolder0, copiedFolder, out, probe, storage.thumbnailSize, disk.clock, fs1, listing)
    {
      ghost var at;
      copiedFolder, out, at := CopyItems(sourceDir, targetDir, files, copiedFolder0);
      ghost var cache := Resolve(FolderOf(targetDir) + CacheFile);
      ghost var roots := ItemPaths(targetDir, "/", files);
      if out.Throw? {
        assert roots[..|files|] == roots;
        SameOutsideAllWiden(old(disk.fs), disk.fs, roots, |files|, [cache]);
        if out.error.kind != RuntimeFailure {
          FailsForAt(out.error, "cannot copy ", files, at);
        }
        return copiedFolder, out, disk.fs, Empty();
      }
      fs1 := disk.fs;
      out, listing := Reopen(targetDir);
      SameOutsideAllStep(old(disk.fs), fs1, disk.fs, roots, cache);
    }

    /**
     * Why reopening the target folder at the end of `copy` and `move` throws:
     * the folder is gone (a runtime error), or one of its images cannot be
     * given a thumbnail.
     */
    ghost predicate ReopenFailed(targetDir: string, fs: Fs, out: Outcome)
      reads this, storage
    {
      var folder := FolderOf(targetDir);
      && out.Throw?
      && ((!IsDirAt(fs, Resolve(folder)) && out.error.kind == RuntimeFailure)
          || (IsDirAt(fs, Resolve(folder)) && OpenFailed(probe, storage.thumbnailSize, folder, 0, true, fs, out)))
    }

    /**
     * The end of `copy` and `move`: the target folder is opened with its
     * sidecar ignored, which lists it afresh and rewrites the sidecar, and
     * throws when the folder is no longer there.
     */
    method Reopen(targetDir: string) returns (out: Outcome, ghost listing: OMap<File>)
      requires disk.Valid()
      modifies disk
      ensures disk.Valid()
      ensures out.Pass? <==> old(disk.IsDir(FolderOf(targetDir)))
                             && Openable(probe, storage.thumbnailSize, FolderOf(targetDir), disk.clock, true, old(disk.fs))
      ensures out.Throw? ==> disk.fs == old(disk.fs) && ReopenFailed(targetDir, old(disk.fs), out)
      ensures Grown(old(disk.fs), disk.fs, Resolve(FolderOf(targetDir) + CacheFile))
      ensures out.Pass? ==>
        OpenedAt(probe, storage.thumbnailSize, FolderOf(targetDir), disk.clock, true, old(disk.fs), disk.fs, listing)
    {
      var r := OpenDirectory(disk, probe, targetDir, true, storage.thumbnailSize);
      if r.Fail? {
        return Throw(r.error), Empty();
      }
      listing := r.value.files;
      WithCacheGrown(old(disk.fs), Resolve(FolderOf(targetDir) + CacheFile), listing, disk.clock);
      out := Pass;
    }

    /** The loop of `copy` over the names, from the directory string `sourceDir` into `targetDir`. */
    method CopyItems(sourceDir: string, targetDir: string, files: seq<string>, copiedFolder0: bool)
      returns (copiedFolder: bool, out: Outcome, ghost at: nat)
      requires disk.Valid() && sourceDir != ""
      modifies disk
      ensures disk.Valid()
      ensures Keeps(old(disk.fs), disk.fs)
      ensures SameOutsideAll(old(disk.fs), disk.fs, ItemPaths(targetDir, "/", files))
      ensures copiedFolder0 ==> copiedFolder
      ensures out.Throw? && out.error.kind != RuntimeFailure ==>
        at < |files| && out.error == Error(StorageFailure, "cannot copy " + Quote(files[at]))
      ensures out.Pass? ==> DirsCopied(old(disk.fs), disk.fs, sourceDir, targetDir, files, |files|, copiedFolder)
      ensures out.Pass? ==>
        ItemsCopied(old(disk.fs), disk.fs, ItemPaths(sourceDir, "", files), ItemPaths(targetDir, "/", files), |files|)
    {
      copiedFolder, out, at := CopyEach(sourceDir, targetDir, files, copiedFolder0);
      if out.Pass? {
        CopyItemsDone(old(disk.fs), disk.fs, sourceDir, targetDir, files, copiedFolder);
      }
    }

    /** The loop of `copy` itself: the names in order until one throws, keeping `CopyLoop`. */
    method CopyEach(sourceDir: string, targetDir: string, files: seq<string>, copiedFolder0: bool)
      returns (copiedFolder: bool, out: Outcome, ghost at: nat)
      requires disk.Valid() && sourceDir != ""
      modifies disk
      ensures disk.Valid()
      ensures copiedFolder0 ==> copiedFolder
      ensures out.Pass? ==> CopyLoop(old(disk.fs), disk.fs, sourceDir, targetDir, files, |files|, copiedFolder)
      ensures out.Throw? ==> Keeps(old(disk.fs), disk.fs) && SameOutsideAll(old(disk.fs), disk.fs, ItemPaths(targetDir, "/", files))
      ensures out.Throw? && out.error.kind != RuntimeFailure ==>
        at < |files| && out.error == Error(StorageFailure, "cannot copy " + Quote(files[at]))
    {
      copiedFolder := copiedFolder0;
      CopyItemsStart(disk.fs, sourceDir, targetDir, files, copiedFolder);
      var i := 0;
      while i < |files|
        invariant 0 <= i <= |files| && disk.Valid()
        invariant CopyLoop(old(disk.fs), disk.fs, sourceDir, targetDir, files, i, copiedFolder)
        invariant copiedFolder0 ==> copiedFolder
      {
        var o, flag := CopyNext(sourceDir, targetDir, files, i, old(disk.fs), copiedFolder);
        if o.Throw? {
          return copiedFolder, o, i;
        }
        copiedFolder := flag;
        i := i + 1;
      }
      out, at := Pass, 0;
    }

    /** The name at `i` in the loop of `copy`, with what it adds to the loop's invariant. */
    method CopyNext(sourceDir: string, targetDir: string, files: seq<string>, i: nat, ghost fs0: Fs, flag: bool)
      returns (out: Outcome, flag': bool)
      requires disk.Valid() && sourceDir != "" && i < |files|
      requires CopyLoop(fs0, disk.fs, sourceDir, targetDir, files, i, flag)
      modifies disk
      ensures disk.Valid()
      ensures flag ==> flag'
      ensures out.Pass? ==> CopyLoop(fs0, disk.fs, sourceDir, targetDir, files, i + 1, flag')
      ensures out.Throw? ==> Keeps(fs0, disk.fs) && SameOutsideAll(fs0, disk.fs, ItemPaths(targetDir, "/", files))
      ensures out.Throw? && out.error.kind != RuntimeFailure ==>
        out.error == Error(StorageFailure, "cannot copy " + Quote(files[i]))
    {
      ghost var b := disk.fs;
      var wasDir;
      out, wasDir := CopyItem(sourceDir, targetDir, files[i]);
      flag' := flag || wasDir;
      CopyBookkeeping(fs0, b, disk.fs, sourceDir, targetDir, files, i, flag, wasDir, out.Pass?);
      if out.Pass? {
        CopyNameDone(fs0, b, disk.fs, sourceDir, targetDir, files, i);
      }
    }

    /** One name in `copy`: its source is the folder string and the name with no separator. */
    method CopyItem(sourceDir: string, targetDir: string, file: string) returns (out: Outcome, wasDir: bool)
      requires disk.Valid() && sourceDir != ""
      modifies disk
      ensures disk.Valid()
      ensures Grown(old(disk.fs), disk.fs, Resolve(targetDir + "/" + file))
      ensures wasDir == old(disk.IsDir(sourceDir + file))
      ensures out.Throw? ==>
        out.error.kind == RuntimeFailure || out.error == Error(StorageFailure, "cannot copy " + Quote(file))
      ensures wasDir ==>
        && (out.Throw? ==> out.error.kind == RuntimeFailure)
        && (out.Pass? ==> IsDirAt(disk.fs, Resolve(targetDir + "/" + file)))
        && (out.Pass? && Disjoint(Resolve(sourceDir + file), Resolve(targetDir + "/" + file)) ==>
              Copied(old(disk.fs), disk.fs, Resolve(sourceDir + file), Resolve(targetDir + "/" + file)))
      ensures !wasDir && old(disk.IsFile(sourceDir + file)) ==>
        out == Pass && disk.fs == CopyResult(old(disk.fs), disk.clock, sourceDir + file, targetDir + "/" + file)
      ensures out.Pass? ==> ItemCopied(old(disk.fs), disk.fs, Resolve(sourceDir + file), Resolve(targetDir + "/" + file))
      ensures !wasDir && !old(disk.IsFile(sourceDir + file)) ==>
        out == Throw(Error(StorageFailure, "cannot copy " + Quote(file))) && disk.fs == old(disk.fs)
    {
      var sourceFullPath := sourceDir + file;
      wasDir := disk.IsDir(sourceFullPath);
      if wasDir {
        out := RecursiveCopy(sourceFullPath, targetDir + "/" + file);
      } else if disk.IsFile(sourceFullPath) {
        var copied := disk.Copy(sourceFullPath, targetDir + "/" + file);
        assert disk.fs == CopyResult(old(disk.fs), disk.clock, sourceFullPath, targetDir + "/" + file);
        CopyResultGrown(old(disk.fs), disk.clock, sourceFullPath, targetDir + "/" + file);
        out := Pass;
      } else {
        out := Throw(Error(StorageFailure, "cannot copy " + Quote(file)));
      }
    }

    /**
     * `recursiveCopy`: the target directory is created when missing; then
     * every file of the source is copied into it and every sub-directory
     * copied in turn. A failed `copy` goes unnoticed; a target that cannot
     * be created throws. When source and target lie apart, the target ends
     * up a copy of the source tree as `Copied` describes.
     */
    method RecursiveCopy(source: string, target: string) returns (out: Outcome)
      requires disk.Valid() && disk.IsDir(source)
      modifies disk
      ensures disk.Valid()
      ensures Grown(old(disk.fs), disk.fs, Resolve(target))
      ensures out.Throw? ==> out.error.kind == RuntimeFailure
      ensures !old(disk.IsDir(target)) && !(target != "" && CanMkdir(old(disk.fs), Resolve(target))) ==>
        out == Throw(Error(RuntimeFailure, "Directory " + Quote(target) + " was not created")) && disk.fs == old(disk.fs)
      ensures out.Pass? ==> IsDirAt(disk.fs, Resolve(target))
      ensures out.Pass? && Disjoint(Resolve(source), Resolve(target)) ==>
        Copied(old(disk.fs), disk.fs, Resolve(source), Resolve(target))
      decreases MaxDepth + 1 - |Resolve(target)|, 3
    {
      ghost var a := disk.fs;
      var ready := MakeTarget(target);
      if !ready {
        return Throw(Error(RuntimeFailure, "Directory " + Quote(target) + " was not created"));
      }
      ghost var m0 := disk.fs;
      out := CopyChildren(source, target, a);
      GrownTrans(a, m0, disk.fs, Resolve(target), Resolve(target));
    }

    /** The guard of `recursiveCopy` and `recursiveMove`: the target is a directory, or one is created there. */
    method MakeTarget(target: string) returns (ready: bool)
      requires disk.Valid()
      modifies disk
      ensures disk.Valid()
      ensures ready <==> old(disk.IsDir(target)) || (target != "" && CanMkdir(old(disk.fs), Resolve(target)))
      ensures ready ==> IsDirAt(disk.fs, Resolve(target)) && OnlyAt(old(disk.fs), disk.fs, Resolve(target))
      ensures ready ==> Grown(old(disk.fs), disk.fs, Resolve(target))
      ensures !ready ==> disk.fs == old(disk.fs)
    {
      ready := true;
      if !disk.IsDir(target) {
        var made := disk.Mkdir(target);
        if !made && !disk.IsDir(target) {
          ready := false;
        }
      }
      SameOutsideWiden(old(disk.fs), disk.fs, Resolve(target), Resolve(target));
    }

    /** The iteration of `recursiveCopy` over the source, once the target directory `t` is there. */
    method CopyChildren(source: string, target: string, ghost a: Fs) returns (out: Outcome)
      requires disk.Valid() && disk.IsDir(source) && IsDirAt(disk.fs, Resolve(target))
      requires OnlyAt(a, disk.fs, Resolve(target))
      modifies disk
      ensures disk.Valid()
      ensures Grown(old(disk.fs), disk.fs, Resolve(target))
      ensures out.Throw? ==> out.error.kind == RuntimeFailure
      ensures out.Pass? ==> IsDirAt(disk.fs, Resolve(target))
      ensures out.Pass? && Disjoint(Resolve(source), Resolve(target)) ==>
        Copied(a, disk.fs, Resolve(source), Resolve(target))
      decreases MaxDepth + 1 - |Resolve(target)|, 2
    {
      ghost var t := Resolve(target);
      ghost var m0 := disk.fs;
      var s := Resolve(source);
      var todo := ChildNames(disk.fs, s);
      ghost var all := todo;
      ghost var done: set<string> := {};
      Unchanged(m0, t);
      while todo != {}
        invariant disk.Valid() && todo !! done && todo + done == all
        invariant CopyProgress(a, m0, disk.fs, s, t, done)
        decreases todo
      {
        var n :| n in todo;
        var o := CopyChild(source, target, n, a, m0, done);
        if o.Throw? {
          return o;
        }
        todo := todo - {n};
        done := done + {n};
      }
      CopyProgressDone(a, m0, disk.fs, s, t, done);
      out := Pass;
    }

    /** One pass of the iteration in `recursiveCopy`, over the entry `n` of the snapshot `m0` taken when it began. */
    method CopyChild(source: string, target: string, n: string, ghost a: Fs, ghost m0: Fs, ghost done: set<string>)
      returns (out: Outcome)
      requires disk.Valid() && source != "" && WellFormed(m0) && IsDirAt(m0, Resolve(target))
      requires n in ChildNames(m0, Resolve(source)) && n !in done
      requires OnlyAt(a, m0, Resolve(target))
      requires CopyProgress(a, m0, disk.fs, Resolve(source), Resolve(target), done)
      modifies disk
      ensures disk.Valid() && IsDirAt(disk.fs, Resolve(target))
      ensures Grown(m0, disk.fs, Resolve(target))
      ensures out.Throw? ==> out.error.kind == RuntimeFailure
      ensures out.Pass? ==> CopyProgress(a, m0, disk.fs, Resolve(source), Resolve(target), done + {n})
      decreases MaxDepth + 1 - |Resolve(target)|, 1
    {
      ghost var s, t := Resolve(source), Resolve(target);
      ghost var b := disk.fs;
      assert AllProper(s + [n]) && (s + [n])[|s|] == n;
      out := CopyEntry(source, target, n);
      CopyFrameStep(m0, b, disk.fs, t, n, done);
      if out.Pass? && Disjoint(s, t) {
        CopyStep(a, m0, b, disk.fs, s, t, n, done);
      }
    }

    /** One entry of the iteration in `recursiveCopy`: a file is copied, a directory copied in turn. */
    method CopyEntry(source: string, target: string, n: string) returns (out: Outcome)
      requires disk.Valid() && source != "" && IsDirAt(disk.fs, Resolve(target)) && ProperName(n)
      modifies disk
      ensures disk.Valid()
      ensures Grown(old(disk.fs), disk.fs, Resolve(target) + [n])
      ensures out.Throw? ==> out.error.kind == RuntimeFailure
      ensures out.Pass? && Disjoint(Resolve(source), Resolve(target)) ==>
        ChildCopied(old(disk.fs), disk.fs, Resolve(source), Resolve(target), n)
      decreases MaxDepth + 1 - |Resolve(target)|, 0
    {
      var s := Resolve(source);
      ghost var t := Resolve(target);
      var pathname := IteratorPath(source) + "/" + n;
      ResolveJoin(IteratorPath(source), n);
      assert AllProper(s + [n]);
      var realPath := PathString(s + [n]);
      ResolvePathString(s + [n]);
      var targetPath := target + "/" + n;
      ResolveJoin(target, n);
      if Disjoint(s, t) {
        DisjointChildren(s, t, n, n);
      }
      out := Pass;
      if disk.IsFile(pathname) {
        var copied := disk.Copy(realPath, targetPath);
        assert disk.fs == CopyResult(old(disk.fs), disk.clock, realPath, targetPath);
        CopyResultGrown(old(disk.fs), disk.clock, realPath, targetPath);
      } else if disk.IsDir(pathname) {
        out := RecursiveCopy(realPath, targetPath);
      }
    }

    /**
     * `move`: every name is looked up as the source folder string followed
     * by the name; a directory is moved with `recursiveMove`, a file with
     * `rename` (whose failure goes unnoticed), and anything else throws. The
     * target folder is then opened with its sidecar ignored, which rewrites
     * the sidecar.
     */
    method Move(path: string, files: seq<string>, targetPath: string, movedFolder0: bool)
      returns (movedFolder: bool, out: Outcome, ghost fs1: Fs, ghost listing: OMap<File>)
      requires Valid()
      modifies disk
      ensures Valid()
      ensures old(AbsPath(path)).Fail? ==>
        out == Throw(old(AbsPath(path)).error) && disk.fs == old(disk.fs) && movedFolder == movedFolder0
      ensures old(AbsPath(path)).Ok? && old(AbsPath(targetPath)).Fail? ==>
        out == Throw(old(AbsPath(targetPath)).error) && disk.fs == old(disk.fs) && movedFolder == movedFolder0
      ensures old(AbsPath(path)).Ok? && old(AbsPath(targetPath)).Ok? ==>
        MovedBetween(old(disk.fs), disk.fs, old(AbsPath(path)).value, old(AbsPath(targetPath)).value, files,
                     movedFolder0, movedFolder, out, probe, storage.thumbnailSize, disk.clock, fs1, listing)
    {
      movedFolder := movedFolder0;
      fs1, listing := disk.fs, Empty();
      var source := AbsPath(path);
      if source.Fail? {
        return movedFolder, Throw(source.error), fs1, listing;
      }
      var target := AbsPath(targetPath);
      if target.Fail? {
        return movedFolder, Throw(target.error), fs1, listing;
      }
      label pre:
      movedFolder, out, fs1, listing := MoveBetween(source.value, target.value, files, movedFolder0);
      StillValid@pre();
    }

    /** `move` once both folders are found: the loop over the names, then the target reopened. */
    method MoveBetween(sourceDir: string, targetDir: string, files: seq<string>, movedFolder0: bool)
      returns (movedFolder: bool, out: Outcome, ghost fs1: Fs, ghost listing: OMap<File>)
      requires disk.Valid() && sourceDir != ""
      modifies disk
      ensures disk.Valid()
      ensures MovedBetween(old(disk.fs), disk.fs, sourceDir, targetDir, files,
                           movedFolder0, movedFolder, out, probe, storage.thumbnailSize, disk.clock, fs1, listing)
    {
      ghost var at;
      movedFolder, out, at := MoveItems(sourceDir, targetDir, files, movedFolder0);
      ghost var cache := Resolve(FolderOf(targetDir) + CacheFile);
      ghost var roots := ItemPaths(sourceDir, "", files) + ItemPaths(targetDir, "/", files);
      if out.Throw? {
        forall k | 0 <= k < |roots| ensures roots[k] in roots + [cache] {
          assert (roots + [cache])[k] == roots[k];
        }
        SameOutsideAllMore(old(disk.fs), disk.fs, roots, roots + [cache]);
        if out.error.kind != RuntimeFailure {
          FailsForAt(out.error, "cannot move ", files, at);
        }
        return movedFolder, out, disk.fs, Empty();
      }
      fs1 := disk.fs;
      out, listing := Reopen(targetDir);
      SameOutsideAllStep(old(disk.fs), fs1, disk.fs, roots, cache);
    }

    /** The loop of `move` over the names, from the directory string `sourceDir` into `targetDir`. */
    method MoveItems(sourceDir: string, targetDir: string, files: seq<string>, movedFolder0: bool)
      returns (movedFolder: bool, out: Outcome, ghost at: nat)
      requires disk.Valid() && sourceDir != ""
      modifies disk
      ensures disk.Valid()
      ensures SameOutsideAll(old(disk.fs), disk.fs, ItemPaths(sourceDir, "", files) + ItemPaths(targetDir, "/", files))
      ensures movedFolder0 ==> movedFolder
      ensures out.Throw? && out.error.kind != RuntimeFailure ==>
        at < |files| && out.error == Error(StorageFailure, "cannot move " + Quote(files[at]))
      ensures out.Pass? ==>
        ItemsMoved(old(disk.fs), disk.fs, ItemPaths(sourceDir, "", files), ItemPaths(targetDir, "/", files), |files|,
                   movedFolder)
    {
      movedFolder := movedFolder0;
      MoveItemsStart(disk.fs, sourceDir, targetDir, files, movedFolder);
      var i := 0;
      while i < |files|
        invariant 0 <= i <= |files| && disk.Valid()
        invariant MoveLoop(old(disk.fs), disk.fs, sourceDir, targetDir, files, i, movedFolder)
        invariant movedFolder0 ==> movedFolder
      {
        var o, flag := MoveNext(sourceDir, targetDir, files, i, old(disk.fs), movedFolder);
        if o.Throw? {
          return movedFolder, o, i;
        }
        movedFolder := flag;
        i := i + 1;
      }
      MoveItemsDone(old(disk.fs), disk.fs, sourceDir, targetDir, files, movedFolder);
      out, at := Pass, 0;
    }

    /** The name at `i` in the loop of `move`, with what it adds to the loop's frame. */
    method MoveNext(sourceDir: string, targetDir: string, files: seq<string>, i: nat, ghost fs0: Fs, flag: bool)
      returns (out: Outcome, flag': bool)
      requires disk.Valid() && sourceDir != "" && i < |files|
      requires MoveLoop(fs0, disk.fs, sourceDir, targetDir, files, i, flag)
      modifies disk
      ensures disk.Valid()
      ensures flag ==> flag'
      ensures out.Pass? ==> MoveLoop(fs0, disk.fs, sourceDir, targetDir, files, i + 1, flag')
      ensures out.Throw? ==> SameOutsideAll(fs0, disk.fs, ItemPaths(sourceDir, "", files) + ItemPaths(targetDir, "/", files))
      ensures out.Throw? && out.error.kind != RuntimeFailure ==>
        out.error == Error(StorageFailure, "cannot move " + Quote(files[i]))
    {
      ghost var b := disk.fs;
      var wasDir;
      out, wasDir := MoveItem(sourceDir, targetDir, files[i]);
      flag' := flag || wasDir;
      MoveBookkeeping(fs0, b, disk.fs, sourceDir, targetDir, files, i);
      if out.Pass? {
        MoveNameDone(fs0, b, disk.fs, sourceDir, targetDir, files, i, flag, wasDir);
      }
    }

    /** One name in `move`: its source is the folder string and the name with no separator. */
    method MoveItem(sourceDir: string, targetDir: string, file: string) returns (out: Outcome, wasDir: bool)
      requires disk.Valid() && sourceDir != ""
      modifies disk
      ensures disk.Valid()
      ensures Touched(old(disk.fs), disk.fs, Resolve(sourceDir + file), Resolve(targetDir + "/" + file))
      ensures wasDir == old(disk.IsDir(sourceDir + file))
      ensures out.Throw? ==>
        out.error.kind == RuntimeFailure || out.error == Error(StorageFailure, "cannot move " + Quote(file))
      ensures wasDir ==>
        && (out.Throw? ==> out.error.kind == RuntimeFailure)
        && (out.Pass? && Disjoint(Resolve(sourceDir + file), Resolve(targetDir + "/" + file)) ==>
              Moved(old(disk.fs), disk.fs, Resolve(sourceDir + file), Resolve(targetDir + "/" + file)))
      ensures !wasDir && old(disk.IsFile(sourceDir + file)) ==>
        out == Pass && disk.fs == RenameResult(old(disk.fs), sourceDir + file, targetDir + "/" + file)
      ensures out.Pass? ==> ItemMoved(old(disk.fs), disk.fs, Resolve(sourceDir + file), Resolve(targetDir + "/" + file))
      ensures !wasDir && !old(disk.IsFile(sourceDir + file)) ==>
        out == Throw(Error(StorageFailure, "cannot move " + Quote(file))) && disk.fs == old(disk.fs)
    {
      var sourceFullPath := sourceDir + file;
      wasDir := disk.IsDir(sourceFullPath);
      if wasDir {
        out := RecursiveMove(sourceFullPath, targetDir + "/" + file);
      } else if disk.IsFile(sourceFullPath) {
        var moved := disk.Rename(sourceFullPath, targetDir + "/" + file);
        RenameTouched(old(disk.fs), Resolve(sourceFullPath), Resolve(targetDir + "/" + file));
        ghost var from, to := Resolve(sourceFullPath), Resolve(targetDir + "/" + file);
        if moved && from != to {
          MoveTreeVacates(old(disk.fs), from, to);
          assert from + [] == from && to + [] == to;
          MoveTreeAt(old(disk.fs), from, to, []);
        }
        out := Pass;
      } else {
        out := Throw(Error(StorageFailure, "cannot move " + Quote(file)));
      }
    }

    /**
     * `recursiveMove`: the target directory is created when missing; then
     * every file of the source is renamed into it and every sub-directory
     * moved in turn, and the source directory is removed, which fails
     * unnoticed when something is left in it. A failed `rename` goes
     * unnoticed; a target that cannot be created throws. When source and
     * target lie apart, the tree ends up moved as `Moved` describes.
     */
    method RecursiveMove(source: string, target: string) returns (out: Outcome)
      requires disk.Valid() && disk.IsDir(source)
      modifies disk
      ensures disk.Valid()
      ensures Touched(old(disk.fs), disk.fs, Resolve(source), Resolve(target))
      ensures out.Throw? ==> out.error.kind == RuntimeFailure
      ensures !old(disk.IsDir(target)) && !(target != "" && CanMkdir(old(disk.fs), Resolve(target))) ==>
        out == Throw(Error(RuntimeFailure, "Directory " + Quote(target) + " was not created")) && disk.fs == old(disk.fs)
      ensures out.Pass? && Disjoint(Resolve(source), Resolve(target)) ==>
        Moved(old(disk.fs), disk.fs, Resolve(source), Resolve(target))
      decreases MaxDepth + 1 - |Resolve(target)|, 3
    {
      ghost var a := disk.fs;
      var ready := MakeTarget(target);
      if !ready {
        return Throw(Error(RuntimeFailure, "Directory " + Quote(target) + " was not created"));
      }
      out := MoveChildren(source, target, a);
    }

    /** The iteration of `recursiveMove` over the source, once the target directory is there, and the removal of the source. */
    method MoveChildren(source: string, target: string, ghost a: Fs) returns (out: Outcome)
      requires disk.Valid() && disk.IsDir(source) && IsDirAt(disk.fs, Resolve(target))
      requires OnlyAt(a, disk.fs, Resolve(target))
      modifies disk
      ensures disk.Valid()
      ensures Touched(a, disk.fs, Resolve(source), Resolve(target))
      ensures out.Throw? ==> out.error.kind == RuntimeFailure
      ensures out.Pass? && Disjoint(Resolve(source), Resolve(target)) ==>
        Moved(a, disk.fs, Resolve(source), Resolve(target))
      decreases MaxDepth + 1 - |Resolve(target)|, 2
    {
      ghost var t := Resolve(target);
      ghost var m0 := disk.fs;
      var s := Resolve(source);
      var todo := ChildNames(disk.fs, s);
      ghost var all := todo;
      ghost var done: set<string> := {};
      while todo != {}
        invariant disk.Valid() && todo !! done && todo + done == all && all == ChildNames(m0, s)
        invariant MoveProgress(a, m0, disk.fs, s, t, done)
        decreases todo
      {
        var n :| n in todo;
        var o := MoveChild(source, target, n, a, m0, done);
        if o.Throw? {
          TargetTouched(a, m0, disk.fs, s, t);
          return o;
        }
        todo := todo - {n};
        done := done + {n};
      }
      ghost var b := disk.fs;
      var removed := disk.Rmdir(source);
      RmdirTouched(m0, b, disk.fs, s, t);
      TargetTouched(a, m0, disk.fs, s, t);
      if Disjoint(s, t) {
        MovedAll(a, m0, b, disk.fs, s, t);
      }
      out := Pass;
    }

    /** One pass of the iteration in `recursiveMove`, over the entry `n` of the snapshot `m0` taken when it began. */
    method MoveChild(source: string, target: string, n: string, ghost a: Fs, ghost m0: Fs, ghost done: set<string>)
      returns (out: Outcome)
      requires disk.Valid() && source != "" && WellFormed(m0) && |Resolve(target)| <= MaxDepth
      requires n in ChildNames(m0, Resolve(source)) && n !in done
      requires OnlyAt(a, m0, Resolve(target))
      requires MoveProgress(a, m0, disk.fs, Resolve(source), Resolve(target), done)
      modifies disk
      ensures disk.Valid()
      ensures Touched(m0, disk.fs, Resolve(source), Resolve(target))
      ensures out.Throw? ==> out.error.kind == RuntimeFailure
      ensures out.Pass? ==> MoveProgress(a, m0, disk.fs, Resolve(source), Resolve(target), done + {n})
      decreases MaxDepth + 1 - |Resolve(target)|, 1
    {
      ghost var s, t := Resolve(source), Resolve(target);
      ghost var b := disk.fs;
      assert AllProper(s + [n]) && (s + [n])[|s|] == n;
      out := MoveEntry(source, target, n);
      TouchedStep(m0, b, disk.fs, s, t, n);
      if Disjoint(s, t) {
        MoveFrameStep(m0, b, disk.fs, s, t, n, done);
        if out.Pass? {
          MoveStep(a, m0, b, disk.fs, s, t, n, done);
        }
      }
    }

    /** One entry of the iteration in `recursiveMove`: a file is renamed, a directory moved in turn. */
    method MoveEntry(source: string, target: string, n: string) returns (out: Outcome)
      requires disk.Valid() && source != "" && ProperName(n) && |Resolve(target)| <= MaxDepth
      requires Disjoint(Resolve(source), Resolve(target)) ==> IsDirAt(disk.fs, Resolve(target))
      modifies disk
      ensures disk.Valid()
      ensures Touched(old(disk.fs), disk.fs, Resolve(source) + [n], Resolve(target) + [n])
      ensures out.Throw? ==> out.error.kind == RuntimeFailure
      ensures out.Pass? && Disjoint(Resolve(source), Resolve(target)) ==>
        ChildMoved(old(disk.fs), disk.fs, Resolve(source), Resolve(target), n)
      decreases MaxDepth + 1 - |Resolve(target)|, 0
    {
      var s := Resolve(source);
      ghost var t := Resolve(target);
      var pathname := IteratorPath(source) + "/" + n;
      ResolveJoin(IteratorPath(source), n);
      assert AllProper(s + [n]);
      var realPath := PathString(s + [n]);
      ResolvePathString(s + [n]);
      var targetPath := target + "/" + n;
      ResolveJoin(target, n);
      if Disjoint(s, t) {
        DisjointChildren(s, t, n, n);
      }
      out := Pass;
      if disk.IsFile(pathname) {
        var moved := disk.Rename(realPath, targetPath);
        RenameTouched(old(disk.fs), s + [n], t + [n]);
        if Disjoint(s, t) && |t| < MaxDepth && !IsDirAt(old(disk.fs), t + [n]) {
          RenameFileMoved(old(disk.fs), s, t, n);
        }
      } else if disk.IsDir(pathname) {
        out := RecursiveMove(realPath, targetPath);
      }
    }
  }
}
