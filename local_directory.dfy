/**
 * One folder of a local storage (src/Local/LocalDirectory.php): the listing
 * of its entries, read from the file system or from the `.htdircache`
 * sidecar file, and the operations that change the folder and then rewrite
 * the sidecar.
 */
module LocalDirectory {
  import opened Outcomes
  import opened PhpStrings
  import opened Paths
  import opened Entries
  import opened Disk
  import opened Platform
  import opened Thumbnail
  import opened OrderedMaps

  /** The sidecar file each listed folder carries. */
  const CacheFile: string := ".htdircache"

  /** Seconds for which a sidecar is trusted. */
  const CacheLifetime: int := 7200

  /** The bytes a file holds; a sidecar holds its listing as JSON text. */
  function Bytes(probe: Probe, c: Content): seq<bv8> {
    match c
    case Raw(b) => b
    case Records(rs) => probe.json(rs)
  }

  /**
   * The entry `loadFile` builds for the node at `p`, reported under `name`,
   * or the error of the thumbnail code. The check meant to skip directories
   * compares an object with a string and so never holds: a directory's
   * content type is looked up as well, and as it is "directory" a directory
   * is never an image.
   */
  function EntryFor(probe: Probe, maxSize: int, name: string, p: Path, node: Node): (r: Result<File>)
    ensures r.Ok? ==> r.value.Initialised() && r.value.directoryUrl == "" && r.value.name == name
    ensures node.DirNode? ==> r.Ok?
  {
    var bytes := if node.FileNode? then Bytes(probe, node.content) else [];
    var contentType := if node.DirNode? then DirectoryMime else probe.mimeType(bytes);
    assert DirectoryMime[..5] != "image" by { assert DirectoryMime[0] != "image"[0]; }
    var isImage := StartsWith(contentType, "image");
    var size := if isImage then probe.imageSize(bytes) else None;
    var thumbnail := if isImage then ThumbnailFromFile(probe, PathString(p), bytes, maxSize) else Ok("");
    if thumbnail.Fail? then Fail(thumbnail.error)
    else
      Ok(File(
        name,
        if node.DirNode? then TypeDir else TypeFile,
        if node.DirNode? then probe.dirSize else |bytes|,
        probe.isoTime(node.mtime),
        if size.Some? then Val(size.value.0) else Null,
        if size.Some? then Val(size.value.1) else Null,
        if isImage then Val(thumbnail.value) else Null,
        ""))
  }

  /**
   * What an entry reports: its type, its size (the length of a file, the
   * platform's size of a directory), its time, and for images only the
   * dimensions `getimagesize` finds and a thumbnail of the file; reading it
   * in throws exactly when the file is an image whose thumbnail code throws.
   */
  lemma EntryDescribesNode(probe: Probe, maxSize: int, name: string, p: Path, node: Node)
    ensures var r := EntryFor(probe, maxSize, name, p, node);
      var bytes := if node.FileNode? then Bytes(probe, node.content) else [];
      && (r.Fail? <==> node.FileNode? && StartsWith(probe.mimeType(bytes), "image")
                       && ThumbnailFromFile(probe, PathString(p), bytes, maxSize).Fail?)
      && (r.Fail? ==> r.error == ThumbnailFromFile(probe, PathString(p), bytes, maxSize).error)
    ensures EntryFor(probe, maxSize, name, p, node).Ok? ==>
      var f := EntryFor(probe, maxSize, name, p, node).value;
      var bytes := if node.FileNode? then Bytes(probe, node.content) else [];
      && f.kind == (if node.DirNode? then TypeDir else TypeFile)
      && f.modified == probe.isoTime(node.mtime)
      && (node.DirNode? ==> f.size == probe.dirSize && f.width.Null? && f.height.Null? && f.thumbnail.Null?)
      && (node.FileNode? ==> f.size == |bytes|)
      && (f.thumbnail.Val? <==> node.FileNode? && StartsWith(probe.mimeType(bytes), "image"))
      && (f.width.Val? <==> f.thumbnail.Val? && probe.imageSize(bytes).Some?)
      && (f.width.Val? ==> f.height.Val? && (f.width.v, f.height.v) == probe.imageSize(bytes).value)
      && (f.thumbnail.Val? ==> f.thumbnail.v == ThumbnailFromFile(probe, PathString(p), bytes, maxSize).value)
  {
    assert DirectoryMime[..5] != "image" by { assert DirectoryMime[0] != "image"[0]; }
  }

  /** Every entry has the name it is listed under, all its getters may be called, and no URL is set yet. */
  predicate Consistent(m: map<string, File>) {
    forall k :: k in m ==> m[k].name == k && m[k].Initialised() && m[k].directoryUrl == ""
  }

  /** Every entry of folder `dir` but the sidecar can be read in: no image there makes the thumbnail code throw. */
  predicate Listable(probe: Probe, maxSize: int, fs: Fs, dir: Path) {
    forall n :: n in ChildNames(fs, dir) && n != CacheFile ==> EntryFor(probe, maxSize, n, dir + [n], fs[dir + [n]]).Ok?
  }

  /** `loadFiles` in folder `dir` can throw `e`: the error of reading in one of its entries. */
  ghost predicate FailsToList(probe: Probe, maxSize: int, fs: Fs, dir: Path, e: Error) {
    exists n :: n in ChildNames(fs, dir) && n != CacheFile && EntryFor(probe, maxSize, n, dir + [n], fs[dir + [n]]) == Fail(e)
  }

  /** The listing `loadFiles` builds for folder `dir`: every entry but the sidecar, by name. */
  function Scan(probe: Probe, maxSize: int, fs: Fs, dir: Path): (m: map<string, File>)
    requires Listable(probe, maxSize, fs, dir)
    ensures Consistent(m)
    ensures forall n :: n in m <==> dir + [n] in fs && n != CacheFile
    ensures forall n :: n in m ==> EntryFor(probe, maxSize, n, dir + [n], fs[dir + [n]]) == Ok(m[n])
  {
    map n | n in ChildNames(fs, dir) - {CacheFile} :: EntryFor(probe, maxSize, n, dir + [n], fs[dir + [n]]).value
  }

  // ---------------------------------------------------------------------------
  // The sidecar: a listing sorted by name (`ksort`), read back in that order.

  predicate StrictlySorted(s: seq<string>) {
    forall i, j :: 0 <= i < j < |s| ==> Less(s[i], s[j])
  }

  lemma SortedDistinct(s: seq<string>)
    requires StrictlySorted(s)
    ensures Distinct(s)
  {
    forall i, j | 0 <= i < j < |s| ensures s[i] != s[j] {
      LessIrreflexive(s[i]);
    }
  }

  /** `x` put in its place in a sorted sequence. */
  function Insert(s: seq<string>, x: string): (r: seq<string>)
    requires StrictlySorted(s) && x !in s
    ensures StrictlySorted(r) && |r| == |s| + 1
    ensures forall y :: y in r <==> y in s || y == x
  {
    if s == [] then [x]
    else if Less(x, s[0]) then
      assert StrictlySorted([x] + s) by {
        forall j | 1 <= j < |s| {
          LessTransitive(x, s[0], s[j]);
        }
      }
      [x] + s
    else
      LessTotal(x, s[0]);
      var t := Insert(s[1..], x);
      assert forall y :: y in t ==> Less(s[0], y);
      [s[0]] + t
  }

  /** `ksort` on distinct string keys: the keys in increasing order. */
  function SortNames(keys: seq<string>): (r: seq<string>)
    requires Distinct(keys)
    ensures StrictlySorted(r) && |r| == |keys|
    ensures forall y :: y in r <==> y in keys
  {
    if keys == [] then []
    else
      var init := keys[..|keys| - 1];
      assert forall y :: y in init ==> y != keys[|keys| - 1];
      Insert(SortNames(init), keys[|keys| - 1])
  }

  /** A set has exactly one strictly increasing enumeration. */
  lemma {:induction false} SortedUnique(a: seq<string>, b: seq<string>)
    requires StrictlySorted(a) && StrictlySorted(b)
    requires forall y :: y in a <==> y in b
    ensures a == b
    decreases |a|
  {
    if a != [] {
      assert a[0] in a;
    }
    if b != [] {
      assert b[0] in b;
    }
    if a != [] && b != [] {
      assert b[0] in a;
      var j :| 0 <= j < |a| && a[j] == b[0];
      assert a[0] in b;
      var i :| 0 <= i < |b| && b[i] == a[0];
      if i != 0 && j != 0 {
        LessAsymmetric(a[0], b[0]);
        assert false;
      }
      assert a[0] == b[0];
      forall y ensures y in a[1..] <==> y in b[1..] {
        LessIrreflexive(a[0]);
        if y in a[1..] {
          var k :| 1 <= k < |a| && a[k] == y;
          assert y in b;
          var l :| 0 <= l < |b| && b[l] == y;
          assert l != 0;
          assert b[1..][l - 1] == y;
        }
        if y in b[1..] {
          var k :| 1 <= k < |b| && b[k] == y;
          assert y in a;
          var l :| 0 <= l < |a| && a[l] == y;
          assert l != 0;
          assert a[1..][l - 1] == y;
        }
      }
      SortedUnique(a[1..], b[1..]);
    }
  }

  function Names(rs: seq<CacheRecord>): (ns: seq<string>)
    ensures |ns| == |rs| && forall i :: 0 <= i < |rs| ==> ns[i] == rs[i].name
  {
    seq(|rs|, i requires 0 <= i < |rs| => rs[i].name)
  }

  /** The records `saveFilesToCache` writes: one per entry, ordered by name. */
  function CacheListing(files: OMap<File>): (rs: seq<CacheRecord>)
    requires files.Valid() && Consistent(files.values)
    ensures |rs| == |files.keys|
    ensures StrictlySorted(Names(rs))
    ensures forall k :: k in files.values <==> k in Names(rs)
    ensures forall i :: 0 <= i < |rs| ==> rs[i].name in files.values && rs[i] == ToRecord(files.values[rs[i].name])
  {
    var names := SortNames(files.keys);
    var rs := seq(|names|, i requires 0 <= i < |names| => ToRecord(files.values[names[i]]));
    assert Names(rs) == names;
    rs
  }

  /** Sorting the names of a map of records and looking each up gives the sidecar's records. */
  lemma CachedRecordsListed(files: OMap<File>, cache: map<string, CacheRecord>, names: seq<string>, records: seq<CacheRecord>)
    requires files.Valid() && Consistent(files.values)
    requires forall k :: k in cache <==> k in files.keys
    requires forall k :: k in cache ==> k in files.values && cache[k] == ToRecord(files.values[k])
    requires names == SortNames(files.keys)
    requires |records| == |names| && forall j :: 0 <= j < |names| ==> names[j] in cache && records[j] == cache[names[j]]
    ensures records == CacheListing(files)
  {
    var listing := CacheListing(files);
    SortedUnique(Names(listing), names);
    assert Names(listing) == names;
  }

  /** The records of `saveFilesToCache`: a name-keyed map of the entries, read out in sorted name order. */
  method CacheRecords(files: OMap<File>) returns (records: seq<CacheRecord>)
    requires files.Valid() && Consistent(files.values)
    ensures records == CacheListing(files)
  {
    var cache: map<string, CacheRecord> := map[];
    var i := 0;
    while i < |files.keys|
      invariant 0 <= i <= |files.keys|
      invariant forall k :: k in cache <==> k in files.keys[..i]
      invariant forall k :: k in cache ==> k in files.values && cache[k] == ToRecord(files.values[k])
    {
      var file := files.values[files.keys[i]];
      cache := cache[file.name := ToRecord(file)];
      assert files.keys[..i + 1] == files.keys[..i] + [files.keys[i]];
      i := i + 1;
    }
    assert files.keys[..i] == files.keys;
    var names := SortNames(files.keys);
    records := seq(|names|, j requires 0 <= j < |names| => cache[names[j]]);
    CachedRecordsListed(files, cache, names, records);
  }

  /** The sidecar depends on the entries only, not on the order they were listed in. */
  lemma CacheListingOrderFree(a: OMap<File>, b: OMap<File>)
    requires a.Valid() && b.Valid() && Consistent(a.values) && a.values == b.values
    ensures CacheListing(a) == CacheListing(b)
  {
    var ra, rb := CacheListing(a), CacheListing(b);
    SortedUnique(Names(ra), Names(rb));
  }

  /** The listing `loadFilesFromCache` builds: the records in order, a later name replacing an earlier one. */
  function FromRecords(rs: seq<CacheRecord>): (m: OMap<File>)
    ensures m.Valid() && Consistent(m.values)
    ensures forall k :: k in m.values <==> k in Names(rs)
  {
    if rs == [] then Empty()
    else
      var r := rs[|rs| - 1];
      var init := rs[..|rs| - 1];
      assert Names(rs) == Names(init) + [r.name];
      FromRecords(init).Put(r.name, FromRecord(r))
  }

  /** Splitting off the last record splits off its name. */
  lemma NamesSnoc(rs: seq<CacheRecord>)
    requires rs != []
    ensures Names(rs) == Names(rs[..|rs| - 1]) + [rs[|rs| - 1].name]
  {
  }

  /** Dropping the last of distinct names keeps them distinct and leaves the last one out. */
  lemma DistinctSnoc(ns: seq<string>)
    requires Distinct(ns) && ns != []
    ensures Distinct(ns[..|ns| - 1]) && ns[|ns| - 1] !in ns[..|ns| - 1]
  {
  }

  /** Reading one more record puts it over what the earlier ones gave. */
  lemma FromRecordsSnoc(rs: seq<CacheRecord>, i: nat)
    requires i < |rs|
    ensures FromRecords(rs[..i + 1]) == FromRecords(rs[..i]).Put(rs[i].name, FromRecord(rs[i]))
  {
    assert rs[..i + 1][..i] == rs[..i];
  }

  /** Records with distinct names are listed in their own order. */
  lemma {:induction false} FromDistinctRecords(rs: seq<CacheRecord>)
    requires Distinct(Names(rs))
    ensures FromRecords(rs).keys == Names(rs)
  {
    if rs != [] {
      var init := rs[..|rs| - 1];
      NamesSnoc(rs);
      DistinctSnoc(Names(rs));
      assert Names(rs)[..|rs| - 1] == Names(init);
      FromDistinctRecords(init);
    }
  }

  /** Among records with distinct names, each one is read back as the File it describes. */
  lemma {:induction false} FromDistinctRecordAt(rs: seq<CacheRecord>, i: nat)
    requires Distinct(Names(rs)) && i < |rs|
    ensures rs[i].name in FromRecords(rs).values
    ensures FromRecords(rs).values[rs[i].name] == FromRecord(rs[i])
  {
    var r := rs[|rs| - 1];
    var init := rs[..|rs| - 1];
    if i < |rs| - 1 {
      assert Names(init) == Names(rs)[..|rs| - 1];
      assert rs[i] == init[i];
      assert rs[i].name != r.name by {
        assert Names(rs)[i] == rs[i].name && Names(rs)[|rs| - 1] == r.name;
      }
      FromDistinctRecordAt(init, i);
    }
  }

  /** One saved entry is read back from the sidecar unchanged. */
  lemma CacheRestoresEntry(files: OMap<File>, k: string)
    requires files.Valid() && Consistent(files.values) && k in files.values
    requires Distinct(Names(CacheListing(files)))
    ensures k in FromRecords(CacheListing(files)).values
    ensures FromRecords(CacheListing(files)).values[k] == files.values[k]
  {
    var rs := CacheListing(files);
    assert k in Names(rs);
    var i :| 0 <= i < |rs| && Names(rs)[i] == k;
    FromDistinctRecordAt(rs, i);
    assert rs[i] == ToRecord(files.values[k]);
  }

  /** Each saved entry is read back from the sidecar unchanged. */
  lemma CacheRestoresEntries(files: OMap<File>)
    requires files.Valid() && Consistent(files.values)
    ensures forall k :: k in files.values ==>
      k in FromRecords(CacheListing(files)).values && FromRecords(CacheListing(files)).values[k] == files.values[k]
  {
    SortedDistinct(Names(CacheListing(files)));
    forall k | k in files.values
      ensures k in FromRecords(CacheListing(files)).values && FromRecords(CacheListing(files)).values[k] == files.values[k]
    {
      CacheRestoresEntry(files, k);
    }
  }

  /** Reading back the sidecar gives the entries that were saved. */
  lemma CacheRoundTrip(files: OMap<File>)
    requires files.Valid() && Consistent(files.values)
    ensures FromRecords(CacheListing(files)).values == files.values
  {
    var rs := CacheListing(files);
    var m := FromRecords(rs);
    CacheRestoresEntries(files);
    forall k | k in m.values ensures k in files.values {
      assert k in Names(rs);
    }
    SameMaps(m.values, files.values);
  }

  /** Entries read back from the sidecar come in name order. */
  lemma CacheOrder(files: OMap<File>)
    requires files.Valid() && Consistent(files.values)
    ensures FromRecords(CacheListing(files)).keys == SortNames(files.keys)
  {
    var rs := CacheListing(files);
    SortedDistinct(Names(rs));
    FromDistinctRecords(rs);
    SortedUnique(Names(rs), SortNames(files.keys));
  }

  lemma SameMaps(a: map<string, File>, b: map<string, File>)
    requires forall k :: k in a <==> k in b
    requires forall k :: k in a ==> a[k] == b[k]
    ensures a == b
  {
  }

  // ---------------------------------------------------------------------------
  // Removal of a folder tree (`rmdirRecursive`).

  /** A name made of dots only, which `rmdirRecursive` passes over: ".", ".." and also "...". */
  predicate AllDots(name: string) {
    Trim(name, {'.'}) == ""
  }

  /** A string made only of trimmed characters trims to nothing. */
  lemma TrimmedAway(s: string, chars: set<char>)
    requires forall i :: 0 <= i < |s| ==> s[i] in chars
    ensures Trim(s, chars) == ""
  {
  }

  lemma ProperUnlessDots(name: string)
    requires '/' !in name && !AllDots(name)
    ensures ProperName(name)
  {
    if name == "" || name == "." || name == ".." {
      TrimmedAway(name, {'.'});
      assert false;
    }
  }

  /** No entry strictly inside `p` has an all-dots name, so `rmdirRecursive` empties the whole tree. */
  ghost predicate Removable(fs: Fs, p: Path) {
    forall q {:trigger q in fs} :: q in fs && p < q ==> !AllDots(q[|q| - 1])
  }

  /**
   * `q`, in the tree at `p`, is a directory holding an all-dots name, which
   * `rmdirRecursive` passes over, so that `q` cannot be removed.
   */
  ghost predicate Blocked(fs: Fs, p: Path, q: Path) {
    && q != [] && p <= q && IsDirAt(fs, q)
    && exists m :: m in ChildNames(fs, q) && AllDots(m)
  }

  /** A directory blocked in a smaller file system, inside a subtree, is blocked in the larger one. */
  lemma BlockedWithin(a: Fs, b: Fs, p: Path, p': Path, q: Path)
    requires Within(b, a) && Blocked(b, p', q) && p <= p'
    ensures Blocked(a, p, q)
  {
    var m :| m in ChildNames(b, q) && AllDots(m);
    assert q + [m] in a;
  }

  /** `b` keeps some of the entries of `a`, unchanged. */
  ghost predicate Within(b: Fs, a: Fs) {
    forall q :: q in b ==> q in a && b[q] == a[q]
  }

  lemma WithinTrans(a: Fs, b: Fs, c: Fs)
    requires Within(b, a) && Within(c, b)
    ensures Within(c, a)
  {
  }

  /** `b` is `a` with some entries of the tree at `p` removed, and nothing else changed. */
  ghost predicate Shrunk(a: Fs, b: Fs, p: Path) {
    Within(b, a) && forall q :: q in a && !(p <= q) ==> q in b
  }

  /** `q` lies in the tree of a child of `p` that is in `done` and has a name other than dots. */
  ghost predicate Gone(p: Path, done: set<string>, q: Path) {
    |p| < |q| && q[..|p|] == p && q[|p|] in done && !AllDots(q[|p|])
  }

  /** An entry strictly inside `p` lies in the tree of a child of `p`. */
  lemma ChildOnTheWay(fs: Fs, p: Path, q: Path)
    requires WellFormed(fs) && q in fs && p < q
    ensures p + [q[|p|]] in fs && p + [q[|p|]] <= q
  {
    var c := q[..|p| + 1];
    assert c == p + [q[|p|]];
    if c != q {
      AncestorIsDir(fs, c, q);
    }
  }

  /** A directory whose children are all removable, and none named with dots only, is removable. */
  lemma RemovableFromChildren(fs: Fs, p: Path)
    requires WellFormed(fs)
    requires forall m :: p + [m] in fs ==> !AllDots(m) && Removable(fs, p + [m])
    ensures Removable(fs, p)
  {
    forall q | q in fs && p < q ensures !AllDots(q[|q| - 1]) {
      ChildOnTheWay(fs, p, q);
      var c := p + [q[|p|]];
      if c == q {
        assert q[|q| - 1] == q[|p|];
      } else {
        assert c < q;
      }
    }
  }

  /** `p + [m]` is a prefix of `q` exactly when `q` passes through the child `m` of `p`. */
  lemma ChildPrefix(p: Path, m: string, q: Path)
    ensures p + [m] <= q <==> |p| < |q| && q[..|p|] == p && q[|p|] == m
  {
    if |p| < |q| && q[..|p|] == p && q[|p|] == m {
      assert q[..|p| + 1] == p + [m];
    }
  }

  /**
   * The loop state of `rmdirRecursive` over the children of `p`: `b` is `a`
   * less the trees of the children in `done` (all-dots names aside).
   */
  ghost predicate Cleared(a: Fs, b: Fs, p: Path, done: set<string>) {
    Within(b, a) && forall q :: q in a ==> (q in b <==> !Gone(p, done, q))
  }

  /** The tree of a child not yet visited is as it was. */
  lemma SubtreeKept(a: Fs, b: Fs, p: Path, done: set<string>, m: string)
    requires Cleared(a, b, p, done) && m !in done
    ensures forall q :: p + [m] <= q ==> (q in b <==> q in a)
    ensures Removable(b, p + [m]) <==> Removable(a, p + [m])
  {
    forall q | p + [m] <= q ensures q in b <==> q in a {
      ChildPrefix(p, m, q);
    }
  }

  /** Removing the tree of one more child extends the cleared set. */
  lemma ClearedStep(a: Fs, b: Fs, c: Fs, p: Path, done: set<string>, m: string)
    requires Cleared(a, b, p, done)
    requires AllDots(m) ==> c == b
    requires !AllDots(m) ==> c == RemoveTree(b, p + [m])
    ensures Cleared(a, c, p, done + {m})
  {
    forall q | q in a ensures q in c <==> !Gone(p, done + {m}, q) {
      ChildPrefix(p, m, q);
    }
  }

  /** A failed child leaves the disk shrunk within the parent's tree. */
  lemma ClearedShrunk(a: Fs, b: Fs, c: Fs, p: Path, done: set<string>, m: string)
    requires Cleared(a, b, p, done) && Shrunk(b, c, p + [m])
    ensures Shrunk(a, c, p)
  {
    forall q | q in a && !(p <= q) ensures q in c {
      assert !Gone(p, done, q);
      assert !(p + [m] <= q);
    }
  }

  /** A child tree that cannot be removed makes the parent's tree irremovable. */
  lemma NotRemovableParent(fs: Fs, p: Path, m: string)
    requires !Removable(fs, p + [m])
    ensures !Removable(fs, p)
  {
    var q :| q in fs && p + [m] < q && AllDots(q[|q| - 1]);
    assert q[..|p| + 1] == p + [m];
    assert q[..|p|] == q[..|p| + 1][..|p|] == p;
    assert p < q;
  }

  /**
   * With every child visited, the folder is empty exactly when its tree is
   * removable, and then removing it leaves the file system without the tree.
   */
  lemma ClearedAll(a: Fs, b: Fs, p: Path)
    requires WellFormed(a) && IsDirAt(a, p)
    requires Cleared(a, b, p, ChildNames(a, p))
    requires forall m :: m in ChildNames(a, p) ==> AllDots(m) || Removable(a, p + [m])
    ensures IsDirAt(b, p)
    ensures ChildNames(b, p) == {} <==> Removable(a, p)
    ensures Removable(a, p) ==> b - {p} == RemoveTree(a, p)
  {
    assert !Gone(p, ChildNames(a, p), p);
    if Removable(a, p) {
      ClearedEmpty(a, b, p);
      ClearedRemoves(a, b, p);
    } else {
      ClearedLeftover(a, b, p);
    }
  }

  /** Once every child is done, what is left in the folder has an all-dots name. */
  lemma ClearedLeavesDots(a: Fs, b: Fs, p: Path, m: string)
    requires Cleared(a, b, p, ChildNames(a, p)) && m in ChildNames(b, p)
    ensures m in ChildNames(a, p) && AllDots(m)
  {
    ChildPrefix(p, m, p + [m]);
    assert !Gone(p, ChildNames(a, p), p + [m]);
  }

  lemma ClearedEmpty(a: Fs, b: Fs, p: Path)
    requires Cleared(a, b, p, ChildNames(a, p)) && Removable(a, p)
    ensures ChildNames(b, p) == {}
  {
    forall m ensures p + [m] !in b {
      var c := p + [m];
      if c in a {
        assert p < c && c[|c| - 1] == m;
        ChildNamesIff(a, p, m);
        ChildPrefix(p, m, c);
      }
    }
  }

  /** Once every child of a removable `p` is done, every entry strictly inside `p` is gone. */
  lemma InsideRemovableGone(a: Fs, p: Path, q: Path)
    requires WellFormed(a) && Removable(a, p) && q in a && p < q
    ensures Gone(p, ChildNames(a, p), q)
  {
    ChildOnTheWay(a, p, q);
    var m := q[|p|];
    ChildNamesIff(a, p, m);
    assert (p + [m])[|p|] == m;
  }

  lemma ClearedRemoves(a: Fs, b: Fs, p: Path)
    requires WellFormed(a) && Cleared(a, b, p, ChildNames(a, p)) && Removable(a, p)
    ensures b - {p} == RemoveTree(a, p)
  {
    var children := ChildNames(a, p);
    var r := RemoveTree(a, p);
    forall q ensures q in b - {p} <==> q in r {
      if q in a && q != p && p <= q {
        InsideRemovableGone(a, p, q);
      }
    }
    assert forall q :: q in b - {p} ==> (b - {p})[q] == r[q];
    SameFs(b - {p}, r);
  }

  lemma ClearedLeftover(a: Fs, b: Fs, p: Path)
    requires WellFormed(a) && Cleared(a, b, p, ChildNames(a, p)) && !Removable(a, p)
    requires forall m :: m in ChildNames(a, p) ==> AllDots(m) || Removable(a, p + [m])
    ensures ChildNames(b, p) != {}
  {
    var q :| q in a && p < q && AllDots(q[|q| - 1]);
    ChildOnTheWay(a, p, q);
    var m := q[|p|];
    var c := p + [m];
    if AllDots(m) {
      assert !Gone(p, ChildNames(a, p), c);
      assert m in ChildNames(b, p);
    } else {
      assert false;
    }
  }

  /** A file is a tree of one entry. */
  lemma FileTree(fs: Fs, p: Path)
    requires WellFormed(fs) && IsFileAt(fs, p)
    ensures Removable(fs, p)
    ensures RemoveTree(fs, p) == fs - {p}
  {
    assert forall q :: q in fs ==> !(p < q) by {
    forall q | q in fs ensures !(p < q) {
      NothingUnderFile(fs, p, q);
    }}
    assert forall q :: q in fs && p <= q ==> q == p;
    SameFs(RemoveTree(fs, p), fs - {p});
  }

  lemma SameFs(a: Fs, b: Fs)
    requires forall q :: q in a <==> q in b
    requires forall q :: q in a ==> a[q] == b[q]
    ensures a == b
  {
  }

  // ---------------------------------------------------------------------------
  // `deleteFiles`, name by name.

  datatype DeleteState = DeleteState(fs: Fs, files: OMap<File>, folderDeleted: bool, deleted: bool)

  /** Where deleting a list of names ends: every name deleted, or the state just before the first name that throws. */
  datatype DeleteRun = AllDeleted(state: DeleteState) | StoppedAt(state: DeleteState, name: string)

  /** The effect of deleting one selected name; None when it throws. */
  ghost function DeleteStep(folder: string, s: DeleteState, name: string): (r: Option<DeleteState>)
    requires s.files.Valid()
    ensures r.Some? ==> r.value.files.Valid() && r.value.deleted
  {
    var path := folder + name;
    var p := Resolve(path);
    var files := s.files.Remove(Basename(path));
    if path != "" && IsDirAt(s.fs, p) then
      if AllDots(Basename(path)) then Some(DeleteState(s.fs, files, true, true))
      else if Removable(s.fs, p) then Some(DeleteState(RemoveTree(s.fs, p), files, true, true))
      else None
    else if path != "" && IsFileAt(s.fs, p) then Some(DeleteState(s.fs - {p}, files, s.folderDeleted, true))
    else None
  }

  /** The effect of deleting the selected names in order, up to the first one that throws. */
  ghost function DeleteAll(folder: string, s: DeleteState, names: seq<string>): (r: DeleteRun)
    requires s.files.Valid()
    ensures r.state.files.Valid()
    decreases |names|
  {
    if names == [] then AllDeleted(s)
    else match DeleteStep(folder, s, names[0])
      case None => StoppedAt(s, names[0])
      case Some(t) => DeleteAll(folder, t, names[1..])
  }

  /**
   * Deleting `name` in `folder` throws `e` and takes the file system from
   * `fs` to `fs'`: a directory's tree is removed only in part and the error
   * names a directory of it that holds an all-dots name; anything else is
   * left as it is and the error names `name` as selected.
   */
  ghost predicate DeleteFailure(folder: string, fs: Fs, fs': Fs, name: string, e: Error) {
    var p := Resolve(folder + name);
    && e.kind == StorageFailure
    && if folder + name != "" && IsDirAt(fs, p) then
         && Shrunk(fs, fs', p)
         && exists q :: Blocked(fs, p, q) && e.message == "cannot delete " + Quote(q[|q| - 1])
       else fs' == fs && e.message == "cannot delete " + Quote(name)
  }

  /**
   * A run that stops does so at one of the names: every name before it was
   * deleted, leaving the state the run stops in, and that name cannot be.
   */
  lemma {:induction false} DeleteAllStops(folder: string, s: DeleteState, names: seq<string>)
    requires s.files.Valid() && DeleteAll(folder, s, names).StoppedAt?
    ensures var r := DeleteAll(folder, s, names);
      exists k :: 0 <= k < |names| && names[k] == r.name
        && DeleteAll(folder, s, names[..k]) == AllDeleted(r.state)
        && DeleteStep(folder, r.state, names[k]).None?
    decreases |names|
  {
    var r := DeleteAll(folder, s, names);
    match DeleteStep(folder, s, names[0])
    case None =>
      assert names[..0] == [];
    case Some(t) =>
      DeleteAllStops(folder, t, names[1..]);
      var k :| 0 <= k < |names[1..]| && names[1..][k] == r.name
        && DeleteAll(folder, t, names[1..][..k]) == AllDeleted(r.state)
        && DeleteStep(folder, r.state, names[1..][k]).None?;
      assert names[..k + 1][0] == names[0] && names[..k + 1][1..] == names[1..][..k];
      assert DeleteAll(folder, s, names[..k + 1]) == AllDeleted(r.state);
  }

  /** One deleted name leaves the disk shrunk and its entry gone from the disk and the listing. */
  lemma DeleteStepRemoves(folder: string, s: DeleteState, name: string)
    requires s.files.Valid() && DeleteStep(folder, s, name).Some?
    ensures Within(DeleteStep(folder, s, name).value.fs, s.fs)
    ensures !AllDots(Basename(folder + name)) ==> Resolve(folder + name) !in DeleteStep(folder, s, name).value.fs
    ensures Basename(folder + name) !in DeleteStep(folder, s, name).value.files.values
    ensures DeleteStep(folder, s, name).value.files.values.Keys <= s.files.values.Keys
  {
  }

  lemma DeleteAllUnfold(folder: string, s: DeleteState, names: seq<string>)
    requires s.files.Valid() && names != [] && DeleteAll(folder, s, names).AllDeleted?
    ensures DeleteStep(folder, s, names[0]).Some?
    ensures DeleteAll(folder, s, names) == DeleteAll(folder, DeleteStep(folder, s, names[0]).value, names[1..])
  {
  }

  /**
   * When every selected name is deleted, nothing is added or changed on disk,
   * every selected entry is gone from the disk (unless its name is all dots)
   * and from the listing, and the sidecar is to be rewritten exactly when
   * something was selected.
   */
  lemma {:induction false} DeleteAllRemoves(folder: string, s: DeleteState, names: seq<string>)
    requires s.files.Valid() && DeleteAll(folder, s, names).AllDeleted?
    ensures var u := DeleteAll(folder, s, names).state;
      && Within(u.fs, s.fs)
      && (forall n :: n in names && !AllDots(Basename(folder + n)) ==> Resolve(folder + n) !in u.fs)
      && (forall n :: n in names ==> Basename(folder + n) !in u.files.values)
      && u.files.values.Keys <= s.files.values.Keys
      && u.deleted == (s.deleted || names != [])
    decreases |names|
  {
    if names != [] {
      DeleteAllUnfold(folder, s, names);
      var t := DeleteStep(folder, s, names[0]).value;
      DeleteStepRemoves(folder, s, names[0]);
      DeleteAllRemoves(folder, t, names[1..]);
      var u := DeleteAll(folder, t, names[1..]).state;
      forall n | n in names ensures Basename(folder + n) !in u.files.values {
        if n != names[0] {
          assert n in names[1..];
        }
      }
      forall n | n in names && !AllDots(Basename(folder + n)) ensures Resolve(folder + n) !in u.fs {
        if n != names[0] {
          assert n in names[1..];
        }
      }
    }
  }

  // ---------------------------------------------------------------------------
  // The sidecar on disk.

  /** The file system after `saveFilesToCache`: the sidecar rewritten, where the folder still takes a file. */
  function WithCache(fs: Fs, cache: Path, files: OMap<File>, clock: int): Fs
    requires files.Valid() && Consistent(files.values)
  {
    if CanWrite(fs, cache) then fs[cache := FileNode(Records(CacheListing(files)), clock)] else fs
  }

  /** The constructor trusts the sidecar: not told to ignore it, a file, younger than two hours, and decodable. */
  predicate UseCache(fs: Fs, cache: Path, clock: int, ignoreCache: bool) {
    && !ignoreCache
    && IsFileAt(fs, cache)
    && fs[cache].mtime > clock - CacheLifetime
    && fs[cache].content.Records?
  }

  /** Opening `folder` succeeds: the sidecar is trusted, or every entry can be read in. */
  predicate Openable(probe: Probe, size: int, folder: string, clock: int, ignoreCache: bool, fs0: Fs) {
    UseCache(fs0, Resolve(folder + CacheFile), clock, ignoreCache) || Listable(probe, size, fs0, Resolve(folder))
  }

  /**
   * The listing `files` and the file system `fs` are what opening `folder`
   * leaves behind when the file system was `fs0`: the sidecar's listing if
   * it is trusted, and otherwise the folder's entries, with the sidecar
   * rewritten from them.
   */
  ghost predicate OpenedAt(probe: Probe, size: int, folder: string, clock: int, ignoreCache: bool,
                           fs0: Fs, fs: Fs, files: OMap<File>)
  {
    && files.Valid() && Consistent(files.values)
    && var cache := Resolve(folder + CacheFile);
       if UseCache(fs0, cache, clock, ignoreCache) then
         files == FromRecords(fs0[cache].content.records) && fs == fs0
       else
         && Listable(probe, size, fs0, Resolve(folder))
         && files.values == Scan(probe, size, fs0, Resolve(folder))
         && fs == WithCache(fs0, cache, files, clock)
  }

  /** Opening `folder` throws `out`: the sidecar is not trusted and reading in one of the entries throws. */
  ghost predicate OpenFailed(probe: Probe, size: int, folder: string, clock: int, ignoreCache: bool, fs0: Fs, out: Outcome) {
    && !UseCache(fs0, Resolve(folder + CacheFile), clock, ignoreCache)
    && out.Throw? && FailsToList(probe, size, fs0, Resolve(folder), out.error)
  }

  /**
   * What `deleteFiles` does once the folder is opened with listing `files`
   * on file system `fs1`: the names are deleted one after the other as
   * `DeleteAll` describes; when all are, the listing is written to the
   * sidecar if anything was selected, and otherwise the first name that
   * cannot be deleted throws as `DeleteFailure` describes.
   */
  ghost predicate DeletedIn(folder: string, fs1: Fs, files: OMap<File>, flag0: bool, names: seq<string>, clock: int,
                            flag: bool, out: Outcome, fs: Fs)
    requires files.Valid()
  {
    var r := DeleteAll(folder, DeleteState(fs1, files, flag0, false), names);
    && (out.Pass? <==> r.AllDeleted?)
    && (r.AllDeleted? ==>
          && flag == r.state.folderDeleted
          && Consistent(r.state.files.values)
          && fs == if r.state.deleted then WithCache(r.state.fs, Resolve(folder + CacheFile), r.state.files, clock)
                   else r.state.fs)
    && (r.StoppedAt? ==> out.Throw? && DeleteFailure(folder, r.state.fs, fs, r.name, out.error))
    && (out.Throw? ==> Within(fs, fs1))
  }

  /** A folder can be opened exactly when no entry fails to be read in. */
  lemma OpenFailsExactly(probe: Probe, size: int, folder: string, clock: int, ignoreCache: bool, fs0: Fs, out: Outcome)
    requires OpenFailed(probe, size, folder, clock, ignoreCache, fs0, out)
    ensures !Openable(probe, size, folder, clock, ignoreCache, fs0)
  {
    var n :| n in ChildNames(fs0, Resolve(folder)) && n != CacheFile
             && EntryFor(probe, size, n, Resolve(folder) + [n], fs0[Resolve(folder) + [n]]) == Fail(out.error);
  }

  /** `d` is what the constructor leaves behind when the file system was `fs0`. */
  ghost predicate Opened(d: LocalDirectory, fs0: Fs, ignoreCache: bool)
    reads d, d.disk
  {
    && d.Valid()
    && OpenedAt(d.probe, d.thumbnailSize, d.folder, d.disk.clock, ignoreCache, fs0, d.disk.fs, d.files)
  }

  /** Listing an entry under its own name keeps a listing consistent. */
  lemma ConsistentPut(files: OMap<File>, name: string, f: File)
    requires files.Valid() && Consistent(files.values)
    requires f.name == name && f.Initialised() && f.directoryUrl == ""
    ensures Consistent(files.Put(name, f).values)
  {
  }

  lemma ConsistentRemove(files: OMap<File>, name: string)
    requires files.Valid() && Consistent(files.values)
    ensures Consistent(files.Remove(name).values)
  {
  }

  /**
   * The outcome, file system and listing after `mkDir(newFolder)` in
   * `folder`: nothing happens for an existing directory; otherwise the
   * directory is created, listed and the sidecar rewritten, or the call
   * throws and nothing changes.
   */
  ghost function MkDirEffect(probe: Probe, size: int, folder: string, clock: int, fs: Fs, files: OMap<File>,
                             newFolder: string): (Outcome, Fs, OMap<File>)
    requires files.Valid() && Consistent(files.values)
  {
    var p := Resolve(folder + newFolder);
    var name := Basename(folder + newFolder);
    if IsDirAt(fs, p) then (Pass, fs, files)
    else if CanMkdir(fs, p) then
      var listed := files.Put(name, EntryFor(probe, size, name, p, DirNode(clock)).value);
      ConsistentPut(files, name, EntryFor(probe, size, name, p, DirNode(clock)).value);
      (Pass, WithCache(fs[p := DirNode(clock)], Resolve(folder + CacheFile), listed, clock), listed)
    else (Throw(Error(StorageFailure, "cannot create folder " + Quote(newFolder))), fs, files)
  }

  /**
   * The outcome, file system, listing and flag after `rename(oldName,
   * newName)` in `folder`: once the entry moves with its tree the flag tells
   * whether a directory moved and the old name leaves the listing; then the
   * new one is read in and the sidecar rewritten, or reading it in throws
   * and the sidecar is left as it was. When the rename itself fails the call
   * throws, nothing changes and the flag keeps its value.
   */
  ghost function RenameEffect(probe: Probe, size: int, folder: string, clock: int, fs: Fs, files: OMap<File>,
                              oldName: string, newName: string, flag: bool): (Outcome, Fs, OMap<File>, bool)
    requires files.Valid() && Consistent(files.values)
  {
    var from := Resolve(folder + oldName);
    var to := Resolve(folder + newName);
    var name := Basename(folder + newName);
    if CanRename(fs, from, to) then
      var kept := files.Remove(oldName);
      ConsistentRemove(files, oldName);
      match EntryFor(probe, size, name, to, fs[from])
      case Fail(e) => (Throw(e), MoveTree(fs, from, to), kept, fs[from].DirNode?)
      case Ok(entry) =>
        var listed := kept.Put(name, entry);
        ConsistentPut(kept, name, entry);
        (Pass, WithCache(MoveTree(fs, from, to), Resolve(folder + CacheFile), listed, clock), listed, fs[from].DirNode?)
    else (Throw(Error(StorageFailure, "cannot rename " + Quote(oldName) + " to " + Quote(newName))), fs, files, flag)
  }

  /** The sidecar rewrite touches the sidecar only, and never a directory. */
  lemma WithCacheElsewhere(fs: Fs, cache: Path, files: OMap<File>, clock: int, q: Path)
    requires files.Valid() && Consistent(files.values)
    requires q != cache || IsDirAt(fs, q)
    ensures q in WithCache(fs, cache, files, clock) <==> q in fs
    ensures q in fs ==> WithCache(fs, cache, files, clock)[q] == fs[q]
  {
  }

  /**
   * After `mkDir` succeeds the folder exists as a directory, and when it was
   * created it is listed as a directory under its name.
   */
  lemma MkDirCreates(probe: Probe, size: int, folder: string, clock: int, fs: Fs, files: OMap<File>, newFolder: string)
    requires files.Valid() && Consistent(files.values)
    requires MkDirEffect(probe, size, folder, clock, fs, files, newFolder).0.Pass?
    ensures var e := MkDirEffect(probe, size, folder, clock, fs, files, newFolder);
      var name := Basename(folder + newFolder);
      && IsDirAt(e.1, Resolve(folder + newFolder))
      && (!IsDirAt(fs, Resolve(folder + newFolder)) ==> name in e.2.values && e.2.values[name].kind == TypeDir)
  {
    var p := Resolve(folder + newFolder);
    var name := Basename(folder + newFolder);
    if !IsDirAt(fs, p) {
      var entry := EntryFor(probe, size, name, p, DirNode(clock)).value;
      var listed := files.Put(name, entry);
      ConsistentPut(files, name, entry);
      EntryDescribesNode(probe, size, name, p, DirNode(clock));
      CreatedBesideCache(fs, p, Resolve(folder + CacheFile), listed, clock);
    }
  }

  /** A directory just created survives the sidecar rewrite that follows. */
  lemma CreatedBesideCache(fs: Fs, p: Path, cache: Path, listed: OMap<File>, clock: int)
    requires listed.Valid() && Consistent(listed.values)
    ensures IsDirAt(WithCache(fs[p := DirNode(clock)], cache, listed, clock), p)
  {
    WithCacheElsewhere(fs[p := DirNode(clock)], cache, listed, clock, p);
  }

  /** The listing after `mkDir` is still one the folder can hold. */
  lemma MkDirListingValid(probe: Probe, size: int, folder: string, clock: int, fs: Fs, files: OMap<File>, newFolder: string)
    requires files.Valid() && Consistent(files.values)
    ensures var e := MkDirEffect(probe, size, folder, clock, fs, files, newFolder);
      e.2.Valid() && Consistent(e.2.values)
  {
    var p := Resolve(folder + newFolder);
    var name := Basename(folder + newFolder);
    ConsistentPut(files, name, EntryFor(probe, size, name, p, DirNode(clock)).value);
  }

  /** A second `mkDir` of the same name, after one that succeeded, changes nothing. */
  lemma MkDirIdempotent(probe: Probe, size: int, folder: string, clock: int, fs: Fs, files: OMap<File>, newFolder: string)
    requires files.Valid() && Consistent(files.values)
    requires MkDirEffect(probe, size, folder, clock, fs, files, newFolder).0.Pass?
    ensures var e := MkDirEffect(probe, size, folder, clock, fs, files, newFolder);
      && e.2.Valid() && Consistent(e.2.values)
      && MkDirEffect(probe, size, folder, clock, e.1, e.2, newFolder) == e
  {
    MkDirListingValid(probe, size, folder, clock, fs, files, newFolder);
    MkDirCreates(probe, size, folder, clock, fs, files, newFolder);
  }

  /** A rename to another place leaves nothing at the old place. */
  lemma MoveTreeVacates(fs: Fs, from: Path, to: Path)
    requires WellFormed(fs) && CanRename(fs, from, to) && from != to
    ensures from !in MoveTree(fs, from, to)
  {
    if from in MoveTree(fs, from, to) {
      MoveTreeKeys(fs, from, to, from);
      assert to < from;
      AncestorIsDir(fs, to, from);
      ChildOnTheWay(fs, to, from);
      ChildNamesIff(fs, to, from[|to|]);
      assert false;
    }
  }

  /**
   * After a successful rename to a new name the entry is found under the new
   * name, unchanged, and no longer under the old one (the sidecar's own name
   * aside, which the rewrite reclaims).
   */
  lemma RenameMoves(probe: Probe, size: int, folder: string, clock: int, fs: Fs, files: OMap<File>,
                    oldName: string, newName: string, flag: bool)
    requires WellFormed(fs) && files.Valid() && Consistent(files.values)
    requires RenameEffect(probe, size, folder, clock, fs, files, oldName, newName, flag).0.Pass?
    requires Resolve(folder + oldName) != Resolve(folder + CacheFile)
    requires Resolve(folder + newName) != Resolve(folder + CacheFile)
    ensures var fs' := RenameEffect(probe, size, folder, clock, fs, files, oldName, newName, flag).1;
      var from := Resolve(folder + oldName);
      var to := Resolve(folder + newName);
      && to in fs' && fs'[to] == fs[from]
      && (from != to ==> from !in fs')
  {
    var from := Resolve(folder + oldName);
    var to := Resolve(folder + newName);
    var name := Basename(folder + newName);
    var kept := files.Remove(oldName);
    ConsistentRemove(files, oldName);
    var listed := kept.Put(name, EntryFor(probe, size, name, to, fs[from]).value);
    ConsistentPut(kept, name, EntryFor(probe, size, name, to, fs[from]).value);
    MovedBesideCache(fs, from, to, Resolve(folder + CacheFile), listed, clock);
  }

  /** Moving a tree and then rewriting a sidecar elsewhere puts the entry at its new place only. */
  lemma MovedBesideCache(fs: Fs, from: Path, to: Path, cache: Path, listed: OMap<File>, clock: int)
    requires WellFormed(fs) && CanRename(fs, from, to) && from != cache && to != cache
    requires listed.Valid() && Consistent(listed.values)
    ensures var fs' := WithCache(MoveTree(fs, from, to), cache, listed, clock);
      && to in fs' && fs'[to] == fs[from]
      && (from != to ==> from !in fs')
  {
    assert from + [] == from && to + [] == to;
    MoveTreeAt(fs, from, to, []);
    WithCacheElsewhere(MoveTree(fs, from, to), cache, listed, clock, to);
    if from != to {
      MoveTreeVacates(fs, from, to);
      WithCacheElsewhere(MoveTree(fs, from, to), cache, listed, clock, from);
    }
  }

  /** The real path of an entry names it, and ends in its name. */
  lemma RealPathOfChild(fs: Fs, dir: Path, n: string)
    requires WellFormed(fs) && dir + [n] in fs
    ensures Resolve(PathString(dir + [n])) == dir + [n]
    ensures Basename(PathString(dir + [n])) == n
  {
    assert Parent(dir + [n]) == dir;
    assert AllProper(dir + [n]);
    assert ProperName((dir + [n])[|dir|]);
    ResolvePathString(dir + [n]);
    BasenameOfJoin(PathString(dir), n);
  }

  /**
   * `new LocalDirectory(folder, ignoreCache, thumbnailSize)`: it throws when
   * the folder is no directory, or when it has to be listed and one of its
   * entries cannot be read in; then nothing changes.
   */
  method OpenDirectory(disk: Disk, probe: Probe, folder: string, ignoreCache: bool, thumbnailSize: int)
    returns (r: Result<LocalDirectory>)
    requires disk.Valid()
    modifies disk
    ensures disk.Valid()
    ensures var dir := TrimRight(folder, {'/'}) + "/";
      && (!old(disk.IsDir(dir)) ==> r.Fail? && r.error.kind == RuntimeFailure)
      && (old(disk.IsDir(dir)) ==> (r.Ok? <==> Openable(probe, thumbnailSize, dir, disk.clock, ignoreCache, old(disk.fs))))
      && (old(disk.IsDir(dir)) && r.Fail? ==>
            OpenFailed(probe, thumbnailSize, dir, disk.clock, ignoreCache, old(disk.fs), Throw(r.error)))
    ensures r.Fail? ==> disk.fs == old(disk.fs)
    ensures r.Ok? ==>
      && fresh(r.value) && r.value.disk == disk && r.value.probe == probe
      && r.value.folder == TrimRight(folder, {'/'}) + "/" && r.value.thumbnailSize == thumbnailSize
      && Opened(r.value, old(disk.fs), ignoreCache)
  {
    var dir := TrimRight(folder, {'/'}) + "/";
    if !disk.IsDir(dir) {
      return Fail(Error(RuntimeFailure, "DirectoryIterator::__construct(" + dir + "): Failed to open directory"));
    }
    var d := new LocalDirectory(disk, probe, folder, thumbnailSize);
    var out := d.Load(ignoreCache);
    if out.Throw? {
      return Fail(out.error);
    }
    return Ok(d);
  }

  class LocalDirectory {
    const disk: Disk
    const probe: Probe
    /** The folder's path, ending in a single '/'. */
    const folder: string
    const cacheFile: string
    const thumbnailSize: int
    var files: OMap<File>

    ghost predicate Valid()
      reads this, disk
    {
      && disk.Valid()
      && files.Valid() && Consistent(files.values)
      && folder != "" && cacheFile == folder + CacheFile
    }

    /** The fields the constructor sets before it reads the folder in (see `Load`). */
    constructor (disk: Disk, probe: Probe, folder: string, thumbnailSize: int)
      requires disk.Valid()
      ensures Valid() && files == Empty()
      ensures this.disk == disk && this.probe == probe && this.thumbnailSize == thumbnailSize
      ensures this.folder == TrimRight(folder, {'/'}) + "/"
    {
      this.disk := disk;
      this.probe := probe;
      this.folder := TrimRight(folder, {'/'}) + "/";
      this.thumbnailSize := thumbnailSize;
      this.cacheFile := TrimRight(folder, {'/'}) + "/" + CacheFile;
      files := Empty();
    }

    /**
     * The rest of the constructor: the listing is read from a trusted
     * sidecar, or else from the folder, and then the sidecar is rewritten;
     * reading the folder throws when one of its entries cannot be read in.
     */
    method Load(ignoreCache: bool) returns (out: Outcome)
      requires Valid() && disk.IsDir(folder)
      modifies this, disk
      ensures Valid()
      ensures out.Pass? <==> Openable(probe, thumbnailSize, folder, disk.clock, ignoreCache, old(disk.fs))
      ensures out.Pass? ==> Opened(this, old(disk.fs), ignoreCache)
      ensures out.Throw? ==>
        disk.fs == old(disk.fs) && OpenFailed(probe, thumbnailSize, folder, disk.clock, ignoreCache, old(disk.fs), out)
    {
      var loaded := false;
      if !ignoreCache && disk.IsFile(cacheFile) && disk.fs[Resolve(cacheFile)].mtime > disk.clock - CacheLifetime {
        loaded := LoadFilesFromCache();
      }
      if !loaded {
        out := LoadFiles();
        if out.Throw? {
          return;
        }
        SaveFilesToCache();
      }
      out := Pass;
    }

    /** `loadFiles`: one entry per name in the folder, the sidecar left out, until one cannot be read in. */
    method LoadFiles() returns (out: Outcome)
      requires Valid() && disk.IsDir(folder)
      modifies this
      ensures Valid()
      ensures out.Pass? <==> Listable(probe, thumbnailSize, disk.fs, Resolve(folder))
      ensures out.Pass? ==> files.values == Scan(probe, thumbnailSize, disk.fs, Resolve(folder))
      ensures out.Throw? ==> FailsToList(probe, thumbnailSize, disk.fs, Resolve(folder), out.error)
    {
      var dir := Resolve(folder);
      files := Empty();
      // the iterator also yields "." and "..", which are skipped; they are no entries of the model
      var children := ChildNames(disk.fs, dir);
      var todo := children;
      while todo != {}
        invariant Valid() && disk.fs == old(disk.fs)
        invariant todo <= children
        invariant forall n :: n in files.values <==> n in children && n !in todo && n != CacheFile
        invariant forall n :: n in files.values ==>
          dir + [n] in disk.fs && EntryFor(probe, thumbnailSize, n, dir + [n], disk.fs[dir + [n]]) == Ok(files.values[n])
        decreases todo
      {
        var n :| n in todo;
        if n != CacheFile {
          var realPath := PathString(dir + [n]);
          RealPathOfChild(disk.fs, dir, n);
          out := LoadFile(realPath);
          if out.Throw? {
            return;
          }
        }
        todo := todo - {n};
      }
      SameMaps(files.values, Scan(probe, thumbnailSize, disk.fs, dir));
      out := Pass;
    }

    /**
     * `rmdirRecursive`: a name of dots only is passed over; a directory is
     * emptied child by child and then removed, a file unlinked. It succeeds
     * exactly when the tree exists and holds no all-dots name, and then the
     * whole tree is gone; on failure only part of the tree is gone and the
     * error names a directory of the tree that holds an all-dots name.
     */
    method RmdirRecursive(path: string) returns (out: Outcome)
      requires disk.Valid()
      modifies disk
      ensures disk.Valid()
      ensures AllDots(Basename(path)) ==> out == Pass && disk.fs == old(disk.fs)
      ensures !AllDots(Basename(path)) ==>
        (out.Pass? <==> Resolve(path) in old(disk.fs) && Removable(old(disk.fs), Resolve(path)))
      ensures !AllDots(Basename(path)) && out.Pass? ==> disk.fs == RemoveTree(old(disk.fs), Resolve(path))
      ensures out.Throw? ==> out.error.kind == StorageFailure && Shrunk(old(disk.fs), disk.fs, Resolve(path))
      ensures out.Throw? && !IsDirAt(old(disk.fs), Resolve(path)) ==>
        disk.fs == old(disk.fs) && out.error.message == "cannot delete " + Quote(Basename(path))
      ensures out.Throw? && IsDirAt(old(disk.fs), Resolve(path)) ==>
        exists q :: Blocked(old(disk.fs), Resolve(path), q) && out.error.message == "cannot delete " + Quote(q[|q| - 1])
      decreases MaxDepth + 1 - |Resolve(path)|, 2
    {
      var name := Basename(path);
      if AllDots(name) {
        return Pass;
      }
      ProperUnlessDots(name);
      ResolveEndsWithBasename(path);
      var p := Resolve(path);
      if disk.IsDir(path) {
        ghost var fs0 := disk.fs;
        out := RemoveChildren(path);
        if out.Throw? {
          return;
        }
        ClearedAll(fs0, disk.fs, p);
        var ok := disk.Rmdir(path);
        if ok {
          return Pass;
        }
        ghost var m :| m in ChildNames(disk.fs, p);
        ClearedLeavesDots(fs0, disk.fs, p, m);
        assert Blocked(fs0, p, p);
      } else {
        var ok := disk.Unlink(path);
        if ok {
          FileTree(old(disk.fs), p);
          return Pass;
        }
      }
      return Throw(Error(StorageFailure, "cannot delete " + Quote(name)));
    }

    /**
     * The children of a directory, each passed to `RmdirRecursive`, in the
     * order the listing yields them, until one of them fails.
     */
    method RemoveChildren(path: string) returns (out: Outcome)
      requires disk.Valid() && disk.IsDir(path)
      modifies disk
      ensures disk.Valid()
      ensures out.Pass? ==>
        && Cleared(old(disk.fs), disk.fs, Resolve(path), ChildNames(old(disk.fs), Resolve(path)))
        && forall m :: m in ChildNames(old(disk.fs), Resolve(path)) ==>
             AllDots(m) || Removable(old(disk.fs), Resolve(path) + [m])
      ensures out.Throw? ==>
        && out.error.kind == StorageFailure
        && Shrunk(old(disk.fs), disk.fs, Resolve(path))
        && !Removable(old(disk.fs), Resolve(path))
        && exists q :: Blocked(old(disk.fs), Resolve(path), q) && out.error.message == "cannot delete " + Quote(q[|q| - 1])
      decreases MaxDepth + 1 - |Resolve(path)|, 1
    {
      var p := Resolve(path);
      ghost var fs0 := disk.fs;
      var children := ChildNames(disk.fs, p);
      var todo := children;
      ghost var done: set<string> := {};
      while todo != {}
        invariant disk.Valid()
        invariant todo !! done && todo + done == children
        invariant Cleared(fs0, disk.fs, p, done)
        invariant forall m :: m in done ==> AllDots(m) || Removable(fs0, p + [m])
        decreases todo
      {
        var m :| m in todo;
        var o := RemoveChild(path, m, fs0, done);
        if o.Throw? {
          return o;
        }
        todo := todo - {m};
        done := done + {m};
      }
      return Pass;
    }

    /** One child of the directory at `path` passed to `RmdirRecursive`, after the children in `done`. */
    method RemoveChild(path: string, m: string, ghost fs0: Fs, ghost done: set<string>) returns (out: Outcome)
      requires disk.Valid() && WellFormed(fs0) && path != "" && IsDirAt(fs0, Resolve(path))
      requires m in ChildNames(fs0, Resolve(path)) && m !in done
      requires Cleared(fs0, disk.fs, Resolve(path), done)
      modifies disk
      ensures disk.Valid()
      ensures out.Pass? ==>
        && Cleared(fs0, disk.fs, Resolve(path), done + {m})
        && (AllDots(m) || Removable(fs0, Resolve(path) + [m]))
      ensures out.Throw? ==>
        && out.error.kind == StorageFailure
        && Shrunk(fs0, disk.fs, Resolve(path))
        && !Removable(fs0, Resolve(path))
        && exists q :: Blocked(fs0, Resolve(path), q) && out.error.message == "cannot delete " + Quote(q[|q| - 1])
      decreases MaxDepth + 1 - |Resolve(path)|, 0
    {
      var p := Resolve(path);
      assert (p + [m])[|p|] == m;
      ResolveJoin(path, m);
      BasenameOfJoin(path, m);
      SubtreeKept(fs0, disk.fs, p, done, m);
      ghost var fs1 := disk.fs;
      out := RmdirRecursive(path + "/" + m);
      if out.Throw? {
        ClearedShrunk(fs0, fs1, disk.fs, p, done, m);
        NotRemovableParent(fs0, p, m);
        if !IsDirAt(fs1, p + [m]) {
          FileTree(fs1, p + [m]);
        }
        ghost var q :| Blocked(fs1, p + [m], q) && out.error.message == "cannot delete " + Quote(q[|q| - 1]);
        BlockedWithin(fs0, fs1, p, p + [m], q);
      } else {
        ClearedStep(fs0, fs1, disk.fs, p, done, m);
      }
    }

    /**
     * `deleteFiles`: each selected name is removed, a directory with its
     * tree, and dropped from the listing; the sidecar is rewritten when
     * anything was selected. The first name that cannot be removed throws,
     * what was removed before it stays removed and the sidecar is not
     * rewritten.
     */
    method DeleteFiles(names: seq<string>, folderDeleted0: bool) returns (folderDeleted: bool, out: Outcome)
      requires Valid()
      modifies this, disk
      ensures Valid()
      ensures DeletedIn(folder, old(disk.fs), old(files), folderDeleted0, names, disk.clock, folderDeleted, out, disk.fs)
      ensures var r := DeleteAll(folder, DeleteState(old(disk.fs), old(files), folderDeleted0, false), names);
        r.AllDeleted? ==> files == r.state.files
    {
      ghost var s0 := DeleteState(disk.fs, files, folderDeleted0, false);
      folderDeleted := folderDeleted0;
      var deleted := false;
      var i := 0;
      while i < |names|
        invariant 0 <= i <= |names| && Valid()
        invariant DeleteAll(folder, s0, names) == DeleteAll(folder, DeleteState(disk.fs, files, folderDeleted, deleted), names[i..])
        invariant Within(disk.fs, old(disk.fs))
      {
        assert names[i..][0] == names[i] && names[i..][1..] == names[i + 1..];
        ghost var s := DeleteState(disk.fs, files, folderDeleted, deleted);
        folderDeleted, out := DeleteEntry(names[i], folderDeleted, deleted);
        if out.Throw? {
          WithinTrans(old(disk.fs), s.fs, disk.fs);
          return;
        }
        DeleteStepRemoves(folder, s, names[i]);
        WithinTrans(old(disk.fs), s.fs, disk.fs);
        deleted := true;
        i := i + 1;
      }
      assert names[i..] == [];
      if deleted {
        SaveFilesToCache();
      }
      out := Pass;
    }

    /** One pass of the loop in `deleteFiles`: the effect `DeleteStep` describes, or a throw. */
    method DeleteEntry(name: string, folderDeleted0: bool, ghost deleted: bool) returns (folderDeleted: bool, out: Outcome)
      requires Valid()
      modifies this, disk
      ensures Valid()
      ensures var r := DeleteStep(folder, DeleteState(old(disk.fs), old(files), folderDeleted0, deleted), name);
        && (out.Pass? <==> r.Some?)
        && (r.Some? ==> disk.fs == r.value.fs && files == r.value.files && folderDeleted == r.value.folderDeleted)
        && (r.None? ==> DeleteFailure(folder, old(disk.fs), disk.fs, name, out.error))
      ensures out.Throw? ==> Within(disk.fs, old(disk.fs))
    {
      folderDeleted := folderDeleted0;
      var path := folder + name;
      if disk.IsDir(path) {
        out := RmdirRecursive(path);
        if out.Throw? {
          return;
        }
        folderDeleted := true;
      } else {
        var ok := disk.Unlink(path);
        if !ok {
          return folderDeleted, Throw(Error(StorageFailure, "cannot delete " + Quote(name)));
        }
        out := Pass;
      }
      files := files.Remove(Basename(path));
    }

    /**
     * `mkDir`: an existing directory is left as it is; otherwise the
     * directory is created, listed and the sidecar rewritten, or the call
     * throws when it cannot be created. Modes are not modelled.
     */
    method MkDir(newFolder: string) returns (out: Outcome)
      requires Valid()
      modifies this, disk
      ensures Valid()
      ensures (out, disk.fs, files) == MkDirEffect(probe, thumbnailSize, folder, disk.clock, old(disk.fs), old(files), newFolder)
    {
      var fullPath := folder + newFolder;
      if disk.IsDir(fullPath) {
        return Pass;
      }
      var ok := disk.Mkdir(fullPath);
      if !ok {
        return Throw(Error(StorageFailure, "cannot create folder " + Quote(newFolder)));
      }
      out := LoadFile(fullPath);
      SaveFilesToCache();
    }

    /**
     * `rename`: the entry (with its tree) moves within the folder; the old
     * name leaves the listing, the new one is read in and the sidecar
     * rewritten, unless reading it in throws. When the rename fails nothing
     * changes and the call throws.
     */
    method Rename(oldName: string, newName: string, renamedFolder0: bool) returns (renamedFolder: bool, out: Outcome)
      requires Valid()
      modifies this, disk
      ensures Valid()
      ensures (out, disk.fs, files, renamedFolder) ==
        RenameEffect(probe, thumbnailSize, folder, disk.clock, old(disk.fs), old(files), oldName, newName, renamedFolder0)
    {
      var oldFullPath := folder + oldName;
      var newFullPath := folder + newName;
      var ok := disk.Rename(oldFullPath, newFullPath);
      if !ok {
        return renamedFolder0, Throw(Error(StorageFailure, "cannot rename " + Quote(oldName) + " to " + Quote(newName)));
      }
      assert Resolve(oldFullPath) + [] == Resolve(oldFullPath) && Resolve(newFullPath) + [] == Resolve(newFullPath);
      MoveTreeAt(old(disk.fs), Resolve(oldFullPath), Resolve(newFullPath), []);
      renamedFolder := disk.IsDir(newFullPath);
      files := files.Remove(oldName);
      out := LoadFile(newFullPath);
      if out.Throw? {
        return;
      }
      SaveFilesToCache();
    }

    /** `loadFile`: the entry at `path` is (re)read and listed under its base name, or reading it throws. */
    method LoadFile(path: string) returns (out: Outcome)
      requires Valid() && Resolve(path) in disk.fs
      modifies this
      ensures Valid()
      ensures var r := EntryFor(probe, thumbnailSize, Basename(path), Resolve(path), disk.fs[Resolve(path)]);
        && (r.Ok? ==> out == Pass && files == old(files).Put(Basename(path), r.value))
        && (r.Fail? ==> out == Throw(r.error) && files == old(files))
    {
      var p := Resolve(path);
      var r := EntryFor(probe, thumbnailSize, Basename(path), p, disk.fs[p]);
      if r.Fail? {
        return Throw(r.error);
      }
      var file := r.value;
      files := files.Put(file.name, file);
      out := Pass;
    }

    /** `saveFilesToCache`: the listing is written to the sidecar, sorted by name. */
    method SaveFilesToCache()
      requires Valid()
      modifies disk
      ensures Valid()
      ensures disk.fs == WithCache(old(disk.fs), Resolve(cacheFile), files, disk.clock)
    {
      var records := CacheRecords(files);
      var written := disk.Write(cacheFile, Records(records));
    }

    /** `loadFilesFromCache`: false when the sidecar cannot be read or decoded. */
    method LoadFilesFromCache() returns (loaded: bool)
      requires Valid()
      modifies this
      ensures Valid()
      ensures loaded == (IsFileAt(disk.fs, Resolve(cacheFile)) && disk.fs[Resolve(cacheFile)].content.Records?)
      ensures loaded ==> files == FromRecords(disk.fs[Resolve(cacheFile)].content.records)
      ensures !loaded ==> files == old(files)
    {
      var c := Resolve(cacheFile);
      if !(c in disk.fs && disk.fs[c].FileNode? && disk.fs[c].content.Records?) {
        return false;
      }
      var cache := disk.fs[c].content.records;
      var read := Empty();
      var i := 0;
      while i < |cache|
        invariant 0 <= i <= |cache| && read == FromRecords(cache[..i])
      {
        FromRecordsSnoc(cache, i);
        read := read.Put(cache[i].name, FromRecord(cache[i]));
        i := i + 1;
      }
      assert cache[..|cache|] == cache;
      files := read;
      return true;
    }
  }
}
