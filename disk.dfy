/**
 * The file system the local storage works on, as a tree of nodes keyed by
 * resolved path, and the PHP file functions the core calls on it (is_dir,
 * is_file, mkdir, rmdir, unlink, rename, copy, file_put_contents). Each of
 * them either succeeds with the effect stated, or fails and changes nothing.
 */
module Disk {
  import opened Paths
  import opened Entries

  /**
   * The deepest path the operating system accepts; operations whose target
   * would lie deeper fail (the model's stand-in for ENAMETOOLONG).
   */
  const MaxDepth: nat := 32

  /** What a file holds: raw bytes, or a directory cache listing written by the cache itself. */
  datatype Content = Raw(bytes: seq<bv8>) | Records(records: seq<CacheRecord>)

  datatype Node = FileNode(content: Content, mtime: int) | DirNode(mtime: int)

  type Fs = map<Path, Node>

  predicate IsDirAt(fs: Fs, p: Path) {
    p in fs && fs[p].DirNode?
  }

  predicate IsFileAt(fs: Fs, p: Path) {
    p in fs && fs[p].FileNode?
  }

  /** A tree: the root is a directory, every other node sits in a directory, every path is proper and not too deep. */
  ghost predicate WellFormed(fs: Fs) {
    && IsDirAt(fs, [])
    && (forall p {:trigger Parent(p)} :: p in fs && p != [] ==> IsDirAt(fs, Parent(p)))
    && (forall p {:trigger p in fs} :: p in fs ==> |p| <= MaxDepth && AllProper(p))
  }

  /** Names of the entries directly inside `dir`. */
  function ChildNames(fs: Fs, dir: Path): (r: set<string>)
    ensures forall n :: n in r <==> dir + [n] in fs
  {
    var r := set q | q in fs && |q| == |dir| + 1 && q[..|dir|] == dir :: q[|dir|];
    assert forall n :: n in r <==> dir + [n] in fs by {
      forall n ensures n in r <==> dir + [n] in fs {
        if n in r {
          var q :| q in fs && |q| == |dir| + 1 && q[..|dir|] == dir && q[|dir|] == n;
          assert q == dir + [n];
        }
        if dir + [n] in fs {
          var q := dir + [n];
          assert q[..|dir|] == dir && q[|dir|] == n;
        }
      }
    }
    r
  }

  lemma ChildNamesIff(fs: Fs, dir: Path, n: string)
    ensures n in ChildNames(fs, dir) <==> dir + [n] in fs
  {
  }

  /** Every proper prefix of an existing path is an existing directory. */
  lemma {:induction false} AncestorIsDir(fs: Fs, p: Path, q: Path)
    requires WellFormed(fs) && q in fs && p < q
    ensures IsDirAt(fs, p)
    decreases |q| - |p|
  {
    if |q| == |p| + 1 {
      assert Parent(q) == p;
    } else {
      assert p < Parent(q);
      AncestorIsDir(fs, p, Parent(q));
    }
  }

  /** Nothing lies under a file. */
  lemma NothingUnderFile(fs: Fs, f: Path, q: Path)
    requires WellFormed(fs) && IsFileAt(fs, f) && q in fs
    ensures !(f < q)
  {
    if f < q {
      AncestorIsDir(fs, f, q);
    }
  }

  // ----- preconditions of the system calls, as the operating system checks them

  predicate CanMkdir(fs: Fs, p: Path) {
    p != [] && p !in fs && IsDirAt(fs, Parent(p)) && |p| <= MaxDepth
  }

  predicate CanRmdir(fs: Fs, p: Path) {
    p != [] && IsDirAt(fs, p) && ChildNames(fs, p) == {}
  }

  /** A regular file may be (re)written at `p`. */
  predicate CanWrite(fs: Fs, p: Path) {
    p != [] && !IsDirAt(fs, p) && IsDirAt(fs, Parent(p)) && |p| <= MaxDepth
  }

  predicate CanCopy(fs: Fs, from: Path, to: Path) {
    IsFileAt(fs, from) && from != to && CanWrite(fs, to)
  }

  /**
   * rename(2): the source exists and is not the root; the target's directory
   * exists; a directory is not moved into itself; an existing target is
   * replaced only by an entry of its own kind, and a directory only when it is
   * empty; nothing moved ends up too deep.
   */
  predicate CanRename(fs: Fs, from: Path, to: Path) {
    && from in fs && from != [] && to != [] && AllProper(to)
    && IsDirAt(fs, Parent(to))
    && !(from < to)
    && (|| from == to || to !in fs
        || (fs[from].FileNode? && fs[to].FileNode?)
        || (fs[from].DirNode? && fs[to].DirNode? && ChildNames(fs, to) == {}))
    && (forall q {:trigger q in fs} :: q in fs && from <= q ==> |to| + |q| - |from| <= MaxDepth)
  }

  // ----- effects

  /** `fs` without `p` and everything under it. */
  function RemoveTree(fs: Fs, p: Path): (r: Fs)
    ensures forall q :: q in r <==> q in fs && !(p <= q)
    ensures forall q :: q in r ==> r[q] == fs[q]
  {
    map q | q in fs && !(p <= q) :: fs[q]
  }

  /** The path whose node ends up at `p` when the subtree at `from` moves to `to`. */
  function Origin(fs: Fs, from: Path, to: Path, p: Path): Path {
    if to <= p && from + p[|to|..] in fs then from + p[|to|..] else p
  }

  /** `fs` with the subtree at `from` relocated to `to`; a moved node replaces what was there. */
  function MoveTree(fs: Fs, from: Path, to: Path): Fs {
    var keys := (set q | q in fs && !(from <= q)) + (set q | q in fs && from <= q :: to + q[|from|..]);
    map p | p in keys && Origin(fs, from, to, p) in fs :: fs[Origin(fs, from, to, p)]
  }

  lemma MoveTreeAt(fs: Fs, from: Path, to: Path, s: Path)
    requires from + s in fs
    ensures to + s in MoveTree(fs, from, to) && MoveTree(fs, from, to)[to + s] == fs[from + s]
  {
    var q := from + s;
    assert q[|from|..] == s;
    assert (to + s)[|to|..] == s;
  }

  lemma MoveTreeKeys(fs: Fs, from: Path, to: Path, q: Path)
    requires q in MoveTree(fs, from, to)
    ensures (q in fs && !(from <= q) && MoveTree(fs, from, to)[q] == fs[q] && !(to <= q && from + q[|to|..] in fs))
         || (to <= q && from + q[|to|..] in fs && MoveTree(fs, from, to)[q] == fs[from + q[|to|..]])
  {
    if q in set q' | q' in fs && from <= q' :: to + q'[|from|..] {
      var q' :| q' in fs && from <= q' && to + q'[|from|..] == q;
      assert q[|to|..] == q'[|from|..];
      assert from + q'[|from|..] == q';
    }
  }

  /** Before a rename the kept part and the moved part do not overlap except at the target. */
  lemma MoveTreeKept(fs: Fs, from: Path, to: Path, q: Path)
    requires q in fs && !(from <= q) && !(to <= q && from + q[|to|..] in fs)
    ensures q in MoveTree(fs, from, to) && MoveTree(fs, from, to)[q] == fs[q]
  {
  }

  // ----- each effect keeps the tree well formed

  lemma MkdirKeepsTree(fs: Fs, p: Path, n: Node)
    requires WellFormed(fs) && CanMkdir(fs, p) && AllProper(p)
    ensures WellFormed(fs[p := n])
  {
  }

  lemma WriteKeepsTree(fs: Fs, p: Path, n: Node)
    requires WellFormed(fs) && CanWrite(fs, p) && AllProper(p) && n.FileNode?
    ensures WellFormed(fs[p := n])
  {
    var r := fs[p := n];
    forall q | q in r && q != [] ensures IsDirAt(r, Parent(q)) {
      if q != p && Parent(q) == p {
        AncestorIsDir(fs, p, q);
      }
    }
  }

  lemma RemoveTreeKeepsTree(fs: Fs, p: Path)
    requires WellFormed(fs) && p != []
    ensures WellFormed(RemoveTree(fs, p))
  {
    var r := RemoveTree(fs, p);
    forall q | q in r && q != [] ensures IsDirAt(r, Parent(q)) {
      assert !(p <= Parent(q));
    }
  }

  /** Removing a node with nothing under it keeps the tree. */
  lemma RemoveLeafKeepsTree(fs: Fs, p: Path)
    requires WellFormed(fs) && p in fs && p != []
    requires forall q :: q in fs ==> !(p < q)
    ensures WellFormed(fs - {p})
  {
    forall q | q in fs - {p} && q != [] ensures Parent(q) != p {
      assert Parent(q) < q;
    }
  }

  /** An empty directory has nothing under it. */
  lemma EmptyDirIsLeaf(fs: Fs, p: Path, q: Path)
    requires WellFormed(fs) && CanRmdir(fs, p) && q in fs
    ensures !(p < q)
  {
    if p < q {
      var c := q[..|p| + 1];
      assert c == p + [q[|p|]];
      ChildNamesIff(fs, p, q[|p|]);
      if c == q {
      } else {
        assert c < q;
        AncestorIsDir(fs, c, q);
      }
    }
  }

  /** Before a rename to a different place, nothing lies strictly under the target. */
  lemma NothingUnderTarget(fs: Fs, from: Path, to: Path, q: Path)
    requires WellFormed(fs) && CanRename(fs, from, to) && from != to && q in fs
    ensures !(to < q)
  {
    if to < q {
      AncestorIsDir(fs, to, q);
      if ChildNames(fs, to) == {} {
        EmptyDirIsLeaf(fs, to, q);
      }
    }
  }

  /** A moved node lands in a directory. */
  lemma MovedNodeHasParent(fs: Fs, from: Path, to: Path, s: Path)
    requires WellFormed(fs) && CanRename(fs, from, to) && from != to && from + s in fs
    ensures IsDirAt(MoveTree(fs, from, to), Parent(to + s))
  {
    if s == [] {
      assert to + s == to;
      var p := Parent(to);
      assert p < to;
      assert !(from <= p);
      assert !(to <= p);
      MoveTreeKept(fs, from, to, p);
    } else {
      var t := s[..|s| - 1];
      assert Parent(from + s) == from + t;
      assert Parent(to + s) == to + t;
      MoveTreeAt(fs, from, to, t);
    }
  }

  /** A node that stays put still has its directory. */
  lemma KeptNodeHasParent(fs: Fs, from: Path, to: Path, q: Path)
    requires WellFormed(fs) && CanRename(fs, from, to) && from != to
    requires q in fs && q != [] && !(from <= q)
    ensures IsDirAt(MoveTree(fs, from, to), Parent(q))
  {
    var p := Parent(q);
    assert p < q;
    if to <= p {
      assert to < q;
      NothingUnderTarget(fs, from, to, q);
    }
    MoveTreeKept(fs, from, to, p);
  }

  /** Moved paths stay proper and within the depth limit. */
  lemma MovedPathProper(fs: Fs, from: Path, to: Path, s: Path)
    requires WellFormed(fs) && CanRename(fs, from, to) && from + s in fs
    ensures |to + s| <= MaxDepth && AllProper(to + s)
  {
    var q := from + s;
    assert from <= q;
    forall i | 0 <= i < |to + s| ensures ProperName((to + s)[i]) {
      if i >= |to| {
        assert (to + s)[i] == q[|from| + i - |to|];
      }
    }
  }

  /** Renaming a path to itself changes nothing. */
  lemma MoveOntoItself(fs: Fs, p: Path)
    ensures MoveTree(fs, p, p) == fs
  {
    var r := MoveTree(fs, p, p);
    forall q | q in r ensures q in fs && r[q] == fs[q] {
      MoveTreeKeys(fs, p, p, q);
    }
    forall q | q in fs ensures q in r {
      if p <= q {
        assert q == p + q[|p|..];
        MoveTreeAt(fs, p, p, q[|p|..]);
      }
    }
  }

  lemma MoveTreeKeepsTree(fs: Fs, from: Path, to: Path)
    requires WellFormed(fs) && CanRename(fs, from, to)
    ensures WellFormed(MoveTree(fs, from, to))
  {
    var r := MoveTree(fs, from, to);
    if from == to {
      MoveOntoItself(fs, from);
      return;
    }
    assert IsDirAt(r, []) by {
      assert !(from <= []);
      assert !(to <= []);
      MoveTreeKept(fs, from, to, []);
    }
    forall q | q in r && q != []
      ensures IsDirAt(r, Parent(q)) && |q| <= MaxDepth && AllProper(q)
    {
      MoveTreeKeys(fs, from, to, q);
      if to <= q && from + q[|to|..] in fs {
        assert q == to + q[|to|..];
        MovedNodeHasParent(fs, from, to, q[|to|..]);
        MovedPathProper(fs, from, to, q[|to|..]);
      } else {
        KeptNodeHasParent(fs, from, to, q);
      }
    }
  }

  /**
   * The server's file system. `clock` is the time of the current request
   * (`time()`); every node the request creates or rewrites carries it.
   */
  class Disk {
    var fs: Fs
    const clock: int

    ghost predicate Valid()
      reads this
    {
      WellFormed(fs)
    }

    /** An empty file system: the root directory alone. */
    constructor (clock: int)
      ensures Valid() && this.clock == clock
      ensures fs == map[[] := DirNode(clock)]
    {
      this.clock := clock;
      fs := map[[] := DirNode(clock)];
    }

    /** `is_dir($path)` */
    predicate IsDir(path: string)
      reads this
    {
      path != "" && IsDirAt(fs, Resolve(path))
    }

    /** `is_file($path)` */
    predicate IsFile(path: string)
      reads this
    {
      path != "" && IsFileAt(fs, Resolve(path))
    }

    /** `mkdir($path, $mode)`; modes are not tracked. */
    method Mkdir(path: string) returns (ok: bool)
      requires Valid()
      modifies this
      ensures Valid()
      ensures ok == (path != "" && CanMkdir(old(fs), Resolve(path)))
      ensures fs == if ok then old(fs)[Resolve(path) := DirNode(clock)] else old(fs)
    {
      ok := path != "" && CanMkdir(fs, Resolve(path));
      if ok {
        MkdirKeepsTree(fs, Resolve(path), DirNode(clock));
        fs := fs[Resolve(path) := DirNode(clock)];
      }
    }

    /** `rmdir($path)`: only an empty directory other than the root. */
    method Rmdir(path: string) returns (ok: bool)
      requires Valid()
      modifies this
      ensures Valid()
      ensures ok == (path != "" && CanRmdir(old(fs), Resolve(path)))
      ensures fs == if ok then old(fs) - {Resolve(path)} else old(fs)
    {
      var p := Resolve(path);
      ok := path != "" && CanRmdir(fs, p);
      if ok {
        forall q | q in fs ensures !(p < q) {
          EmptyDirIsLeaf(fs, p, q);
        }
        RemoveLeafKeepsTree(fs, p);
        fs := fs - {p};
      }
    }

    /** `unlink($path)`: only a file. */
    method Unlink(path: string) returns (ok: bool)
      requires Valid()
      modifies this
      ensures Valid()
      ensures ok == (path != "" && IsFileAt(old(fs), Resolve(path)))
      ensures fs == if ok then old(fs) - {Resolve(path)} else old(fs)
    {
      var p := Resolve(path);
      ok := path != "" && IsFileAt(fs, p);
      if ok {
        forall q | q in fs ensures !(p < q) {
          NothingUnderFile(fs, p, q);
        }
        RemoveLeafKeepsTree(fs, p);
        fs := fs - {p};
      }
    }

    /** `rename($from, $to)` */
    method Rename(from: string, to: string) returns (ok: bool)
      requires Valid()
      modifies this
      ensures Valid()
      ensures ok == (from != "" && to != "" && CanRename(old(fs), Resolve(from), Resolve(to)))
      ensures fs == if ok then MoveTree(old(fs), Resolve(from), Resolve(to)) else old(fs)
    {
      ok := from != "" && to != "" && CanRename(fs, Resolve(from), Resolve(to));
      if ok {
        MoveTreeKeepsTree(fs, Resolve(from), Resolve(to));
        fs := MoveTree(fs, Resolve(from), Resolve(to));
      }
    }

    /** `copy($from, $to)`: a regular file onto a new or existing file. */
    method Copy(from: string, to: string) returns (ok: bool)
      requires Valid()
      modifies this
      ensures Valid()
      ensures ok == (from != "" && to != "" && CanCopy(old(fs), Resolve(from), Resolve(to)))
      ensures fs == if ok then old(fs)[Resolve(to) := FileNode(old(fs)[Resolve(from)].content, clock)] else old(fs)
    {
      ok := from != "" && to != "" && CanCopy(fs, Resolve(from), Resolve(to));
      if ok {
        var n := FileNode(fs[Resolve(from)].content, clock);
        WriteKeepsTree(fs, Resolve(to), n);
        fs := fs[Resolve(to) := n];
      }
    }

    /** `file_put_contents($path, $content)` */
    method Write(path: string, content: Content) returns (ok: bool)
      requires Valid()
      modifies this
      ensures Valid()
      ensures ok == (path != "" && CanWrite(old(fs), Resolve(path)))
      ensures fs == if ok then old(fs)[Resolve(path) := FileNode(content, clock)] else old(fs)
    {
      ok := path != "" && CanWrite(fs, Resolve(path));
      if ok {
        WriteKeepsTree(fs, Resolve(path), FileNode(content, clock));
        fs := fs[Resolve(path) := FileNode(content, clock)];
      }
    }
  }
}
