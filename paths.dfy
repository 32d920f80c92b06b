/**
 * A path string read by its text alone: split on '/', ignore empty and "."
 * components, let ".." climb one level (never above the root). Unlike the
 * operating system, it does not check that the component ".." climbs out of
 * is a directory, nor that a trailing '/' follows one. Every path is taken
 * from the root, so a relative path behaves as if the working directory
 * were the root.
 */
module Paths {
  import opened PhpStrings

  /** A resolved path: the components from the root downwards. */
  type Path = seq<string>

  /** A component that can name a directory entry. */
  predicate ProperName(n: string) {
    n != "" && n != "." && n != ".." && '/' !in n
  }

  predicate AllProper(p: Path) {
    forall i :: 0 <= i < |p| ==> ProperName(p[i])
  }

  function Parent(p: Path): Path
    requires p != []
  {
    p[..|p| - 1]
  }

  /** The components of `s` between slashes, empty ones included. */
  function Split(s: string): (parts: seq<string>)
    ensures |parts| >= 1
    ensures forall i :: 0 <= i < |parts| ==> '/' !in parts[i]
    decreases |s|
  {
    var k := AfterLastSlash(s);
    if k == 0 then [s] else Split(s[..k - 1]) + [s[k..]]
  }

  /** One component applied to the directory reached so far. */
  function Step(at: Path, part: string): Path {
    if part == "" || part == "." then at
    else if part == ".." then (if at == [] then [] else Parent(at))
    else at + [part]
  }

  function Normalize(parts: seq<string>): (p: Path)
    requires forall i :: 0 <= i < |parts| ==> '/' !in parts[i]
    ensures AllProper(p)
  {
    if parts == [] then [] else Step(Normalize(parts[..|parts| - 1]), parts[|parts| - 1])
  }

  /** The entry a path string names. */
  function Resolve(s: string): (p: Path)
    ensures AllProper(p)
  {
    Normalize(Split(s))
  }

  lemma AfterLastSlashAt(s: string, k: nat)
    requires 0 < k <= |s| && s[k - 1] == '/'
    requires forall i :: k <= i < |s| ==> s[i] != '/'
    ensures AfterLastSlash(s) == k
  {
  }

  /** Appending "/name" descends into `name`. */
  lemma ResolveJoin(dir: string, name: string)
    requires ProperName(name)
    ensures Resolve(dir + "/" + name) == Resolve(dir) + [name]
  {
    var s := dir + "/" + name;
    AfterLastSlashAt(s, |dir| + 1);
    assert s[..|dir|] == dir && s[|dir| + 1..] == name;
    assert Split(s) == Split(dir) + [name];
    assert (Split(dir) + [name])[..|Split(dir)|] == Split(dir);
  }

  /** Appending "/.." climbs to the parent, but never above the root. */
  lemma ResolveClimb(dir: string)
    ensures Resolve(dir + "/" + "..") == if Resolve(dir) == [] then [] else Parent(Resolve(dir))
  {
    var s := dir + "/" + "..";
    AfterLastSlashAt(s, |dir| + 1);
    assert s[..|dir|] == dir && s[|dir| + 1..] == "..";
    assert Split(s) == Split(dir) + [".."];
    assert (Split(dir) + [".."])[..|Split(dir)|] == Split(dir);
  }

  lemma ResolveEmpty()
    ensures Resolve("") == []
  {
    assert Split("") == [""];
    assert Normalize([""]) == Step(Normalize([]), "");
  }

  /** A trailing slash names the same entry. */
  lemma ResolveTrailingSlash(dir: string)
    ensures Resolve(dir + "/") == Resolve(dir)
  {
    var s := dir + "/";
    AfterLastSlashAt(s, |s|);
    assert s[..|s| - 1] == dir && s[|s|..] == "";
    assert Split(s) == Split(dir) + [""];
    assert (Split(dir) + [""])[..|Split(dir)|] == Split(dir);
  }

  /** Any number of trailing slashes names the same entry. */
  lemma {:induction false} ResolveTrimmed(s: string)
    ensures Resolve(TrimRight(s, {'/'}) + "/") == Resolve(s)
    decreases |s|
  {
    if s != [] && s[|s| - 1] == '/' {
      var t := s[..|s| - 1];
      ResolveTrimmed(t);
      assert TrimRight(s, {'/'}) == TrimRight(t, {'/'});
      assert s == t + "/";
      ResolveTrailingSlash(t);
    } else {
      assert TrimRight(s, {'/'}) == s;
      ResolveTrailingSlash(s);
    }
  }

  /** The entry of "dir/" + name, for a directory string already ending in '/'. */
  lemma ResolveChild(dir: string, name: string)
    requires ProperName(name)
    ensures Resolve(TrimRight(dir, {'/'}) + "/" + name) == Resolve(dir) + [name]
  {
    var t := TrimRight(dir, {'/'});
    ResolveJoin(t, name);
    ResolveTrimmed(dir);
    ResolveTrailingSlash(t);
  }

  /** "dir/" + "/" + name still descends into `name` from dir. */
  lemma ResolveDoubleSlash(dir: string, name: string)
    requires ProperName(name)
    ensures Resolve(dir + "/" + "/" + name) == Resolve(dir) + [name]
  {
    ResolveJoin(dir + "/", name);
    ResolveTrailingSlash(dir);
    assert dir + "/" + "/" + name == (dir + "/") + "/" + name;
  }

  /** The canonical string of a resolved path ("/a/b"; "" for the root), as `realpath` gives it. */
  function PathString(p: Path): string {
    if p == [] then "" else PathString(Parent(p)) + "/" + p[|p| - 1]
  }

  lemma {:induction false} ResolvePathString(p: Path)
    requires AllProper(p)
    ensures Resolve(PathString(p)) == p
  {
    if p != [] {
      var q := Parent(p);
      var n := p[|p| - 1];
      assert AllProper(q) && ProperName(n);
      ResolvePathString(q);
      var d := PathString(q);
      assert PathString(p) == d + "/" + n;
      ResolveJoin(d, n);
      assert Resolve(d) == q;
      calc {
        Resolve(PathString(p));
        Resolve(d + "/" + n);
        q + [n];
        p;
      }
    } else {
      assert Split("") == [""];
      assert Normalize([""]) == Step(Normalize([]), "");
    }
  }

  /** A path whose basename is a proper name resolves to an entry of that name. */
  lemma ResolveEndsWithBasename(s: string)
    requires ProperName(Basename(s))
    ensures Resolve(s) != [] && Resolve(s)[|Resolve(s)| - 1] == Basename(s)
  {
    var t := TrimRight(s, {'/'});
    var k := AfterLastSlash(t);
    var b := t[k..];
    assert b == Basename(s);
    if k == 0 {
      assert t == b;
      assert Split(t) == [t];
      assert Normalize([t]) == Step(Normalize([]), t);
      assert Resolve(t) == [b];
    } else {
      assert t == t[..k - 1] + "/" + b;
      ResolveJoin(t[..k - 1], b);
    }
    ResolveTrimmed(s);
    ResolveTrailingSlash(t);
  }
}
