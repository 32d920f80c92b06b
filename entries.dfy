/**
 * One directory entry as the file manager reports it (src/File.php), and the
 * record the directory cache persists for it.
 */
module Entries {
  import opened Outcomes

  const TypeFile: string := "file"
  const TypeDir: string := "dir"
  const TypeLink: string := "link"

  /** A nullable typed property that has no default: it must be assigned before it is read. */
  datatype Slot<+T> = Unset | Null | Val(v: T)

  /** The value a getter returns; reading an unassigned property is an error, hence the precondition. */
  function Read<T>(s: Slot<T>): (r: Option<T>)
    requires !s.Unset?
    ensures r.Some? <==> s.Val?
    ensures s.Val? ==> r.value == s.v
  {
    match s
    case Null => None
    case Val(v) => Some(v)
  }

  function Assign<T>(o: Option<T>): (s: Slot<T>)
    ensures !s.Unset?
    ensures Read(s) == o
  {
    match o
    case None => Null
    case Some(v) => Val(v)
  }

  /**
   * A File object. Name and type are fixed by the constructor; the setters
   * of the PHP class are record updates (`f.(size := n)`).
   */
  datatype File = File(
    name: string,
    kind: string,
    size: int,
    modified: string,
    width: Slot<int>,
    height: Slot<int>,
    thumbnail: Slot<string>,
    directoryUrl: string)
  {
    /** Width, height and thumbnail have all been assigned, so every getter may be called. */
    predicate Initialised() {
      !width.Unset? && !height.Unset? && !thumbnail.Unset?
    }

    /** `getUrl()` */
    function Url(): (u: string)
      ensures |u| == |directoryUrl| + |name|
      ensures u[..|directoryUrl|] == directoryUrl && u[|directoryUrl|..] == name
    {
      directoryUrl + name
    }
  }

  /** `new File($name, $type)`: size 0, modified "", directory URL "", the nullable three unassigned. */
  function NewFile(name: string, kind: string): (f: File)
    ensures f.name == name && f.kind == kind
    ensures f.size == 0 && f.modified == "" && f.directoryUrl == ""
    ensures f.width.Unset? && f.height.Unset? && f.thumbnail.Unset?
    ensures f.Url() == name
  {
    File(name, kind, 0, "", Unset, Unset, Unset, "")
  }

  /** A folder of the storage's tree (src/Folder.php): its name, its path from the storage root, its sub-folders. */
  datatype Folder = Folder(name: string, path: string, folders: seq<Folder>)

  /** The value of one entry in the directory cache file. */
  datatype CacheRecord = CacheRecord(
    name: string,
    kind: string,
    size: int,
    modified: string,
    width: Option<int>,
    height: Option<int>,
    thumbnail: Option<string>)

  /** The File the cache loader builds from one record. */
  function FromRecord(r: CacheRecord): (f: File)
    ensures f.Initialised() && f.directoryUrl == ""
    ensures f.name == r.name && f.kind == r.kind && f.size == r.size && f.modified == r.modified
    ensures Read(f.width) == r.width && Read(f.height) == r.height && Read(f.thumbnail) == r.thumbnail
  {
    NewFile(r.name, r.kind).(size := r.size, modified := r.modified,
      width := Assign(r.width), height := Assign(r.height), thumbnail := Assign(r.thumbnail))
  }

  /** The record the cache writer stores for one File; reading it back gives the same File. */
  function ToRecord(f: File): (r: CacheRecord)
    requires f.Initialised()
    ensures r.name == f.name
    ensures FromRecord(r) == f.(directoryUrl := "")
  {
    CacheRecord(f.name, f.kind, f.size, f.modified, Read(f.width), Read(f.height), Read(f.thumbnail))
  }

  /** Records lose nothing: a record read in and written out again is the same record. */
  lemma RecordRoundTrip(r: CacheRecord)
    ensures ToRecord(FromRecord(r)) == r
  {
  }
}
