/**
 * The answer the connector sends back (src/Response.php): an HTTP status, a
 * message, optionally a listing, the storage whose folder tree changed, or
 * every storage, and the domain allowed to read it. `toStdClass` turns it
 * into the JSON value the client receives; here that value is a `Json`
 * tree, not its text.
 */
module Responses {
  import opened Outcomes
  import opened PhpStrings
  import opened Entries

  const StatusOk: int := 200
  const StatusBadRequest: int := 400

  const DomainError: string := "expected domain including protocol or *"

  /** A JSON value: what `json_encode` would write out. */
  datatype Json =
    | JNull
    | JBool(b: bool)
    | JInt(i: int)
    | JString(s: string)
    | JArray(items: seq<Json>)
    | JObject(members: seq<Member>)

  /** One property of a JSON object, in the order it was added. */
  datatype Member = Member(key: string, value: Json)

  function Keys(ms: seq<Member>): (ks: seq<string>)
    ensures |ks| == |ms| && forall i :: 0 <= i < |ms| ==> ks[i] == ms[i].key
  {
    seq(|ms|, i requires 0 <= i < |ms| => ms[i].key)
  }

  lemma KeysAppend(a: seq<Member>, b: seq<Member>)
    ensures Keys(a + b) == Keys(a) + Keys(b)
  {
  }

  predicate DistinctKeys(ms: seq<Member>) {
    forall i, j :: 0 <= i < j < |ms| ==> ms[i].key != ms[j].key
  }

  // ---------------------------------------------------------------------------
  // Files: `filesToStdClass`.

  /** The eight properties of a listed file, in the order the client receives them. */
  const FileKeys: seq<string> := ["name", "type", "size", "modified", "url", "width", "height", "thumbnail"]

  function IntOrNull(o: Option<int>): Json {
    match o
    case None => JNull
    case Some(i) => JInt(i)
  }

  function StringOrNull(o: Option<string>): Json {
    match o
    case None => JNull
    case Some(s) => JString(s)
  }

  /** One file as `filesToStdClass` writes it; every getter is called, so all must have been set. */
  function FileToJson(f: File): (j: Json)
    requires f.Initialised()
    ensures j.JObject? && Keys(j.members) == FileKeys
    ensures j.members[4].value == JString(f.directoryUrl + f.name)
  {
    JObject([
      Member("name", JString(f.name)),
      Member("type", JString(f.kind)),
      Member("size", JInt(f.size)),
      Member("modified", JString(f.modified)),
      Member("url", JString(f.Url())),
      Member("width", IntOrNull(Read(f.width))),
      Member("height", IntOrNull(Read(f.height))),
      Member("thumbnail", StringOrNull(Read(f.thumbnail)))])
  }

  function IntSlot(j: Json): Option<Slot<int>> {
    match j
    case JNull => Some(Null)
    case JInt(i) => Some(Val(i))
    case _ => None
  }

  function StringSlot(j: Json): Option<Slot<string>> {
    match j
    case JNull => Some(Null)
    case JString(s) => Some(Val(s))
    case _ => None
  }

  /**
   * What a client can rebuild from one listed file: the directory URL is
   * the URL without the trailing name.
   */
  function FileFromJson(j: Json): (r: Option<File>)
    ensures r.Some? ==> r.value.Initialised()
  {
    if !j.JObject? || Keys(j.members) != FileKeys then None
    else
      var ms := j.members;
      var w, h, t := IntSlot(ms[5].value), IntSlot(ms[6].value), StringSlot(ms[7].value);
      if !ms[0].value.JString? || !ms[1].value.JString? || !ms[2].value.JInt? || !ms[3].value.JString?
         || !ms[4].value.JString? || w.None? || h.None? || t.None?
      then None
      else
        var name, url := ms[0].value.s, ms[4].value.s;
        if |name| <= |url| && url[|url| - |name|..] == name then
          Some(File(name, ms[1].value.s, ms[2].value.i, ms[3].value.s, w.value, h.value, t.value,
                    url[..|url| - |name|]))
        else None
  }

  /** The eight properties lose nothing: the file, its directory URL included, can be read back. */
  lemma FileJsonRoundTrip(f: File)
    requires f.Initialised()
    ensures FileFromJson(FileToJson(f)) == Some(f)
  {
    var url := f.Url();
    assert url[|url| - |f.name|..] == f.name && url[..|url| - |f.name|] == f.directoryUrl;
  }

  /** `filesToStdClass`: every file, in order. */
  function FilesToJson(files: seq<File>): (items: seq<Json>)
    requires forall i :: 0 <= i < |files| ==> files[i].Initialised()
    ensures |items| == |files|
  {
    seq(|files|, i requires 0 <= i < |files| => FileToJson(files[i]))
  }

  function FilesFromJson(items: seq<Json>): (r: Option<seq<File>>)
    ensures r.Some? ==> |r.value| == |items|
  {
    if items == [] then Some([])
    else match (FileFromJson(items[0]), FilesFromJson(items[1..]))
      case (Some(f), Some(fs)) => Some([f] + fs)
      case _ => None
  }

  /** The listing is sent in order and completely. */
  lemma {:induction false} FilesJsonRoundTrip(files: seq<File>)
    requires forall i :: 0 <= i < |files| ==> files[i].Initialised()
    ensures FilesFromJson(FilesToJson(files)) == Some(files)
    decreases |files|
  {
    if files != [] {
      var items := FilesToJson(files);
      assert items[1..] == FilesToJson(files[1..]);
      FileJsonRoundTrip(files[0]);
      FilesJsonRoundTrip(files[1..]);
      assert [files[0]] + files[1..] == files;
    }
  }

  // ---------------------------------------------------------------------------
  // Folders: `foldersToStdClass`.

  /** `foldersToStdClass`: each folder as name, path and its own folders, in order. */
  function FoldersToJson(folders: seq<Folder>): (items: seq<Json>)
    ensures |items| == |folders|
    decreases folders
  {
    if folders == [] then [] else [FolderToJson(folders[0])] + FoldersToJson(folders[1..])
  }

  function FolderToJson(f: Folder): (j: Json)
    ensures j.JObject? && Keys(j.members) == ["name", "path", "folders"]
    decreases f
  {
    JObject([Member("name", JString(f.name)), Member("path", JString(f.path)),
             Member("folders", JArray(FoldersToJson(f.folders)))])
  }

  function FoldersFromJson(items: seq<Json>): Option<seq<Folder>>
    decreases items
  {
    if items == [] then Some([])
    else match (FolderFromJson(items[0]), FoldersFromJson(items[1..]))
      case (Some(f), Some(fs)) => Some([f] + fs)
      case _ => None
  }

  function FolderFromJson(j: Json): Option<Folder>
    decreases j
  {
    match j
    case JObject(ms) =>
      if |ms| == 3 && ms[0].key == "name" && ms[1].key == "path" && ms[2].key == "folders"
         && ms[0].value.JString? && ms[1].value.JString? && ms[2].value.JArray? then
        match FoldersFromJson(ms[2].value.items)
        case Some(sub) => Some(Folder(ms[0].value.s, ms[1].value.s, sub))
        case None => None
      else None
    case _ => None
  }

  /** The folder tree is sent whole: every folder, its path and its sub-folders, in order. */
  lemma {:induction false} FoldersJsonRoundTrip(folders: seq<Folder>)
    ensures FoldersFromJson(FoldersToJson(folders)) == Some(folders)
    decreases folders
  {
    if folders != [] {
      FolderJsonRoundTrip(folders[0]);
      FoldersJsonRoundTrip(folders[1..]);
      var items := FoldersToJson(folders);
      assert items[0] == FolderToJson(folders[0]) && items[1..] == FoldersToJson(folders[1..]);
      assert [folders[0]] + folders[1..] == folders;
    }
  }

  lemma {:induction false} FolderJsonRoundTrip(f: Folder)
    ensures FolderFromJson(FolderToJson(f)) == Some(f)
    decreases f
  {
    FoldersJsonRoundTrip(f.folders);
  }

  // ---------------------------------------------------------------------------
  // Storages.

  /**
   * What the response reads from a storage: its name, its read-only switch
   * and its folder tree, or the error listing the tree raised.
   */
  datatype StorageView = StorageView(name: string, readOnly: bool, folders: Result<seq<Folder>>)

  /** One storage as `toStdClass` writes it: name, read_only and its folder tree. */
  function StorageToJson(s: StorageView): (r: Result<Json>)
    ensures r.Fail? <==> s.folders.Fail?
    ensures r.Fail? ==> r.error == s.folders.error
    ensures r.Ok? ==> r.value.JObject? && Keys(r.value.members) == ["name", "read_only", "folders"]
  {
    match s.folders
    case Fail(e) => Fail(e)
    case Ok(folders) =>
      Ok(JObject([Member("name", JString(s.name)), Member("read_only", JBool(s.readOnly)),
                  Member("folders", JArray(FoldersToJson(folders)))]))
  }

  /** The first storage whose folders cannot be listed, if any. */
  predicate AllListed(storages: seq<StorageView>) {
    forall i :: 0 <= i < |storages| ==> storages[i].folders.Ok?
  }

  /** The `storages` array: every storage in order, or the first listing error. */
  function StoragesToJson(storages: seq<StorageView>): (r: Result<seq<Json>>)
    ensures r.Ok? <==> AllListed(storages)
    ensures r.Ok? ==> |r.value| == |storages| && forall i :: 0 <= i < |storages| ==> Ok(r.value[i]) == StorageToJson(storages[i])
    ensures r.Fail? ==> exists i :: 0 <= i < |storages| && storages[i].folders.Fail? && r.error == storages[i].folders.error
                                     && AllListed(storages[..i])
  {
    if storages == [] then Ok([])
    else match (StorageToJson(storages[0]), StoragesToJson(storages[1..]))
      case (Fail(e), _) =>
        assert storages[..0] == [];
        Fail(e)
      case (Ok(j), Ok(js)) => Ok([j] + js)
      case (Ok(_), Fail(e)) =>
        var i :| 0 <= i < |storages[1..]| && storages[1..][i].folders.Fail? && e == storages[1..][i].folders.error
                 && AllListed(storages[1..][..i]);
        assert storages[1..][i] == storages[i + 1];
        assert AllListed(storages[..i + 1]) by {
          forall k | 0 <= k < i + 1
            ensures storages[k].folders.Ok?
          {
            if k > 0 {
              assert storages[k] == storages[1..][..i][k - 1];
            }
          }
        }
        Fail(e)
  }

  // ---------------------------------------------------------------------------
  // The whole answer: `toStdClass`.

  /** A property that is written only when it has a value. */
  function OptMember(key: string, o: Option<Json>): (ms: seq<Member>)
    ensures Keys(ms) == if o.Some? then [key] else []
  {
    if o.Some? then [Member(key, o.value)] else []
  }

  /** The properties of the answer in the order `toStdClass` adds them. */
  function Assemble(message: string, files: Option<Json>, storage: Option<Json>, storages: Option<Json>): seq<Member> {
    [Member("msg", JString(message))] + OptMember("files", files) + OptMember("storage", storage)
      + OptMember("storages", storages)
  }

  /** `msg` comes first, each other property is present exactly when it has a value, and no key repeats. */
  lemma AssembleShape(message: string, files: Option<Json>, storage: Option<Json>, storages: Option<Json>)
    ensures var ms := Assemble(message, files, storage, storages);
      && ms[0] == Member("msg", JString(message))
      && DistinctKeys(ms)
      && ("files" in Keys(ms) <==> files.Some?)
      && ("storage" in Keys(ms) <==> storage.Some?)
      && ("storages" in Keys(ms) <==> storages.Some?)
      && (files.Some? ==> Member("files", files.value) in ms)
      && (storage.Some? ==> Member("storage", storage.value) in ms)
      && (storages.Some? ==> Member("storages", storages.value) in ms)
  {
    var a := [Member("msg", JString(message))];
    var b, c, d := OptMember("files", files), OptMember("storage", storage), OptMember("storages", storages);
    var ms := Assemble(message, files, storage, storages);
    KeysAppend(a, b);
    KeysAppend(a + b, c);
    KeysAppend(a + b + c, d);
    var ks := Keys(ms);
    assert ks == ["msg"] + Keys(b) + Keys(c) + Keys(d);
    forall i, j | 0 <= i < j < |ms|
      ensures ms[i].key != ms[j].key
    {
      assert ks[i] == ms[i].key && ks[j] == ms[j].key;
    }
  }

  /**
   * `toStdClass`: `msg` always; `files` when a listing was set; `storage`
   * when a storage was set; `storages` when the list is not empty. Reading
   * a folder tree can throw, the single storage's before the list's, and
   * then serialising throws.
   */
  function Serialise(message: string, files: Option<seq<File>>, storage: Option<StorageView>,
                     storages: seq<StorageView>): (r: Result<Json>)
    requires files.Some? ==> forall i :: 0 <= i < |files.value| ==> files.value[i].Initialised()
  {
    var filesPart := if files.Some? then Some(JArray(FilesToJson(files.value))) else None;
    if storage.Some? && storage.value.folders.Fail? then Fail(storage.value.folders.error)
    else
      var storagePart := if storage.Some? then Some(StorageToJson(storage.value).value) else None;
      if storages == [] then Ok(JObject(Assemble(message, filesPart, storagePart, None)))
      else match StoragesToJson(storages)
        case Fail(e) => Fail(e)
        case Ok(items) => Ok(JObject(Assemble(message, filesPart, storagePart, Some(JArray(items)))))
  }

  /**
   * The shape of the answer: `msg` first, each other property present
   * exactly when its part was set, no property twice, and the values are
   * the listing, the storage and the storages, in order. It fails only when
   * a folder tree cannot be read, the single storage before the list.
   */
  lemma SerialiseShape(message: string, files: Option<seq<File>>, storage: Option<StorageView>,
                       storages: seq<StorageView>)
    requires files.Some? ==> forall i :: 0 <= i < |files.value| ==> files.value[i].Initialised()
    ensures var r := Serialise(message, files, storage, storages);
      && (r.Ok? <==> (storage.Some? ==> storage.value.folders.Ok?) && AllListed(storages))
      && (storage.Some? && storage.value.folders.Fail? ==> r == Fail(storage.value.folders.error))
      && (r.Ok? ==>
            var ms := r.value.members;
            && r.value.JObject? && DistinctKeys(ms)
            && ms[0] == Member("msg", JString(message))
            && ("files" in Keys(ms) <==> files.Some?)
            && ("storage" in Keys(ms) <==> storage.Some?)
            && ("storages" in Keys(ms) <==> storages != [])
            && (files.Some? ==> Member("files", JArray(FilesToJson(files.value))) in ms)
            && (storage.Some? ==> Member("storage", StorageToJson(storage.value).value) in ms)
            && (storages != [] ==> Member("storages", JArray(StoragesToJson(storages).value)) in ms))
  {
    var filesPart := if files.Some? then Some(JArray(FilesToJson(files.value))) else None;
    var storagePart := if storage.Some? && storage.value.folders.Ok? then Some(StorageToJson(storage.value).value) else None;
    var storagesPart := if storages != [] && AllListed(storages) then Some(JArray(StoragesToJson(storages).value)) else None;
    AssembleShape(message, filesPart, storagePart, storagesPart);
  }

  /** `allowAccessFromDomain` accepts "*" and anything that begins with "http". */
  predicate AcceptsDomain(domain: string) {
    domain == "*" || StartsWith(domain, "http")
  }

  lemma AcceptsDomainExamples()
    ensures AcceptsDomain("*") && AcceptsDomain("https://example.com") && AcceptsDomain("http")
    ensures !AcceptsDomain("example.com") && !AcceptsDomain("htt") && !AcceptsDomain("") && !AcceptsDomain("**")
  {
    assert "example.com"[..4][0] == 'e';
  }

  class Response {
    var httpStatus: int
    var message: string
    /** The listing, `None` until `setFiles` is called. */
    var files: Option<seq<File>>
    /** The storage whose tree is sent, `None` until `setStorage` is called. */
    var storage: Option<StorageView>
    var storages: seq<StorageView>
    var allowDomain: string

    /** Every listed file has all its getters ready, so the answer can be serialised. */
    ghost predicate Valid()
      reads this
    {
      files.Some? ==> forall i :: 0 <= i < |files.value| ==> files.value[i].Initialised()
    }

    constructor (httpStatus: int, message: string)
      ensures Valid()
      ensures this.httpStatus == httpStatus && this.message == message
      ensures files.None? && storage.None? && storages == [] && allowDomain == ""
    {
      this.httpStatus := httpStatus;
      this.message := message;
      files := None;
      storage := None;
      storages := [];
      allowDomain := "";
    }

    method SetFiles(files: seq<File>)
      requires forall i :: 0 <= i < |files| ==> files[i].Initialised()
      modifies this
      ensures Valid()
      ensures this.files == Some(files)
      ensures httpStatus == old(httpStatus) && message == old(message) && storage == old(storage)
      ensures storages == old(storages) && allowDomain == old(allowDomain)
    {
      this.files := Some(files);
    }

    method SetStorages(storages: seq<StorageView>)
      requires Valid()
      modifies this
      ensures Valid()
      ensures this.storages == storages
      ensures httpStatus == old(httpStatus) && message == old(message) && files == old(files)
      ensures storage == old(storage) && allowDomain == old(allowDomain)
    {
      this.storages := storages;
    }

    method SetStorage(storage: StorageView)
      requires Valid()
      modifies this
      ensures Valid()
      ensures this.storage == Some(storage)
      ensures httpStatus == old(httpStatus) && message == old(message) && files == old(files)
      ensures storages == old(storages) && allowDomain == old(allowDomain)
    {
      this.storage := Some(storage);
    }

    /**
     * `allowAccessFromDomain`: "*" or a domain with its protocol is kept;
     * anything else throws and the allowed domain stays as it was.
     */
    method AllowAccessFromDomain(domain: string) returns (out: Outcome)
      requires Valid()
      modifies this
      ensures Valid()
      ensures AcceptsDomain(domain) ==> out == Pass && allowDomain == domain
      ensures !AcceptsDomain(domain) ==>
        out == Throw(Error(InvalidArgument, DomainError)) && allowDomain == old(allowDomain)
      ensures httpStatus == old(httpStatus) && message == old(message) && files == old(files)
      ensures storage == old(storage) && storages == old(storages)
    {
      if domain != "*" && !(|domain| >= 4 && domain[..4] == "http") {
        return Throw(Error(InvalidArgument, DomainError));
      }
      allowDomain := domain;
      out := Pass;
    }

    /** `toStdClass` */
    function ToJson(): (r: Result<Json>)
      requires Valid()
      reads this
    {
      Serialise(message, files, storage, storages)
    }
  }
}
