/**
 * The entry point of the file manager (src/Connector.php): it checks that
 * the caller may use it, picks the action the request names, finds the
 * storages involved, refuses to write to read-only storages and builds the
 * response. The superglobals the PHP code reads are the `Input` and the
 * `Environment` given to `HandleRequest`.
 */
module Connectors {
  import opened Outcomes
  import opened PhpStrings
  import opened Entries
  import opened OrderedMaps
  import opened Requests
  import opened Utils
  import opened AccessConfig
  import opened Responses
  import opened Storages
  import opened Disk
  import opened Paths
  import opened LocalDirectory
  import LS = LocalStorage

  // ---------------------------------------------------------------------------
  // Access: `assertValidAccess`.

  /** A value of `$_SESSION`: null, a string, or anything else. */
  datatype SessionEntry = SessionNull | SessionString(s: string) | SessionOther

  /** What the request brings besides its parameters: the basic-auth credentials, the session, the client address. */
  datatype Environment = Environment(
    authUser: Option<string>,
    authPassword: Option<string>,
    session: map<string, SessionEntry>,
    remoteAddr: Option<string>)
  {
    /** `isset($_SERVER['PHP_AUTH_USER'], $_SERVER['PHP_AUTH_PW'])` */
    predicate CredentialsSent() {
      authUser.Some? && authPassword.Some?
    }

    /** `isset($_SESSION[$name])` */
    predicate SessionSet(name: string) {
      name in session && !session[name].SessionNull?
    }

    /** `$_SESSION[$name]`, null when it is missing. */
    function SessionEntryOf(name: string): SessionEntry {
      if name in session then session[name] else SessionNull
    }
  }

  /** What the configuration demands of a caller. */
  datatype Requirements = Requirements(
    sessionName: string,
    sessionValue: string,
    allowedIp: seq<string>,
    user: string,
    password: string)

  function RequirementsOf(c: Config): Requirements
    reads c
  {
    Requirements(c.sessionName, c.sessionValue, c.allowedIp, c.basicAuthUser, c.basicAuthPassword)
  }

  const MissingBasicAuth: string := "missing required basic auth"
  const InvalidBasicAuth: string := "invalid basic authentication"
  const MissingSession: string := "missing required session variable"
  const InvalidSession: string := "missing or invalid value of required session variable"
  const IpNotAllowed: string := "access from your IP is not allowed"

  function Forbidden(message: string): Error {
    Error(AccessForbidden, message)
  }

  /**
   * When a caller gets in: the credentials sent, if any, are the configured
   * user twice, and none are needed when none are sent; the session
   * variable is set and holds the configured value, where these are
   * configured; the address is listed, where a list is configured.
   */
  predicate Granted(q: Requirements, env: Environment) {
    && (if env.CredentialsSent() then env.authUser.value == q.user && env.authPassword.value == q.user
        else PhpEmpty(q.user) && PhpEmpty(q.password))
    && (PhpEmpty(q.sessionName) || env.SessionSet(q.sessionName))
    && (PhpEmpty(q.sessionValue) || env.SessionEntryOf(q.sessionName) == SessionString(q.sessionValue))
    && (q.allowedIp == [] || (env.remoteAddr.Some? && env.remoteAddr.value in q.allowedIp))
  }

  /** `assertValidAccess`: the first of its five checks that fails, in their order. */
  function AccessError(q: Requirements, env: Environment): (r: Option<Error>)
    ensures r.None? <==> Granted(q, env)
    ensures r.Some? ==> r.value.kind == AccessForbidden
  {
    if (!PhpEmpty(q.user) || !PhpEmpty(q.password)) && !env.CredentialsSent() then Some(Forbidden(MissingBasicAuth))
    else if env.CredentialsSent() && (env.authUser.value != q.user || env.authPassword.value != q.user) then
      Some(Forbidden(InvalidBasicAuth))
    else if !PhpEmpty(q.sessionName) && !env.SessionSet(q.sessionName) then Some(Forbidden(MissingSession))
    else if !PhpEmpty(q.sessionValue) && env.SessionEntryOf(q.sessionName) != SessionString(q.sessionValue) then
      Some(Forbidden(InvalidSession))
    else if q.allowedIp != [] && (env.remoteAddr.None? || env.remoteAddr.value !in q.allowedIp) then
      Some(Forbidden(IpNotAllowed))
    else None
  }

  /**
   * The password sent is compared with the configured user, not the
   * configured password: the right credentials are refused when user and
   * password differ, and the user name sent as password gets in.
   */
  lemma PasswordComparedWithUser(q: Requirements, env: Environment)
    requires q.user != q.password
    requires env.authUser == Some(q.user)
    ensures env.authPassword == Some(q.password) ==> AccessError(q, env) == Some(Forbidden(InvalidBasicAuth))
    ensures env.authPassword == Some(q.user) && q.sessionName == "" && q.sessionValue == "" && q.allowedIp == [] ==>
      AccessError(q, env) == None
  {
  }

  /** Credentials sent where none are configured are refused, unless both are empty. */
  lemma UnexpectedCredentialsRefused(q: Requirements, env: Environment)
    requires q.user == "" && q.password == "" && env.CredentialsSent()
    ensures env.authUser.value != "" || env.authPassword.value != "" ==> AccessError(q, env) == Some(Forbidden(InvalidBasicAuth))
  {
  }

  /**
   * The checks run in order: missing credentials are reported before a
   * missing session or a foreign address, and a missing session before a
   * foreign address.
   */
  lemma AccessCheckOrder(q: Requirements, env: Environment)
    ensures !PhpEmpty(q.user) && !env.CredentialsSent() ==> AccessError(q, env) == Some(Forbidden(MissingBasicAuth))
    ensures Granted(q.(sessionName := "", sessionValue := "", allowedIp := []), env)
            && !PhpEmpty(q.sessionName) && !env.SessionSet(q.sessionName) ==>
              AccessError(q, env) == Some(Forbidden(MissingSession))
    ensures Granted(q.(allowedIp := []), env) && !Granted(q, env) ==> AccessError(q, env) == Some(Forbidden(IpNotAllowed))
  {
  }

  // ---------------------------------------------------------------------------
  // Routing: the `switch` of `handleRequest`.

  datatype Action =
    | ListStorages | ListFiles | ReloadFiles | MakeFolder | UploadFiles
    | RenameFile | DeleteSelected | CopySelected | MoveSelected

  /** The value of the `action` parameter that selects each action. */
  function ActionName(a: Action): string {
    match a
    case ListStorages => "storages"
    case ListFiles => "files"
    case ReloadFiles => "files-reload"
    case MakeFolder => "mkdir"
    case UploadFiles => "upload"
    case RenameFile => "rename"
    case DeleteSelected => "delete"
    case CopySelected => "copy"
    case MoveSelected => "move"
  }

  const InvalidAction: string := "missing or invalid parameter " + Quote("action")

  /** The action a request names, if it names one of the nine. */
  function Route(action: string): (r: Option<Action>)
    ensures r.Some? ==> ActionName(r.value) == action
    ensures r.None? ==> forall a: Action :: ActionName(a) != action
  {
    match action
    case "storages" => Some(ListStorages)
    case "files" => Some(ListFiles)
    case "files-reload" => Some(ReloadFiles)
    case "mkdir" => Some(MakeFolder)
    case "upload" => Some(UploadFiles)
    case "rename" => Some(RenameFile)
    case "delete" => Some(DeleteSelected)
    case "copy" => Some(CopySelected)
    case "move" => Some(MoveSelected)
    case _ => None
  }

  /** Every action is reached by its own name and by no other. */
  lemma RouteByName(a: Action, action: string)
    ensures Route(action) == Some(a) <==> action == ActionName(a)
  {
  }

  // ---------------------------------------------------------------------------
  // Checks made before a storage is touched.

  const RenameOutside: string := "allowed rename in current folder only"
  const CopyElsewhere: string := "unsupported operation: copy to different storage"
  const MoveElsewhere: string := "unsupported operation: move to different storage"

  /**
   * The old and new names of `rename`, each read (and trimmed) from the
   * form; a name with '/' is refused. The new name is read only when the
   * old one has no '/'.
   */
  function RenameNames(req: Request): (r: Result<(string, string)>)
    ensures r.Ok? ==> req.OldFile() == Ok(r.value.0) && req.NewFile() == Ok(r.value.1)
    ensures r.Ok? ==> '/' !in r.value.0 && '/' !in r.value.1
    ensures req.OldFile().Ok? && req.NewFile().Ok? && r.Fail? ==> r.error == Error(StorageFailure, RenameOutside)
    ensures req.OldFile().Ok? && req.NewFile().Ok? ==>
      (r.Fail? <==> '/' in req.OldFile().value || '/' in req.NewFile().value)
  {
    match req.OldFile()
    case Fail(e) => Fail(e)
    case Ok(oldName) =>
      if '/' in oldName then Fail(Error(StorageFailure, RenameOutside))
      else match req.NewFile()
        case Fail(e) => Fail(e)
        case Ok(newName) =>
          if '/' in newName then Fail(Error(StorageFailure, RenameOutside)) else Ok((oldName, newName))
  }

  /** `assertNotReadOnly` */
  function ReadOnlyCheck(s: LS.LocalStorage): (out: Outcome)
    reads s.storage
    ensures out.Throw? <==> s.storage.readOnly
    ensures out.Throw? ==> out.error == Error(AccessForbidden, "storage " + Quote(s.storage.name) + " is read only")
  {
    if s.storage.readOnly then Throw(Error(AccessForbidden, "storage " + Quote(s.storage.name) + " is read only"))
    else Pass
  }

  // ---------------------------------------------------------------------------
  // What a response carries.

  /** A listing handed to the client: every file ready to be read, with the folder's URL in front of its name. */
  lemma StampedReady(listing: OMap<File>, url: string)
    requires listing.Valid() && Consistent(listing.values)
    ensures var vs := LS.WithDirectoryUrl(listing, url).Values();
      && |vs| == |listing.keys|
      && forall i :: 0 <= i < |vs| ==> vs[i].Initialised() && vs[i].name == listing.keys[i] && vs[i].Url() == url + listing.keys[i]
  {
    var vs := LS.WithDirectoryUrl(listing, url).Values();
    forall i | 0 <= i < |vs|
      ensures vs[i].Initialised() && vs[i].name == listing.keys[i] && vs[i].Url() == url + listing.keys[i]
    {
      assert listing.keys[i] in listing.values;
    }
  }

  /**
   * `files` is what `getFiles(path)` of `s` returns when the file system
   * was `fs0`: `listing` is the folder as `LocalDirectory` opens it, and
   * each file has the storage's base URL and `path` in front of its name.
   */
  ghost predicate ListedFrom(files: seq<File>, s: LS.LocalStorage, path: string, ignoreCache: bool, fs0: Fs,
                             listing: OMap<File>)
    reads s, s.storage, s.disk
  {
    && listing.Valid()
    && OpenedAt(s.probe, s.storage.thumbnailSize, LS.FolderOf(s.baseDir + Trim(path, {'/'})), s.disk.clock,
                ignoreCache, fs0, s.disk.fs, listing)
    && files == LS.WithDirectoryUrl(listing, s.storage.baseUrl + path).Values()
  }

  /**
   * `r` is what `getFiles(path, ignoreCache)` of `s` returns when the file
   * system was `fs0`: the error of a path that is not a folder there, or of
   * an entry that cannot be read in, with nothing changed; or the folder's
   * listing, every file ready to be read.
   */
  ghost predicate Fetched(r: Result<seq<File>>, s: LS.LocalStorage, path: string, ignoreCache: bool, fs0: Fs,
                          listing: OMap<File>)
    reads s, s.storage, s.disk
  {
    var abs0 := s.AbsPathIn(fs0, path);
    if abs0.Fail? then r == Fail(abs0.error) && s.disk.fs == fs0
    else if Openable(s.probe, s.storage.thumbnailSize, LS.FolderOf(abs0.value), s.disk.clock, ignoreCache, fs0) then
      && r.Ok? && ListedFrom(r.value, s, path, ignoreCache, fs0, listing)
      && forall i :: 0 <= i < |r.value| ==> r.value[i].Initialised()
    else
      && r.Fail? && s.disk.fs == fs0
      && OpenFailed(s.probe, s.storage.thumbnailSize, LS.FolderOf(abs0.value), s.disk.clock, ignoreCache, fs0, Throw(r.error))
  }

  /** What `LocalStorage.getFiles` promises, restated as `Fetched`. */
  lemma FetchedIntro(files: Result<OMap<File>>, listing: OMap<File>, s: LS.LocalStorage, path: string,
                     ignoreCache: bool, fs0: Fs)
    requires s.AbsPathIn(fs0, path).Fail? ==> files == Fail(s.AbsPathIn(fs0, path).error) && s.disk.fs == fs0
    requires s.AbsPathIn(fs0, path).Ok? ==>
      var folder := LS.FolderOf(s.AbsPathIn(fs0, path).value);
      if Openable(s.probe, s.storage.thumbnailSize, folder, s.disk.clock, ignoreCache, fs0) then
        && OpenedAt(s.probe, s.storage.thumbnailSize, folder, s.disk.clock, ignoreCache, fs0, s.disk.fs, listing)
        && files == Ok(LS.WithDirectoryUrl(listing, s.storage.baseUrl + path))
      else
        && files.Fail? && s.disk.fs == fs0
        && OpenFailed(s.probe, s.storage.thumbnailSize, folder, s.disk.clock, ignoreCache, fs0, Throw(files.error))
    ensures files.Ok? ==> files.value.Valid()
    ensures Fetched(if files.Fail? then Fail(files.error) else Ok(files.value.Values()), s, path, ignoreCache, fs0,
                    listing)
  {
    if s.AbsPathIn(fs0, path).Ok? && files.Ok? {
      StampedReady(listing, s.storage.baseUrl + path);
    }
  }

  /** `v` is what the response reads from storage `s`: its name, its switch and its folder tree. */
  ghost predicate Viewed(s: LS.LocalStorage, v: StorageView)
    reads s, s.storage, s.disk
  {
    && v.name == s.storage.name
    && v.readOnly == s.storage.readOnly
    && (v.folders.Ok? <==> s.disk.IsDir(s.baseDir))
    && (v.folders.Ok? ==> LS.FolderTree(s.disk.fs, s.baseDir, s.baseDir, v.folders.value))
  }

  /** A fresh response with a listing and the given status and message, and no storages. */
  ghost predicate Listing(resp: Response, status: int, message: string)
    reads resp
  {
    && resp.Valid()
    && resp.httpStatus == status && resp.message == message
    && resp.files.Some? && resp.storages == [] && resp.allowDomain == ""
  }

  /**
   * `r` is the response built from `getFiles(path, ignoreCache)` of `s`
   * when the file system was `fs0`, with the given status and message and
   * with the storage's tree exactly when `tree` holds; a path that is not a
   * folder there is thrown, with nothing changed.
   */
  ghost predicate Answered(r: Result<Response>, s: LS.LocalStorage, path: string, ignoreCache: bool,
                           status: int, message: string, tree: bool, fs0: Fs, listing: OMap<File>)
    reads s, s.storage, s.disk, if r.Ok? then {r.value} else {}
  {
    match r
    case Fail(e) => Fetched(Fail(e), s, path, ignoreCache, fs0, listing)
    case Ok(resp) =>
      && Listing(resp, status, message)
      && Fetched(Ok(resp.files.value), s, path, ignoreCache, fs0, listing)
      && (resp.storage.Some? <==> tree)
      && (tree ==> Viewed(s, resp.storage.value))
  }

  /**
   * After a storage operation with outcome `out` that left the file system
   * `fs`: its error is thrown as it is, or the folder is listed afresh
   * (the sidecar trusted) with status 200.
   */
  ghost predicate Concluded(r: Result<Response>, out: Outcome, s: LS.LocalStorage, path: string, tree: bool, fs: Fs,
                            listing: OMap<File>)
    reads s, s.storage, s.disk, if r.Ok? then {r.value} else {}
  {
    if out.Throw? then r == Fail(out.error) && s.disk.fs == fs
    else Answered(r, s, path, false, StatusOk, "", tree, fs, listing)
  }

  // ---------------------------------------------------------------------------
  // What the storage operations do, as `LocalStorage` states it: each takes
  // the file system from `fs0` to `fs` with outcome `out`; `fsOpen` and
  // `listed` are the file system and listing once the folder is opened.

  /** `mkDir(path, newFolder)` of `s`. */
  ghost predicate MadeFolder(s: LS.LocalStorage, path: string, newFolder: string, fs0: Fs, out: Outcome, fs: Fs,
                             fsOpen: Fs, listed: OMap<File>)
    reads s, s.storage
  {
    s.MadeFolder(path, newFolder, fs0, out, fs, fsOpen, listed)
  }

  /** `upload(path, uploads)` of `s`. */
  ghost predicate Uploaded(s: LS.LocalStorage, path: string, uploads: seq<Upload>, fs0: Fs, out: Outcome, fs: Fs)
    reads s, s.storage
  {
    var abs0 := s.AbsPathIn(fs0, path);
    if abs0.Fail? then out == Throw(abs0.error) && fs == fs0
    else (out, fs) == LS.UploadAll(s.probe, s.storage.normalizeNames, s.storage.overwriteFiles, s.disk.clock,
                                   abs0.value, fs0, uploads, [])
  }

  /** `rename(path, oldName, newName, renamedFolder)` of `s`, the flag lowered before. */
  ghost predicate Renamed(s: LS.LocalStorage, path: string, oldName: string, newName: string, fs0: Fs,
                          out: Outcome, fs: Fs, renamedFolder: bool, fsOpen: Fs, listed: OMap<File>)
    reads s, s.storage
  {
    s.Renamed(path, oldName, newName, false, fs0, out, fs, renamedFolder, fsOpen, listed)
  }

  /** `delete(path, names, deletedFolder)` of `s`, the flag lowered before. */
  ghost predicate Deleted(s: LS.LocalStorage, path: string, names: seq<string>, fs0: Fs,
                          out: Outcome, fs: Fs, deletedFolder: bool, fsOpen: Fs, listed: OMap<File>)
    reads s, s.storage
  {
    s.Deleted(path, names, false, fs0, out, fs, deletedFolder, fsOpen, listed)
  }

  /** `copy(path, names, targetPath, copiedFolder)` of `s`, the flag lowered before; `listed` is the target reopened. */
  ghost predicate CopyAnswered(s: LS.LocalStorage, path: string, names: seq<string>, targetPath: string, fs0: Fs,
                         out: Outcome, fs: Fs, copiedFolder: bool, fsOpen: Fs, listed: OMap<File>)
    reads s, s.storage
  {
    var src, dst := s.AbsPathIn(fs0, path), s.AbsPathIn(fs0, targetPath);
    if src.Fail? then out == Throw(src.error) && fs == fs0 && !copiedFolder
    else if dst.Fail? then out == Throw(dst.error) && fs == fs0 && !copiedFolder
    else LS.CopiedBetween(fs0, fs, src.value, dst.value, names, false, copiedFolder, out,
                          s.probe, s.storage.thumbnailSize, s.disk.clock, fsOpen, listed)
  }

  /** `move(path, names, targetPath, movedFolder)` of `s`, the flag lowered before; `listed` is the target reopened. */
  ghost predicate MoveAnswered(s: LS.LocalStorage, path: string, names: seq<string>, targetPath: string, fs0: Fs,
                        out: Outcome, fs: Fs, movedFolder: bool, fsOpen: Fs, listed: OMap<File>)
    reads s, s.storage
  {
    var src, dst := s.AbsPathIn(fs0, path), s.AbsPathIn(fs0, targetPath);
    if src.Fail? then out == Throw(src.error) && fs == fs0 && !movedFolder
    else if dst.Fail? then out == Throw(dst.error) && fs == fs0 && !movedFolder
    else LS.MovedBetween(fs0, fs, src.value, dst.value, names, false, movedFolder, out,
                         s.probe, s.storage.thumbnailSize, s.disk.clock, fsOpen, listed)
  }

  class Connector {
    const config: Config
    const disk: Disk
    /** `$storages`: the storages by name, in the order their names were first added. */
    var storages: OMap<LS.LocalStorage>
    /** The storages and their settings: what the connector's validity depends on, the disk excluded. */
    ghost var Repr: set<object>

    /** Storage `s` is kept under its own name and works on this connector's disk. */
    ghost predicate Serves(k: string, s: LS.LocalStorage)
      reads s, s.storage
    {
      && s.disk == disk && s.storage.name == k && s.storage.Valid()
      && SlashEnded(s.baseDir)
    }

    /** Every storage is kept under its own name, on this disk, with valid settings. */
    ghost predicate Stored()
      reads this, Repr
    {
      && storages.Valid() && disk !in Repr
      && forall k :: k in storages.values ==>
           && storages.values[k] in Repr && storages.values[k].storage in Repr
           && Serves(k, storages.values[k])
    }

    ghost predicate Valid()
      reads this, disk, Repr
    {
      Stored() && disk.Valid()
    }

    /** `s` is the storage kept under its name. */
    ghost predicate Member(s: LS.LocalStorage)
      reads this
    {
      s.storage.name in storages.values && storages.values[s.storage.name] == s
    }

    lemma MemberValid(s: LS.LocalStorage)
      requires Valid() && Member(s)
      ensures s.Valid() && s.disk == disk
    {
      assert Serves(s.storage.name, s);
    }

    constructor (config: Config, disk: Disk)
      requires disk.Valid()
      ensures Valid() && this.config == config && this.disk == disk && storages == Empty()
    {
      this.config := config;
      this.disk := disk;
      storages := Empty();
      Repr := {};
    }

    /** Nothing the connector reads has changed, so it is still valid. */
    twostate lemma StillValid()
      requires old(Valid()) && unchanged(this, disk) && unchanged(old(Repr))
      ensures Valid()
    {
    }

    /** `getStorage`: the storage kept under `name`. */
    function Lookup(name: string): (r: Result<LS.LocalStorage>)
      reads this
      ensures r.Ok? <==> name in storages.values
      ensures r.Ok? ==> Member(r.value) || r.value.storage.name != name
      ensures r.Fail? ==> r.error == Error(InvalidRequest, "not found storage " + Quote(name))
    {
      if name in storages.values then Ok(storages.values[name])
      else Fail(Error(InvalidRequest, "not found storage " + Quote(name)))
    }

    lemma LookupMember(name: string)
      requires Valid() && Lookup(name).Ok?
      ensures Member(Lookup(name).value) && Lookup(name).value.storage.name == name
      ensures Lookup(name).value.Valid() && Lookup(name).value.disk == disk
    {
      assert Serves(name, storages.values[name]);
    }

    /**
     * `addStorage`: the storage is kept under its name; one added before
     * under the same name is replaced and keeps its place in the order.
     */
    method AddStorage(s: LS.LocalStorage)
      requires Valid() && s.Valid() && s.disk == disk
      modifies this
      ensures Valid()
      ensures storages == old(storages).Put(s.storage.name, s)
      ensures Lookup(s.storage.name) == Ok(s)
      ensures forall n :: n != s.storage.name ==> Lookup(n) == old(Lookup(n))
    {
      storages := storages.Put(s.storage.name, s);
      Repr := Repr + {s, s.storage};
      forall k | k in storages.values
        ensures storages.values[k] in Repr && storages.values[k].storage in Repr && Serves(k, storages.values[k])
      {
        if k != s.storage.name {
          assert old(storages).values[k] == storages.values[k];
          assert old(Serves(k, storages.values[k]));
        }
      }
    }

    /** `getStorage(name)` then `assertNotReadOnly`: the storage, if it exists and may be written to. */
    function Writable(name: string): (r: Result<LS.LocalStorage>)
      requires Stored()
      reads this, Repr
      ensures r.Ok? <==> Lookup(name).Ok? && !Lookup(name).value.storage.readOnly
      ensures r.Ok? ==> r.value == Lookup(name).value
      ensures Lookup(name).Fail? ==> r == Fail(Lookup(name).error)
      ensures Lookup(name).Ok? && r.Fail? ==> r.error == ReadOnlyCheck(Lookup(name).value).error
    {
      if name !in storages.values then Fail(Lookup(name).error)
      else
        var s := storages.values[name];
        var check := ReadOnlyCheck(s);
        if check.Throw? then Fail(check.error) else Ok(s)
    }

    // -------------------------------------------------------------------------
    // Building responses.

    /** What the response reads from a storage when it is serialised. */
    method View(s: LS.LocalStorage) returns (v: StorageView)
      requires s.Valid()
      ensures Viewed(s, v)
    {
      var folders := s.GetFolders();
      v := StorageView(s.storage.name, s.storage.readOnly, folders);
    }

    /** Every storage, in the order they were added: `setStorages($this->storages)`. */
    method Views() returns (vs: seq<StorageView>)
      requires Valid()
      ensures |vs| == |storages.keys|
      ensures forall i :: 0 <= i < |vs| ==> Viewed(storages.values[storages.keys[i]], vs[i])
    {
      vs := [];
      var i := 0;
      while i < |storages.keys|
        invariant 0 <= i <= |storages.keys| && |vs| == i
        invariant forall j :: 0 <= j < i ==> Viewed(storages.values[storages.keys[j]], vs[j])
      {
        var v := ViewAt(i);
        vs := vs + [v];
        i := i + 1;
      }
    }

    /** The storage in place `i` of the order, as the response reads it. */
    method ViewAt(i: nat) returns (v: StorageView)
      requires Valid() && i < |storages.keys|
      ensures storages.keys[i] in storages.values && Viewed(storages.values[storages.keys[i]], v)
    {
      var k := storages.keys[i];
      assert Serves(k, storages.values[k]);
      v := View(storages.values[k]);
    }

    /** `getFiles(path, ignoreCache)` of `s`: the folder's listing, or the error of a path that is not a folder. */
    method Fetch(s: LS.LocalStorage, path: string, ignoreCache: bool) returns (r: Result<seq<File>>, ghost listing: OMap<File>)
      requires Valid() && Member(s)
      modifies disk
      ensures Valid()
      ensures Fetched(r, s, path, ignoreCache, old(disk.fs), listing)
    {
      MemberValid(s);
      ghost var fs0 := disk.fs;
      var files;
      files, listing := s.GetFiles(path, ignoreCache);
      assert Stored();
      FetchedIntro(files, listing, s, path, ignoreCache, fs0);
      r := if files.Fail? then Fail(files.error) else Ok(files.value.Values());
    }

    /**
     * A response with `getFiles(path, ignoreCache)` of `s`, the given status
     * and message, and `setStorage($storage)` when `tree` holds; the
     * listing's errors are thrown.
     */
    method Respond(s: LS.LocalStorage, path: string, ignoreCache: bool, status: int, message: string, tree: bool)
      returns (r: Result<Response>, ghost listing: OMap<File>)
      requires Valid() && Member(s)
      modifies disk
      ensures Valid()
      ensures r.Ok? ==> fresh(r.value)
      ensures Answered(r, s, path, ignoreCache, status, message, tree, old(disk.fs), listing)
    {
      var files;
      files, listing := Fetch(s, path, ignoreCache);
      if files.Fail? {
        return Fail(files.error), listing;
      }
      MemberValid(s);
      label pre:
      var resp := Package(s, files.value, status, message, tree);
      StillValid@pre();
      r := Ok(resp);
    }

    /** The response around a listing: `setFiles`, then `setStorage($storage)` when `tree` holds. */
    method Package(s: LS.LocalStorage, files: seq<File>, status: int, message: string, tree: bool) returns (resp: Response)
      requires s.Valid() && forall i :: 0 <= i < |files| ==> files[i].Initialised()
      ensures fresh(resp) && Listing(resp, status, message) && resp.files == Some(files)
      ensures resp.storage.Some? <==> tree
      ensures tree ==> Viewed(s, resp.storage.value)
    {
      resp := new Response(status, message);
      resp.SetFiles(files);
      if tree {
        var v := View(s);
        resp.SetStorage(v);
      }
    }

    // -------------------------------------------------------------------------
    // The actions.

    /** `getStorages`: every storage, nothing else. */
    method GetStorages() returns (r: Response)
      requires Valid()
      ensures fresh(r) && r.Valid()
      ensures r.httpStatus == StatusOk && r.message == "" && r.files.None? && r.storage.None?
      ensures |r.storages| == |storages.keys|
      ensures forall i :: 0 <= i < |r.storages| ==> Viewed(storages.values[storages.keys[i]], r.storages[i])
    {
      r := new Response(StatusOk, "");
      var vs := Views();
      r.SetStorages(vs);
    }

    /**
     * `getFiles` took the file system from `fs0` to the disk's: an unknown
     * storage is an error with nothing changed, otherwise the listing of the
     * request's path is answered.
     */
    ghost predicate GetFilesDone(req: Request, ignoreCache: bool, fs0: Fs, r: Result<Response>, listing: OMap<File>)
      requires Stored()
      reads this, Repr, disk, if r.Ok? then {r.value} else {}
    {
      var found := Lookup(req.storage);
      if found.Fail? then r == Fail(found.error) && disk.fs == fs0
      else Answered(r, found.value, req.path, ignoreCache, StatusOk, "", false, fs0, listing)
    }

    /** `getFiles`: the listing of the request's path. */
    method GetFiles(req: Request, ignoreCache: bool) returns (r: Result<Response>, ghost listing: OMap<File>)
      requires Valid()
      modifies disk
      ensures Valid()
      ensures r.Ok? ==> fresh(r.value)
      ensures GetFilesDone(req, ignoreCache, old(disk.fs), r, listing)
    {
      listing := Empty();
      var found := Lookup(req.storage);
      if found.Fail? {
        return Fail(found.error), listing;
      }
      LookupMember(req.storage);
      r, listing := Respond(found.value, req.path, ignoreCache, StatusOk, "", false);
    }

    /** The storage's `mkDir(path, newFolder)`. */
    method StorageMkDir(s: LS.LocalStorage, path: string, newFolder: string)
      returns (out: Outcome, ghost fsOpen: Fs, ghost listed: OMap<File>)
      requires Valid() && Member(s)
      modifies disk
      ensures Valid()
      ensures MadeFolder(s, path, newFolder, old(disk.fs), out, disk.fs, fsOpen, listed)
    {
      MemberValid(s);
      out, fsOpen, listed := s.MkDir(path, newFolder);
      assert Stored();
    }

    /** The checks of `mkDir`, in order: the storage exists and is writable, then the folder name is read and must be valid. */
    function MkDirChecks(req: Request): (r: Result<(LS.LocalStorage, string)>)
      requires Stored()
      reads this, Repr
      ensures r.Ok? <==> Writable(req.storage).Ok? && req.NewFolder().Ok? && IsValidFolderName(req.NewFolder().value)
      ensures r.Ok? ==> r.value == (Writable(req.storage).value, req.NewFolder().value)
      ensures Writable(req.storage).Fail? ==> r == Fail(Writable(req.storage).error)
      ensures Writable(req.storage).Ok? && req.NewFolder().Fail? ==> r == Fail(req.NewFolder().error)
      ensures Writable(req.storage).Ok? && req.NewFolder().Ok? && r.Fail? ==>
        r.error == Error(InvalidRequest, "invalid folder name " + Quote(req.NewFolder().value))
    {
      match Writable(req.storage)
      case Fail(e) => Fail(e)
      case Ok(s) =>
        match req.NewFolder()
        case Fail(e) => Fail(e)
        case Ok(newFolder) =>
          if !IsValidFolderName(newFolder) then Fail(Error(InvalidRequest, "invalid folder name " + Quote(newFolder)))
          else Ok((s, newFolder))
    }

    /**
     * `mkDir` took the file system from `fs0` through `fs` to the disk's: a
     * failed check is its error with nothing changed, otherwise the storage
     * made the folder or threw, and the answer follows from that.
     */
    ghost predicate MkDirDone(req: Request, fs0: Fs, r: Result<Response>, out: Outcome, fs: Fs, fsOpen: Fs,
                              listed: OMap<File>, listing: OMap<File>)
      requires Stored()
      reads this, Repr, disk, if r.Ok? then {r.value} else {}
    {
      var checked := MkDirChecks(req);
      if checked.Fail? then r == Fail(checked.error) && disk.fs == fs0
      else
        var (s, newFolder) := checked.value;
        && MadeFolder(s, req.path, newFolder, fs0, out, fs, fsOpen, listed)
        && Concluded(r, out, s, req.path, true, fs, listing)
    }

    /**
     * `mkDir`: nothing is created unless the checks pass; then the
     * storage's `mkDir` runs and its error is thrown, or the response lists
     * the folder afresh and carries the storage's tree.
     */
    method MkDir(req: Request)
      returns (r: Result<Response>, ghost out: Outcome, ghost fs: Fs, ghost fsOpen: Fs, ghost listed: OMap<File>,
               ghost listing: OMap<File>)
      requires Valid()
      modifies disk
      ensures Valid()
      ensures r.Ok? ==> fresh(r.value)
      ensures MkDirDone(req, old(disk.fs), r, out, fs, fsOpen, listed, listing)
    {
      out, fs, fsOpen, listed, listing := Pass, disk.fs, disk.fs, Empty(), Empty();
      var checked := MkDirChecks(req);
      if checked.Fail? {
        return Fail(checked.error), out, fs, fsOpen, listed, listing;
      }
      var (s, newFolder) := checked.value;
      LookupMember(req.storage);
      r, out, fs, fsOpen, listed, listing := MkDirAndRespond(s, req.path, newFolder);
    }

    /** The part of `mkDir` after its checks: the storage's `mkDir`, then the listing with the tree. */
    method MkDirAndRespond(s: LS.LocalStorage, path: string, newFolder: string)
      returns (r: Result<Response>, ghost out: Outcome, ghost fs: Fs, ghost fsOpen: Fs, ghost listed: OMap<File>,
               ghost listing: OMap<File>)
      requires Valid() && Member(s)
      modifies disk
      ensures Valid()
      ensures r.Ok? ==> fresh(r.value)
      ensures MadeFolder(s, path, newFolder, old(disk.fs), out, fs, fsOpen, listed)
      ensures Concluded(r, out, s, path, true, fs, listing)
    {
      listing := Empty();
      var made;
      made, fsOpen, listed := StorageMkDir(s, path, newFolder);
      out, fs := made, disk.fs;
      if made.Throw? {
        return Fail(made.error), out, fs, fsOpen, listed, listing;
      }
      r, listing := Respond(s, path, false, StatusOk, "", true);
    }

    /** The storage's `upload(path, uploads)`. */
    method StorageUpload(s: LS.LocalStorage, path: string, uploads: seq<Upload>) returns (out: Outcome)
      requires Valid() && Member(s)
      modifies disk
      ensures Valid()
      ensures Uploaded(s, path, uploads, old(disk.fs), out, disk.fs)
    {
      MemberValid(s);
      out := s.Upload(path, uploads);
      assert Stored();
    }

    /**
     * `upload` took the file system from `fs0` through `fs` to the disk's: an
     * unknown or read-only storage is an error with nothing changed; a
     * storage failure is answered with status 400 and its message, any other
     * error thrown.
     */
    ghost predicate UploadDone(req: Request, fs0: Fs, r: Result<Response>, out: Outcome, fs: Fs, listing: OMap<File>)
      requires Stored()
      reads this, Repr, disk, if r.Ok? then {r.value} else {}
    {
      var found := Writable(req.storage);
      if found.Fail? then r == Fail(found.error) && disk.fs == fs0
      else
        var s := found.value;
        && Uploaded(s, req.path, req.UploadedFiles(), fs0, out, fs)
        && if out.Throw? && out.error.kind != StorageFailure then r == Fail(out.error) && disk.fs == fs
           else Answered(r, s, req.path, true, if out.Pass? then StatusOk else StatusBadRequest,
                         if out.Pass? then "" else out.error.message, false, fs, listing)
    }

    /**
     * `upload`: after the storage checks, a storage error of the upload is
     * not thrown but becomes a status-400 response with its message; any
     * other error is thrown. The response lists the folder read afresh,
     * the sidecar ignored.
     */
    method Upload(req: Request) returns (r: Result<Response>, ghost out: Outcome, ghost fs: Fs, ghost listing: OMap<File>)
      requires Valid()
      modifies disk
      ensures Valid()
      ensures r.Ok? ==> fresh(r.value)
      ensures UploadDone(req, old(disk.fs), r, out, fs, listing)
    {
      out, fs, listing := Pass, disk.fs, Empty();
      var found := Writable(req.storage);
      if found.Fail? {
        return Fail(found.error), out, fs, listing;
      }
      var s := found.value;
      LookupMember(req.storage);
      var status, message := StatusOk, "";
      var uploaded := StorageUpload(s, req.path, req.UploadedFiles());
      out, fs := uploaded, disk.fs;
      if uploaded.Throw? {
        if uploaded.error.kind != StorageFailure {
          return Fail(uploaded.error), out, fs, listing;
        }
        status, message := StatusBadRequest, uploaded.error.message;
      }
      r, listing := Respond(s, req.path, true, status, message, false);
    }

    /** The checks of `rename`, in order: both names without '/', then the storage exists and is writable. */
    function RenameChecks(req: Request): (r: Result<(LS.LocalStorage, (string, string))>)
      requires Stored()
      reads this, Repr
      ensures r.Ok? <==> RenameNames(req).Ok? && Writable(req.storage).Ok?
      ensures r.Ok? ==> r.value == (Writable(req.storage).value, RenameNames(req).value)
      ensures RenameNames(req).Fail? ==> r == Fail(RenameNames(req).error)
      ensures RenameNames(req).Ok? && Writable(req.storage).Fail? ==> r == Fail(Writable(req.storage).error)
    {
      match RenameNames(req)
      case Fail(e) => Fail(e)
      case Ok(names) =>
        match Writable(req.storage)
        case Fail(e) => Fail(e)
        case Ok(s) => Ok((s, names))
    }

    /** The storage's `rename(path, oldName, newName, renamedFolder)`, the flag lowered before. */
    method StorageRename(s: LS.LocalStorage, path: string, oldName: string, newName: string)
      returns (renamedFolder: bool, out: Outcome, ghost fsOpen: Fs, ghost listed: OMap<File>)
      requires Valid() && Member(s)
      modifies disk
      ensures Valid()
      ensures Renamed(s, path, oldName, newName, old(disk.fs), out, disk.fs, renamedFolder, fsOpen, listed)
    {
      MemberValid(s);
      renamedFolder, out, fsOpen, listed := s.Rename(path, oldName, newName, false);
      assert Stored();
    }

    /**
     * `rename` took the file system from `fs0` through `fs` to the disk's: a
     * failed check is its error with nothing changed, otherwise the storage
     * renamed the entry or threw, and the answer follows from that.
     */
    ghost predicate RenameDone(req: Request, fs0: Fs, r: Result<Response>, out: Outcome, fs: Fs, renamedFolder: bool,
                               fsOpen: Fs, listed: OMap<File>, listing: OMap<File>)
      requires Stored()
      reads this, Repr, disk, if r.Ok? then {r.value} else {}
    {
      var checked := RenameChecks(req);
      if checked.Fail? then r == Fail(checked.error) && disk.fs == fs0
      else
        var (s, (oldName, newName)) := checked.value;
        && Renamed(s, req.path, oldName, newName, fs0, out, fs, renamedFolder, fsOpen, listed)
        && Concluded(r, out, s, req.path, renamedFolder, fs, listing)
    }

    /**
     * `rename`: names with '/' are refused before the storage is looked
     * up; then the storage must exist and be writable. The response lists
     * the folder and carries the tree exactly when a directory was renamed.
     */
    method Rename(req: Request)
      returns (r: Result<Response>, ghost out: Outcome, ghost fs: Fs, ghost renamedFolder: bool, ghost fsOpen: Fs,
               ghost listed: OMap<File>, ghost listing: OMap<File>)
      requires Valid()
      modifies disk
      ensures Valid()
      ensures r.Ok? ==> fresh(r.value)
      ensures RenameDone(req, old(disk.fs), r, out, fs, renamedFolder, fsOpen, listed, listing)
    {
      out, fs, renamedFolder, fsOpen, listed, listing := Pass, disk.fs, false, disk.fs, Empty(), Empty();
      var checked := RenameChecks(req);
      if checked.Fail? {
        return Fail(checked.error), out, fs, renamedFolder, fsOpen, listed, listing;
      }
      var (s, (oldName, newName)) := checked.value;
      LookupMember(req.storage);
      r, out, fs, renamedFolder, fsOpen, listed, listing := RenameAndRespond(s, req.path, oldName, newName);
    }

    /** The part of `rename` after its checks: the storage's `rename`, then the listing, with the tree when a folder was renamed. */
    method RenameAndRespond(s: LS.LocalStorage, path: string, oldName: string, newName: string)
      returns (r: Result<Response>, ghost out: Outcome, ghost fs: Fs, ghost renamedFolder: bool, ghost fsOpen: Fs,
               ghost listed: OMap<File>, ghost listing: OMap<File>)
      requires Valid() && Member(s)
      modifies disk
      ensures Valid()
      ensures r.Ok? ==> fresh(r.value)
      ensures Renamed(s, path, oldName, newName, old(disk.fs), out, fs, renamedFolder, fsOpen, listed)
      ensures Concluded(r, out, s, path, renamedFolder, fs, listing)
    {
      listing := Empty();
      var flag, renamed;
      flag, renamed, fsOpen, listed := StorageRename(s, path, oldName, newName);
      out, fs, renamedFolder := renamed, disk.fs, flag;
      if renamed.Throw? {
        return Fail(renamed.error), out, fs, renamedFolder, fsOpen, listed, listing;
      }
      r, listing := Respond(s, path, false, StatusOk, "", flag);
    }

    /** The storage's `delete(path, names, deletedFolder)`, the flag lowered before. */
    method StorageDelete(s: LS.LocalStorage, path: string, names: seq<string>)
      returns (deletedFolder: bool, out: Outcome, ghost fsOpen: Fs, ghost listed: OMap<File>)
      requires Valid() && Member(s)
      modifies disk
      ensures Valid()
      ensures Deleted(s, path, names, old(disk.fs), out, disk.fs, deletedFolder, fsOpen, listed)
    {
      MemberValid(s);
      deletedFolder, out, fsOpen, listed := s.Delete(path, names, false);
      assert Stored();
    }

    /**
     * `delete` took the file system from `fs0` through `fs` to the disk's: an
     * unknown storage is an error with nothing changed; otherwise the
     * storage deleted the names or threw, and only then is a read-only
     * storage refused.
     */
    ghost predicate DeleteDone(req: Request, fs0: Fs, r: Result<Response>, out: Outcome, fs: Fs, deletedFolder: bool,
                               fsOpen: Fs, listed: OMap<File>, listing: OMap<File>)
      requires Stored()
      reads this, Repr, disk, if r.Ok? then {r.value} else {}
    {
      var checked := Lookup(req.storage);
      if checked.Fail? then r == Fail(checked.error) && disk.fs == fs0
      else
        var s := checked.value;
        && Deleted(s, req.path, req.SelectedFiles(), fs0, out, fs, deletedFolder, fsOpen, listed)
        && if out.Pass? && s.storage.readOnly then r == Fail(ReadOnlyCheck(s).error) && disk.fs == fs
           else Concluded(r, out, s, req.path, deletedFolder, fs, listing)
    }

    /**
     * `delete`: the selected names are deleted BEFORE the read-only check,
     * so a read-only storage loses them and the call then throws. The
     * response lists the folder and carries the tree exactly when a
     * directory was deleted.
     */
    method Delete(req: Request)
      returns (r: Result<Response>, ghost out: Outcome, ghost fs: Fs, ghost deletedFolder: bool, ghost fsOpen: Fs,
               ghost listed: OMap<File>, ghost listing: OMap<File>)
      requires Valid()
      modifies disk
      ensures Valid()
      ensures r.Ok? ==> fresh(r.value)
      ensures DeleteDone(req, old(disk.fs), r, out, fs, deletedFolder, fsOpen, listed, listing)
    {
      out, fs, deletedFolder, fsOpen, listed, listing := Pass, disk.fs, false, disk.fs, Empty(), Empty();
      var found := Lookup(req.storage);
      if found.Fail? {
        return Fail(found.error), out, fs, deletedFolder, fsOpen, listed, listing;
      }
      var s := found.value;
      LookupMember(req.storage);
      var flag, deleted;
      flag, deleted, fsOpen, listed := StorageDelete(s, req.path, req.SelectedFiles());
      out, fs, deletedFolder := deleted, disk.fs, flag;
      if deleted.Throw? {
        return Fail(deleted.error), out, fs, deletedFolder, fsOpen, listed, listing;
      }
      var check := ReadOnlyCheck(s);
      if check.Throw? {
        return Fail(check.error), out, fs, deletedFolder, fsOpen, listed, listing;
      }
      r, listing := Respond(s, req.path, false, StatusOk, "", flag);
    }

    /**
     * The checks of `copy`, in order: the storage exists, the target
     * storage is named, exists and is writable, the two are the same
     * storage, and the target path is read.
     */
    function CopyChecks(req: Request): (r: Result<(LS.LocalStorage, string)>)
      requires Stored()
      reads this, Repr
      ensures r.Ok? <==>
        && Lookup(req.storage).Ok? && req.TargetStorage().Ok? && Writable(req.TargetStorage().value).Ok?
        && req.storage == req.TargetStorage().value && req.TargetPath().Ok?
      ensures r.Ok? ==> r.value == (Lookup(req.storage).value, req.TargetPath().value)
      ensures Lookup(req.storage).Fail? ==> r == Fail(Lookup(req.storage).error)
      ensures Lookup(req.storage).Ok? && req.TargetStorage().Fail? ==> r == Fail(req.TargetStorage().error)
      ensures Lookup(req.storage).Ok? && req.TargetStorage().Ok? && Writable(req.TargetStorage().value).Fail? ==>
        r == Fail(Writable(req.TargetStorage().value).error)
      ensures Lookup(req.storage).Ok? && req.TargetStorage().Ok? && Writable(req.TargetStorage().value).Ok?
              && req.storage != req.TargetStorage().value ==>
        r == Fail(Error(InvalidRequest, CopyElsewhere))
      ensures Lookup(req.storage).Ok? && req.TargetStorage().Ok? && Writable(req.TargetStorage().value).Ok?
              && req.storage == req.TargetStorage().value && req.TargetPath().Fail? ==>
        r == Fail(req.TargetPath().error)
    {
      match Lookup(req.storage)
      case Fail(e) => Fail(e)
      case Ok(s) =>
        match req.TargetStorage()
        case Fail(e) => Fail(e)
        case Ok(target) =>
          match Writable(target)
          case Fail(e) => Fail(e)
          case Ok(_) =>
            if req.storage != target then Fail(Error(InvalidRequest, CopyElsewhere))
            else
              match req.TargetPath()
              case Fail(e) => Fail(e)
              case Ok(targetPath) => Ok((s, targetPath))
    }

    /** The storage's `copy(path, names, targetPath, copiedFolder)`, the flag lowered before. */
    method StorageCopy(s: LS.LocalStorage, path: string, names: seq<string>, targetPath: string)
      returns (copiedFolder: bool, out: Outcome, ghost fsOpen: Fs, ghost listed: OMap<File>)
      requires Valid() && Member(s)
      modifies disk
      ensures Valid()
      ensures CopyAnswered(s, path, names, targetPath, old(disk.fs), out, disk.fs, copiedFolder, fsOpen, listed)
    {
      MemberValid(s);
      copiedFolder, out, fsOpen, listed := s.Copy(path, names, targetPath, false);
      assert Stored();
    }

    /**
     * `copy` took the file system from `fs0` through `fs` to the disk's: a
     * failed check is its error with nothing changed, otherwise the storage
     * copied the names or threw, and the answer follows from that.
     */
    ghost predicate CopyDone(req: Request, fs0: Fs, r: Result<Response>, out: Outcome, fs: Fs, copiedFolder: bool,
                             fsOpen: Fs, listed: OMap<File>, listing: OMap<File>)
      requires Stored()
      reads this, Repr, disk, if r.Ok? then {r.value} else {}
    {
      var checked := CopyChecks(req);
      if checked.Fail? then r == Fail(checked.error) && disk.fs == fs0
      else
        var (s, targetPath) := checked.value;
        && CopyAnswered(s, req.path, req.SelectedFiles(), targetPath, fs0, out, fs, copiedFolder, fsOpen, listed)
        && Concluded(r, out, s, req.path, copiedFolder, fs, listing)
    }

    /**
     * `copy`: both storages must exist, only the target one must be
     * writable, and they must be the same storage, all before anything is
     * copied. The response lists the SOURCE folder and carries the tree
     * exactly when a directory was copied.
     */
    method Copy(req: Request)
      returns (r: Result<Response>, ghost out: Outcome, ghost fs: Fs, ghost copiedFolder: bool, ghost fsOpen: Fs,
               ghost listed: OMap<File>, ghost listing: OMap<File>)
      requires Valid()
      modifies disk
      ensures Valid()
      ensures r.Ok? ==> fresh(r.value)
      ensures CopyDone(req, old(disk.fs), r, out, fs, copiedFolder, fsOpen, listed, listing)
    {
      out, fs, copiedFolder, fsOpen, listed, listing := Pass, disk.fs, false, disk.fs, Empty(), Empty();
      var checked := CopyChecks(req);
      if checked.Fail? {
        return Fail(checked.error), out, fs, copiedFolder, fsOpen, listed, listing;
      }
      var (s, targetPath) := checked.value;
      LookupMember(req.storage);
      r, out, fs, copiedFolder, fsOpen, listed, listing := CopyAndRespond(s, req.path, req.SelectedFiles(), targetPath);
    }

    /** The part of `copy` after its checks: the storage's `copy`, then the listing of the source folder. */
    method CopyAndRespond(s: LS.LocalStorage, path: string, names: seq<string>, targetPath: string)
      returns (r: Result<Response>, ghost out: Outcome, ghost fs: Fs, ghost copiedFolder: bool, ghost fsOpen: Fs,
               ghost listed: OMap<File>, ghost listing: OMap<File>)
      requires Valid() && Member(s)
      modifies disk
      ensures Valid()
      ensures r.Ok? ==> fresh(r.value)
      ensures CopyAnswered(s, path, names, targetPath, old(disk.fs), out, fs, copiedFolder, fsOpen, listed)
      ensures Concluded(r, out, s, path, copiedFolder, fs, listing)
    {
      listing := Empty();
      var flag, done;
      flag, done, fsOpen, listed := StorageCopy(s, path, names, targetPath);
      out, fs, copiedFolder := done, disk.fs, flag;
      if done.Throw? {
        return Fail(done.error), out, fs, copiedFolder, fsOpen, listed, listing;
      }
      // The storages are the same one here, so the tree is always the source storage's.
      r, listing := Respond(s, path, false, StatusOk, "", flag);
    }

    /**
     * The checks of `move`, in order: the storage exists and is writable,
     * the target storage is named, exists and is writable, the target
     * storage's own name is the request's storage, and the target path is
     * read.
     */
    function MoveChecks(req: Request): (r: Result<(LS.LocalStorage, string)>)
      requires Stored()
      reads this, Repr
      ensures r.Ok? <==>
        && Writable(req.storage).Ok? && req.TargetStorage().Ok? && Writable(req.TargetStorage().value).Ok?
        && req.storage == req.TargetStorage().value && req.TargetPath().Ok?
      ensures r.Ok? ==> r.value == (Writable(req.storage).value, req.TargetPath().value)
      ensures Writable(req.storage).Fail? ==> r == Fail(Writable(req.storage).error)
      ensures Writable(req.storage).Ok? && req.TargetStorage().Fail? ==> r == Fail(req.TargetStorage().error)
      ensures Writable(req.storage).Ok? && req.TargetStorage().Ok? && Writable(req.TargetStorage().value).Fail? ==>
        r == Fail(Writable(req.TargetStorage().value).error)
      ensures Writable(req.storage).Ok? && req.TargetStorage().Ok? && Writable(req.TargetStorage().value).Ok?
              && req.storage != req.TargetStorage().value ==>
        r == Fail(Error(InvalidRequest, MoveElsewhere))
      ensures Writable(req.storage).Ok? && req.TargetStorage().Ok? && Writable(req.TargetStorage().value).Ok?
              && req.storage == req.TargetStorage().value && req.TargetPath().Fail? ==>
        r == Fail(req.TargetPath().error)
    {
      match Writable(req.storage)
      case Fail(e) => Fail(e)
      case Ok(s) =>
        match req.TargetStorage()
        case Fail(e) => Fail(e)
        case Ok(target) =>
          match Writable(target)
          case Fail(e) => Fail(e)
          case Ok(t) =>
            // A storage is kept under its own name, so comparing with its name compares with `target`.
            assert Serves(target, storages.values[target]);
            if req.storage != t.storage.name then Fail(Error(InvalidRequest, MoveElsewhere))
            else
              match req.TargetPath()
              case Fail(e) => Fail(e)
              case Ok(targetPath) => Ok((s, targetPath))
    }

    /** The storage's `move(path, names, targetPath, movedFolder)`, the flag lowered before. */
    method StorageMove(s: LS.LocalStorage, path: string, names: seq<string>, targetPath: string)
      returns (movedFolder: bool, out: Outcome, ghost fsOpen: Fs, ghost listed: OMap<File>)
      requires Valid() && Member(s)
      modifies disk
      ensures Valid()
      ensures MoveAnswered(s, path, names, targetPath, old(disk.fs), out, disk.fs, movedFolder, fsOpen, listed)
    {
      MemberValid(s);
      movedFolder, out, fsOpen, listed := s.Move(path, names, targetPath, false);
      assert Stored();
    }

    /**
     * `move` took the file system from `fs0` through `fs` to the disk's: a
     * failed check is its error with nothing changed, otherwise the storage
     * moved the names or threw, and the answer follows from that.
     */
    ghost predicate MoveDone(req: Request, fs0: Fs, r: Result<Response>, out: Outcome, fs: Fs, movedFolder: bool,
                             fsOpen: Fs, listed: OMap<File>, listing: OMap<File>)
      requires Stored()
      reads this, Repr, disk, if r.Ok? then {r.value} else {}
    {
      var checked := MoveChecks(req);
      if checked.Fail? then r == Fail(checked.error) && disk.fs == fs0
      else
        var (s, targetPath) := checked.value;
        && MoveAnswered(s, req.path, req.SelectedFiles(), targetPath, fs0, out, fs, movedFolder, fsOpen, listed)
        && Concluded(r, out, s, req.path, movedFolder, fs, listing)
    }

    /**
     * `move`: both storages must exist and be writable, and they must be
     * the same storage, all before anything is moved. The response lists
     * the source folder and carries the tree exactly when a directory was
     * moved.
     */
    method Move(req: Request)
      returns (r: Result<Response>, ghost out: Outcome, ghost fs: Fs, ghost movedFolder: bool, ghost fsOpen: Fs,
               ghost listed: OMap<File>, ghost listing: OMap<File>)
      requires Valid()
      modifies disk
      ensures Valid()
      ensures r.Ok? ==> fresh(r.value)
      ensures MoveDone(req, old(disk.fs), r, out, fs, movedFolder, fsOpen, listed, listing)
    {
      out, fs, movedFolder, fsOpen, listed, listing := Pass, disk.fs, false, disk.fs, Empty(), Empty();
      var checked := MoveChecks(req);
      if checked.Fail? {
        return Fail(checked.error), out, fs, movedFolder, fsOpen, listed, listing;
      }
      var (s, targetPath) := checked.value;
      LookupMember(req.storage);
      r, out, fs, movedFolder, fsOpen, listed, listing := MoveAndRespond(s, req.path, req.SelectedFiles(), targetPath);
    }

    /** The part of `move` after its checks: the storage's `move`, then the listing of the source folder. */
    method MoveAndRespond(s: LS.LocalStorage, path: string, names: seq<string>, targetPath: string)
      returns (r: Result<Response>, ghost out: Outcome, ghost fs: Fs, ghost movedFolder: bool, ghost fsOpen: Fs,
               ghost listed: OMap<File>, ghost listing: OMap<File>)
      requires Valid() && Member(s)
      modifies disk
      ensures Valid()
      ensures r.Ok? ==> fresh(r.value)
      ensures MoveAnswered(s, path, names, targetPath, old(disk.fs), out, fs, movedFolder, fsOpen, listed)
      ensures Concluded(r, out, s, path, movedFolder, fs, listing)
    {
      listing := Empty();
      var flag, done;
      flag, done, fsOpen, listed := StorageMove(s, path, names, targetPath);
      out, fs, movedFolder := done, disk.fs, flag;
      if done.Throw? {
        return Fail(done.error), out, fs, movedFolder, fsOpen, listed, listing;
      }
      // The storages are the same one here, so the branch sending every storage is never taken.
      r, listing := Respond(s, path, false, StatusOk, "", flag);
    }

    /**
     * What action `a` does to a request `req` that `handleRequest` routes to
     * it, the file system going from `fs0` to the disk's: each action's
     * own checks and their errors first, then what the storage operation did
     * (`out`, `fs`, the folder flag `flag`, and `fsOpen` and `listed` once the
     * folder was opened) and the response built from it (`listing`).
     */
    ghost predicate Performed(req: Request, a: Action, fs0: Fs, r: Result<Response>, out: Outcome, fs: Fs, flag: bool,
                              fsOpen: Fs, listed: OMap<File>, listing: OMap<File>)
      requires Stored()
      reads this, Repr, disk, if r.Ok? then {r.value} else {}
    {
      match a
      case ListStorages =>
        && r.Ok? && disk.fs == fs0 && r.value.httpStatus == StatusOk && r.value.message == ""
        && r.value.files.None? && r.value.storage.None? && |r.value.storages| == |storages.keys|
        && forall i :: 0 <= i < |r.value.storages| ==> Viewed(storages.values[storages.keys[i]], r.value.storages[i])
      case ListFiles => GetFilesDone(req, false, fs0, r, listing)
      case ReloadFiles => GetFilesDone(req, true, fs0, r, listing)
      case MakeFolder => MkDirDone(req, fs0, r, out, fs, fsOpen, listed, listing)
      case UploadFiles => UploadDone(req, fs0, r, out, fs, listing)
      case RenameFile => RenameDone(req, fs0, r, out, fs, flag, fsOpen, listed, listing)
      case DeleteSelected => DeleteDone(req, fs0, r, out, fs, flag, fsOpen, listed, listing)
      case CopySelected => CopyDone(req, fs0, r, out, fs, flag, fsOpen, listed, listing)
      case MoveSelected => MoveDone(req, fs0, r, out, fs, flag, fsOpen, listed, listing)
    }

    /** The action `a` run on the request. */
    method Perform(req: Request, a: Action)
      returns (r: Result<Response>, ghost out: Outcome, ghost fs: Fs, ghost flag: bool, ghost fsOpen: Fs,
               ghost listed: OMap<File>, ghost listing: OMap<File>)
      requires Valid()
      modifies disk
      ensures Valid()
      ensures r.Ok? ==> fresh(r.value)
      ensures Performed(req, a, old(disk.fs), r, out, fs, flag, fsOpen, listed, listing)
    {
      out, fs, flag, fsOpen, listed, listing := Pass, disk.fs, false, disk.fs, Empty(), Empty();
      label before:
      match a {
        case ListStorages =>
          var resp := GetStorages();
          StillValid@before();
          r := Ok(resp);
        case ListFiles =>
          r, listing := GetFiles(req, false);
        case ReloadFiles =>
          r, listing := GetFiles(req, true);
        case MakeFolder =>
          r, out, fs, fsOpen, listed, listing := MkDir(req);
        case UploadFiles =>
          r, out, fs, listing := Upload(req);
        case RenameFile =>
          r, out, fs, flag, fsOpen, listed, listing := Rename(req);
        case DeleteSelected =>
          r, out, fs, flag, fsOpen, listed, listing := Delete(req);
        case CopySelected =>
          r, out, fs, flag, fsOpen, listed, listing := Copy(req);
        case MoveSelected =>
          r, out, fs, flag, fsOpen, listed, listing := Move(req);
      }
    }

    /**
     * The action the request names, once the caller is let in: an unknown
     * action is answered with status 400 rather than thrown.
     */
    method Dispatch(req: Request)
      returns (r: Result<Response>, ghost out: Outcome, ghost fs: Fs, ghost flag: bool, ghost fsOpen: Fs,
               ghost listed: OMap<File>, ghost listing: OMap<File>)
      requires Valid()
      modifies disk
      ensures Valid()
      ensures r.Ok? ==> fresh(r.value)
      ensures Route(req.action).None? ==>
        && r.Ok? && disk.fs == old(disk.fs) && r.value.httpStatus == StatusBadRequest && r.value.message == InvalidAction
        && r.value.files.None? && r.value.storage.None? && r.value.storages == []
      ensures Route(req.action).Some? ==>
        Performed(req, Route(req.action).value, old(disk.fs), r, out, fs, flag, fsOpen, listed, listing)
    {
      out, fs, flag, fsOpen, listed, listing := Pass, disk.fs, false, disk.fs, Empty(), Empty();
      var action := Route(req.action);
      if action.None? {
        label before:
        var resp := new Response(StatusBadRequest, InvalidAction);
        StillValid@before();
        r := Ok(resp);
        return;
      }
      r, out, fs, flag, fsOpen, listed, listing := Perform(req, action.value);
    }

    /**
     * `handleRequest`: the request is read, the caller is checked before
     * the action is even looked at, and the action named runs.
     */
    method HandleRequest(input: Input, env: Environment)
      returns (r: Result<Response>, ghost out: Outcome, ghost fs: Fs, ghost flag: bool, ghost fsOpen: Fs,
               ghost listed: OMap<File>, ghost listing: OMap<File>)
      requires Valid()
      modifies disk
      ensures Valid()
      ensures r.Ok? ==> fresh(r.value)
      ensures AccessError(RequirementsOf(config), env).Some? ==>
        r == Fail(AccessError(RequirementsOf(config), env).value) && disk.fs == old(disk.fs)
      ensures AccessError(RequirementsOf(config), env).None? && Route(Parse(input).action).None? ==>
        && r.Ok? && disk.fs == old(disk.fs) && r.value.httpStatus == StatusBadRequest && r.value.message == InvalidAction
        && r.value.files.None? && r.value.storage.None? && r.value.storages == []
      ensures AccessError(RequirementsOf(config), env).None? && Route(Parse(input).action).Some? ==>
        Performed(Parse(input), Route(Parse(input).action).value, old(disk.fs), r, out, fs, flag, fsOpen, listed, listing)
    {
      var denied := AccessError(RequirementsOf(config), env);
      if denied.Some? {
        return Fail(denied.value), Pass, disk.fs, false, disk.fs, Empty(), Empty();
      }
      r, out, fs, flag, fsOpen, listed, listing := Dispatch(Parse(input));
    }
  }
}
