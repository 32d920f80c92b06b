# dosiero-php connector, modelled in Dafny

This project models the server side of the dosiero file manager. A single
HTTP endpoint (`Connector::handleRequest`) does the following:

- reads the request;
- checks the caller against the configured basic-auth credentials, session
  variable and address list;
- dispatches one of nine actions to a named storage: `storages`, `files`,
  `files-reload`, `mkdir`, `upload`, `rename`, `delete`, `copy` and `move`.

The only storage is the local one (`LocalStorage`). It resolves every path
relative to its base directory. To list, create, delete or rename, it opens a
`LocalDirectory` on the folder. That directory reads its entries either
from the `.htdircache` sidecar file or from the disk, in which case it
rewrites the sidecar. Images in the listing carry a base64 thumbnail
(`Thumbnail`).

How the model is laid out:

- The file system is a class `Disk.Disk`. It holds a map from resolved
  paths to nodes and offers the PHP file functions the code calls. Each
  of them either succeeds with its effect or fails and changes nothing.
- The connector, the storages, the directory, the response and the
  configuration are classes whose methods change their fields and the
  disk.
- Files, folders, requests, cache records and JSON values are datatypes.
- The library code the core only calls is a `Platform.Probe` of
  uninterpreted functions: libmagic, GD, base64, JSON text, date
  formatting and iconv.
- PHP's string built-ins are written out over `seq<char>` in `PhpStrings`.
- `Paths` reads a path string by its text alone: empty and "." components
  are dropped and ".." climbs one level. The operating system's own checks
  along the way are not part of it (see "## Left out").

Every operation is modelled on its own source lines, including the
program's quirks:

- the password is compared with the configured user;
- `delete` deletes before it checks that the storage is writable;
- `copy` checks only the target storage for writability;
- a folder name's regular expression lets one trailing newline through;
- the listing URL has no separator between the path and the name.

Three defects are listed under "## Findings", each with the code as
written and a corrected definition.

## Model

| member | source | states |
|---|---|---|
| AccessConfig.CleanIpList | src/Config.php:49-52 | the cleaned list is no longer than the input and holds no empty ("" or "0") entry |
| AccessConfig.CleanIpListMembers | src/Config.php:49-52 | an address is kept exactly when it is not empty and some entry trims to it |
| AccessConfig.CleanIpListTrimmed | src/Config.php:49-52 | every kept address is already trimmed |
| AccessConfig.CleanIpListIdempotent | src/Config.php:49-52 | cleaning a cleaned list changes nothing |
| AccessConfig.Config.constructor | src/Config.php:9-20 | a new configuration requires nothing: no session, no credentials, no address list |
| AccessConfig.Config.RequireSession | src/Config.php:22-26 | sets the session name and value and leaves the other requirements as they were |
| AccessConfig.Config.SetAllowedIp | src/Config.php:49-52 | the address list becomes the cleaned input; nothing else changes |
| AccessConfig.Config.RequireBasicAuth | src/Config.php:54-58 | sets user and password; nothing else changes |
| Utils.ValidFolderNameChars | src/Utils.php:16-19 | apart from one trailing newline, a name is valid exactly when it is non-empty and made of `[a-z0-9-_.]`, in any case |
| Utils.ValidFolderNameIsLocal | src/Utils.php:16-19 | a valid name holds no '/' and names an entry of the folder, the folder itself or its parent |
| Utils.ValidFolderNameQuirks | src/Utils.php:16-19 | ".", ".." and "docs\n" pass the check; "", "a b", "a/b" and "docs\n\n" do not |
| Utils.NormalizeFileName | src/Utils.php:10-14 | the result has no space; a failed transliteration gives ""; otherwise every space of the transliteration becomes '-' |
| Utils.NormalizeFileNameKeepsSlashFree | src/Utils.php:10-14 | normalising introduces no '/' that the transliteration did not have |
| Outcomes.Quote | src/Local/LocalDirectory.php:155 | an error message's quoted name is the name between two double quotes |
| OrderedMaps.OMap.Put | src/Local/LocalDirectory.php:100 | `$a[$k] = $v`: the key maps to the value, the others are kept, and a new key goes last in the order |
| OrderedMaps.OMap.Remove | src/Local/LocalDirectory.php:150 | `unset`: the key is gone and the order of the others is kept |
| OrderedMaps.PutOrder | src/Connector.php:25 | replacing a value keeps the key's place; a new key is appended |
| Requests.StringParam | src/Request.php:27-32 | a missing parameter reads as ""; a string parameter reads as itself |
| Requests.Request.SelectedFiles | src/Request.php:49-52 | the "files" array converted element by element to strings, or [] when it is missing or not an array |
| Requests.Request.FormField | src/Request.php:54-82 | a missing field reads as ""; an array throws a TypeError; otherwise the value is trimmed at both ends |
| Requests.Request.UploadedFiles | src/Request.php:69-72 | the upload list, or [] when there is none |
| Requests.Parse | src/Request.php:27-32 | a missing action or storage is ""; the path loses its trailing slashes only; form and uploads are passed on |
| Requests.ParseKeepsLeadingSlash | src/Request.php:27-32 | a path with a leading slash keeps it unless it is all slashes |
| Entries.Read | src/File.php:66-99 | a getter returns null exactly for a property set to null, and otherwise the value set |
| Entries.Assign | src/File.php:71-99 | a setter leaves the property assigned, and reading it back gives the value set |
| Entries.File.Url | src/File.php:106-109 | the URL is the directory URL followed by the name |
| Entries.NewFile | src/File.php:35-39 | a new File has its name and type, size 0, no date, no directory URL, and width, height and thumbnail unassigned |
| Entries.FromRecord | src/Local/LocalDirectory.php:130-138 | the File built from a cache record carries every field of the record and has all getters ready |
| Entries.ToRecord | src/Local/LocalDirectory.php:106-117 | the record written for a File reads back as that File, with its directory URL cleared |
| Entries.RecordRoundTrip | src/Local/LocalDirectory.php:106-138 | a record read in and written out again is the same record |
| Responses.FileToJson | src/Response.php:111-127 | one listed file as its eight properties, in the order the client receives them |
| Responses.FileJsonRoundTrip | src/Response.php:111-127 | the eight properties lose nothing: the File, directory URL included, can be rebuilt from them |
| Responses.FilesJsonRoundTrip | src/Response.php:111-127 | the listing is sent completely and in order |
| Responses.FoldersJsonRoundTrip | src/Response.php:94-105 | the folder tree is sent whole: every folder, its path and its sub-folders, in order |
| Responses.FolderJsonRoundTrip | src/Response.php:94-105 | one folder and its sub-tree can be rebuilt from what is sent |
| Responses.StorageToJson | src/Response.php:65-88 | a storage is sent as its name, its read-only switch and its folders, or the error of listing them |
| Responses.StoragesToJson | src/Response.php:65-88 | every storage is sent, in order, unless one folder tree throws, and then the first such error is thrown |
| Responses.AssembleShape | src/Response.php:65-88 | `msg` comes first; every other property is present exactly when it has a value; no key repeats |
| Responses.SerialiseShape | src/Response.php:65-88 | the answer holds the listing, the storage and the storages exactly when they were set; it fails only when a folder tree throws, the single storage's before the list's |
| Responses.AcceptsDomainExamples | src/Response.php:132-138 | "*", "http" and "https://example.com" are accepted as domains; "example.com", "htt", "" and "**" are not |
| Responses.Response.constructor | src/Response.php:38-42 | a response with the given status and message and nothing else set |
| Responses.Response.SetFiles | src/Response.php:47-50 | the listing is set; nothing else changes |
| Responses.Response.SetStorages | src/Response.php:55-58 | the list of storages is set; nothing else changes |
| Responses.Response.SetStorage | src/Response.php:60-63 | the single storage is set; nothing else changes |
| Responses.Response.AllowAccessFromDomain | src/Response.php:132-138 | "*" or a domain beginning with "http" is kept; anything else throws and the allowed domain is unchanged |
| Storages.CastBool | src/Storage.php:45-72 | `(bool)` is false exactly for false, 0, "" and "0" |
| Storages.WithOneSlashShape | src/Storage.php:48-50 | a base URL ends in exactly one '/', and only trailing slashes were dropped |
| Storages.WithOneSlashIdempotent | src/Storage.php:48-50 | normalising a normalised base URL changes nothing |
| Storages.SlashEndedFixed | src/Storage.php:48-50 | a non-empty value ends in exactly one '/' exactly when normalising leaves it alone |
| Storages.ClampThumbnailSize | src/Storage.php:51-53 | the thumbnail size is at least 10, and a value of 10 or more is kept |
| Storages.DefaultsValid | src/Storage.php:23-33 | a new storage has modes 0755 and 0644 and 50-pixel thumbnails, and its settings are valid |
| Storages.UpdatedValid | src/Storage.php:45-72 | every recognised option keeps the settings valid |
| PhpStrings.ParseInt | src/Storage.php:52-58 | `(int)` of a string lies within PHP's 64-bit range |
| PhpStrings.ParseIntOfIntToString | src/Storage.php:52-58 | the cast reads every `int` back from its decimal text |
| PhpStrings.ParseIntSaturates | src/Storage.php:52-58 | a digit string beyond PHP_INT_MAX is clamped to it |
| PhpStrings.ParseIntSkipsSpace | src/Storage.php:52-58 | leading whitespace does not change the cast |
| PhpStrings.ParseIntExponent | src/Storage.php:52-58 | `(int)"1e3"` is 1000: the exponent is read |
| PhpStrings.ParseIntTruncatesFraction | src/Storage.php:52-58 | a fraction is cut off toward zero: `(int)"-a.b"` is -a for all digits a and b, so "-7.9" gives -7 |
| PhpStrings.ParseIntTrailingText | src/Storage.php:52-58 | `(int)"42px"` is 42: text after the number is ignored |
| PhpStrings.ParseIntHex | src/Storage.php:52-58 | `(int)"0x1A"` is 0: hexadecimal is not numeric |
| Storages.ThumbnailSizeInExponent | src/Storage.php:51-53 | `setOption('THUMBNAIL_SIZE', "1e3")` sets the size to 1000 |
| Storages.UpdatedOwnField | src/Storage.php:45-72 | each option sets its own setting, cast and normalised, and leaves the six others as they were |
| Storages.BaseUrlResetIsStable | src/Storage.php:48-50 | setting the base URL again to the stored value changes nothing |
| Storages.Storage.constructor | src/Storage.php:35-38 | a new storage has its name and the default settings |
| Storages.Storage.SetOption | src/Storage.php:45-72 | a recognised option updates its setting as `Updated` says; an unknown one throws and changes nothing |
| Thumbnail.ScaledSize | src/Thumbnail.php:56-69 | the computed canvas is never wider or higher than both the limit and the original |
| Thumbnail.ScaledSizeNoUpscale | src/Thumbnail.php:56-69 | an image that fits keeps its size; otherwise both sides are within the limit |
| Thumbnail.ScaledSizePortrait | src/Thumbnail.php:63-65 | a portrait image gets the full height and the widest width its aspect ratio allows |
| Thumbnail.ScaledSizeLandscape | src/Thumbnail.php:66-68 | a landscape or square image gets the full width and the lowest height that keeps its aspect ratio |
| Thumbnail.EncoderName | src/Thumbnail.php:27-37 | the encoder for an extension is an `image*` function |
| Thumbnail.MimeOf | src/Thumbnail.php:123-129 | the announced type is png, gif or jpg; png and gif exactly for their own extensions |
| Thumbnail.DataUri | src/Thumbnail.php:131 | the thumbnail is a `data:` URI |
| Thumbnail.DataUriRoundTrip | src/Thumbnail.php:131 | a data URI reads back as the MIME type and payload it was built from |
| Thumbnail.Encode | src/Thumbnail.php:27-37 | the encoding is "" or the data URI of the resampled image with its extension's MIME type |
| Thumbnail.ThinImageThrows | src/Thumbnail.php:65 | as written, a 1×200 image at the default size of 50 makes the canvas creation throw for its width |
| Thumbnail.ThumbnailFromFile | src/Thumbnail.php:20-25 | throws exactly when the file decodes to an image whose computed size has an empty side, naming that side; otherwise a data URI with the extension's MIME type, or "" |
| Thumbnail.JpegNames | src/Thumbnail.php:20-37 | "jpeg" and "jpg" in any case are encoded as JPEG and announced as image/jpg |
| Thumbnail.ThumbnailSize | src/Thumbnail.php:56-71 | corrected size: with a positive limit both sides are at least 1 and within the limit |
| Thumbnail.ThumbnailSizeAgrees | src/Thumbnail.php:56-71 | the corrected size equals the computed one wherever that one can be a canvas, and can always be one |
| Thumbnail.ThumbnailFromString | src/Thumbnail.php:39-132 | corrected thumbnail: "" for empty or undecodable input; otherwise a data URI with the extension's MIME type |
| Thumbnail.ThumbnailFromStringAgrees | src/Thumbnail.php:39-132 | wherever the code as written produces a thumbnail, the corrected code produces the same one |
| Thumbnail.ThumbnailFromStringTotal | src/Thumbnail.php:56-71 | with a positive limit, the corrected code always encodes an image of at least one pixel on each side within the limit |
| Disk.Disk.Mkdir | src/Local/LocalDirectory.php:195 | `mkdir` creates a directory exactly where one can be created at the path as `Paths.Resolve` reads it, and otherwise changes nothing |
| Disk.Disk.Rmdir | src/Local/LocalDirectory.php:177 | `rmdir` removes exactly an empty directory other than the root, and otherwise changes nothing |
| Disk.Disk.Unlink | src/Local/LocalDirectory.php:154 | `unlink` removes exactly a file, and otherwise changes nothing |
| Disk.Disk.Rename | src/Local/LocalDirectory.php:209 | `rename` moves the tree exactly when rename(2) allows it for the paths as `Paths.Resolve` reads them, and otherwise changes nothing |
| Disk.Disk.Copy | src/Local/LocalStorage.php:149 | `copy` writes the file's content at the target exactly when it can, and otherwise changes nothing |
| Disk.Disk.Write | src/Local/LocalDirectory.php:119 | `file_put_contents` writes the file exactly when it can, and otherwise changes nothing |
| LocalDirectory.EntryFor | src/Local/LocalDirectory.php:74-101 | a directory always gives an entry; any entry has its name, all getters ready and no URL |
| LocalDirectory.EntryDescribesNode | src/Local/LocalDirectory.php:74-101 | reading in fails exactly for an image whose thumbnail throws. Otherwise the entry has the node's type, size and time; it has a thumbnail exactly for an image, and dimensions exactly when `getimagesize` finds them |
| LocalDirectory.Scan | src/Local/LocalDirectory.php:62-72 | the listing has one entry per name in the folder, the sidecar excluded, each as `EntryFor` reads it |
| LocalDirectory.SortNames | src/Local/LocalDirectory.php:118 | the keys in strictly increasing order: the same names, each once |
| LocalDirectory.SortedUnique | src/Local/LocalDirectory.php:118 | a set of names has exactly one strictly increasing enumeration |
| LocalDirectory.CacheListing | src/Local/LocalDirectory.php:103-120 | one record per listed entry, in name order, each the record of that entry |
| LocalDirectory.CacheRecords | src/Local/LocalDirectory.php:105-118 | the loop that builds the name-keyed map and sorts it gives exactly `CacheListing` |
| LocalDirectory.CacheListingOrderFree | src/Local/LocalDirectory.php:103-120 | the sidecar depends on the entries only, not on the order they were listed in |
| LocalDirectory.FromRecords | src/Local/LocalDirectory.php:129-138 | the listing read from records has all getters ready and lists exactly the records' names |
| LocalDirectory.CacheRestoresEntries | src/Local/LocalDirectory.php:103-140 | each saved entry is read back from the sidecar unchanged |
| LocalDirectory.CacheRoundTrip | src/Local/LocalDirectory.php:103-140 | reading the sidecar back gives exactly the entries that were saved |
| LocalDirectory.CacheOrder | src/Local/LocalDirectory.php:118-138 | entries read back from the sidecar come in name order |
| LocalDirectory.DeleteStep | src/Local/LocalDirectory.php:145-159 | a name that is deleted leaves a valid listing and marks the sidecar for rewriting |
| LocalDirectory.DeleteAllStops | src/Local/LocalDirectory.php:142-164 | a run that stops does so at one of the names: every earlier name was deleted, and that one cannot be |
| LocalDirectory.DeleteAllRemoves | src/Local/LocalDirectory.php:142-164 | when all names are deleted, nothing is added or changed on disk. Every selected entry is gone from the disk (unless its name is all dots) and from the listing. The sidecar is rewritten exactly when something was selected |
| LocalDirectory.DeleteStepRemoves | src/Local/LocalDirectory.php:145-159 | one deleted name leaves the disk shrunk and its entry gone from the disk and the listing |
| LocalDirectory.OpenFailsExactly | src/Local/LocalDirectory.php:34-48 | a folder whose sidecar is not trusted and one of whose entries fails cannot be opened |
| LocalDirectory.MkDirCreates | src/Local/LocalDirectory.php:187-201 | after `mkDir` succeeds the folder is a directory, and when it was created it is listed as one under its name |
| LocalDirectory.MkDirListingValid | src/Local/LocalDirectory.php:187-201 | the listing after `mkDir` is still consistent |
| LocalDirectory.MkDirIdempotent | src/Local/LocalDirectory.php:187-192 | a second `mkDir` of the same name after a successful one changes nothing |
| LocalDirectory.RenameMoves | src/Local/LocalDirectory.php:203-217 | after a successful rename the entry is at the new name, unchanged, and no longer at the old one |
| LocalDirectory.ClearedAll | src/Local/LocalDirectory.php:173-178 | once every child is visited, the folder is empty exactly when its tree is removable, and removing it then removes the whole tree |
| LocalDirectory.OpenDirectory | src/Local/LocalDirectory.php:34-48 | a path that is no directory throws. Otherwise opening succeeds exactly when the folder is openable. A failure changes nothing and names the entry that failed; a success leaves the folder opened as `OpenedAt` says |
| LocalDirectory.LocalDirectory.constructor | src/Local/LocalDirectory.php:34-40 | the folder ends in one '/', with the disk, probe and thumbnail size given |
| LocalDirectory.LocalDirectory.Load | src/Local/LocalDirectory.php:39-47 | passes exactly when the folder is openable. It then trusts the sidecar, or lists the folder and rewrites the sidecar. A throw changes nothing and names an entry that fails |
| LocalDirectory.LocalDirectory.LoadFiles | src/Local/LocalDirectory.php:62-72 | passes exactly when every entry can be read in, and the listing is then `Scan`. Otherwise it throws an entry's error |
| LocalDirectory.LocalDirectory.LoadFile | src/Local/LocalDirectory.php:74-101 | the entry is listed under its base name as `EntryFor` reads it, or its error is thrown and the listing kept |
| LocalDirectory.LocalDirectory.SaveFilesToCache | src/Local/LocalDirectory.php:103-120 | the sidecar is rewritten with `CacheListing` of the listing |
| LocalDirectory.LocalDirectory.LoadFilesFromCache | src/Local/LocalDirectory.php:122-140 | loads exactly when the sidecar is a decodable listing, which is then read with `FromRecords`; otherwise nothing changes |
| LocalDirectory.LocalDirectory.RmdirRecursive | src/Local/LocalDirectory.php:166-185 | an all-dots name is passed over. Otherwise it succeeds exactly when the tree exists and holds no all-dots name, and the whole tree is then gone. On failure only part of the tree is gone, and the message names the failing file, or a directory of the tree that holds an all-dots name |
| LocalDirectory.LocalDirectory.RemoveChildren | src/Local/LocalDirectory.php:174-176 | every child is removed unless its name is all dots; or it throws with the tree shrunk and a blocking directory named |
| LocalDirectory.LocalDirectory.DeleteFiles | src/Local/LocalDirectory.php:142-164 | the names are deleted in order as `DeleteAll` says. On success the sidecar is rewritten when anything was selected. Otherwise the first name that cannot be deleted throws its message, and the earlier deletions stay |
| LocalDirectory.LocalDirectory.DeleteEntry | src/Local/LocalDirectory.php:146-159 | one name is deleted as `DeleteStep` says, or it throws as `DeleteFailure` says |
| LocalDirectory.LocalDirectory.MkDir | src/Local/LocalDirectory.php:187-201 | an existing directory is left alone. Otherwise the directory is created, listed and the sidecar rewritten, or the call throws with nothing changed |
| LocalDirectory.LocalDirectory.Rename | src/Local/LocalDirectory.php:203-217 | the entry and its tree move. The flag says whether a directory moved. The old name leaves the listing, and the new one is read in with the sidecar rewritten. A failed rename throws and changes nothing |
| LocalStorage.AbsPathStaysInside | src/Local/LocalStorage.php:79-87 | a path without ".." components names an entry inside the base directory |
| LocalStorage.AbsPathClimbsOut | src/Local/LocalStorage.php:79-87 | a ".." component leaves the base directory: "../name" names `name` beside it |
| LocalStorage.SetDirectoryUrl | src/Local/LocalStorage.php:73-75 | the loop stamps every listed file, in order, with the folder's URL and changes nothing else |
| LocalStorage.ListedUrls | src/Local/LocalStorage.php:68-77 | a listed file's URL is the base URL, the request's path and the name, with no separator between path and name |
| LocalStorage.ListedUrlOfSubfolder | src/Local/LocalStorage.php:74 | "a.txt" in "docs" under "http://host/" gets the URL "http://host/docsa.txt" |
| LocalStorage.UploadOnlyWritesFiles | src/Local/LocalStorage.php:96-124 | uploads only add or rewrite files: every entry stays and no directory changes |
| LocalStorage.UploadKeepsFiles | src/Local/LocalStorage.php:111-114 | with overwriting off, no existing file is changed |
| LocalStorage.UploadOutcome | src/Local/LocalStorage.php:101-123 | an upload passes exactly when no file reports an error and, with overwriting off, no name was skipped. The first failed file is named |
| LocalStorage.UploadTargetMissesSeparator | src/Local/LocalStorage.php:110 | as written, the target is right in the base directory and wrong below it: "a.txt" sent to "docs" lands in "/srv/docsa.txt" |
| LocalStorage.SourceMissesSeparator | src/Local/LocalStorage.php:144 | as written, `copy` and `move` look a name up beside the folder, as `folder` + `name`, and not inside it |
| LocalStorage.EntryInResolves | src/Local/LocalStorage.php:110 | corrected join: the entry named inside the folder, whether or not the folder string ends in '/' |
| LocalStorage.IteratorPath | src/Local/LocalStorage.php:55-61 | the iterator's path drops one trailing '/', unless the path is "/" alone |
| LocalStorage.RelativePathBelowBase | src/Local/LocalStorage.php:58-59 | below the base directory, a folder's path is what follows the base directory |
| LocalStorage.ListedAll | src/Local/LocalStorage.php:51-66 | once every entry is visited, the items are the folder tree of the directory |
| LocalStorage.CopyNamesStep | src/Local/LocalStorage.php:143-153 | each further name of `copy` is copied, and the names copied before stay copied |
| LocalStorage.MoveNamesStep | src/Local/LocalStorage.php:178-188 | each further name of `move` is moved, and the names moved before stay moved |
| LocalStorage.LocalStorage.constructor | src/Storage.php:35-38 | a new local storage has its name, the default settings and no base directory |
| LocalStorage.LocalStorage.SetOption | src/Local/LocalStorage.php:28-39 | the base directory must exist and is kept with one trailing '/', or the call throws; any other option goes to the settings |
| LocalStorage.LocalStorage.SetBaseDir | src/Local/LocalStorage.php:30-35 | an existing directory is kept with one trailing '/'; anything else throws "directory not found" |
| LocalStorage.LocalStorage.AbsPathOpens | src/Local/LocalStorage.php:79-87 | the path `absPath` returns is an existing directory |
| LocalStorage.LocalStorage.OpenFolder | src/Local/LocalStorage.php:70-71 | a path that is no folder, or a folder that cannot be opened, throws with nothing changed; otherwise the folder is opened as `OpenedAt` says |
| LocalStorage.LocalStorage.GetFiles | src/Local/LocalStorage.php:68-77 | the folder's listing as opening it gives, each file stamped with base URL and path, or the error of opening it |
| LocalStorage.LocalStorage.MkDir | src/Local/LocalStorage.php:89-94 | the folder is opened with its sidecar trusted, and `LocalDirectory.mkDir` then does the rest |
| LocalStorage.LocalStorage.Delete | src/Local/LocalStorage.php:126-130 | the folder is opened, and `deleteFiles` removes the names as `DeletedIn` says |
| LocalStorage.LocalStorage.Rename | src/Local/LocalStorage.php:132-136 | the folder is opened, and `LocalDirectory.rename` renames the entry as `RenameEffect` says |
| LocalStorage.LocalStorage.Upload | src/Local/LocalStorage.php:96-124 | an unknown folder throws; otherwise the uploads go into the folder as `UploadAll` says |
| LocalStorage.LocalStorage.UploadInto | src/Local/LocalStorage.php:101-123 | the loop over the uploads gives exactly the outcome and file system of `UploadAll` |
| LocalStorage.LocalStorage.GetFolders | src/Local/LocalStorage.php:41-44 | succeeds exactly when the base directory is a directory, and then gives its whole folder tree; otherwise the iterator's error |
| LocalStorage.LocalStorage.GetSubFolders | src/Local/LocalStorage.php:51-66 | one item per sub-directory, each once, with its path relative to the base and its own sub-tree |
| LocalStorage.LocalStorage.Copy | src/Local/LocalStorage.php:138-155 | unknown folders throw with nothing changed. Otherwise only the copied trees and the target's sidecar change, and nothing is lost. A name neither file nor directory throws. On success each name is copied and the target reopened |
| LocalStorage.LocalStorage.RecursiveCopy | src/Local/LocalStorage.php:157-171 | the target directory is made or exists, or the call throws. When source and target lie apart the target becomes a copy of the source tree |
| LocalStorage.LocalStorage.Move | src/Local/LocalStorage.php:173-190 | unknown folders throw with nothing changed. Otherwise only the moved trees, their new places and the target's sidecar change. On success each name is moved and the target reopened |
| LocalStorage.LocalStorage.RecursiveMove | src/Local/LocalStorage.php:192-207 | the target directory is made or exists, or the call throws. When source and target lie apart the tree is moved and the emptied source removed |
| LocalStorage.LocalStorage.Reopen | src/Local/LocalStorage.php:154 | the target folder is listed afresh and its sidecar rewritten, or the call throws when it is gone or an image fails |
| Connectors.AccessError | src/Connector.php:67-100 | no error exactly when the caller meets every configured requirement; otherwise the first failing check's error |
| Connectors.PasswordComparedWithUser | src/Connector.php:81-86 | the right password is refused when it differs from the user, and the user name sent as password gets in |
| Connectors.UnexpectedCredentialsRefused | src/Connector.php:81-86 | credentials sent where none are configured are refused, unless both are empty |
| Connectors.AccessCheckOrder | src/Connector.php:75-99 | missing credentials are reported before the session, and the session before the address |
| Connectors.Route | src/Connector.php:33-63 | each of the nine action names selects its action; any other name selects none |
| Connectors.RouteByName | src/Connector.php:33-63 | every action is reached by its own name and by no other |
| Connectors.RenameNames | src/Connector.php:156-174 | the old and new names, read and trimmed; a name containing '/' is refused, the old one first |
| Connectors.ReadOnlyCheck | src/Connector.php:252-257 | throws exactly for a read-only storage |
| Connectors.StampedReady | src/Local/LocalStorage.php:73-75 | a stamped listing keeps every file's getters ready, and each URL is the folder's URL followed by the name |
| Connectors.Connector.constructor | src/Connector.php:18-21 | a connector with the configuration and no storages |
| Connectors.Connector.Lookup | src/Connector.php:111-117 | the storage kept under the name, or "not found storage" |
| Connectors.Connector.AddStorage | src/Connector.php:23-26 | the storage is kept under its name; one added before under the same name is replaced and keeps its place |
| Connectors.Connector.Writable | src/Connector.php:111-117 | the storage, if it exists and is not read-only; otherwise the error of whichever check fails first |
| Connectors.Connector.Views | src/Connector.php:245-250 | every storage, in the order they were added |
| Connectors.Connector.GetStorages | src/Connector.php:245-250 | status 200, no listing, no single storage, and every storage |
| Connectors.Connector.GetFiles | src/Connector.php:102-109 | an unknown storage throws with nothing changed; otherwise the listing of the path is answered |
| Connectors.Connector.MkDirChecks | src/Connector.php:119-129 | the storage exists and is writable, then the folder name is read and must be valid, in that order |
| Connectors.Connector.MkDir | src/Connector.php:119-135 | nothing is created unless the checks pass. Then the storage's `mkDir` runs; its error is thrown, or the folder is listed afresh with the storage's tree |
| Connectors.Connector.Upload | src/Connector.php:137-154 | the storage must exist and be writable. A storage error of the upload becomes a 400 response with its message; any other error is thrown |
| Connectors.Connector.RenameChecks | src/Connector.php:156-166 | both names are free of '/', and then the storage exists and is writable, in that order |
| Connectors.Connector.Rename | src/Connector.php:156-174 | a failed check changes nothing. The response lists the folder and carries the tree exactly when a directory was renamed |
| Connectors.Connector.Delete | src/Connector.php:176-190 | the names are deleted before the read-only check, so a read-only storage loses them and then throws. The tree is sent exactly when a directory was deleted |
| Connectors.Connector.CopyChecks | src/Connector.php:192-208 | the storage exists; the target storage is named, exists and is writable; the two are the same; then the target path is read |
| Connectors.Connector.Copy | src/Connector.php:192-216 | nothing is copied unless every check passes. The source folder is listed, with the tree exactly when a directory was copied |
| Connectors.Connector.MoveChecks | src/Connector.php:218-235 | both storages exist and are writable, the target's name is the request's storage, and then the target path is read |
| Connectors.Connector.Move | src/Connector.php:218-243 | nothing is moved unless every check passes. The source folder is listed, with the tree exactly when a directory was moved |
| Connectors.Connector.Perform | src/Connector.php:33-60 | each routed action does what its own method promises, and nothing else |
| Connectors.Connector.Dispatch | src/Connector.php:33-63 | an unknown action is answered with status 400 and changes nothing; a known one is performed |
| Connectors.Connector.HandleRequest | src/Connector.php:28-65 | a caller refused access gets the error, with nothing changed; otherwise the action named is dispatched |

## Left out

- LocalDirectory.LocalDirectory.RmdirRecursive: lists a directory's children literally. The PHP code uses `glob($path . '/{,.}*')`, where `[ ] * ? { } \` in the folder's own path are pattern syntax. A folder named "x[1]" can then match nothing, or match a sibling "x1", before `rmdir` fails. The model does not capture that pattern matching.
- LocalDirectory.LocalDirectory.RemoveChildren: as above, children come from the literal listing, not from glob matching.
- LocalDirectory.SortNames: orders names byte-wise. PHP's `ksort` compares numeric-string keys as integers, so "9" comes before "10" in PHP but after it here.
- LocalDirectory.CacheListing: the sidecar order is byte-wise for the same reason as `SortNames`.
- Thumbnail.ScaledSize: uses exact integer floor and ceiling, where PHP computes in IEEE doubles. A 58×100 image at 50 gives 28×50 in PHP and 29×50 here; 100×58 gives 50×30 in PHP and 50×29 here.
- LocalDirectory.LocalDirectory.LoadFilesFromCache: any raw (non-listing) sidecar counts as undecodable. PHP accepts any valid JSON there. A scalar such as `5` gives an empty listing, because the `foreach` at LocalDirectory.php:130 skips it with a warning. A list of malformed records throws instead, so the folder cannot be listed. For `[5]`, `$item['name']` is null and `new File(null, null)` throws a TypeError (File.php:35, under strict types). A record whose `size` is a string or whose `modified` is null throws the same way at File.php:51 and :61.
- LocalDirectory.LocalDirectory.SaveFilesToCache: `json_encode` is total here. PHP throws a JsonException for names that are not valid UTF-8.
- Requests.Request.UploadedFiles: holds one entry per file. Array-valued (multi-file) `$_FILES` fields are not represented.
- LocalStorage.LocalStorage.Upload: permission modes (`chmod`, the `mkdir` mode) are not tracked. The upload always copies the temporary file, so the difference between `move_uploaded_file` and `copy` is not modelled.
- LocalStorage.LocalStorage.Copy: the per-name facts (each name copied as `ItemsCopied` says) are stated only when the selected trees lie apart. They are measured before the target is reopened.
- LocalStorage.LocalStorage.Move: the per-name facts (each name moved as `ItemsMoved` says) are stated only when the selected trees lie apart. They are measured before the target is reopened.
- LocalStorage.LocalStorage.Upload, Copy and Move keep the paths as written. The corrected join `EntryIn` is proved on its own and is not used by them (see "## Findings").
- Paths.Resolve: reads a path by its text alone. ".." drops the component before it even when that component is a file or does not exist, and a trailing '/' after a file still names the file (`Paths.ResolveClimb`, `Paths.ResolveTrailingSlash`). The operating system fails such paths with ENOENT or ENOTDIR. So `files` with path "missing/.." lists the base directory here, where PHP's `absPath` throws `not found path "missing/.."`. `delete` of "a.txt/..", with a.txt a file, passes here as an all-dots directory, where PHP's `unlink` fails with `cannot delete "a.txt/.."`. `delete` of "a.txt/" unlinks a.txt here, where PHP throws.
- Disk.Disk.IsDir and Disk.Disk.IsFile: hold for a path whose lexical reading names a directory or a file, even through "missing/.." or "a.txt/..", where `is_dir` and `is_file` are false.
- Disk.Disk.Mkdir: `mkdir("/srv/a.txt/../x")` creates /srv/x here, where mkdir(2) fails with ENOTDIR.
- Disk.Disk.Rmdir: `rmdir("/srv/missing/../d")` removes /srv/d here, where rmdir(2) fails with ENOENT.
- Disk.Disk.Unlink: `unlink("/srv/a.txt/")` removes the file here, where unlink(2) fails with ENOTDIR.
- Disk.Disk.Rename: a rename from or to a path through "a.txt/.." or "missing/.." succeeds here, where rename(2) fails.
- Disk.Disk.Copy: a copy from "/srv/a.txt/" or through "missing/.." succeeds here, where PHP's `copy` fails.
- Disk.Disk.Write: `file_put_contents` below "missing/.." writes here, where opening the file fails with ENOENT.
- PhpStrings.ParseInt: computes the numeric prefix exactly, where PHP reads a string with a fraction or an exponent through an IEEE double. Double rounding is not modelled ("0.99999999999999999999" is 1 in PHP and 0 here). Neither is the overflow to infinity beyond about 1.8e308, which PHP casts to 0 and the model saturates.
- Storages.UpdatedOwnField: `THUMBNAIL_SIZE`, `MODE_FILE` and `MODE_DIRECTORY` go through `PhpStrings.ParseInt`, so they share its gap with doubles.
- Storages.Storage.SetOption: as `UpdatedOwnField`, the integer options share `PhpStrings.ParseInt`'s gap with doubles.
- The order in which a directory is iterated is left open: methods pick the next entry arbitrarily, and every contract holds for any order.
- Paths have a maximum depth, `Disk.MaxDepth`, which stands in for the system's path-length limit. It bounds the recursion of listing, copying, moving and deleting.
- The library functions are parameters (`Platform.Probe`): MIME detection, image decoding, resampling and encoding, base64, JSON text, date formatting and transliteration.
- The request's superglobals are the explicit `Input` and `Environment` values.
- Response output is not modelled: `Response::sendOutput`, its headers and the JSON text. The response is kept as a JSON value tree.
- Symbolic links, file permissions, `clearstatcache` and concurrent requests are not modelled.

## Findings

| source | as written | input that shows it | evidently intended | confidence | as-written member | corrected member |
|---|---|---|---|---|---|---|
| src/Thumbnail.php:65 | the portrait width `(int)($maxSize * $width / $height)` can be 0, and `imagecreatetruecolor` at :71 then throws a ValueError that nothing catches, so the whole folder cannot be listed | a 1×200 PNG in a folder listed with thumbnail size 50 | each side of the thumbnail at least one pixel | not executed | Thumbnail.ThinImageThrows | Thumbnail.ThumbnailFromStringTotal |
| src/Local/LocalStorage.php:110 | the upload target is `$targetDir . $fileName`, and `absPath` (:82) gives a folder below the base directory no trailing '/' | "a.txt" uploaded to path "docs" with base directory "/srv/" is written to "/srv/docsa.txt" | the file written inside the folder, at "/srv/docs/a.txt" | not executed | LocalStorage.UploadTargetMissesSeparator | LocalStorage.EntryInResolves |
| src/Local/LocalStorage.php:144 | `copy` and `move` (also :179) look a name up as `$sourceDir . $file`, with no '/' for a folder below the base directory | copying "a.txt" from path "docs" with base directory "/srv/" looks for "/srv/docsa.txt" and throws `cannot copy "a.txt"` | the source looked up inside the folder, at "/srv/docs/a.txt" | not executed | LocalStorage.SourceMissesSeparator | LocalStorage.EntryInResolves |
