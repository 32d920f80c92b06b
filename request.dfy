/**
 * The incoming HTTP request, read from explicit query, form and upload
 * inputs: the action, the storage and the path from the query string, the
 * other parameters from the form on demand.
 */
module Requests {
  import opened Outcomes
  import opened PhpStrings

  /** A query or form parameter: a string, or an array (`name[]=...`). */
  datatype Param = Str(s: string) | Arr(items: seq<Param>)

  /** One entry of the upload list: the client's file name, the temporary file and the upload error code. */
  datatype Upload = Upload(name: string, tmpName: string, error: int)

  /** What the PHP runtime hands the script: query parameters, form fields and uploads (absent when there is no upload list). */
  datatype Input = Input(query: map<string, Param>, form: map<string, Param>, uploads: Option<seq<Upload>>)

  /** `(string)$value` and `strval($value)`: an array converts to "Array". */
  function StringOf(p: Param): string {
    match p
    case Str(s) => s
    case Arr(_) => "Array"
  }

  /** `(string)($params[$key] ?? '')` */
  function StringParam(params: map<string, Param>, key: string): (r: string)
    ensures key !in params ==> r == ""
    ensures key in params && params[key].Str? ==> r == params[key].s
  {
    if key in params then StringOf(params[key]) else ""
  }

  const TrimTypeError: string := "trim(): Argument #1 ($string) must be of type string, array given"

  datatype Request = Request(action: string, storage: string, path: string, form: map<string, Param>, uploads: Option<seq<Upload>>)
  {
    /** `getSelectedFiles`: the "files" array, each element converted to a string; [] when it is absent or not an array. */
    function SelectedFiles(): (r: seq<string>)
      ensures "files" in form && form["files"].Arr? ==>
        |r| == |form["files"].items| && forall i :: 0 <= i < |r| ==> r[i] == StringOf(form["files"].items[i])
      ensures !("files" in form && form["files"].Arr?) ==> r == []
    {
      if "files" in form && form["files"].Arr? then
        var items := form["files"].items;
        seq(|items|, i requires 0 <= i < |items| => StringOf(items[i]))
      else []
    }

    /** `trim($_POST[$key] ?? '')`: an array makes `trim` throw. */
    function FormField(key: string): (r: Result<string>)
      ensures key !in form ==> r == Ok("")
      ensures key in form && form[key].Arr? ==> r.Fail? && r.error.kind == TypeFailure
      ensures r.Ok? ==> r.value == [] || (r.value[0] !in Whitespace && r.value[|r.value| - 1] !in Whitespace)
    {
      if key !in form then Ok("")
      else match form[key]
        case Str(s) => Ok(TrimSpace(s))
        case Arr(_) => Fail(Error(TypeFailure, TrimTypeError))
    }

    function NewFolder(): Result<string> { FormField("folder") }
    function TargetStorage(): Result<string> { FormField("target_storage") }
    function TargetPath(): Result<string> { FormField("target_path") }
    function OldFile(): Result<string> { FormField("old") }
    function NewFile(): Result<string> { FormField("new") }

    /** `getUploadedFiles`: the upload list, or [] when there is none. */
    function UploadedFiles(): (r: seq<Upload>)
      ensures uploads.None? ==> r == []
      ensures uploads.Some? ==> r == uploads.value
    {
      match uploads
      case None => []
      case Some(u) => u
    }
  }

  /**
   * The request as the constructor reads it: action and storage default to
   * "", and the path loses its trailing slashes but keeps leading ones.
   */
  function Parse(input: Input): (r: Request)
    ensures "action" !in input.query ==> r.action == ""
    ensures "storage" !in input.query ==> r.storage == ""
    ensures var raw := StringParam(input.query, "path");
            r.path <= raw && (r.path == [] || r.path[|r.path| - 1] != '/')
            && forall i :: |r.path| <= i < |raw| ==> raw[i] == '/'
    ensures r.form == input.form && r.uploads == input.uploads
  {
    Request(
      StringParam(input.query, "action"),
      StringParam(input.query, "storage"),
      TrimRight(StringParam(input.query, "path"), {'/'}),
      input.form,
      input.uploads)
  }

  /** A path with a leading slash keeps it unless it is made of slashes only. */
  lemma ParseKeepsLeadingSlash(input: Input)
    requires "path" in input.query && input.query["path"].Str?
    requires var raw := input.query["path"].s; |raw| > 0 && raw[0] == '/' && exists i :: 0 <= i < |raw| && raw[i] != '/'
    ensures var p := Parse(input).path; |p| > 0 && p[0] == '/'
  {
    var raw := input.query["path"].s;
    var i :| 0 <= i < |raw| && raw[i] != '/';
    var p := Parse(input).path;
    assert i < |p|;
  }
}
