/**
 * The settings every storage carries (src/Storage.php): a base URL, the
 * permission modes for new directories and files, the thumbnail size and
 * three switches. `setOption` casts the value to the field's type and
 * normalises it; an unknown option name is rejected.
 */
module Storages {
  import opened Outcomes
  import opened PhpStrings

  const OptionBaseUrl: string := "BASE_URL"
  const OptionThumbnailSize: string := "THUMBNAIL_SIZE"
  const OptionModeFile: string := "MODE_FILE"
  const OptionModeDirectory: string := "MODE_DIRECTORY"
  const OptionReadOnly: string := "READ_ONLY"
  const OptionNormalizeNames: string := "NORMALIZE_NAMES"
  const OptionOverwriteFiles: string := "OVERWRITE_FILES"

  const OptionNames: set<string> := {
    OptionBaseUrl, OptionThumbnailSize, OptionModeFile, OptionModeDirectory,
    OptionReadOnly, OptionNormalizeNames, OptionOverwriteFiles }

  /** The smallest thumbnail side a storage accepts. */
  const MinThumbnailSize: int := 10

  /** An option value: `bool | int | string`. */
  datatype Scalar = BoolValue(b: bool) | IntValue(i: int) | StringValue(s: string)

  /** `(string)$value` */
  function CastString(v: Scalar): string {
    match v
    case BoolValue(b) => if b then "1" else ""
    case IntValue(i) => IntToString(i)
    case StringValue(s) => s
  }

  /** `(int)$value` */
  function CastInt(v: Scalar): int {
    match v
    case BoolValue(b) => if b then 1 else 0
    case IntValue(i) => i
    case StringValue(s) => ParseInt(s)
  }

  /** `(bool)$value`: false exactly for false, 0, "" and "0". */
  function CastBool(v: Scalar): (r: bool)
    ensures !r <==> v == BoolValue(false) || v == IntValue(0) || v == StringValue("") || v == StringValue("0")
  {
    match v
    case BoolValue(b) => b
    case IntValue(i) => i != 0
    case StringValue(s) => !PhpEmpty(s)
  }

  /** A URL or directory that ends in exactly one '/': every trailing '/' removed, one put back. */
  function WithOneSlash(v: string): (r: string)
  {
    TrimRight(v, {'/'}) + "/"
  }

  /** The result ends in one '/' which follows something other than '/', and only slashes were dropped. */
  lemma WithOneSlashShape(v: string)
    ensures var r := WithOneSlash(v);
      && r != [] && r[|r| - 1] == '/'
      && (|r| == 1 || r[|r| - 2] != '/')
      && r[..|r| - 1] <= v
      && forall i :: |r| - 1 <= i < |v| ==> v[i] == '/'
  {
  }

  /** Normalising an already normalised value changes nothing. */
  lemma WithOneSlashIdempotent(v: string)
    ensures WithOneSlash(WithOneSlash(v)) == WithOneSlash(v)
  {
    var t := TrimRight(v, {'/'});
    assert TrimRight(t + "/", {'/'}) == TrimRight(t, {'/'}) by {
      assert (t + "/")[..|t + "/"| - 1] == t;
    }
    TrimRightIdempotent(v, {'/'});
  }

  /** Unset, or ending in exactly one '/': the values `WithOneSlash` leaves as they are. */
  predicate SlashEnded(u: string) {
    u == "" || (u[|u| - 1] == '/' && (|u| == 1 || u[|u| - 2] != '/'))
  }

  /** A non-empty value is slash-ended exactly when normalising it changes nothing. */
  lemma SlashEndedFixed(u: string)
    requires u != ""
    ensures SlashEnded(u) <==> WithOneSlash(u) == u
  {
    if SlashEnded(u) {
      var d := u[..|u| - 1];
      assert TrimRight(u, {'/'}) == TrimRight(d, {'/'});
      assert TrimRight(d, {'/'}) == d;
      assert d + "/" == u;
    } else if WithOneSlash(u) == u {
      WithOneSlashShape(u);
    }
  }

  /** Normalised values are slash-ended. */
  lemma WithOneSlashEnded(v: string)
    ensures SlashEnded(WithOneSlash(v))
  {
    WithOneSlashShape(v);
  }

  /** `max([10, $value])` */
  function ClampThumbnailSize(n: int): (r: int)
    ensures r >= MinThumbnailSize
    ensures r == n || r == MinThumbnailSize
    ensures n >= MinThumbnailSize ==> r == n
  {
    if n < MinThumbnailSize then MinThumbnailSize else n
  }

  /** The values of a storage's settings, as one record. */
  datatype Settings = Settings(
    baseUrl: string,
    modeDir: int,
    modeFile: int,
    thumbnailSize: int,
    readOnly: bool,
    normalizeNames: bool,
    overwriteFiles: bool)
  {
    /** What `setOption` keeps true: a thumbnail size of at least 10 and a base URL that is unset or ends in one '/'. */
    predicate Valid() {
      && thumbnailSize >= MinThumbnailSize
      && SlashEnded(baseUrl)
    }
  }

  /** The settings of a new storage: modes 0755 and 0644, thumbnails of 50 pixels, writable, names normalised, files overwritten. */
  const Defaults: Settings := Settings("", 493, 420, 50, false, true, true)

  lemma DefaultsValid()
    ensures Defaults.Valid()
    ensures Defaults.modeDir == 7 * 64 + 5 * 8 + 5 && Defaults.modeFile == 6 * 64 + 4 * 8 + 4
  {
  }

  /**
   * The settings after `setOption($key, $value)` for a recognised key: the
   * value cast to the setting's type, the base URL ending in one '/', the
   * thumbnail size at least 10.
   */
  function Updated(s: Settings, key: string, value: Scalar): (r: Settings)
    requires key in OptionNames
  {
    if key == OptionBaseUrl then s.(baseUrl := WithOneSlash(CastString(value)))
    else if key == OptionThumbnailSize then s.(thumbnailSize := ClampThumbnailSize(CastInt(value)))
    else if key == OptionModeFile then s.(modeFile := CastInt(value))
    else if key == OptionModeDirectory then s.(modeDir := CastInt(value))
    else if key == OptionReadOnly then s.(readOnly := CastBool(value))
    else if key == OptionNormalizeNames then s.(normalizeNames := CastBool(value))
    else s.(overwriteFiles := CastBool(value))
  }

  /** Every recognised key keeps the settings valid. */
  lemma UpdatedValid(s: Settings, key: string, value: Scalar)
    requires s.Valid() && key in OptionNames
    ensures Updated(s, key, value).Valid()
  {
    if key == OptionBaseUrl {
      WithOneSlashEnded(CastString(value));
    }
  }

  /** Each key sets its own setting and leaves the six others as they were. */
  lemma UpdatedOwnField(s: Settings, key: string, value: Scalar)
    requires key in OptionNames
    ensures var r := Updated(s, key, value);
      && (r.baseUrl != s.baseUrl ==> key == OptionBaseUrl)
      && (r.thumbnailSize != s.thumbnailSize ==> key == OptionThumbnailSize)
      && (r.modeFile != s.modeFile ==> key == OptionModeFile)
      && (r.modeDir != s.modeDir ==> key == OptionModeDirectory)
      && (r.readOnly != s.readOnly ==> key == OptionReadOnly)
      && (r.normalizeNames != s.normalizeNames ==> key == OptionNormalizeNames)
      && (r.overwriteFiles != s.overwriteFiles ==> key == OptionOverwriteFiles)
    ensures key == OptionBaseUrl ==> Updated(s, key, value).baseUrl == WithOneSlash(CastString(value))
    ensures key == OptionThumbnailSize ==> Updated(s, key, value).thumbnailSize == ClampThumbnailSize(CastInt(value))
    ensures key == OptionModeFile ==> Updated(s, key, value).modeFile == CastInt(value)
    ensures key == OptionModeDirectory ==> Updated(s, key, value).modeDir == CastInt(value)
    ensures key == OptionReadOnly ==> Updated(s, key, value).readOnly == CastBool(value)
    ensures key == OptionNormalizeNames ==> Updated(s, key, value).normalizeNames == CastBool(value)
    ensures key == OptionOverwriteFiles ==> Updated(s, key, value).overwriteFiles == CastBool(value)
  {
  }

  /** A thumbnail size in exponent notation is read as PHP reads it: "1e3" sets 1000. */
  lemma ThumbnailSizeInExponent(s: Settings)
    ensures Updated(s, OptionThumbnailSize, StringValue("1e3")).thumbnailSize == 1000
  {
    ParseIntExponent();
  }

  /** Setting the base URL a second time to the stored value changes nothing. */
  lemma BaseUrlResetIsStable(s: Settings, value: Scalar)
    ensures var t := Updated(s, OptionBaseUrl, value);
      Updated(t, OptionBaseUrl, StringValue(t.baseUrl)) == t
  {
    WithOneSlashIdempotent(CastString(value));
  }

  class Storage {
    const name: string
    var baseUrl: string
    var modeDir: int
    var modeFile: int
    var thumbnailSize: int
    var readOnly: bool
    var normalizeNames: bool
    var overwriteFiles: bool

    function Current(): Settings
      reads this
    {
      Settings(baseUrl, modeDir, modeFile, thumbnailSize, readOnly, normalizeNames, overwriteFiles)
    }

    ghost predicate Valid()
      reads this
    {
      Current().Valid()
    }

    constructor (name: string)
      ensures this.name == name && Current() == Defaults && Valid()
    {
      this.name := name;
      baseUrl := "";
      modeDir := 493;
      modeFile := 420;
      thumbnailSize := 50;
      readOnly := false;
      normalizeNames := true;
      overwriteFiles := true;
    }

    /**
     * `setOption`: a recognised key updates its setting as `Updated` says;
     * an unknown key throws and changes nothing.
     */
    method SetOption(key: string, value: Scalar) returns (out: Outcome)
      requires Valid()
      modifies this
      ensures Valid()
      ensures key in OptionNames ==> out == Pass && Current() == Updated(old(Current()), key, value)
      ensures key !in OptionNames ==>
        out == Throw(Error(InvalidArgument, "invalid option " + Quote(key))) && Current() == old(Current())
    {
      out := Pass;
      if key == OptionBaseUrl {
        WithOneSlashEnded(CastString(value));
        baseUrl := WithOneSlash(CastString(value));
      } else if key == OptionThumbnailSize {
        thumbnailSize := ClampThumbnailSize(CastInt(value));
      } else if key == OptionModeFile {
        modeFile := CastInt(value);
      } else if key == OptionModeDirectory {
        modeDir := CastInt(value);
      } else if key == OptionReadOnly {
        readOnly := CastBool(value);
      } else if key == OptionNormalizeNames {
        normalizeNames := CastBool(value);
      } else if key == OptionOverwriteFiles {
        overwriteFiles := CastBool(value);
      } else {
        out := Throw(Error(InvalidArgument, "invalid option " + Quote(key)));
      }
    }
  }
}
