/** Checks and rewrites of user-supplied names. */
module Utils {
  import opened PhpStrings
  import opened Paths
  import opened Platform

  /** A character of the class `[a-z0-9-_.]`, matched case-insensitively. */
  predicate FolderChar(c: char) {
    'a' <= c <= 'z' || 'A' <= c <= 'Z' || '0' <= c <= '9' || c == '-' || c == '_' || c == '.'
  }

  predicate AllFolderChars(s: string) {
    forall i :: 0 <= i < |s| ==> FolderChar(s[i])
  }

  /**
   * `preg_match('/^[a-z0-9-_.]+$/i', $s) === 1`. Without the D modifier `$`
   * also matches just before a final newline, so one trailing "\n" is let through.
   */
  predicate IsValidFolderName(s: string) {
    var body := if s != [] && s[|s| - 1] == '\n' then s[..|s| - 1] else s;
    body != [] && AllFolderChars(body)
  }

  /** Apart from the trailing-newline case, a name is valid exactly when it is non-empty and made of allowed characters. */
  lemma ValidFolderNameChars(s: string)
    requires s == [] || s[|s| - 1] != '\n'
    ensures IsValidFolderName(s) <==> s != [] && AllFolderChars(s)
  {
  }

  /** A valid name contains no '/' and names an entry of the folder, the folder itself ("."), or its parent (".."). */
  lemma ValidFolderNameIsLocal(s: string)
    requires IsValidFolderName(s)
    ensures s != [] && '/' !in s
    ensures ProperName(s) || s == "." || s == ".."
  {
    var body := if s[|s| - 1] == '\n' then s[..|s| - 1] else s;
    assert forall i :: 0 <= i < |body| ==> body[i] != '/';
  }

  /** The names the pattern lets through that a stricter check would refuse. */
  lemma ValidFolderNameQuirks()
    ensures IsValidFolderName(".") && IsValidFolderName("..")
    ensures IsValidFolderName("docs\n") && !IsValidFolderName("docs\n\n") && !IsValidFolderName("\n")
    ensures !IsValidFolderName("") && !IsValidFolderName("a b") && !IsValidFolderName("a/b")
  {
    assert "docs\n"[..4] == "docs";
    assert "docs\n\n"[..5][4] == '\n';
    assert "a b"[1] == ' ';
    assert "a/b"[1] == '/';
  }

  /**
   * `normalizeFileName`: the name transliterated to ASCII (nothing when that
   * fails) with every space turned into '-'.
   */
  function NormalizeFileName(probe: Probe, name: string): (r: string)
    ensures ' ' !in r
    ensures probe.translit(name).None? ==> r == ""
    ensures probe.translit(name).Some? ==>
      var t := probe.translit(name).value;
      |r| == |t| && forall i :: 0 <= i < |t| ==> r[i] == if t[i] == ' ' then '-' else t[i]
  {
    var t := match probe.translit(name) case Some(t) => t case None => "";
    ReplaceCharByChar(t, ' ', '-');
    ReplaceCharRemovesIt(t, ' ', "-");
    ReplaceAll(t, " ", "-")
  }

  /** Normalising leaves no '/' behind when the transliteration has none. */
  lemma NormalizeFileNameKeepsSlashFree(probe: Probe, name: string)
    requires probe.translit(name).Some? ==> '/' !in probe.translit(name).value
    ensures '/' !in NormalizeFileName(probe, name)
  {
  }
}
