/** The download name offered for a result in `ResultDisplay`: the file name with the
    match of the regular expression `/\.[^/.]+$/` replaced by nothing, then ".png". */
module ResultDisplay {
  import opened Wrappers

  /** The regular expression matches at index `i`: a dot, then at least one
      character, and from there to the end of the name neither '/' nor '.'. */
  predicate ExtensionAt(s: string, i: nat)
    ensures ExtensionAt(s, i) <==>
      i < |s| && s[i] == '.' && |s[i + 1..]| > 0 && '/' !in s[i + 1..] && '.' !in s[i + 1..]
  {
    assert i < |s| ==> forall j :: i < j < |s| ==> s[j] == s[i + 1..][j - i - 1];
    i + 1 < |s| && s[i] == '.' && forall j :: i < j < |s| ==> s[j] != '/' && s[j] != '.'
  }

  /** A name holds at most one match, so the leftmost match is the only one. */
  lemma ExtensionUnique(s: string, i: nat, j: nat)
    requires ExtensionAt(s, i) && ExtensionAt(s, j)
    ensures i == j
  {
  }

  /** Scans leftwards from index `k`, every character at `k` or after being neither
      '/' nor '.', for the dot that starts the match. */
  function MatchStart(s: string, k: nat): (r: Option<nat>)
    requires k <= |s|
    requires forall j :: k <= j < |s| ==> s[j] != '/' && s[j] != '.'
    ensures r.Some? ==> ExtensionAt(s, r.value)
    ensures r.None? ==> forall i: nat :: !ExtensionAt(s, i)
    decreases k
  {
    if k == 0 then
      None
    else if s[k - 1] == '.' then
      if k < |s| then Some(k - 1) else
        assert forall i: nat :: i < k - 1 ==> !ExtensionAt(s, i);
        None
    else if s[k - 1] == '/' then
      assert forall i: nat :: i < k - 1 ==> !ExtensionAt(s, i);
      None
    else
      MatchStart(s, k - 1)
  }

  /** `fileName.replace(/\.[^/.]+$/, "")`. */
  function StripExtension(s: string): (r: string)
    ensures (exists i: nat :: ExtensionAt(s, i) && r == s[..i])
         || ((forall i: nat :: !ExtensionAt(s, i)) && r == s)
  {
    match MatchStart(s, |s|)
    case Some(i) => s[..i]
    case None => s
  }

  /** The `download` attribute of the link. */
  function DownloadName(fileName: string): (r: string)
    ensures |r| >= 4 && r[|r| - 4..] == ".png" && r[..|r| - 4] == StripExtension(fileName)
  {
    StripExtension(fileName) + ".png"
  }

  /** The offered name ends in ".png" and starts with a prefix of the original name:
      the whole name when it has no extension, otherwise the name up to the dot. */
  lemma DownloadNameShape(fileName: string)
    ensures var r := DownloadName(fileName);
            |r| >= 4 && r[|r| - 4..] == ".png"
            && |r| - 4 <= |fileName| && r[..|r| - 4] == fileName[..|r| - 4]
  {
    var stem := StripExtension(fileName);
    var r := DownloadName(fileName);
    assert r[..|r| - 4] == stem;
    assert r[|r| - 4..] == ".png";
  }

  /** Exactly a name with an extension loses a suffix, and what it loses is its
      last dot and everything after it. */
  lemma StripExtensionCharacterized(s: string, i: nat)
    requires ExtensionAt(s, i)
    ensures StripExtension(s) == s[..i]
  {
    if r: nat :| ExtensionAt(s, r) && StripExtension(s) == s[..r] {
      ExtensionUnique(s, i, r);
    }
  }

  /** A name without a dot keeps all of its characters. */
  lemma NoDotKeepsName(s: string)
    requires forall j :: 0 <= j < |s| ==> s[j] != '.'
    ensures DownloadName(s) == s + ".png"
  {
    assert forall i: nat :: !ExtensionAt(s, i);
  }

  /** "photo" becomes "photo.png", "a.tar.gz" "a.tar.png", "dir.x/file"
      "dir.x/file.png", "a." "a..png" and ".bashrc" ".png". */
  lemma DownloadNameExamples()
    ensures DownloadName("photo") == "photo.png"
    ensures DownloadName("a.tar.gz") == "a.tar.png"
    ensures DownloadName("dir.x/file") == "dir.x/file.png"
    ensures DownloadName("a.") == "a..png"
    ensures DownloadName(".bashrc") == ".png"
  {
    NoDotKeepsName("photo");
    StripExtensionCharacterized("a.tar.gz", 5);
    assert "dir.x/file"[5] == '/';
    assert forall i: nat :: !ExtensionAt("dir.x/file", i);
    assert !ExtensionAt("a.", 1);
    assert forall i: nat :: !ExtensionAt("a.", i);
    StripExtensionCharacterized(".bashrc", 0);
  }
}
