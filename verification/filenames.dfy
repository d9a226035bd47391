/**
 * Filename helpers of `FilesystemUtils`: extension extraction, `pathinfo`,
 * blocklist sanitizing and filename normalization.
 */
module Filenames {
  import opened Wrappers
  import opened PhpStrings
  import opened PhpValues

  /**
   * `get_ext`: `mb_substr(mb_strrchr($filename, '.'), 1)`, the text after the
   * last '.'; `strrchr` yields `false` when there is no '.', which becomes "".
   */
  function GetExt(filename: string): (ext: string)
    ensures '.' !in ext
    ensures '.' !in filename ==> ext == ""
    ensures '.' in filename ==>
              && |ext| < |filename|
              && filename[|filename| - |ext| - 1] == '.'
              && filename[|filename| - |ext|..] == ext
  {
    if '.' in filename then filename[LastIndex(filename, '.') + 1..] else ""
  }

  /** Whatever precedes the last '.' (directories, earlier dots) has no bearing on the extension. */
  lemma GetExtAfterLastDot(stem: string, ext: string)
    requires '.' !in ext
    ensures GetExt(stem + "." + ext) == ext
  {
    var name := stem + "." + ext;
    assert name[|stem|] == '.';
    assert name[|stem| + 1..] == ext;
  }

  /** `s` without its trailing run of '/'. */
  function StripTrailingSlashes(s: string): (r: string)
    ensures |r| <= |s| && r == s[..|r|]
    ensures |r| == 0 || r[|r| - 1] != '/'
    ensures forall i :: |r| <= i < |s| ==> s[i] == '/'
  {
    s[..SlashRunStart(s, |s|)]
  }

  /** The start of the run of '/' that ends at `j`. */
  function SlashRunStart(s: string, j: nat): (i: nat)
    requires j <= |s|
    ensures i <= j && (i == 0 || s[i - 1] != '/')
    ensures forall k :: i <= k < j ==> s[k] == '/'
  {
    if j > 0 && s[j - 1] == '/' then SlashRunStart(s, j - 1) else j
  }

  /**
   * PHP's `basename` (the `basename` entry of `pathinfo`): the last non-empty
   * '/'-separated component; trailing slashes are ignored.
   */
  function Basename(path: string): (b: string)
    ensures '/' !in b
    ensures b == "" <==> forall i :: 0 <= i < |path| ==> path[i] == '/'
    ensures '/' !in path ==> b == path
  {
    var n := SlashRunStart(path, |path|);
    LastRun(path, n);
    if '/' in path[..n] then path[IndexBefore(path, '/', n) + 1..n] else path[..n]
  }

  /** What `Basename` needs about the end of the last run of '/'. */
  lemma LastRun(path: string, n: nat)
    requires n == SlashRunStart(path, |path|)
    ensures '/' in path[..n] ==>
              var k := IndexBefore(path, '/', n); k + 1 < n && '/' !in path[k + 1..n]
    ensures n == 0 <==> forall i :: 0 <= i < |path| ==> path[i] == '/'
    ensures '/' !in path ==> n == |path|
  {
    if '/' in path[..n] {
      var k := IndexBefore(path, '/', n);
      assert path[n - 1] != '/';
    }
    if n > 0 {
      assert path[n - 1] != '/';
    }
  }

  /**
   * The basename is the last component: the '/'-free suffix of the path,
   * trailing slashes dropped, that is preceded by a '/' or by nothing.
   */
  lemma BasenameIsLastComponent(path: string)
    ensures var t := StripTrailingSlashes(path); var b := Basename(path);
            && |b| <= |t| && t[|t| - |b|..] == b
            && (|b| == |t| || t[|t| - |b| - 1] == '/')
  {
    var n := SlashRunStart(path, |path|);
    var t := StripTrailingSlashes(path);
    var b := Basename(path);
    assert t == path[..n];
    if '/' in path[..n] {
      var k := IndexBefore(path, '/', n);
      assert b == path[k + 1..n];
      assert |t| - |b| == k + 1;
      assert t[k + 1..] == path[k + 1..n];
      assert t[k] == path[k] == '/';
    } else {
      assert b == t;
      assert t[0..] == t;
    }
  }

  /** The `filename` and `extension` entries of `pathinfo`; `extension` is unset when the basename has no '.'. */
  datatype PathInfo = PathInfo(filename: string, extension: Option<string>)

  /**
   * `pathinfo($path)`: splits the basename at its last '.'; the directory part
   * is dropped.
   */
  function GetPathInfo(path: string): (p: PathInfo)
    ensures '/' !in p.filename
    ensures p.extension.Some? ==> '.' !in p.extension.value && '/' !in p.extension.value
    ensures p.extension.None? <==> '.' !in Basename(path)
    ensures Basename(path) == p.filename + (if p.extension.Some? then "." + p.extension.value else "")
  {
    var b := Basename(path);
    if '.' in b then
      var k := LastIndex(b, '.');
      SplitAround(b, k);
      PathInfo(b[..k], Some(b[k + 1..]))
    else
      PathInfo(b, None)
  }

  /** Cutting `s` around position `k` gives two pieces whose characters all come from `s`. */
  lemma SplitAround(s: string, k: nat)
    requires k < |s|
    ensures s == s[..k] + [s[k]] + s[k + 1..]
    ensures forall c :: c in s[..k] ==> c in s
    ensures forall c :: c in s[k + 1..] ==> c in s
  {
  }

  /**
   * `sanitize_filename($i, $allow_subdirs)`: trims, drops one leading '/', then
   * runs `str_replace` with the array `['../', './']`, extended by `'/'` when
   * subdirectories are not allowed. `str_replace` with an array makes one
   * `RemoveAll` pass per entry, in order, each on the previous pass's output.
   * An empty string has no first character to drop.
   */
  function SanitizeFilename(i: string, allowSubdirs: bool): (r: string)
    ensures |r| <= |Trim(i)|
    ensures !allowSubdirs ==> '/' !in r
  {
    var t := Trim(i);
    RemovalPasses(if |t| > 0 && t[0] == '/' then t[1..] else t, allowSubdirs)
  }

  /** The `str_replace` step of `sanitize_filename`. */
  function RemovalPasses(u: string, allowSubdirs: bool): (r: string)
    ensures |r| <= |u|
    ensures !allowSubdirs ==> '/' !in r
  {
    var v := RemoveAll(RemoveAll(u, "../"), "./");
    if allowSubdirs then v
    else
      RemoveAllOnlyDeletes(v, "/");
      RemoveAll(v, "/")
  }

  /** Sanitizing only deletes: every character of the result comes from the input. */
  lemma SanitizeOnlyDeletes(i: string, allowSubdirs: bool)
    ensures forall c :: c in SanitizeFilename(i, allowSubdirs) ==> c in i
    ensures IsSubseq(SanitizeFilename(i, allowSubdirs), i)
  {
    var t := Trim(i);
    var u := if |t| > 0 && t[0] == '/' then t[1..] else t;
    var w := RemoveAll(u, "../");
    var v := RemoveAll(w, "./");
    TrimKeepsOnlyInputChars(i);
    RemoveAllOnlyDeletes(u, "../");
    RemoveAllOnlyDeletes(w, "./");
    RemoveAllOnlyDeletes(v, "/");
    assert forall c :: c in u ==> c in t;
    TrimSubseq(i);
    if |t| > 0 && t[0] == '/' {
      SubseqDrop(t, 1);
      SubseqTrans(u, t, i);
    }
    RemovalPassesSubseq(u, allowSubdirs);
    SubseqTrans(SanitizeFilename(i, allowSubdirs), u, i);
  }

  /** The `str_replace` passes only delete characters. */
  lemma RemovalPassesSubseq(u: string, allowSubdirs: bool)
    ensures IsSubseq(RemovalPasses(u, allowSubdirs), u)
  {
    var w := RemoveAll(u, "../");
    var v := RemoveAll(w, "./");
    RemoveAllSubseq(u, "../");
    RemoveAllSubseq(w, "./");
    SubseqTrans(v, w, u);
    if !allowSubdirs {
      RemoveAllSubseq(v, "/");
      SubseqTrans(RemoveAll(v, "/"), v, u);
    }
  }

  /** Without any '/' in the input, sanitizing only trims (every removed string holds a '/'). */
  lemma SanitizeWithoutSlashOnlyTrims(i: string, allowSubdirs: bool)
    requires '/' !in i
    ensures SanitizeFilename(i, allowSubdirs) == Trim(i)
  {
    var t := Trim(i);
    TrimKeepsOnlyInputChars(i);
    assert '/' !in t;
    RemoveAllAbsent(t, "../", 2);
    RemoveAllAbsent(t, "./", 1);
    RemoveAllAbsent(t, "/", 0);
  }

  /** A name with no surrounding whitespace and no leading '/' goes straight to the removal passes. */
  lemma SanitizeUntrimmed(i: string, allowSubdirs: bool)
    requires |i| == 0 || (!IsTrimChar(i[0]) && !IsTrimChar(i[|i| - 1]) && i[0] != '/')
    ensures SanitizeFilename(i, allowSubdirs) == RemovalPasses(i, allowSubdirs)
  {
    TrimUntrimmed(i);
  }

  /**
   * Leading "../" segments are dropped: with subdirectories allowed the rest of
   * a dot-free path is kept as it is, without them its '/'s go too.
   */
  lemma SanitizeDropsLeadingTraversal(t: string)
    requires '.' !in t && (|t| == 0 || !IsTrimChar(t[|t| - 1]))
    ensures SanitizeFilename("../../" + t, true) == t
    ensures SanitizeFilename("../../" + t, false) == RemoveAll(t, "/")
  {
    var s := "../../" + t;
    assert s[0] == '.' && s[|s| - 1] == (if |t| == 0 then '/' else t[|t| - 1]);
    SanitizeUntrimmed(s, true);
    SanitizeUntrimmed(s, false);
    DotSegmentsRemoved(t);
  }

  lemma DotSegmentsRemoved(t: string)
    requires '.' !in t
    ensures RemoveAll(RemoveAll("../../" + t, "../"), "./") == t
  {
    var m := "../" + t;
    assert "../../" + t == "../" + m;
    RemoveAllLeading("../", m);
    RemoveAllLeading("../", t);
    RemoveAllAbsent(t, "../", 0);
    RemoveAllAbsent(t, "./", 0);
  }

  /** "../../etc/passwd": relative path kept with subdirectories, flattened without. */
  lemma SanitizeTraversalExamples(t: string)
    requires t == "etc/passwd"
    ensures SanitizeFilename("../../" + t, true) == "etc/passwd"
    ensures SanitizeFilename("../../" + t, false) == "etcpasswd"
  {
    SanitizeDropsLeadingTraversal(t);
    TraversalSlashPass(t);
  }

  lemma TraversalSlashPass(t: string)
    requires t == "etc/passwd"
    ensures RemoveAll(t, "/") == "etcpasswd"
  {
    var a, b := t[..3], t[4..];
    assert t == a + "/" + b;
    assert '/' !in a && '/' !in b;
    SlashPassJoins(a, b);
    assert a + b == "etcpasswd";
  }

  /** The '/' pass joins the two sides of a single slash. */
  lemma SlashPassJoins(a: string, b: string)
    requires '/' !in a && '/' !in b
    ensures RemoveAll(a + "/" + b, "/") == a + b
  {
    assert a + "/" + b == a + ("/" + b);
    RemoveAllSkip(a, "/" + b, "/");
    RemoveAllLeading("/", b);
    RemoveAllAbsent(b, "/", 0);
  }

  /**
   * With subdirectories allowed the blocklist does not remove traversal:
   * each pass runs once, so the "../" pass can leave a "./" behind.
   */
  lemma SanitizeSubdirsLeavesDotSlash(s: string)
    requires s == "....///"
    ensures SanitizeFilename(s, true) == "./"
  {
    SanitizeUntrimmed(s, true);
    DotSlashPasses(s);
  }

  lemma DotSlashPasses(s: string)
    requires s == "....///"
    ensures RemovalPasses(s, true) == "./"
  {
    assert RemoveAll(s, "../") == [s[0]] + RemoveAll(s[1..], "../");
    assert RemoveAll(s[1..], "../") == [s[1]] + RemoveAll(s[2..], "../");
    assert RemoveAll(s[2..], "../") == RemoveAll(s[5..], "../");
    RemoveAllAbsent(s[5..], "../", 0);
    var a := RemoveAll(s, "../");
    assert a == "..//";
    assert RemoveAll(a, "./") == [a[0]] + RemoveAll(a[1..], "./");
    assert RemoveAll(a[1..], "./") == RemoveAll(a[3..], "./");
    RemoveAllAbsent(a[3..], "./", 0);
  }

  /** Worse, the two passes can assemble a fresh "../" that neither pass removes. */
  lemma SanitizeSubdirsLeavesDotDotSlash(s: string)
    requires s == ".....///"
    ensures SanitizeFilename(s, true) == "../"
  {
    SanitizeUntrimmed(s, true);
    DotDotSlashPasses(s);
  }

  lemma DotDotSlashPasses(s: string)
    requires s == ".....///"
    ensures RemovalPasses(s, true) == "../"
  {
    assert RemoveAll(s, "../") == [s[0]] + RemoveAll(s[1..], "../");
    assert RemoveAll(s[1..], "../") == [s[1]] + RemoveAll(s[2..], "../");
    assert RemoveAll(s[2..], "../") == [s[2]] + RemoveAll(s[3..], "../");
    assert RemoveAll(s[3..], "../") == RemoveAll(s[6..], "../");
    RemoveAllAbsent(s[6..], "../", 0);
    var b := RemoveAll(s, "../");
    assert b == "...//";
    assert RemoveAll(b, "./") == [b[0]] + RemoveAll(b[1..], "./");
    assert RemoveAll(b[1..], "./") == [b[1]] + RemoveAll(b[2..], "./");
    assert RemoveAll(b[2..], "./") == RemoveAll(b[4..], "./");
    RemoveAllAbsent(b[4..], "./", 0);
  }

  /** The extension as `normalize_filename` rebuilds it: lower-cased (an unset one reads as ""), `jpeg` becoming `jpg`. */
  function NormalizeExtension(extension: Option<string>): string
  {
    var e := ToLower(extension.GetOr(""));
    if e == "jpeg" then "jpg" else e
  }

  /** Lower-casing never introduces a '/' or '.' that was not there (`jpg` has neither). */
  lemma NormalizeExtensionKeepsOut(extension: Option<string>, c: char)
    requires c == '/' || c == '.'
    requires extension.Some? ==> c !in extension.value
    ensures c !in NormalizeExtension(extension)
  {
    var x := extension.GetOr("");
    var e := ToLower(x);
    assert forall k :: 0 <= k < |e| ==> e[k] == LowerChar(x[k]);
  }

  /**
   * `normalize_filename`: `false` (here `None`) for a PHP-empty input,
   * otherwise the sanitized `filename . "." . extension` of `pathinfo`.
   */
  function NormalizeFilename(input: string): (r: Option<string>)
    ensures r.None? <==> IsEmptyString(input)
    ensures r.Some? ==> '/' !in r.value
  {
    if IsEmptyString(input) then None
    else
      var info := GetPathInfo(input);
      Some(SanitizeFilename(info.filename + "." + NormalizeExtension(info.extension), false))
  }

  /**
   * The rebuilt name never holds a '/', so sanitizing it is just a trim: the
   * result is the trimmed `basename stem . "." . normalized extension`.
   */
  lemma NormalizeFilenameIsTrimmedRebuild(input: string)
    requires !IsEmptyString(input)
    ensures var info := GetPathInfo(input);
            NormalizeFilename(input) == Some(Trim(info.filename + "." + NormalizeExtension(info.extension)))
  {
    var info := GetPathInfo(input);
    var name := info.filename + "." + NormalizeExtension(info.extension);
    NormalizeExtensionKeepsOut(info.extension, '/');
    assert '/' !in name;
    SanitizeWithoutSlashOnlyTrims(name, false);
  }

  /** For a name without '/', `pathinfo` splits at the last '.'; earlier dots stay in the filename. */
  lemma PathInfoSplitsAtLastDot(stem: string, ext: string)
    requires '/' !in stem && '.' !in ext && '/' !in ext
    ensures GetPathInfo(stem + "." + ext) == PathInfo(stem, Some(ext))
  {
    var name := stem + "." + ext;
    assert '/' !in name;
    assert Basename(name) == name;
    assert name[|stem|] == '.';
    assert name[|stem| + 1..] == ext;
    var k := LastIndex(name, '.');
    assert k == |stem|;
    assert name[..k] == stem;
  }

  /**
   * A name without '/' and without surrounding whitespace keeps its stem (up
   * to the last '.') and gets its extension normalized.
   */
  lemma NormalizeFilenameStemAndExtension(stem: string, ext: string)
    requires '/' !in stem && '.' !in ext && '/' !in ext
    requires |stem| == 0 || !IsTrimChar(stem[0])
    requires |ext| == 0 || !IsTrimChar(ext[|ext| - 1])
    ensures NormalizeFilename(stem + "." + ext) == Some(stem + "." + NormalizeExtension(Some(ext)))
  {
    var name := stem + "." + ext;
    PathInfoSplitsAtLastDot(stem, ext);
    var rebuilt := stem + "." + NormalizeExtension(Some(ext));
    assert NormalizeFilename(name) == Some(SanitizeFilename(rebuilt, false));
    RebuiltNameIsUntouched(stem, ext);
  }

  /** Sanitizing the rebuilt `stem.ext` changes nothing when it has no '/' and no surrounding whitespace. */
  lemma RebuiltNameIsUntouched(stem: string, ext: string)
    requires '/' !in stem && '.' !in ext && '/' !in ext
    requires |stem| == 0 || !IsTrimChar(stem[0])
    requires |ext| == 0 || !IsTrimChar(ext[|ext| - 1])
    ensures var rebuilt := stem + "." + NormalizeExtension(Some(ext));
            SanitizeFilename(rebuilt, false) == rebuilt
  {
    var e := NormalizeExtension(Some(ext));
    var rebuilt := stem + "." + e;
    NormalizeExtensionEndsUntrimmed(ext);
    assert !IsTrimChar(rebuilt[0]);
    assert !IsTrimChar(rebuilt[|rebuilt| - 1]);
    NormalizeExtensionKeepsOut(Some(ext), '/');
    SanitizeWithoutSlashOnlyTrims(rebuilt, false);
    TrimUntrimmed(rebuilt);
  }

  lemma NormalizeExtensionEndsUntrimmed(ext: string)
    requires |ext| == 0 || !IsTrimChar(ext[|ext| - 1])
    ensures var e := NormalizeExtension(Some(ext)); |e| == 0 || !IsTrimChar(e[|e| - 1])
  {
    var l := ToLower(ext);
    if l != "jpeg" && |l| > 0 {
      assert l[|l| - 1] == LowerChar(ext[|ext| - 1]);
    }
  }

  /** A name without '.' or '/' loses nothing but gains a trailing "." for its missing extension. */
  lemma NormalizeFilenameWithoutExtension(name: string)
    requires !IsEmptyString(name) && '.' !in name && '/' !in name
    requires !IsTrimChar(name[0]) && !IsTrimChar(name[|name| - 1])
    ensures NormalizeFilename(name) == Some(name + ".")
  {
    assert GetPathInfo(name) == PathInfo(name, None);
    NormalizeFilenameIsTrimmedRebuild(name);
    assert NormalizeExtension(None) == "";
    TrimUntrimmed(name + ".");
  }

  /** An extension spelling `jpeg` in any letter case becomes `jpg`. */
  lemma NormalizeFilenameJpeg(stem: string, ext: string)
    requires '/' !in stem && (|stem| == 0 || !IsTrimChar(stem[0]))
    requires ToLower(ext) == "jpeg"
    ensures NormalizeFilename(stem + "." + ext) == Some(stem + ".jpg")
  {
    JpegSpelling(ext);
    NormalizeFilenameStemAndExtension(stem, ext);
    JpgSuffix(stem, NormalizeExtension(Some(ext)));
  }

  /** Any letter case of `jpeg` holds no '.', '/' or whitespace, and normalizes to `jpg`. */
  lemma JpegSpelling(ext: string)
    requires ToLower(ext) == "jpeg"
    ensures '.' !in ext && '/' !in ext && !IsTrimChar(ext[|ext| - 1])
    ensures NormalizeExtension(Some(ext)) == "jpg"
  {
    var l := ToLower(ext);
    forall k | 0 <= k < |ext|
      ensures ext[k] != '.' && ext[k] != '/' && !IsTrimChar(ext[k])
    {
      assert LowerChar(ext[k]) == l[k];
      assert 'a' <= l[k] <= 'z';
    }
  }

  /** Rewrites the computed extension to the literal; kept apart so the literal is not unfolded with the rest of the proof. */
  lemma JpgSuffix(stem: string, e: string)
    requires e == "jpg"
    ensures stem + "." + e == stem + ".jpg"
  {
  }
}
