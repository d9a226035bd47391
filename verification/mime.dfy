/**
 * Mime type resolution of `FilesystemUtils`: the detector fallback chain of
 * `get_mime_type`, the extension lookup of `get_mime_from_filename` and the
 * media category of `get_file_type_from_mime`.
 *
 * The detectors (`finfo`, `mime_content_type`) and the extension table
 * (`Mimetype::ext2mime`) are not part of this model; they enter as
 * parameters. `None` stands for PHP's `false`.
 */
module Mime {
  import opened Wrappers
  import opened PhpStrings
  import Filenames

  /** The media categories `get_file_type_from_mime` accepts, compared case-sensitively. */
  const MediaCategories: seq<string> := ["application", "audio", "image", "message", "multipart", "text", "video"]

  /**
   * `get_file_type_from_mime`: the part before the '/' when the string has
   * exactly one '/' and that part is a media category; `false` otherwise.
   */
  function GetFileTypeFromMime(mime: string): (r: Option<string>)
    ensures r.Some? ==>
              && r.value in MediaCategories
              && |r.value| < |mime| && mime[..|r.value|] == r.value && mime[|r.value|] == '/'
              && '/' !in mime[|r.value| + 1..]
    ensures '/' !in mime ==> r.None?
  {
    if '/' !in mime then None
    else
      var parts := Explode('/', mime);
      if |parts| != 2 then None
      else
        assert mime == parts[0] + "/" + parts[1] by {
          assert Join('/', parts[1..]) == parts[1];
        }
        if parts[0] in MediaCategories then Some(parts[0]) else None
  }

  /**
   * Every string with a '/' splits at its first '/' into `t + "/" + sub`; the
   * result is `t` exactly when `t` is a category and `sub` has no further '/'.
   */
  lemma {:induction false} GetFileTypeFromMimeSplit(t: string, sub: string)
    requires '/' !in t
    ensures GetFileTypeFromMime(t + "/" + sub) == if t in MediaCategories && '/' !in sub then Some(t) else None
  {
    var mime := t + "/" + sub;
    assert mime[|t|] == '/';
    if '/' !in sub {
      ExplodeTwo('/', t, sub);
    }
  }

  /** "image/png" is an image. */
  lemma GetFileTypeFromMimeImage(t: string, sub: string)
    requires t == "image" && sub == "png"
    ensures GetFileTypeFromMime(t + "/" + sub) == Some("image")
  {
    GetFileTypeFromMimeSplit(t, sub);
  }

  /** "weird/sub/thing" is malformed: more than one '/'. */
  lemma GetFileTypeFromMimeTwoSlashes(t: string, sub: string)
    requires t == "weird" && sub == "sub/thing"
    ensures GetFileTypeFromMime(t + "/" + sub).None?
  {
    GetFileTypeFromMimeSplit(t, sub);
  }

  /** The category check is exact: "Image/png" is not an image. */
  lemma GetFileTypeFromMimeCaseSensitive(t: string, sub: string)
    requires t == "Image" && sub == "png"
    ensures GetFileTypeFromMime(t + "/" + sub).None?
  {
    GetFileTypeFromMimeSplit(t, sub);
  }

  /**
   * The `;` handling of `get_mime_type`: `explode(';', $mime)[0]`, the text
   * before the first ';', or the whole string when there is none.
   */
  function StripParameters(mime: string): (r: string)
    ensures ';' !in r
    ensures r <= mime
    ensures r == mime || mime[|r|] == ';'
  {
    if ';' in mime then
      var parts := Explode(';', mime);
      assert |parts| >= 2;
      assert mime == parts[0] + ";" + Join(';', parts[1..]);
      parts[0]
    else mime
  }

  /** Stripping is idempotent and leaves a parameter-free type alone. */
  lemma StripParametersIdempotent(mime: string)
    ensures ';' !in mime ==> StripParameters(mime) == mime
    ensures StripParameters(StripParameters(mime)) == StripParameters(mime)
  {
  }

  /** The parameter suffix is dropped and the type before it kept: `t;p` strips to `t`. */
  lemma StripParametersSplit(t: string, p: string)
    requires ';' !in t
    ensures StripParameters(t + ";" + p) == t
  {
    var m := t + ";" + p;
    var r := StripParameters(m);
    assert m[|t|] == ';';
  }

  /** The outcome of one content detector: not installed, threw, or returned a value (possibly `false`). */
  datatype Detection = Unavailable | Threw | Returned(mime: Option<string>)

  /**
   * `get_mime_from_filename`: the table's entry for the extension after the
   * last '.'.
   */
  function GetMimeFromFilename(fn: string, ext2mime: string -> Option<string>): (r: Option<string>)
    ensures '.' !in fn ==> r == ext2mime("")
    ensures '.' in fn ==> r == ext2mime(fn[LastIndex(fn, '.') + 1..])
  {
    ext2mime(Filenames.GetExt(fn))
  }

  /** Only the extension is looked up: the directory and stem play no part. */
  lemma GetMimeFromFilenameUsesExtension(stem: string, ext: string, ext2mime: string -> Option<string>)
    requires '.' !in ext
    ensures GetMimeFromFilename(stem + "." + ext, ext2mime) == ext2mime(ext)
  {
    Filenames.GetExtAfterLastDot(stem, ext);
  }

  /**
   * `get_mime_type`: the first detector that is available and does not throw
   * decides, and its value (even `false`) is returned unchanged; only when
   * both fail is the extension table consulted, and only that answer has its
   * parameters stripped.
   */
  function GetMimeType(filename: string, fileinfo: Detection, mimeContentType: Detection,
                       ext2mime: string -> Option<string>): (r: Option<string>)
    ensures fileinfo.Returned? ==> r == fileinfo.mime
    ensures !fileinfo.Returned? && mimeContentType.Returned? ==> r == mimeContentType.mime
    ensures !fileinfo.Returned? && !mimeContentType.Returned? ==>
              && r.Some? == ext2mime(Filenames.GetExt(filename)).Some?
              && (r.Some? ==> ';' !in r.value && r.value <= ext2mime(Filenames.GetExt(filename)).value)
              && (r.Some? ==> r.value == StripParameters(ext2mime(Filenames.GetExt(filename)).value))
  {
    if fileinfo.Returned? then fileinfo.mime
    else if mimeContentType.Returned? then mimeContentType.mime
    else
      match GetMimeFromFilename(filename, ext2mime)
      case Some(m) => Some(StripParameters(m))
      case None => None
  }

  /**
   * With no detector the answer is the extension table's, minus parameters;
   * a detector's answer is never stripped, so it may keep a ';'.
   */
  lemma GetMimeTypeFallback(stem: string, ext: string, t: string, p: string, fileinfo: Detection,
                            mimeContentType: Detection, ext2mime: string -> Option<string>)
    requires '.' !in ext && ';' !in t
    requires !fileinfo.Returned? && !mimeContentType.Returned?
    requires ext2mime(ext) == Some(t + ";" + p)
    ensures GetMimeType(stem + "." + ext, fileinfo, mimeContentType, ext2mime) == Some(t)
    ensures GetMimeType(stem + "." + ext, Returned(Some(t + ";" + p)), mimeContentType, ext2mime) == Some(t + ";" + p)
  {
    GetMimeFromFilenameUsesExtension(stem, ext, ext2mime);
    StripParametersSplit(t, p);
  }
}
