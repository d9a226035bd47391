/**
 * `UploadedFile`: the record `FileUploader` builds from one `$_FILES` entry,
 * its `save` state change and its array export.
 *
 * What the parent class and the `Mimetype` class compute about a file
 * (analysed mime type, media type, extensions) is not part of this model;
 * it enters through an `Inspector` of functions.
 */
module UploadedFiles {
  import opened Wrappers
  import opened PhpValues

  /** One `$_FILES` entry: `tmp_name`, `name`, `size` (already an integer) and the client-declared `type`. */
  datatype FilesEntry = FilesEntry(tmpName: string, name: string, size: int, declaredType: string)

  /** The fields of an `UploadedFile`: `stored_filename`, `orig_filename`, `size` and `type`. */
  datatype UploadedFile = UploadedFile(storedFilename: string, origFilename: string, size: int, mimeType: string)

  /**
   * The collaborators an `UploadedFile` consults:
   * `get_analyzed_mimetype` (of the file stored at a path),
   * `Mimetype::get_mediatype($type, $stored_filename)`,
   * `get_file_extension` and `get_original_extension`.
   */
  datatype Inspector = Inspector(
    analyzedMimetype: string -> string,
    mediatype: (string, string) -> string,
    fileExtension: UploadedFile -> string,
    originalExtension: UploadedFile -> string)

  /**
   * The constructor: the temporary file is where the upload is stored, the
   * client's name is the original name, and the type is the one analysed
   * from the stored file, not the one the client declared. The declared
   * type is read into a local and then dropped, so it has no field here.
   */
  function FromFilesEntry(e: FilesEntry, insp: Inspector): (f: UploadedFile)
    ensures f.storedFilename == e.tmpName && f.origFilename == e.name && f.size == e.size
    ensures f.mimeType == insp.analyzedMimetype(e.tmpName)
  {
    UploadedFile(e.tmpName, e.name, e.size, insp.analyzedMimetype(e.tmpName))
  }

  /** The declared type is read but never stored: two entries differing only in it give the same file. */
  lemma DeclaredTypeIgnored(e: FilesEntry, declared: string, insp: Inspector)
    ensures FromFilesEntry(e.(declaredType := declared), insp) == FromFilesEntry(e, insp)
  {
  }

  /** `get_mediatype`: the media type of the stored type and file. */
  function GetMediatype(f: UploadedFile, insp: Inspector): string
  {
    insp.mediatype(f.mimeType, f.storedFilename)
  }

  /** The getters of a freshly constructed file read back what the constructor stored. */
  lemma GettersOfEntry(e: FilesEntry, insp: Inspector)
    ensures GetSize(FromFilesEntry(e, insp)) == e.size
    ensures GetType(FromFilesEntry(e, insp)) == insp.analyzedMimetype(e.tmpName)
    ensures GetMediatype(FromFilesEntry(e, insp), insp) == insp.mediatype(insp.analyzedMimetype(e.tmpName), e.tmpName)
  {
  }

  /** `get_size`. */
  function GetSize(f: UploadedFile): int
  {
    f.size
  }

  /** `get_type`. */
  function GetType(f: UploadedFile): string
  {
    f.mimeType
  }

  /**
   * `save($savepath)` with `move_uploaded_file` as the oracle `move`: on
   * success the file is stored at `savepath` and `true` returned; on failure
   * nothing changes and `false` is returned.
   */
  function Save(f: UploadedFile, savepath: string, move: (string, string) -> bool): (r: (UploadedFile, bool))
    ensures r.1 == move(f.storedFilename, savepath)
    ensures r.1 ==> r.0.storedFilename == savepath
    ensures !r.1 ==> r.0 == f
    ensures r.0.origFilename == f.origFilename && r.0.size == f.size && r.0.mimeType == f.mimeType
  {
    if move(f.storedFilename, savepath) then (f.(storedFilename := savepath), true) else (f, false)
  }

  /** Saving changes neither what `get_size` nor what `get_type` report. */
  lemma SaveKeepsSizeAndType(f: UploadedFile, savepath: string, move: (string, string) -> bool)
    ensures GetSize(Save(f, savepath, move).0) == GetSize(f)
    ensures GetType(Save(f, savepath, move).0) == GetType(f)
  {
  }

  /** The keys of `to_array`. */
  const ArrayKeys: set<string> := {"origname", "size", "mime", "file"}

  /** `to_array`: the original name, size, type and stored name under `origname`, `size`, `mime` and `file`. */
  function ToArray(f: UploadedFile): (a: map<string, Mixed>)
    ensures a.Keys == ArrayKeys
    ensures a["origname"] == MStr(f.origFilename) && a["size"] == MInt(f.size)
    ensures a["mime"] == MStr(f.mimeType) && a["file"] == MStr(f.storedFilename)
  {
    map["origname" := MStr(f.origFilename), "size" := MInt(f.size),
        "mime" := MStr(f.mimeType), "file" := MStr(f.storedFilename)]
  }

  /** Reading an exported array back: the inverse of `ToArray` on well-shaped arrays. */
  function FromArray(a: map<string, Mixed>): Option<UploadedFile>
  {
    if "origname" in a && "size" in a && "mime" in a && "file" in a
       && a["origname"].MStr? && a["size"].MInt? && a["mime"].MStr? && a["file"].MStr?
    then Some(UploadedFile(a["file"].s, a["origname"].s, a["size"].i, a["mime"].s))
    else None
  }

  /** The export loses nothing: the file can be rebuilt from its array. */
  lemma ToArrayRoundTrip(f: UploadedFile)
    ensures FromArray(ToArray(f)) == Some(f)
  {
    var a := ToArray(f);
    assert "origname" in a && "size" in a && "mime" in a && "file" in a;
  }

  /** After a successful save the export points at the new path. */
  lemma SavedFileExportsPath(f: UploadedFile, savepath: string, move: (string, string) -> bool)
    requires move(f.storedFilename, savepath)
    ensures ToArray(Save(f, savepath, move).0)["file"] == MStr(savepath)
  {
  }
}
