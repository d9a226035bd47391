/** `ImageUploader`: a `FileUploader` whose restrictions start out as an image-only preset. */
module ImageUploaders {
  import opened Wrappers
  import opened PhpValues
  import opened UploadedFiles
  import opened FileUploaders

  /** The extensions the preset allows. */
  const ImageExtensions: seq<string> := ["jpeg", "jpg", "gif", "png", "tiff", "bmp", "tif"]

  /** The preset: media type `image`, then the image extensions; no size or mime type limit. */
  const ImageUploaderDefaults: Uploader := Uploader([MediaTypes(["image"]), Extensions(ImageExtensions)])

  /** The preset limits neither the size nor the mime type. */
  lemma ImageUploaderHasNoSizeOrMimeLimit()
    ensures forall x :: x in ImageUploaderDefaults.restrictions ==> !x.MaxSize? && !x.MimeTypes?
  {
  }

  /** A file passes the preset exactly when its media type is `image` and its extension is listed. */
  lemma ImageUploaderValidation(f: UploadedFile, insp: Inspector)
    ensures ValidateUpload(ImageUploaderDefaults, f, insp).Success? <==>
              GetMediatype(f, insp) == "image" && insp.fileExtension(f) in ImageExtensions
  {
    var rs := ImageUploaderDefaults.restrictions;
    assert rs[0] == MediaTypes(["image"]) && rs[1] == Extensions(ImageExtensions);
  }

  /** The media type is checked first: a file failing both checks is refused by the media type check. */
  lemma ImageUploaderChecksMediatypeFirst(f: UploadedFile, insp: Inspector)
    requires GetMediatype(f, insp) != "image"
    ensures FirstViolated(ImageUploaderDefaults.restrictions, f, insp) == Some(MediaTypes(["image"]))
  {
  }

  /** `set_restrictions` replaces the preset entirely: the result is the same as for a plain `FileUploader`. */
  lemma ImageUploaderPresetReplaced(cfg: seq<(string, Mixed)>)
    ensures SetRestrictions(ImageUploaderDefaults, cfg) == SetRestrictions(Uploader([]), cfg)
  {
    SetRestrictionsForgets(ImageUploaderDefaults, Uploader([]), cfg);
  }
}
