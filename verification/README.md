# pdyn/filesystem in Dafny

A model of the core of the `pdyn\filesystem` library:

- the filename and mime-type helpers of `FilesystemUtils`: extensions, file-type categories, sanitizing and normalizing names, and the detector fallback chain of `get_mime_type`;
- its recursive directory operations, `create_directory_structure`, `rrmdir` and `dirsize`, over an abstract file tree;
- the upload pipeline of `FileUploader`, `UploadedFile` and the `ImageUploader` preset;
- the browser-side upload queue of `FileUploader.js`.

The file system is a value, `FsTree.Node = File(size) | Dir(children)`, and a path is a sequence of names. Every operation that changes the disk takes a tree and returns the new one. System calls become parameters of the model:

- `move_uploaded_file`, `is_writable` and `uniqid` are fields of `FileUploaders.Host`;
- the `fileinfo` and `mime_content_type` detectors are `Mime.Detection` values;
- the extension table of the `Mimetype` class is a function argument `ext2mime`;
- the inherited `UploadedFile` analysis methods are the functions of `UploadedFiles.Inspector`.

PHP values whose type the code tests at run time (`$savedir`, `$savefilename`, configuration values) are `PhpValues.Mixed`. A thrown `\pdyn\base\Exception` is the `Failure` arm of a `Result`, carrying its message and code.

Modules:

| file | module | models |
|---|---|---|
| wrappers.dfy | Wrappers | `Option` and `Result` |
| php_values.dfy | PhpValues | PHP values, `empty()`, exceptions |
| php_strings.dfy | PhpStrings | `trim`, `explode`, `strtolower`, `str_replace` with an empty replacement |
| filenames.dfy | Filenames | `get_ext`, `pathinfo`, `sanitize_filename`, `normalize_filename` |
| mime.dfy | Mime | `get_file_type_from_mime`, `get_mime_from_filename`, `get_mime_type` |
| tree.dfy | FsTree | the file tree, path lookup and update, subtree size |
| tree_ops.dfy | TreeOps | `dirsize`, `rrmdir`, `create_directory_structure` |
| uploaded_file.dfy | UploadedFiles | `UploadedFile` |
| file_uploader.dfy | FileUploaders | `set_restrictions`, `validate_upload`, `handleupload` |
| image_uploader.dfy | ImageUploaders | the `ImageUploader` preset |
| upload_queue.dfy | UploadQueue | `queueforupload`, `processuploadqueue`, `removefromqueue` |

The model follows the code in these places:

- `handleupload` never calls `validate_upload` (fileuploader/FileUploader.php:119-156). The restrictions are stored but not enforced on the upload path (see Findings).
- `handleupload` ignores the result of `save` (fileuploader/FileUploader.php:151). A failed move still returns the file descriptor, still at its temporary path.
- `get_mime_type` strips a `;` parameter suffix only from the value of the extension fallback (FilesystemUtils.php:55-59). A value returned by `fileinfo` or `mime_content_type` is passed on unchanged.
- `validate_upload` checks restrictions in the order their keys were first inserted into the restriction array (fileuploader/FileUploader.php:82), not in a fixed size/media/mime/extension order.
- Every restriction list failure carries the same message, 'Files with that extension are not allowed.', whichever list failed (fileuploader/FileUploader.php:90-106).
- `sanitize_filename` with sub-directories allowed is not free of traversal: `....///` becomes `./` and `.....///` becomes `../` (FilesystemUtils.php:105-112).
- `normalize_filename` treats `""` and `"0"` as empty (FilesystemUtils.php:73). A name without an extension is rebuilt as `stem.`, with a trailing dot.
- A generated save name always gets `"." + strtolower(ext)`, because `strtolower` never returns `null`. A file without an original extension is saved as `uniqid.` (fileuploader/FileUploader.php:142-148).

## Model

| member | source | states |
|---|---|---|
| Filenames.GetExt | FilesystemUtils.php:245-247 | the result holds no dot; it is empty when the name has no dot, and otherwise it is the text after the last dot |
| Filenames.GetExtAfterLastDot | FilesystemUtils.php:245-247 | for any stem, the extension of `stem.ext` is `ext` when `ext` holds no dot |
| Filenames.Basename | FilesystemUtils.php:77 | the `basename` of `pathinfo` holds no `/`; it is empty exactly when the path is all slashes, and a path without `/` is its own basename |
| Filenames.BasenameIsLastComponent | FilesystemUtils.php:77 | the basename is the suffix of the path, trailing slashes dropped, that starts the path or follows a `/` |
| Filenames.GetPathInfo | FilesystemUtils.php:77 | `pathinfo`: the basename splits into filename and extension at its last dot; the extension is missing exactly when the basename has no dot |
| Filenames.PathInfoSplitsAtLastDot | FilesystemUtils.php:77 | `pathinfo("stem.ext")` gives filename `stem` and extension `ext` |
| Filenames.SanitizeFilename | FilesystemUtils.php:103-113 | the result is no longer than the trimmed input; without sub-directories it holds no `/` |
| Filenames.SanitizeOnlyDeletes | FilesystemUtils.php:103-113 | sanitizing only deletes: the result is a subsequence of the input, so its characters occur there in the same order |
| Filenames.RemovalPassesSubseq | FilesystemUtils.php:105-112 | each `str_replace` pass only deletes: the passes leave a subsequence of their input |
| Filenames.SanitizeWithoutSlashOnlyTrims | FilesystemUtils.php:103-113 | a name without `/` is only trimmed |
| Filenames.SanitizeUntrimmed | FilesystemUtils.php:104-112 | for input with no surrounding whitespace and no leading `/`, sanitizing is exactly the removal passes |
| Filenames.SanitizeDropsLeadingTraversal | FilesystemUtils.php:103-113 | a leading `../../` is removed from a dot-free name; without sub-directories every `/` goes too |
| Filenames.SanitizeTraversalExamples | FilesystemUtils.php:103-113 | `../../etc/passwd` sanitizes to `etc/passwd` with sub-directories and to `etcpasswd` without |
| Filenames.SanitizeSubdirsLeavesDotSlash | FilesystemUtils.php:105-112 | with sub-directories allowed, `....///` sanitizes to `./`, because each pass scans once |
| Filenames.SanitizeSubdirsLeavesDotDotSlash | FilesystemUtils.php:105-112 | with sub-directories allowed, `.....///` sanitizes to `../`, a traversal token |
| Filenames.NormalizeExtensionKeepsOut | FilesystemUtils.php:80-83 | lower-casing and the jpeg rename add neither `/` nor `.` |
| Filenames.NormalizeExtensionEndsUntrimmed | FilesystemUtils.php:80-83 | the normalized extension does not end in whitespace when the original does not |
| Filenames.NormalizeFilename | FilesystemUtils.php:72-92 | the result is `false` exactly when the input is PHP-empty (`""` or `"0"`); otherwise it holds no `/` |
| Filenames.NormalizeFilenameIsTrimmedRebuild | FilesystemUtils.php:77-89 | a non-empty input becomes its trimmed `filename.ext`, with the extension lower-cased and `jpeg` renamed |
| Filenames.NormalizeFilenameStemAndExtension | FilesystemUtils.php:72-92 | a clean `stem.ext` becomes `stem.` plus the normalized extension, with nothing further removed |
| Filenames.RebuiltNameIsUntouched | FilesystemUtils.php:86-89 | the rebuilt name of a clean `stem.ext` is a fixed point of sanitizing |
| Filenames.NormalizeFilenameWithoutExtension | FilesystemUtils.php:77-86 | a name without a dot gets a trailing dot |
| Filenames.NormalizeFilenameJpeg | FilesystemUtils.php:80-86 | any capitalisation of a `jpeg` extension becomes `.jpg` |
| Mime.GetFileTypeFromMime | FilesystemUtils.php:209-224 | a returned category is one of the seven, is the text before the only `/`, and the input has no second `/`; an input without `/` gives `false` |
| Mime.GetFileTypeFromMimeSplit | FilesystemUtils.php:209-224 | `t/sub` gives `t` if and only if `t` is a listed category and `sub` holds no `/` |
| Mime.GetFileTypeFromMimeImage | FilesystemUtils.php:223 | `image/png` gives `image` |
| Mime.GetFileTypeFromMimeTwoSlashes | FilesystemUtils.php:217-221 | a mime with two slashes is malformed |
| Mime.GetFileTypeFromMimeCaseSensitive | FilesystemUtils.php:223 | the category test is case-sensitive: `Image/png` gives `false` |
| Mime.StripParameters | FilesystemUtils.php:55-59 | the result is the prefix of the mime before its first `;`, or the whole mime when there is no `;` |
| Mime.StripParametersIdempotent | FilesystemUtils.php:55-59 | stripping twice is stripping once, and a mime without `;` is unchanged |
| Mime.StripParametersSplit | FilesystemUtils.php:56-58 | `t;p` strips to `t` |
| Mime.GetMimeFromFilename | FilesystemUtils.php:235-237 | the table entry for the text after the last dot, or for the empty extension when the name has no dot |
| Mime.GetMimeFromFilenameUsesExtension | FilesystemUtils.php:235-237 | the mime of `stem.ext` is the table entry for `ext` |
| Mime.GetMimeType | FilesystemUtils.php:35-61 | the first detector that returns wins; only when both detectors are unavailable or throw is the table entry for the extension used, and then the result is exactly that entry with its `;` suffix stripped |
| Mime.GetMimeTypeFallback | FilesystemUtils.php:39-60 | the fallback strips a parameter suffix, but a detector's answer keeps it |
| FsTree.LookupAppend | FilesystemUtils.php:149 | the path `path/member` names a member of the directory at `path` |
| FsTree.SetAt | FilesystemUtils.php:126 | after writing a node at an existing path, that path holds it |
| FsTree.RemoveAt | FilesystemUtils.php:144 | after removal, the path is gone |
| FsTree.SetAtElsewhere | FilesystemUtils.php:126 | a write leaves every path outside the written subtree unchanged |
| FsTree.RemoveAtElsewhere | FilesystemUtils.php:144 | a removal leaves every path outside the removed subtree unchanged |
| FsTree.RemoveMember | FilesystemUtils.php:147-152 | removing a member of a directory is the directory without that key |
| FsTree.SumOverRemove | FilesystemUtils.php:293-303 | the sum over a directory's members splits off any one member |
| TreeOps.SubtreeSize | FilesystemUtils.php:293-304 | the loop over members returns the recursive size of the directory |
| TreeOps.DirSize | FilesystemUtils.php:276-305 | missing with create: 0 and an empty directory created; missing otherwise: 'Directory does not exist!' with code 400; a file: 0; a directory: the total size of its files |
| TreeOps.DirSizeCreates | FilesystemUtils.php:278-281 | creating a missing directory makes it exist, empty, and changes no other path |
| TreeOps.RemoveNode | FilesystemUtils.php:142-154 | deletes the subtree, visits every path in it, and visits each directory after all of its contents |
| TreeOps.Rrmdir | FilesystemUtils.php:142-154 | a missing path returns nothing; otherwise the subtree is removed in post-order and `true` is returned; the root itself cannot be removed and is emptied |
| TreeOps.LookupPrefix | FilesystemUtils.php:130 | looking up `base + q` is looking up `q` below `base` |
| TreeOps.Touch | FilesystemUtils.php:128 | `touch index.html` adds that file and keeps every other entry |
| TreeOps.TouchAgain | FilesystemUtils.php:128 | touching twice is touching once |
| TreeOps.TouchKeeps | FilesystemUtils.php:128 | touching keeps every non-empty path that already exists |
| TreeOps.CreateIn | FilesystemUtils.php:122-134 | the directory gains exactly the named folders; existing files stay as they were; each named entry is a directory exactly when it already was one or was missing |
| TreeOps.CreateInRealizes | FilesystemUtils.php:122-134 | when no named folder is a file, every folder of the structure exists, each with an `index.html` |
| TreeOps.CreateInIdempotent | FilesystemUtils.php:122-134 | creating the structure twice is creating it once |
| TreeOps.CreateInKeepsExisting | FilesystemUtils.php:125-128 | nothing that existed is removed, and existing files keep their contents |
| TreeOps.CreateDirectoryStructure | FilesystemUtils.php:122-134 | the base directory receives the structure; a missing base or a file is left as it was |
| TreeOps.CreateDirectoryStructureEffect | FilesystemUtils.php:122-134 | the structure is realized below the base, and nothing outside the base changes |
| TreeOps.CreateDirectoryStructureIdempotent | FilesystemUtils.php:122-134 | running it twice has the effect of running it once |
| TreeOps.CreateInNested | FilesystemUtils.php:124-131 | `[a => [b => []]]` in an empty directory gives `a/index.html`, `a/b/` and `a/b/index.html` |
| TreeOps.SizeExample | FilesystemUtils.php:293-303 | files of 10, 20 and 5 bytes, one in a subdirectory, total 35 |
| UploadedFiles.FromFilesEntry | fileuploader/UploadedFile.php:42-49 | copies tmp name, name and size from the entry; the type is the analysed one, not the declared one |
| UploadedFiles.GettersOfEntry | fileuploader/UploadedFile.php:42-76 | `get_size`, `get_type` and `get_mediatype` of a new file give the entry's size, the analysed type of the temporary file, and the media type of that type and file |
| UploadedFiles.DeclaredTypeIgnored | fileuploader/UploadedFile.php:46-48 | the declared type has no effect on the descriptor |
| UploadedFiles.Save | fileuploader/UploadedFile.php:84-92 | returns what the move returned; on success the stored path becomes the save path, on failure the file is unchanged; name, size and type never change |
| UploadedFiles.SaveKeepsSizeAndType | fileuploader/UploadedFile.php:65-92 | `get_size` and `get_type` give the same values before and after `save` |
| UploadedFiles.ToArray | fileuploader/UploadedFile.php:99-106 | exactly the keys origname, size, mime and file, holding the four fields |
| UploadedFiles.ToArrayRoundTrip | fileuploader/UploadedFile.php:99-106 | the array determines the file: reading it back gives the same file |
| UploadedFiles.SavedFileExportsPath | fileuploader/UploadedFile.php:84-106 | after a successful save the exported `file` is the save path |
| FileUploaders.Accept | fileuploader/FileUploader.php:46-70 | an entry is kept exactly when it is `maxsize` with an int, or `mediatype`, `mimetype` or `extension` with an array |
| FileUploaders.Put | fileuploader/FileUploader.php:49-67 | assigning a key adds it and keeps every other entry; a new key is appended at the end; with unique keys, an existing key is overwritten at its own position and the length is unchanged |
| FileUploaders.PutUnique | fileuploader/FileUploader.php:49-67 | assigning keeps the keys unique |
| FileUploaders.Accepted | fileuploader/FileUploader.php:45-71 | reference filter: a restriction is in it exactly when some configuration entry is accepted as it |
| FileUploaders.Restrictions | fileuploader/FileUploader.php:43-71 | the stored restrictions have unique keys, all drawn from the configuration |
| FileUploaders.RestrictionsOfPhpArray | fileuploader/FileUploader.php:43-71 | with distinct configuration keys, as in a PHP array, the stored restrictions are the accepted entries in order |
| FileUploaders.RestrictionsOnlyAccepted | fileuploader/FileUploader.php:45-71 | every stored restriction comes from an accepted entry |
| FileUploaders.SetRestrictions | fileuploader/FileUploader.php:42-73 | returns true; the stored restrictions have unique keys, come from accepted entries, and are the accepted entries when keys are distinct |
| FileUploaders.SetRestrictionsForgets | fileuploader/FileUploader.php:43 | earlier restrictions are discarded |
| FileUploaders.SetRestrictionsDropsUnknown | fileuploader/FileUploader.php:46-70 | a string `maxsize` and an unknown key are dropped; an `extension` array is kept |
| FileUploaders.FirstViolated | fileuploader/FileUploader.php:82-108 | nothing is violated exactly when all restrictions hold; otherwise it is the first restriction that fails |
| FileUploaders.ValidateUpload | fileuploader/FileUploader.php:81-110 | succeeds with true exactly when every restriction holds; a failure is the bad-request exception of the first violated restriction, 'Received file was too large.' exactly when that is the size limit |
| FileUploaders.ValidateUploadUnrestricted | fileuploader/FileUploader.php:81-110 | with no restrictions every file is valid |
| FileUploaders.MaxSizeBoundary | fileuploader/FileUploader.php:84-88 | a file of exactly the limit passes, and one byte more fails with 'Received file was too large.' |
| FileUploaders.ListChecks | fileuploader/FileUploader.php:90-106 | each list restriction passes exactly when the file's media type, mime type or extension is listed |
| FileUploaders.CheckRequest | fileuploader/FileUploader.php:120-130 | the request passes the guards exactly when a file was received and the save dir is a non-empty, writable string |
| FileUploaders.SaveNameChoice | fileuploader/FileUploader.php:142-148 | a non-empty string name is used as given; every other value, `"0"` included, gives exactly the unique id, a dot and the lower-cased original extension, and just `uniqid.` without an extension |
| FileUploaders.QuotaExceeded | fileuploader/FileUploader.php:134-140 | the quota applies only when both values are set, and then exactly when the size exceeds the room left below the limit |
| FileUploaders.SaveName | fileuploader/FileUploader.php:142-148 | a non-empty string name is returned as given; otherwise the unique id, a `.` and the original extension lower-cased character by character |
| FileUploaders.StoreUpload | fileuploader/FileUploader.php:132-155 | fails exactly when the quota is exceeded, then only unlinking the staged file; otherwise name, size and type are kept, and the file is at `savedir/name` with one move when the move works and unchanged with no effect when it fails |
| FileUploaders.PostprocessFile | fileuploader/FileUploader.php:164-166 | the default hook reports success |
| FileUploaders.QuotaBoundary | fileuploader/FileUploader.php:134-140 | reaching the limit exactly is allowed, one byte more is not, and a quota missing either value never applies |
| FileUploaders.HandleUpload | fileuploader/FileUploader.php:119-156 | failures are bad requests; a guard failure has no effect; over quota the temporary file is unlinked; otherwise the upload succeeds, and the file is moved to `savedir/name` when the move works |
| FileUploaders.HandleUploadIgnoresSaveResult | fileuploader/FileUploader.php:150-155 | when every move fails, the upload still succeeds, with the file at its temporary path |
| FileUploaders.HandleUploadSkipsValidation | fileuploader/FileUploader.php:119-156 | a 150-byte file fails validation against `maxsize` 100, yet is accepted by the upload |
| FileUploaders.HandleUploadValidated | fileuploader/FileUploader.php:81-156 | a successful upload satisfies every restriction; failures are bad requests; a guard failure has no effect, and a file that fails validation is rejected with the first violation's exception and its staged copy unlinked, as the quota rejection does |
| FileUploaders.HandleUploadValidatedAgrees | fileuploader/FileUploader.php:119-156 | on files that pass validation, the validated upload behaves exactly as the upload as written |
| FileUploaders.HandleUploadValidatedRejectsOversize | fileuploader/FileUploader.php:84-88 | the validated upload rejects the 150-byte file with 'Received file was too large.' and unlinks its temporary file |
| ImageUploaders.ImageUploaderHasNoSizeOrMimeLimit | fileuploader/ImageUploader.php:9-12 | the preset limits neither size nor mime type |
| ImageUploaders.ImageUploaderValidation | fileuploader/ImageUploader.php:9-12 | with the preset, a file is valid exactly when its media type is `image` and its extension is one of the seven listed |
| ImageUploaders.ImageUploaderChecksMediatypeFirst | fileuploader/ImageUploader.php:10 | a non-image fails on the media type, before the extension is looked at |
| ImageUploaders.ImageUploaderPresetReplaced | fileuploader/FileUploader.php:43 | calling `set_restrictions` on an image uploader discards the preset |
| UploadQueue.ProcessUploadQueue | fileuploader/FileUploader.js:104-111 | dispatches a prefix of the queue in FIFO order, one running upload per dispatch; it stops only when the queue is empty or the limit is reached, never goes above the limit, and dispatches nothing when already at or over it |
| UploadQueue.QueueForUpload | fileuploader/FileUploader.js:86-94 | the file gets the fresh id `lastid + 1` and is recorded under it; the id joins the tail of the queue, which is then processed; well-formedness is preserved |
| UploadQueue.IndexOf | fileuploader/FileUploader.js:97 | `indexOf`: -1 exactly when absent, otherwise the first position of the id |
| UploadQueue.RemoveFirst | fileuploader/FileUploader.js:97-100 | an absent id leaves the queue unchanged; otherwise the result is the queue with one position removed that holds the id and has no earlier occurrence of it |
| UploadQueue.RemoveFromQueue | fileuploader/FileUploader.js:95-103 | the file entry is deleted and the id leaves the queue; one fewer upload is running before the queue is processed; well-formedness is preserved |
| UploadQueue.SpliceIncreasing | fileuploader/FileUploader.js:97-100 | splicing one position out of an increasing queue removes its value, keeps the order, and adds nothing |
| UploadQueue.RemoveFirstIncreasing | fileuploader/FileUploader.js:97-100 | in an increasing queue the id occurs once, so splicing at `indexOf` removes it entirely and keeps the order |
| UploadQueue.QueueThree | fileuploader/FileUploader.js:3-17 | with the default two connections, queueing three files starts two uploads and leaves the third waiting |

## Left out

- `unzip` (FilesystemUtils.php:163-199): archive extraction goes through the `ZipArchive` extension, which is not modelled.
- `make_human_readable_filesize`: it uses floating-point division and `round`, and no other operation calls it.
- The `Mimetype` class (`ext2mime`, `get_mediatype`) and the inherited `\pdyn\datatype\UploadedFile` methods (`get_analyzed_mimetype`, `get_file_extension`, `get_original_extension`) are not part of this model. They appear as uninterpreted functions: the `ext2mime` argument and the fields of `UploadedFiles.Inspector`.
- The `fileinfo` and `mime_content_type` detectors are input values. Each is unavailable, throws, or returns a value.
- System calls are abstract. `move_uploaded_file`, `is_writable` and `uniqid` are parameters of `FileUploaders.Host`. `mkdir`, `touch`, `unlink` and `rmdir` are updates of the tree value, and their own failures are not modelled.
- TreeOps.Rrmdir: `unlink` and `rmdir` are assumed to succeed below the root. Permission errors and the suppressed `rmdir` warning are not modelled. The root of the tree stands for `/` and cannot be removed.
- TreeOps.DirSize: `clearstatcache` and concurrent changes to the tree are not modelled, and a trailing `/` on the path does not change the path value.
- Path strings are sequences of names. A folder name or member containing `/` is treated as one component, not re-split.
- TreeOps.CreateIn: the folder names `""`, `.` and `..` are ordinary names in the model. In PHP they resolve to existing directories: `..` touches `index.html` in the parent of the base and `""` or `.` touches the base's own `index.html`, so the effect can lie outside the modelled subtree. `rrmdir` and `dirsize` skip the `.` and `..` entries of `scandir` (FilesystemUtils.php:148, :294), which the tree value has no entries for.
- Symbolic links are not modelled. The tree holds only files and directories, so a link followed by `is_dir`, `rrmdir` or `dirsize` is not distinguished from its target.
- `create_directory_structure`: a non-array `$subfolders` value is modelled as an empty structure, which PHP's `is_array` test makes equivalent.
- Strings are sequences of characters. `mb_strtolower` and `strtolower` are modelled for ASCII letters only, and multi-byte case mapping is left out.
- `in_array` is used in its loose form in `validate_upload`. The model compares strings exactly, so PHP's loose comparison of numeric strings is not modelled.
- `set_restrictions` receives a PHP array. Integer keys, and the loose `switch` comparison that lets integer key `0` match `'maxsize'`, are not modelled. Keys are strings, and a repeated key is allowed as input.
- `UploadedFiles.FromFilesEntry`: the `(int)` cast of `$filesentry['size']` is taken as already done. The size is an integer field.
- FileUploaders.QuotaExceeded: the `(int)` casts of `cursize` and the size, and PHP's comparison of a non-integer `limit`, are left out. Quota values are optional integers.
- `postprocess_file` is the hook that returns true. `handleupload` discards its result, and subclass overrides are not modelled.
- `FileUploader.js`: `boundedresize`, `resizedataurl`, `getdircontents`, the jQuery plugin, the DOM handlers and the AJAX request are left out. `uploadfile` is the event of an id being dispatched. The `onStart`, `onProgress`, `onComplete` and `onError` callbacks are user code and are not modelled.
- UploadQueue: the JavaScript number type is modelled by unbounded integers. Object keys are modelled by integer map keys, not strings.
- UploadQueue: one queue state per uploader. The plugin's shallow `$.extend` copy of its defaults shares the `files` object and the `uploadqueue` array between plugin instances (fileuploader/FileUploader.js:3-7, :156, :199), and that sharing is not modelled.

## Findings

| source | as written | input that shows it | evidently intended | confidence | as-written member | corrected member |
|---|---|---|---|---|---|---|
| fileuploader/FileUploader.php:119-156 | `handleupload` never calls `validate_upload`, so configured restrictions are not enforced on uploads | restrictions `maxsize` 100 and a 150-byte upload to a writable save dir, no quota | the doc comment says 'Receive an uploaded file, validate it, and save it': a restriction-violating upload is rejected with a bad-request exception before it is saved, and its staged temporary file is unlinked as on the quota rejection (fileuploader/FileUploader.php:136-137) | not executed | FileUploaders.HandleUploadSkipsValidation | FileUploaders.HandleUploadValidated |
