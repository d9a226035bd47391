/**
 * `FileUploader`: the restriction set, the validation of an uploaded file
 * against it, and `handleupload`, which receives, names and saves a file.
 * `ImageUploader` is the same class with a preset restriction set.
 *
 * The `$_FILES` superglobal, `is_writable`, `move_uploaded_file`, `unlink`
 * and `uniqid` enter as parameters.
 */
module FileUploaders {
  import opened Wrappers
  import opened PhpValues
  import opened PhpStrings
  import opened UploadedFiles

  /** One stored restriction, under the key `maxsize`, `mediatype`, `mimetype` or `extension`. */
  datatype Restriction =
    | MaxSize(limit: int)
    | MediaTypes(allowed: seq<string>)
    | MimeTypes(allowed: seq<string>)
    | Extensions(allowed: seq<string>)
  {
    /** The key the restriction is stored under. */
    function Key(): string
    {
      match this
      case MaxSize(_) => "maxsize"
      case MediaTypes(_) => "mediatype"
      case MimeTypes(_) => "mimetype"
      case Extensions(_) => "extension"
    }
  }

  /** The state of a `FileUploader`: its `$restrictions` array, in insertion order. */
  datatype Uploader = Uploader(restrictions: seq<Restriction>)

  /** The `switch` of `set_restrictions` on one entry: the restriction it keeps, if the key and value type are right. */
  function Accept(key: string, v: Mixed): (r: Option<Restriction>)
    ensures r.Some? ==> r.value.Key() == key
    ensures r.Some? <==> (key == "maxsize" && v.MInt?) || (key in {"mediatype", "mimetype", "extension"} && v.MList?)
  {
    match v
    case MInt(i) => if key == "maxsize" then Some(MaxSize(i)) else None
    case MList(items) =>
      if key == "mediatype" then Some(MediaTypes(items))
      else if key == "mimetype" then Some(MimeTypes(items))
      else if key == "extension" then Some(Extensions(items))
      else None
    case _ => None
  }

  /** No two restrictions share a key, as in a PHP array. */
  predicate UniqueKeys(rs: seq<Restriction>)
  {
    forall i, j :: 0 <= i < j < |rs| ==> rs[i].Key() != rs[j].Key()
  }

  /** The keys restrictions are stored under. */
  function KeySet(rs: seq<Restriction>): set<string>
  {
    set i | 0 <= i < |rs| :: rs[i].Key()
  }

  lemma KeySetCons(a: Restriction, s: seq<Restriction>)
    ensures KeySet([a] + s) == {a.Key()} + KeySet(s)
  {
    var t := [a] + s;
    assert forall i :: 1 <= i < |t| ==> t[i] == s[i - 1];
    assert forall i :: 0 <= i < |s| ==> s[i] == t[i + 1];
    assert t[0] == a;
  }

  lemma UniqueCons(a: Restriction, s: seq<Restriction>)
    requires UniqueKeys(s) && a.Key() !in KeySet(s)
    ensures UniqueKeys([a] + s)
  {
    var t := [a] + s;
    forall i, j | 0 <= i < j < |t|
      ensures t[i].Key() != t[j].Key()
    {
      if i == 0 {
        assert t[j] == s[j - 1];
      } else {
        assert t[i] == s[i - 1] && t[j] == s[j - 1];
      }
    }
  }

  /**
   * What `$this->restrictions[$key] = $v` does to the array `rs`, giving `r`:
   * the key is present afterwards, `x` is stored, nothing else is added; a
   * new key is appended, and an existing key is overwritten in place.
   */
  predicate PutSpec(rs: seq<Restriction>, x: Restriction, r: seq<Restriction>)
  {
    && KeySet(r) == KeySet(rs) + {x.Key()}
    && x in r
    && (forall y :: y in r ==> y in rs || y == x)
    && (x.Key() !in KeySet(rs) ==> r == rs + [x])
    && (UniqueKeys(rs) && x.Key() in KeySet(rs) ==>
          |r| == |rs| && forall i :: 0 <= i < |rs| ==> r[i] == (if rs[i].Key() == x.Key() then x else rs[i]))
  }

  /**
   * `$this->restrictions[$key] = $v`: an existing entry under the key is
   * overwritten in place, otherwise the entry is appended.
   */
  function Put(rs: seq<Restriction>, x: Restriction): (r: seq<Restriction>)
    ensures KeySet(r) == KeySet(rs) + {x.Key()}
    ensures x in r
    ensures forall y :: y in r ==> y in rs || y == x
    ensures x.Key() !in KeySet(rs) ==> r == rs + [x]
    ensures UniqueKeys(rs) && x.Key() in KeySet(rs) ==>
              |r| == |rs| && forall i :: 0 <= i < |rs| ==> r[i] == (if rs[i].Key() == x.Key() then x else rs[i])
    decreases |rs|
  {
    if |rs| == 0 then
      PutEmpty(x);
      [x]
    else if rs[0].Key() == x.Key() then
      PutHere(rs, x);
      [x] + rs[1..]
    else
      var rest := Put(rs[1..], x);
      PutLater(rs, x, rest);
      [rs[0]] + rest
  }

  lemma PutEmpty(x: Restriction)
    ensures PutSpec([], x, [x])
  {
    KeySetCons(x, []);
    assert [x] + [] == [x];
  }

  /** The first entry has the key: it is replaced. */
  lemma PutHere(rs: seq<Restriction>, x: Restriction)
    requires |rs| > 0 && rs[0].Key() == x.Key()
    ensures PutSpec(rs, x, [x] + rs[1..])
  {
    var r := [x] + rs[1..];
    assert rs == [rs[0]] + rs[1..];
    KeySetCons(rs[0], rs[1..]);
    KeySetCons(x, rs[1..]);
    assert forall i :: 1 <= i < |rs| ==> r[i] == rs[i];
    assert forall y :: y in r ==> y in rs || y == x by {
      forall y | y in r
        ensures y in rs || y == x
      {
        var k :| 0 <= k < |r| && r[k] == y;
        if k > 0 { assert rs[k] == y; }
      }
    }
    if UniqueKeys(rs) {
      assert forall i :: 1 <= i < |rs| ==> rs[i].Key() != rs[0].Key();
    }
  }

  /** The first entry has another key: it stays, and the rest is updated. */
  lemma PutLater(rs: seq<Restriction>, x: Restriction, rest: seq<Restriction>)
    requires |rs| > 0 && rs[0].Key() != x.Key()
    requires PutSpec(rs[1..], x, rest)
    ensures PutSpec(rs, x, [rs[0]] + rest)
  {
    var r := [rs[0]] + rest;
    assert rs == [rs[0]] + rs[1..];
    KeySetCons(rs[0], rs[1..]);
    KeySetCons(rs[0], rest);
    PutLaterOnly(rs, x, rest);
    assert x in r by {
      var k :| 0 <= k < |rest| && rest[k] == x;
      assert r[k + 1] == x;
    }
    if x.Key() !in KeySet(rs) {
      assert rest == rs[1..] + [x];
      assert r == rs + [x];
    }
    if UniqueKeys(rs) && x.Key() in KeySet(rs) {
      PutLaterInPlace(rs, x, rest);
    }
  }

  lemma PutLaterOnly(rs: seq<Restriction>, x: Restriction, rest: seq<Restriction>)
    requires |rs| > 0
    requires forall y :: y in rest ==> y in rs[1..] || y == x
    ensures forall y :: y in [rs[0]] + rest ==> y in rs || y == x
  {
    var r := [rs[0]] + rest;
    forall y | y in r
      ensures y in rs || y == x
    {
      var k :| 0 <= k < |r| && r[k] == y;
      if k > 0 {
        assert rest[k - 1] == y;
        if y in rs[1..] {
          var m :| 0 <= m < |rs[1..]| && rs[1..][m] == y;
          assert rs[m + 1] == y;
        }
      }
    }
  }

  lemma PutLaterInPlace(rs: seq<Restriction>, x: Restriction, rest: seq<Restriction>)
    requires |rs| > 0 && rs[0].Key() != x.Key()
    requires UniqueKeys(rs) && x.Key() in KeySet(rs)
    requires KeySet(rs) == {rs[0].Key()} + KeySet(rs[1..])
    requires UniqueKeys(rs[1..]) && x.Key() in KeySet(rs[1..]) ==>
               |rest| == |rs[1..]| && forall i :: 0 <= i < |rs[1..]| ==>
                 rest[i] == (if rs[1..][i].Key() == x.Key() then x else rs[1..][i])
    ensures var r := [rs[0]] + rest;
            |r| == |rs| && forall i :: 0 <= i < |rs| ==> r[i] == (if rs[i].Key() == x.Key() then x else rs[i])
  {
    var t := rs[1..];
    assert forall i :: 0 <= i < |t| ==> t[i] == rs[i + 1];
    assert UniqueKeys(t);
    var r := [rs[0]] + rest;
    forall i | 0 <= i < |rs|
      ensures r[i] == (if rs[i].Key() == x.Key() then x else rs[i])
    {
      if i > 0 {
        assert r[i] == rest[i - 1];
      }
    }
  }

  /** Overwriting or appending keeps the keys unique. */
  lemma {:induction false} PutUnique(rs: seq<Restriction>, x: Restriction)
    requires UniqueKeys(rs)
    ensures UniqueKeys(Put(rs, x))
    decreases |rs|
  {
    if |rs| > 0 {
      KeySetCons(rs[0], rs[1..]);
      if rs[0].Key() == x.Key() {
        UniqueCons(x, rs[1..]);
      } else {
        PutUnique(rs[1..], x);
        UniqueCons(rs[0], Put(rs[1..], x));
      }
    }
  }

  /** The keys of a configuration array. */
  function ConfigKeys(cfg: seq<(string, Mixed)>): set<string>
  {
    set i | 0 <= i < |cfg| :: cfg[i].0
  }

  /** The restrictions `set_restrictions` stores for `cfg`, each entry processed in turn. */
  function Restrictions(cfg: seq<(string, Mixed)>): (rs: seq<Restriction>)
    ensures UniqueKeys(rs)
    ensures KeySet(rs) <= ConfigKeys(cfg)
    decreases |cfg|
  {
    if |cfg| == 0 then []
    else
      var init := Restrictions(cfg[..|cfg| - 1]);
      var last := cfg[|cfg| - 1];
      ConfigKeysSnoc(cfg);
      match Accept(last.0, last.1)
      case Some(x) =>
        PutUnique(init, x);
        Put(init, x)
      case None => init
  }

  lemma ConfigKeysSnoc(cfg: seq<(string, Mixed)>)
    requires |cfg| > 0
    ensures ConfigKeys(cfg) == ConfigKeys(cfg[..|cfg| - 1]) + {cfg[|cfg| - 1].0}
  {
    var init := cfg[..|cfg| - 1];
    assert forall i :: 0 <= i < |init| ==> init[i] == cfg[i];
  }

  /** The accepted entries of `cfg`, in order: a reference definition of the filter. */
  function Accepted(cfg: seq<(string, Mixed)>): (rs: seq<Restriction>)
    ensures forall x :: x in rs <==> exists i :: 0 <= i < |cfg| && Accept(cfg[i].0, cfg[i].1) == Some(x)
    decreases |cfg|
  {
    if |cfg| == 0 then []
    else
      var rest := Accepted(cfg[1..]);
      assert forall i :: 1 <= i < |cfg| ==> cfg[i] == cfg[1..][i - 1];
      assert forall i :: 0 <= i < |cfg| - 1 ==> cfg[1..][i] == cfg[i + 1];
      match Accept(cfg[0].0, cfg[0].1)
      case Some(x) => [x] + rest
      case None => rest
  }

  /** A PHP array has distinct keys. */
  predicate DistinctKeys(cfg: seq<(string, Mixed)>)
  {
    forall i, j :: 0 <= i < j < |cfg| ==> cfg[i].0 != cfg[j].0
  }

  lemma {:induction false} AcceptedSnoc(cfg: seq<(string, Mixed)>)
    requires |cfg| > 0
    ensures Accepted(cfg) == Accepted(cfg[..|cfg| - 1]) +
              match Accept(cfg[|cfg| - 1].0, cfg[|cfg| - 1].1) case Some(x) => [x] case None => []
    decreases |cfg|
  {
    if |cfg| > 1 {
      AcceptedSnoc(cfg[1..]);
      assert cfg[1..][..|cfg| - 2] == cfg[..|cfg| - 1][1..];
      assert cfg[..|cfg| - 1][0] == cfg[0];
    }
  }

  /**
   * For a PHP array (distinct keys) `set_restrictions` keeps exactly the
   * entries with a recognized key and a value of the right type, in their
   * order: `maxsize` when an integer, the three lists when arrays.
   */
  lemma {:induction false} RestrictionsOfPhpArray(cfg: seq<(string, Mixed)>)
    ensures DistinctKeys(cfg) ==> Restrictions(cfg) == Accepted(cfg)
    decreases |cfg|
  {
    if |cfg| > 0 && DistinctKeys(cfg) {
      var init := cfg[..|cfg| - 1];
      RestrictionsOfPhpArray(init);
      AcceptedSnoc(cfg);
      var rs := Restrictions(init);
      match Accept(cfg[|cfg| - 1].0, cfg[|cfg| - 1].1)
      case Some(x) =>
        assert x.Key() !in ConfigKeys(init) by {
          forall k | 0 <= k < |init|
            ensures init[k].0 != x.Key()
          {
            assert init[k] == cfg[k];
          }
        }
      case None =>
    }
  }

  /**
   * `set_restrictions($restrictions)`: the previous restrictions are
   * discarded and rebuilt from the recognized entries; the call always
   * returns true.
   */
  function SetRestrictions(u: Uploader, cfg: seq<(string, Mixed)>): (r: (Uploader, bool))
    ensures r.1
    ensures UniqueKeys(r.0.restrictions)
    ensures forall x :: x in r.0.restrictions ==> exists i :: 0 <= i < |cfg| && Accept(cfg[i].0, cfg[i].1) == Some(x)
    ensures DistinctKeys(cfg) ==> r.0.restrictions == Accepted(cfg)
  {
    var rs := Restrictions(cfg);
    RestrictionsOnlyAccepted(cfg);
    RestrictionsOfPhpArray(cfg);
    (Uploader(rs), true)
  }

  /** Every stored restriction comes from an accepted entry of the configuration. */
  lemma {:induction false} RestrictionsOnlyAccepted(cfg: seq<(string, Mixed)>)
    ensures forall x :: x in Restrictions(cfg) ==> exists i :: 0 <= i < |cfg| && Accept(cfg[i].0, cfg[i].1) == Some(x)
    decreases |cfg|
  {
    if |cfg| > 0 {
      var init := cfg[..|cfg| - 1];
      RestrictionsOnlyAccepted(init);
      forall x | x in Restrictions(init)
        ensures exists i :: 0 <= i < |cfg| && Accept(cfg[i].0, cfg[i].1) == Some(x)
      {
        var i :| 0 <= i < |init| && Accept(init[i].0, init[i].1) == Some(x);
        assert cfg[i] == init[i];
      }
    }
  }

  /** The previous restrictions play no part in the new ones. */
  lemma SetRestrictionsForgets(u: Uploader, v: Uploader, cfg: seq<(string, Mixed)>)
    ensures SetRestrictions(u, cfg) == SetRestrictions(v, cfg)
  {
  }

  /** Unknown keys and wrongly typed values are dropped: `maxsize` as a string, `colour` as anything. */
  lemma SetRestrictionsDropsUnknown(limit: string, other: Mixed, allowed: seq<string>)
    ensures SetRestrictions(Uploader([]), [("maxsize", MStr(limit)), ("colour", other), ("extension", MList(allowed))]).0
            == Uploader([Extensions(allowed)])
  {
    var cfg := [("maxsize", MStr(limit)), ("colour", other), ("extension", MList(allowed))];
    assert cfg[..2][..1][..0] == [];
    assert Restrictions(cfg[..2][..1]) == [];
    assert Restrictions(cfg[..2]) == [];
    assert Restrictions(cfg) == Put([], Extensions(allowed));
  }

  /** Whether the file passes one restriction's check in `validate_upload`. */
  predicate Satisfies(x: Restriction, f: UploadedFile, insp: Inspector)
  {
    match x
    case MaxSize(limit) => !(limit < GetSize(f))
    case MediaTypes(allowed) => GetMediatype(f, insp) in allowed
    case MimeTypes(allowed) => GetType(f) in allowed
    case Extensions(allowed) => insp.fileExtension(f) in allowed
  }

  /** The exception a failed check throws: one message for size, one shared by the three lists. */
  function Violation(x: Restriction): Exception
  {
    if x.MaxSize? then Exception("Received file was too large.", ErrBadRequest)
    else Exception("Files with that extension are not allowed.", ErrBadRequest)
  }

  /** The restriction whose check throws first, in stored order. */
  function FirstViolated(rs: seq<Restriction>, f: UploadedFile, insp: Inspector): (r: Option<Restriction>)
    ensures r.None? <==> forall i :: 0 <= i < |rs| ==> Satisfies(rs[i], f, insp)
    ensures r.Some? ==> exists i :: 0 <= i < |rs| && rs[i] == r.value && !Satisfies(rs[i], f, insp)
                                    && forall j :: 0 <= j < i ==> Satisfies(rs[j], f, insp)
    decreases |rs|
  {
    if |rs| == 0 then None
    else if !Satisfies(rs[0], f, insp) then Some(rs[0])
    else
      var r := FirstViolated(rs[1..], f, insp);
      assert forall i :: 1 <= i < |rs| ==> rs[i] == rs[1..][i - 1];
      FirstViolatedShift(rs, f, insp, r);
      r
  }

  lemma FirstViolatedShift(rs: seq<Restriction>, f: UploadedFile, insp: Inspector, r: Option<Restriction>)
    requires |rs| > 0 && Satisfies(rs[0], f, insp)
    requires r.Some? ==> exists i :: 0 <= i < |rs[1..]| && rs[1..][i] == r.value && !Satisfies(rs[1..][i], f, insp)
                                     && forall j :: 0 <= j < i ==> Satisfies(rs[1..][j], f, insp)
    ensures r.Some? ==> exists i :: 0 <= i < |rs| && rs[i] == r.value && !Satisfies(rs[i], f, insp)
                                    && forall j :: 0 <= j < i ==> Satisfies(rs[j], f, insp)
  {
    if r.Some? {
      var i :| 0 <= i < |rs[1..]| && rs[1..][i] == r.value && !Satisfies(rs[1..][i], f, insp)
               && forall j :: 0 <= j < i ==> Satisfies(rs[1..][j], f, insp);
      assert rs[i + 1] == r.value;
      assert forall j :: 1 <= j < i + 1 ==> rs[j] == rs[1..][j - 1];
    }
  }

  /**
   * `validate_upload($file)`: true when every stored restriction is
   * satisfied; otherwise the exception of the first one, in stored order,
   * that is not.
   */
  function ValidateUpload(u: Uploader, f: UploadedFile, insp: Inspector): (r: Result<bool, Exception>)
    ensures r.Success? <==> forall i :: 0 <= i < |u.restrictions| ==> Satisfies(u.restrictions[i], f, insp)
    ensures r.Success? ==> r.value
    ensures r.Failure? ==> r.error.code == ErrBadRequest
    ensures r.Failure? ==> FirstViolated(u.restrictions, f, insp).Some?
                           && r.error == Violation(FirstViolated(u.restrictions, f, insp).value)
    ensures r.Failure? ==> (r.error.message == "Received file was too large." <==> FirstViolated(u.restrictions, f, insp).value.MaxSize?)
  {
    match FirstViolated(u.restrictions, f, insp)
    case None => Success(true)
    case Some(x) => Failure(Violation(x))
  }

  /** With no restrictions every file is accepted. */
  lemma ValidateUploadUnrestricted(f: UploadedFile, insp: Inspector)
    ensures ValidateUpload(Uploader([]), f, insp) == Success(true)
  {
  }

  /** The size limit is inclusive: a file of exactly `limit` bytes passes, one byte more fails. */
  lemma MaxSizeBoundary(limit: int, f: UploadedFile, insp: Inspector)
    ensures f.size == limit ==> ValidateUpload(Uploader([MaxSize(limit)]), f, insp).Success?
    ensures f.size == limit + 1 ==>
              ValidateUpload(Uploader([MaxSize(limit)]), f, insp) == Failure(Exception("Received file was too large.", ErrBadRequest))
  {
  }

  /** A list check rejects exactly when the file's value is missing from the list. */
  lemma ListChecks(allowed: seq<string>, f: UploadedFile, insp: Inspector)
    ensures ValidateUpload(Uploader([MediaTypes(allowed)]), f, insp).Success? <==> GetMediatype(f, insp) in allowed
    ensures ValidateUpload(Uploader([MimeTypes(allowed)]), f, insp).Success? <==> f.mimeType in allowed
    ensures ValidateUpload(Uploader([Extensions(allowed)]), f, insp).Success? <==> insp.fileExtension(f) in allowed
  {
    assert [MediaTypes(allowed)][0] == MediaTypes(allowed);
    assert [MimeTypes(allowed)][0] == MimeTypes(allowed);
    assert [Extensions(allowed)][0] == Extensions(allowed);
  }

  /** `$quotadata`: `cursize` and `limit`, each `None` when not set. */
  datatype Quota = Quota(cursize: Option<int>, limit: Option<int>)

  /** What `handleupload` does to the filesystem: delete the staged file, or move it into place. */
  datatype Effect = Unlinked(path: string) | Moved(from: string, to: string)

  /** The host functions `handleupload` calls: `is_writable`, `move_uploaded_file`, and the value `uniqid()` returns. */
  datatype Host = Host(writable: string -> bool, move: (string, string) -> bool, uniqid: string)

  const NoFile := Exception("No file received.", ErrBadRequest)
  const InvalidSavePath := Exception("Invalid save path received", ErrBadRequest)
  const NotWritable := Exception("Could not write to save path", ErrBadRequest)
  const QuotaExceededError := Exception("Disk quota exceeded", ErrBadRequest)

  /** The checks `handleupload` makes before it touches any file, in order. */
  function CheckRequest(upload: Option<FilesEntry>, savedir: Mixed, host: Host): (r: Option<Exception>)
    ensures r.None? <==> upload.Some? && savedir.MStr? && !IsEmptyString(savedir.s) && host.writable(savedir.s)
  {
    if upload.None? then Some(NoFile)
    else if IsEmpty(savedir) || !savedir.MStr? then Some(InvalidSavePath)
    else if !host.writable(savedir.s) then Some(NotWritable)
    else None
  }

  /** The quota check: only with both values set, and only when the new total is strictly above the limit. */
  predicate QuotaExceeded(quota: Quota, size: int)
    ensures QuotaExceeded(quota, size) ==> quota.cursize.Some? && quota.limit.Some?
    ensures quota.cursize.Some? && quota.limit.Some? ==>
              (QuotaExceeded(quota, size) <==> size > quota.limit.value - quota.cursize.value)
  {
    quota.cursize.Some? && quota.limit.Some? && quota.cursize.value + size > quota.limit.value
  }

  /**
   * The name the file is saved under: a non-empty string `savefilename`
   * as given, otherwise `uniqid() . "." . strtolower(original extension)`;
   * `strtolower` never yields null, so the '.' is always added.
   */
  function SaveName(savefilename: Mixed, file: UploadedFile, insp: Inspector, uniqid: string): (r: string)
    ensures savefilename.MStr? && !IsEmptyString(savefilename.s) ==> r == savefilename.s
    ensures IsEmpty(savefilename) || !savefilename.MStr? ==>
              var ext := insp.originalExtension(file);
              && |r| == |uniqid| + 1 + |ext|
              && r[..|uniqid|] == uniqid && r[|uniqid|] == '.'
              && forall k :: 0 <= k < |ext| ==> r[|uniqid| + 1 + k] == LowerChar(ext[k])
  {
    if IsEmpty(savefilename) || !savefilename.MStr? then uniqid + "." + ToLower(insp.originalExtension(file))
    else savefilename.s
  }

  /** A given name is used only when it is a string PHP does not consider empty; "0" is replaced too. */
  lemma SaveNameChoice(savefilename: Mixed, file: UploadedFile, insp: Inspector, uniqid: string)
    ensures savefilename.MStr? && !IsEmptyString(savefilename.s) ==> SaveName(savefilename, file, insp, uniqid) == savefilename.s
    ensures savefilename == MStr("0") || savefilename == MNull || savefilename.MInt? ==>
              var name := SaveName(savefilename, file, insp, uniqid);
              |name| > |uniqid| && name[..|uniqid|] == uniqid && name[|uniqid|] == '.'
    ensures IsEmpty(savefilename) || !savefilename.MStr? ==>
              SaveName(savefilename, file, insp, uniqid) == uniqid + "." + ToLower(insp.originalExtension(file))
    ensures insp.originalExtension(file) == "" && (IsEmpty(savefilename) || !savefilename.MStr?) ==>
              SaveName(savefilename, file, insp, uniqid) == uniqid + "."
  {
    if IsEmpty(savefilename) || !savefilename.MStr? {
      var name := SaveName(savefilename, file, insp, uniqid);
      var ext := insp.originalExtension(file);
      assert name == name[..|uniqid| + 1] + name[|uniqid| + 1..];
      assert name[|uniqid| + 1..] == ToLower(ext);
      assert name[..|uniqid| + 1] == uniqid + ".";
    }
  }

  /** `postprocess_file`: the hook does nothing and reports success. */
  function PostprocessFile(file: UploadedFile): (ok: bool)
    ensures ok
  {
    true
  }

  /** Everything `handleupload` does once the request checks passed: quota, naming, saving, the hook. */
  function StoreUpload(file: UploadedFile, savedir: string, savefilename: Mixed, quota: Quota, host: Host,
                       insp: Inspector): (r: (Result<UploadedFile, Exception>, seq<Effect>))
    ensures r.0.Failure? <==> QuotaExceeded(quota, file.size)
    ensures r.0.Failure? ==> r == (Failure(QuotaExceededError), [Unlinked(file.storedFilename)])
    ensures r.0.Success? ==>
              var savepath := savedir + "/" + SaveName(savefilename, file, insp, host.uniqid);
              && r.0.value.origFilename == file.origFilename && r.0.value.size == file.size
              && r.0.value.mimeType == file.mimeType
              && (if host.move(file.storedFilename, savepath)
                  then r.0.value.storedFilename == savepath && r.1 == [Moved(file.storedFilename, savepath)]
                  else r.0.value == file && r.1 == [])
  {
    if QuotaExceeded(quota, file.size) then (Failure(QuotaExceededError), [Unlinked(file.storedFilename)])
    else
      var savepath := savedir + "/" + SaveName(savefilename, file, insp, host.uniqid);
      var (saved, moved) := Save(file, savepath, host.move);
      var _ := PostprocessFile(saved);
      (Success(saved), if moved then [Moved(file.storedFilename, savepath)] else [])
  }

  /**
   * `handleupload($savedir, $savefilename, $quotadata)` with the upload
   * `upload` (`$_FILES['pdynfileuploader']`, `None` when unset): the request
   * checks, then the quota check (which deletes the staged file), then the
   * save under the chosen name. The result of `save` is not looked at, and
   * the restrictions are never checked.
   */
  function HandleUpload(u: Uploader, upload: Option<FilesEntry>, savedir: Mixed, savefilename: Mixed, quota: Quota,
                        host: Host, insp: Inspector): (r: (Result<UploadedFile, Exception>, seq<Effect>))
    ensures r.0.Failure? ==> r.0.error.code == ErrBadRequest
    ensures CheckRequest(upload, savedir, host).Some? ==> r == (Failure(CheckRequest(upload, savedir, host).value), [])
    ensures CheckRequest(upload, savedir, host).None? ==>
              && (r.0.Success? <==> !QuotaExceeded(quota, upload.value.size))
              && (r.0.Failure? ==> r == (Failure(QuotaExceededError), [Unlinked(upload.value.tmpName)]))
    ensures r.0.Success? ==>
              var f := r.0.value;
              var savepath := savedir.s + "/" + SaveName(savefilename, FromFilesEntry(upload.value, insp), insp, host.uniqid);
              && f.origFilename == upload.value.name && f.size == upload.value.size
              && f.mimeType == insp.analyzedMimetype(upload.value.tmpName)
              && (if host.move(upload.value.tmpName, savepath)
                  then f.storedFilename == savepath && r.1 == [Moved(upload.value.tmpName, savepath)]
                  else f.storedFilename == upload.value.tmpName && r.1 == [])
  {
    match CheckRequest(upload, savedir, host)
    case Some(e) => (Failure(e), [])
    case None => StoreUpload(FromFilesEntry(upload.value, insp), savedir.s, savefilename, quota, host, insp)
  }

  /** The quota limit is inclusive: filling it exactly is allowed, one byte more deletes the staged file. */
  lemma QuotaBoundary(cursize: int, limit: int, size: int)
    ensures cursize + size == limit ==> !QuotaExceeded(Quota(Some(cursize), Some(limit)), size)
    ensures cursize + size == limit + 1 ==> QuotaExceeded(Quota(Some(cursize), Some(limit)), size)
    ensures !QuotaExceeded(Quota(None, Some(limit)), size) && !QuotaExceeded(Quota(Some(cursize), None), size)
  {
  }

  /** A failed move still reports success: the returned file is left at its temporary name. */
  lemma HandleUploadIgnoresSaveResult(u: Uploader, e: FilesEntry, savedir: string, savefilename: Mixed,
                                      quota: Quota, host: Host, insp: Inspector)
    requires !IsEmptyString(savedir) && host.writable(savedir) && !QuotaExceeded(quota, e.size)
    requires forall a, b :: !host.move(a, b)
    ensures HandleUpload(u, Some(e), MStr(savedir), savefilename, quota, host, insp) ==
            (Success(FromFilesEntry(e, insp)), [])
  {
  }

  /**
   * As written, `handleupload` saves a file its own restrictions reject: with
   * `maxsize` 100 a 150-byte upload is stored.
   */
  lemma HandleUploadSkipsValidation(e: FilesEntry, savedir: string, host: Host, insp: Inspector)
    requires e.size == 150 && !IsEmptyString(savedir) && host.writable(savedir)
    ensures ValidateUpload(Uploader([MaxSize(100)]), FromFilesEntry(e, insp), insp).Failure?
    ensures HandleUpload(Uploader([MaxSize(100)]), Some(e), MStr(savedir), MNull, Quota(None, None), host, insp).0.Success?
  {
  }

  /**
   * `handleupload` as its documentation describes it ("receive an uploaded
   * file, validate it, and save it"): the restrictions are checked right
   * after the file is received, before the quota and the save, and a
   * rejected file is deleted like one over quota.
   */
  function HandleUploadValidated(u: Uploader, upload: Option<FilesEntry>, savedir: Mixed, savefilename: Mixed,
                                 quota: Quota, host: Host, insp: Inspector): (r: (Result<UploadedFile, Exception>, seq<Effect>))
    ensures r.0.Success? ==>
              && upload.Some?
              && forall i :: 0 <= i < |u.restrictions| ==> Satisfies(u.restrictions[i], FromFilesEntry(upload.value, insp), insp)
    ensures r.0.Failure? ==> r.0.error.code == ErrBadRequest
    ensures CheckRequest(upload, savedir, host).Some? ==> r == (Failure(CheckRequest(upload, savedir, host).value), [])
    ensures CheckRequest(upload, savedir, host).None? ==>
              var v := ValidateUpload(u, FromFilesEntry(upload.value, insp), insp);
              v.Failure? ==> r == (Failure(v.error), [Unlinked(upload.value.tmpName)])
  {
    match CheckRequest(upload, savedir, host)
    case Some(e) => (Failure(e), [])
    case None =>
      var file := FromFilesEntry(upload.value, insp);
      match ValidateUpload(u, file, insp)
      case Failure(e) => (Failure(e), [Unlinked(file.storedFilename)])
      case Success(_) => StoreUpload(file, savedir.s, savefilename, quota, host, insp)
  }

  /** When the file meets the restrictions, the validated upload does exactly what `handleupload` does. */
  lemma HandleUploadValidatedAgrees(u: Uploader, upload: Option<FilesEntry>, savedir: Mixed, savefilename: Mixed,
                                    quota: Quota, host: Host, insp: Inspector)
    requires upload.Some? ==> ValidateUpload(u, FromFilesEntry(upload.value, insp), insp).Success?
    ensures HandleUploadValidated(u, upload, savedir, savefilename, quota, host, insp)
            == HandleUpload(u, upload, savedir, savefilename, quota, host, insp)
  {
  }

  /** The corrected upload refuses the oversized file the original stores. */
  lemma HandleUploadValidatedRejectsOversize(e: FilesEntry, savedir: string, host: Host, insp: Inspector)
    requires e.size == 150 && !IsEmptyString(savedir) && host.writable(savedir)
    ensures HandleUploadValidated(Uploader([MaxSize(100)]), Some(e), MStr(savedir), MNull, Quota(None, None), host, insp)
            == (Failure(Exception("Received file was too large.", ErrBadRequest)), [Unlinked(e.tmpName)])
  {
  }
}
