/**
 * The upload rules registered with the multipart middleware: a file is accepted only when
 * its original name has a `.jpg`, `.jpeg` or `.png` extension, and it is stored under a
 * fresh opaque id followed by that extension. The extension is Node's POSIX `path.extname`.
 */
module Upload {
  import opened Js

  // ---------------------------------------------------------------------------
  // path.extname
  // ---------------------------------------------------------------------------

  /** The path without its trailing '/' characters. */
  function TrimTrailingSlashes(path: string): (r: string)
    ensures r <= path
    ensures r == [] || r[|r| - 1] != '/'
  {
    if path == [] || path[|path| - 1] != '/' then path
    else TrimTrailingSlashes(path[..|path| - 1])
  }

  /** The last component: everything after the last '/'. */
  function LastComponent(path: string): (r: string)
    ensures |r| <= |path| && r == path[|path| - |r|..]
    ensures forall i :: 0 <= i < |r| ==> r[i] != '/'
  {
    if path == [] || path[|path| - 1] == '/' then []
    else
      var front := path[..|path| - 1];
      var r := LastComponent(front) + [path[|path| - 1]];
      assert front[|front| - (|r| - 1)..] + [path[|path| - 1]] == path[|path| - |r|..];
      r
  }

  /** The index of the last '.' of a name. */
  function LastDot(name: string): (r: Option<nat>)
    ensures r.Some? ==>
      && r.value < |name| && name[r.value] == '.'
      && forall j :: r.value < j < |name| ==> name[j] != '.'
    ensures r.None? <==> forall j :: 0 <= j < |name| ==> name[j] != '.'
  {
    if name == [] then None
    else if name[|name| - 1] == '.' then Some(|name| - 1)
    else LastDot(name[..|name| - 1])
  }

  /** Node's POSIX `path.extname`: the last component's suffix from its last '.', or ""
      when it has no '.', when that '.' is its first character (a dotfile such as
      `.png`), or when the component is `..`. */
  function Extname(path: string): string
  {
    BaseExtname(LastComponent(TrimTrailingSlashes(path)))
  }

  /** The component is `..`, told apart by position as Node does: its last '.' is its
      second and last character, and the first is a '.' too. */
  predicate IsDotDot(base: string, d: nat)
  {
    d == 1 && |base| == 2 && base[0] == '.'
  }

  /** The extension of one path component. */
  function BaseExtname(base: string): string
  {
    match LastDot(base)
    case None => ""
    case Some(d) => if d == 0 || IsDotDot(base, d) then "" else base[d..]
  }

  // ---------------------------------------------------------------------------
  // fileFilter and filename
  // ---------------------------------------------------------------------------

  const UPLOAD_ERROR_MESSAGE: string := "jpg/jpeg/png 파일만 업로드 가능합니다!"

  /** What the filter passes to its callback: an error (or null) and whether to accept. */
  datatype FilterOutcome = FilterOutcome(error: Option<HttpException>, accept: bool)

  predicate IsImageExtension(ext: string)
  {
    ext == ".jpg" || ext == ".jpeg" || ext == ".png"
  }

  /** `fileFilter`: accept exactly the names whose extension is an image extension;
      otherwise call back with a BadRequest error and `false`. */
  function FileFilter(originalname: string): (r: FilterOutcome)
    ensures r.accept <==> IsImageExtension(Extname(originalname))
    ensures r.accept <==> r.error.None?
    ensures !r.accept ==> r.error == Some(BadRequestException(UPLOAD_ERROR_MESSAGE))
  {
    var ext := Extname(originalname);
    if ext != ".jpg" && ext != ".jpeg" && ext != ".png" then
      FilterOutcome(Some(BadRequestException(UPLOAD_ERROR_MESSAGE)), false)
    else
      FilterOutcome(None, true)
  }

  /** `filename`: the generated id followed by the original name's extension. */
  function StoredFilename(id: string, originalname: string): string
  {
    id + Extname(originalname)
  }

  // ---------------------------------------------------------------------------
  // Properties
  // ---------------------------------------------------------------------------

  predicate NoDotOrSlash(s: string)
  {
    forall i :: 0 <= i < |s| ==> s[i] != '.' && s[i] != '/'
  }

  /** `ext` is empty, or a '.' followed by characters that are neither '.' nor '/' that
      ends `path` without being all of it. */
  predicate ExtensionOf(ext: string, path: string)
  {
    || ext == ""
    || (&& ext[0] == '.' && NoDotOrSlash(ext[1..])
        && |ext| < |path| && ext == path[|path| - |ext|..])
  }

  /** An extension is empty, or a '.' followed by characters that are neither '.' nor
      '/', and it ends the path once trailing slashes are trimmed. */
  lemma {:induction false} ExtnameShape(path: string)
    ensures ExtensionOf(Extname(path), TrimTrailingSlashes(path))
  {
    var trimmed := TrimTrailingSlashes(path);
    var base := LastComponent(trimmed);
    BaseExtnameShape(base);
    ExtensionOfSuffix(BaseExtname(base), base, trimmed);
  }

  lemma BaseExtnameShape(base: string)
    requires NoSlash(base)
    ensures ExtensionOf(BaseExtname(base), base)
  {
    match LastDot(base)
    case None =>
    case Some(d) =>
      if d != 0 && !IsDotDot(base, d) {
        var ext := base[d..];
        forall i | 0 <= i < |ext[1..]|
          ensures ext[1..][i] != '.' && ext[1..][i] != '/'
        {
          assert ext[1..][i] == base[d + 1 + i];
        }
      }
  }

  /** An extension of a path's last component is an extension of the path. */
  lemma ExtensionOfSuffix(ext: string, base: string, path: string)
    requires ExtensionOf(ext, base)
    requires |base| <= |path| && base == path[|path| - |base|..]
    ensures ExtensionOf(ext, path)
  {
    if ext != "" {
      assert path[|path| - |ext|..] == base[|base| - |ext|..];
    }
  }

  predicate NoSlash(s: string)
  {
    forall i :: 0 <= i < |s| ==> s[i] != '/'
  }

  /** For a name without '/', the extension is read off the name itself. */
  lemma {:induction false} PlainNameExtname(name: string)
    requires NoSlash(name)
    ensures Extname(name) == BaseExtname(name)
  {
    LastComponentOfPlainName(name);
  }

  /** A name without '/' is its own last component. */
  lemma {:induction false} LastComponentOfPlainName(name: string)
    requires NoSlash(name)
    ensures LastComponent(name) == name
  {
    if name != [] {
      var front := name[..|name| - 1];
      assert NoSlash(front) by {
        forall i | 0 <= i < |front|
          ensures front[i] != '/'
        {
          assert front[i] == name[i];
        }
      }
      LastComponentOfPlainName(front);
      assert name[..|name| - 1] == front;
      assert LastComponent(name) == LastComponent(front) + [name[|name| - 1]];
      assert name == front + [name[|name| - 1]];
    }
  }

  lemma {:induction false} LastDotAt(name: string, d: nat)
    requires d < |name| && name[d] == '.'
    requires forall j :: d < j < |name| ==> name[j] != '.'
    ensures LastDot(name) == Some(d)
  {
  }

  /** An extension-shaped string: '.' followed by characters that are neither '.' nor '/'. */
  predicate ExtensionShaped(ext: string)
  {
    |ext| > 0 && ext[0] == '.' && NoDotOrSlash(ext[1..])
  }

  /** A non-empty stem without '/' followed by an extension-shaped suffix has that suffix
      as its extension (except for the name `..`). */
  lemma {:induction false} ExtnameOfDottedName(stem: string, ext: string)
    requires stem != [] && NoSlash(stem)
    requires ExtensionShaped(ext)
    requires |stem| == 1 && |ext| == 1 ==> stem[0] != '.'
    ensures Extname(stem + ext) == ext
  {
    var name := stem + ext;
    var d := |stem|;
    assert name[d] == ext[0] == '.';
    forall i | 0 <= i < |name|
      ensures name[i] != '/'
      ensures d < i ==> name[i] != '.'
    {
      if i < d { assert name[i] == stem[i]; }
      else if i > d { assert name[i] == ext[i - d] == ext[1..][i - d - 1]; }
    }
    LastDotAt(name, d);
    PlainNameExtname(name);
    assert name[d..] == ext;
  }

  /** A plain stem followed by an extension is accepted exactly when that extension is an
      image extension. */
  lemma {:induction false} DottedNameFiltered(stem: string, ext: string)
    requires stem != [] && NoSlash(stem)
    requires ExtensionShaped(ext) && |ext| > 1
    ensures FileFilter(stem + ext).accept <==> IsImageExtension(ext)
  {
    ExtnameOfDottedName(stem, ext);
  }

  /** `photo.jpg`, `photo.jpeg` and `photo.png` are accepted for any plain stem. */
  lemma {:induction false} ImageNamesAccepted(stem: string)
    requires stem != [] && NoSlash(stem)
    ensures forall ext :: IsImageExtension(ext) ==> FileFilter(stem + ext) == FilterOutcome(None, true)
  {
    forall ext | IsImageExtension(ext)
      ensures FileFilter(stem + ext) == FilterOutcome(None, true)
    {
      assert ExtensionShaped(ext) && |ext| > 1;
      DottedNameFiltered(stem, ext);
    }
  }

  /** The comparison is case-sensitive: upper-case image extensions are refused. */
  lemma {:induction false} UpperCaseExtensionsRejected(stem: string)
    requires stem != [] && NoSlash(stem)
    ensures !FileFilter(stem + ".JPG").accept
    ensures !FileFilter(stem + ".JPEG").accept
    ensures !FileFilter(stem + ".PNG").accept
  {
    assert ExtensionShaped(".JPG") && ExtensionShaped(".JPEG") && ExtensionShaped(".PNG");
    DottedNameFiltered(stem, ".JPG");
    DottedNameFiltered(stem, ".JPEG");
    DottedNameFiltered(stem, ".PNG");
  }

  /** A dotfile (a name whose only '.' is its first character) has no extension, so
      `.png` is refused like any other. */
  lemma {:induction false} DotfilesRejected(suffix: string)
    requires NoDotOrSlash(suffix)
    ensures Extname("." + suffix) == ""
    ensures !FileFilter("." + suffix).accept
  {
    var name := "." + suffix;
    forall i | 0 <= i < |name|
      ensures name[i] != '/'
      ensures 0 < i ==> name[i] != '.'
    {
      if i > 0 { assert name[i] == suffix[i - 1]; }
    }
    LastDotAt(name, 0);
    PlainNameExtname(name);
  }

  /** A name without any '.' has no extension. */
  lemma {:induction false} NoDotNoExtension(name: string)
    requires forall i :: 0 <= i < |name| ==> name[i] != '.'
    ensures Extname(name) == ""
  {
    var trimmed := TrimTrailingSlashes(name);
    var base := LastComponent(trimmed);
    forall i | 0 <= i < |base|
      ensures base[i] != '.'
    {
      var j := |trimmed| - |base| + i;
      assert base[i] == trimmed[j];
      assert trimmed[j] == name[j];
    }
    assert LastDot(base).None?;
  }

  /** A name without any '.' is refused with the upload error. */
  lemma NamesWithoutDotRejected(name: string)
    requires forall i :: 0 <= i < |name| ==> name[i] != '.'
    ensures FileFilter(name).error == Some(BadRequestException(UPLOAD_ERROR_MESSAGE))
  {
    NoDotNoExtension(name);
    NonImageRefused(name);
  }

  lemma NonImageRefused(name: string)
    requires Extname(name) == ""
    ensures FileFilter(name).error == Some(BadRequestException(UPLOAD_ERROR_MESSAGE))
  {
    assert !IsImageExtension(Extname(name));
  }

  /** An accepted name ends (after trailing slashes) with `.jpg`, `.jpeg` or `.png`
      preceded by at least one character. */
  lemma {:induction false} AcceptedNamesEndWithImageExtension(originalname: string)
    requires FileFilter(originalname).accept
    ensures var t := TrimTrailingSlashes(originalname);
      || (|t| > 4 && t[|t| - 4..] == ".jpg")
      || (|t| > 5 && t[|t| - 5..] == ".jpeg")
      || (|t| > 4 && t[|t| - 4..] == ".png")
  {
    var ext := Extname(originalname);
    assert IsImageExtension(ext);
    ExtnameShape(originalname);
    EndsWithImageExtension(TrimTrailingSlashes(originalname), ext);
  }

  lemma EndsWithImageExtension(t: string, ext: string)
    requires IsImageExtension(ext) && ExtensionOf(ext, t)
    ensures
      || (|t| > 4 && t[|t| - 4..] == ".jpg")
      || (|t| > 5 && t[|t| - 5..] == ".jpeg")
      || (|t| > 4 && t[|t| - 4..] == ".png")
  {
  }

  /** The stored name keeps the original extension, whatever id it is given, as long as
      the id is non-empty and holds no '.' or '/' (a UUID). */
  lemma {:induction false} StoredFilenameKeepsExtension(id: string, originalname: string)
    requires id != [] && NoDotOrSlash(id)
    ensures Extname(StoredFilename(id, originalname)) == Extname(originalname)
    ensures FileFilter(StoredFilename(id, originalname)) == FileFilter(originalname)
  {
    var ext := Extname(originalname);
    assert Extname(id + ext) == ext by {
      ExtnameShape(originalname);
      if ext == "" {
        assert id + ext == id;
        NoDotNoExtension(id);
      } else {
        ExtnameOfDottedName(id, ext);
      }
    }
  }
}
