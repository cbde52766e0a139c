/** The two filename validators. The upload endpoint uses `AllowedFile`;
    the model utilities define `IsValidImage`. They follow different rules
    on purpose and disagree on some names. */
module Validators {
  import opened Text
  import opened Paths

  /** Extensions the upload endpoint accepts, without the dot. */
  const AllowedExtensions: set<string> := {"png", "jpg", "jpeg", "webp"}

  /** Extensions the image filter accepts, with the dot. */
  const ValidExtensions: set<string> := {".jpg", ".jpeg", ".png", ".webp", ".bmp", ".tiff", ".tif"}

  /** `allowed_file`: the name holds a '.', and what follows the last '.',
      lower-cased, is an allowed extension. */
  predicate AllowedFile(filename: string)
  {
    '.' in filename
    && Lower(filename[LastIndexOf(filename, '.') + 1..]) in AllowedExtensions
  }

  /** `is_valid_image`: the `splitext` extension of the lower-cased name is
      a valid extension. */
  predicate IsValidImage(filename: string)
  {
    SplitExt(Lower(filename)).1 in ValidExtensions
  }

  /** Everything after the last '/' of `s` is a '.'; this includes an
      empty basename. */
  ghost predicate BasenameAllDots(s: string)
  {
    forall k :: LastIndexOf(s, '/') < k < |s| ==> s[k] == '.'
  }

  /** A name without any '.' is never an allowed upload. */
  lemma AllowedFileNeedsDot(filename: string)
    requires '.' !in filename
    ensures !AllowedFile(filename)
  {
  }

  /** The last '.' of `stem.ext`, when `ext` holds no '.', is the one
      written between them. */
  lemma LastDotOfExtended(stem: string, ext: string)
    requires '.' !in ext
    ensures LastIndexOf(stem + "." + ext, '.') == |stem|
  {
    var f := stem + "." + ext;
    forall j | |stem| < j < |f|
      ensures f[j] != '.'
    {
      assert f[j] == ext[j - |stem| - 1];
    }
    LastIndexOfUnique(f, '.', |stem|);
  }

  /** Only the last extension matters, and its case does not: a name
      `stem.ext` whose `ext` holds no '.' is allowed exactly when `ext`,
      lower-cased, is an allowed extension, whatever the stem holds. */
  lemma AllowedFileLastExtension(stem: string, ext: string)
    requires '.' !in ext
    ensures AllowedFile(stem + "." + ext) <==> Lower(ext) in AllowedExtensions
  {
    var f := stem + "." + ext;
    LastDotOfExtended(stem, ext);
    assert f[|stem| + 1..] == ext;
  }

  /** Acceptance by the upload endpoint is case-insensitive: two names
      equal up to case are both allowed or both rejected. */
  lemma AllowedFileCaseInsensitive(f: string, g: string)
    requires Lower(f) == Lower(g)
    ensures AllowedFile(f) <==> AllowedFile(g)
  {
    AllowedFileOfLower(f);
    AllowedFileOfLower(g);
  }

  /** `allowed_file` decided on the lower-cased name: lower-casing first
      moves no '.' and lower-cases the same extension. */
  lemma AllowedFileOfLower(f: string)
    ensures AllowedFile(f) <==> AllowedFile(Lower(f))
  {
    LowerKeepsLastSeparator(f, '.');
    LastIndexOfAbsent(f, '.');
    LastIndexOfAbsent(Lower(f), '.');
    LowerOfLoweredSuffix(f, LastIndexOf(f, '.') + 1);
  }

  /** Lower-casing a suffix of a lower-cased name gives the lower-cased
      suffix of the name. */
  lemma LowerOfLoweredSuffix(f: string, i: nat)
    requires i <= |f|
    ensures Lower(Lower(f)[i..]) == Lower(f[i..])
  {
    LowerSuffix(f, i);
    LowerIdempotent(f[i..]);
  }

  /** Lower-casing `stem.ext` lower-cases the stem and the extension and
      keeps the dot; no '.' or '/' appears in the extension. */
  lemma LowerExtended(stem: string, ext: string)
    requires '.' !in ext && '/' !in ext
    ensures Lower(stem + "." + ext) == Lower(stem) + "." + Lower(ext)
    ensures '.' !in Lower(ext) && '/' !in Lower(ext)
  {
    forall i | 0 <= i < |ext|
      ensures Lower(ext)[i] != '.' && Lower(ext)[i] != '/'
    {
      LowerCharKeepsSeparators(ext[i]);
    }
    LowerConcat(stem, "." + ext);
    LowerConcat(".", ext);
  }

  /** Whether the basename is all dots does not depend on case. */
  lemma BasenameAllDotsLower(s: string)
    ensures BasenameAllDots(Lower(s)) <==> BasenameAllDots(s)
  {
    LowerKeepsLastSeparator(s, '/');
    forall k | 0 <= k < |s|
      ensures Lower(s)[k] == '.' <==> s[k] == '.'
    {
      LowerCharKeepsSeparators(s[k]);
    }
  }

  /** Where the `splitext` extension of `s.e` starts, when `e` holds no
      '.' and no '/': at the dot written between them, unless the
      basename of `s` is all dots. */
  lemma ExtensionStartOfExtended(s: string, e: string)
    requires '.' !in e && '/' !in e
    ensures ExtensionStart(s + "." + e) == if BasenameAllDots(s) then |s| + 1 + |e| else |s|
  {
    var p := s + "." + e;
    var tail := "." + e;
    assert p == s + tail;
    assert '/' !in tail;
    LastIndexOfAppend(s, tail, '/');
    LastDotOfExtended(s, e);
    var sep := LastIndexOf(s, '/');
    var k := FirstNonDot(p, sep + 1, |s|);
    if k < |s| {
      assert s[k] == p[k];
    }
    if !BasenameAllDots(s) {
      var i :| sep < i < |s| && s[i] != '.';
      assert p[i] == s[i];
    }
  }

  /** `splitext` of `s.e`, when `e` holds no '.' and no '/': the extension
      is `.e` unless the basename of `s` is all dots. */
  lemma SplitExtOfExtended(s: string, e: string)
    requires '.' !in e && '/' !in e
    ensures SplitExt(s + "." + e).1 == if BasenameAllDots(s) then [] else "." + e
  {
    ExtensionStartOfExtended(s, e);
    var p := s + "." + e;
    assert p[|s|..] == "." + e;
  }

  /** What `is_valid_image` decides, stated without `splitext`: for a name
      `stem.ext` whose `ext` holds no '.' and no '/', the name is valid
      exactly when the stem's basename is not all dots (so `.png` and
      `a/..jpg` are rejected) and `.ext`, lower-cased, is a valid
      extension. */
  lemma IsValidImageLastExtension(stem: string, ext: string)
    requires '.' !in ext && '/' !in ext
    ensures IsValidImage(stem + "." + ext)
            <==> !BasenameAllDots(stem) && "." + Lower(ext) in ValidExtensions
  {
    ExtensionOfLoweredExtended(stem, ext);
  }

  /** The `splitext` extension of `stem.ext`, lower-cased, when `ext`
      holds no '.' and no '/'. */
  lemma ExtensionOfLoweredExtended(stem: string, ext: string)
    requires '.' !in ext && '/' !in ext
    ensures SplitExt(Lower(stem + "." + ext)).1
            == if BasenameAllDots(stem) then [] else "." + Lower(ext)
  {
    LowerExtended(stem, ext);
    SplitExtOfExtended(Lower(stem), Lower(ext));
    BasenameAllDotsLower(stem);
  }

  /** The image filter is case-insensitive: it decides a name exactly as
      it decides the lower-cased name, so two names equal up to case are
      both valid or both not. */
  lemma IsValidImageCaseInsensitive(f: string, g: string)
    ensures IsValidImage(f) <==> IsValidImage(Lower(f))
    ensures Lower(f) == Lower(g) ==> (IsValidImage(f) <==> IsValidImage(g))
  {
    LowerIdempotent(f);
  }

  /** Position `i` holds a '.' with no '.' after it; the extension that
      follows it, lower-cased, is an allowed upload extension. */
  ghost predicate AllowedAt(f: string, i: int)
  {
    0 <= i < |f| && f[i] == '.' && '.' !in f[i + 1..] && Lower(f[i + 1..]) in AllowedExtensions
  }

  /** Position `i` holds a '.' with no '.' and no '/' after it, the part of
      the basename before it is not all dots, and `.` followed by what
      comes after it, lower-cased, is a valid image extension. */
  ghost predicate ValidAt(f: string, i: int)
  {
    && 0 <= i < |f| && f[i] == '.' && '.' !in f[i + 1..] && '/' !in f[i + 1..]
    && !BasenameAllDots(f[..i]) && "." + Lower(f[i + 1..]) in ValidExtensions
  }

  /** `allowed_file` stated without `rsplit`: the name has a '.' with no
      '.' after it, followed by an allowed extension in any case. */
  lemma AllowedFileIff(f: string)
    ensures AllowedFile(f) <==> exists i :: AllowedAt(f, i)
  {
    if AllowedFile(f) {
      NoneInSuffix(f, '.', LastIndexOf(f, '.') + 1);
      assert AllowedAt(f, LastIndexOf(f, '.'));
    }
    if i :| AllowedAt(f, i) {
      assert f == f[..i] + "." + f[i + 1..];
      AllowedFileLastExtension(f[..i], f[i + 1..]);
    }
  }

  /** `is_valid_image` stated without `splitext`: the name has a '.' with no
      '.' or '/' after it and something other than dots before it in the
      basename, followed by a valid extension in any case. */
  lemma IsValidImageIff(f: string)
    ensures IsValidImage(f) <==> exists i :: ValidAt(f, i)
  {
    if i :| ValidAt(f, i) {
      ValidAtIsValid(f, i);
    }
    if IsValidImage(f) {
      ValidImageAtLastDot(f);
    }
  }

  /** A position where `ValidAt` holds makes the name a valid image. */
  lemma ValidAtIsValid(f: string, i: int)
    requires ValidAt(f, i)
    ensures IsValidImage(f)
  {
    assert f == f[..i] + "." + f[i + 1..];
    IsValidImageLastExtension(f[..i], f[i + 1..]);
  }

  /** A valid image has its extension at the last '.', with no '/' after
      it. */
  lemma ValidImageAtLastDot(f: string)
    requires IsValidImage(f)
    ensures '.' in f && ValidAt(f, LastIndexOf(f, '.'))
  {
    var start := ExtensionStart(Lower(f));
    ValidImageHasExtension(f);
    CleanAfterExtensionStart(f);
    LowerKeepsLastSeparator(f, '.');
    LastIndexOfUnique(Lower(f), '.', start);
    ValidAtCleanDot(f, start);
  }

  /** A valid image has a non-empty `splitext` extension. */
  lemma ValidImageHasExtension(f: string)
    requires IsValidImage(f)
    ensures ExtensionStart(Lower(f)) < |f|
  {
    assert [] !in ValidExtensions;
  }

  /** Where the extension of the lower-cased name starts, the name itself
      has a '.', and neither a '.' nor a '/' after it. */
  lemma CleanAfterExtensionStart(f: string)
    requires ExtensionStart(Lower(f)) < |f|
    ensures f[ExtensionStart(Lower(f))] == '.'
    ensures forall k :: ExtensionStart(Lower(f)) < k < |f| ==> f[k] != '.' && f[k] != '/'
  {
    var p := Lower(f);
    var start := ExtensionStart(p);
    forall k | start <= k < |f|
      ensures f[k] == '.' <==> p[k] == '.'
      ensures f[k] == '/' <==> p[k] == '/'
    {
      LowerCharKeepsSeparators(f[k]);
    }
  }

  /** A valid image's dot with no '.' or '/' after it is where `ValidAt`
      holds. */
  lemma ValidAtCleanDot(f: string, i: int)
    requires IsValidImage(f)
    requires 0 <= i < |f| && f[i] == '.'
    requires forall k :: i < k < |f| ==> f[k] != '.' && f[k] != '/'
    ensures ValidAt(f, i)
  {
    CleanTail(f, i);
    SplitAtDot(f, i);
    IsValidImageLastExtension(f[..i], f[i + 1..]);
  }

  /** Cutting a name at one of its dots and gluing it back. */
  lemma SplitAtDot(f: string, i: int)
    requires 0 <= i < |f| && f[i] == '.'
    ensures f == f[..i] + "." + f[i + 1..]
  {
  }

  /** A tail whose characters are neither '.' nor '/' contains neither. */
  lemma CleanTail(f: string, i: int)
    requires 0 <= i < |f|
    requires forall k :: i < k < |f| ==> f[k] != '.' && f[k] != '/'
    ensures '.' !in f[i + 1..] && '/' !in f[i + 1..]
  {
    var t := f[i + 1..];
    assert forall k :: 0 <= k < |t| ==> t[k] == f[i + 1 + k];
  }

  /** Every allowed upload extension, with a dot in front, is a valid
      image extension. */
  lemma AllowedExtensionsAreValid(e: string)
    requires e in AllowedExtensions
    ensures "." + e in ValidExtensions
  {
    if e == "png" {
      assert "." + e == ".png";
    } else if e == "jpg" {
      assert "." + e == ".jpg";
    } else if e == "jpeg" {
      assert "." + e == ".jpeg";
    } else {
      assert "." + e == ".webp";
    }
  }

  /** Where the rules overlap: a name `stem.ext` allowed for upload is
      also a valid image when `ext` holds no '/' and the stem's basename is
      not all dots. The converse fails, because the image filter also
      accepts `.bmp`, `.tiff` and `.tif`. */
  lemma AllowedFileIsValidImage(stem: string, ext: string)
    requires '.' !in ext && '/' !in ext && !BasenameAllDots(stem)
    requires AllowedFile(stem + "." + ext)
    ensures IsValidImage(stem + "." + ext)
  {
    AllowedFileLastExtension(stem, ext);
    AllowedExtensionsAreValid(Lower(ext));
    IsValidImageLastExtension(stem, ext);
  }

  /** Where the rules part ways: a name made of leading dots and then
      one extension, such as `.png` or `..jpg`, has no `splitext`
      extension and is never a valid image, while the upload rule judges
      it by that extension alone and so accepts `.png`. */
  lemma LeadingDotsOnly(dots: string, ext: string)
    requires forall k :: 0 <= k < |dots| ==> dots[k] == '.'
    requires '.' !in ext && '/' !in ext
    ensures !IsValidImage(dots + "." + ext)
    ensures AllowedFile(dots + "." + ext) <==> Lower(ext) in AllowedExtensions
  {
    assert BasenameAllDots(dots);
    IsValidImageLastExtension(dots, ext);
    AllowedFileLastExtension(dots, ext);
  }

  /** A name without any '.' is never a valid image. */
  lemma IsValidImageNeedsDot(filename: string)
    requires '.' !in filename
    ensures !IsValidImage(filename)
  {
    if IsValidImage(filename) {
      ValidImageAtLastDot(filename);
    }
  }

  /** `Lower` distributes over concatenation. */
  lemma LowerConcat(a: string, b: string)
    ensures Lower(a + b) == Lower(a) + Lower(b)
  {
  }
}
