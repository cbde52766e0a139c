/** The parts of Python's `posixpath` the core uses: `splitext`,
    `basename` and `join`. Paths are POSIX paths: '/' is the only
    separator. */
module Paths {
  import opened Text

  /** `posixpath.basename`: everything after the last '/'. */
  function Basename(p: string): (r: string)
    ensures |r| <= |p| && r == p[|p| - |r|..]
    ensures '/' !in r
    ensures |r| < |p| ==> p[|p| - |r| - 1] == '/'
  {
    NoneInSuffix(p, '/', LastIndexOf(p, '/') + 1);
    p[LastIndexOf(p, '/') + 1..]
  }

  /** A suffix whose every position differs from `c` does not contain `c`. */
  lemma NoneInSuffix(p: string, c: char, n: nat)
    requires n <= |p|
    requires forall j :: n <= j < |p| ==> p[j] != c
    ensures c !in p[n..]
  {
    var b := p[n..];
    forall k | 0 <= k < |b|
      ensures b[k] != c
    {
      assert b[k] == p[n + k];
    }
  }

  /** Some character other than '.' at or after index `from` is followed,
      later in `p`, by a '.'. */
  ghost predicate StemDotFrom(p: string, from: nat)
  {
    exists i, j :: from <= i < j < |p| && p[i] != '.' && p[j] == '.'
  }

  /** The index of the first character in `p[lo..hi]` that is not a '.',
      or `hi` when the whole range is dots: the leading-dot scan of
      `splitext`. */
  function FirstNonDot(p: string, lo: nat, hi: nat): (r: nat)
    requires lo <= hi <= |p|
    ensures lo <= r <= hi
    ensures r < hi ==> p[r] != '.'
    ensures forall k :: lo <= k < r ==> p[k] == '.'
    decreases hi - lo
  {
    if lo == hi then hi
    else if p[lo] != '.' then lo
    else FirstNonDot(p, lo + 1, hi)
  }

  /** Where the `splitext` extension of `p` starts: at the last '.' when
      that dot follows the last '/' and something other than a dot comes
      before it in the basename; otherwise at `|p|`, an empty extension. */
  function ExtensionStart(p: string): (r: nat)
    ensures r <= |p|
    ensures r < |p| ==> p[r] == '.' && LastIndexOf(p, '/') < r
    ensures forall k :: r < k < |p| ==> p[k] != '.' && p[k] != '/'
    ensures r < |p| <==> StemDotFrom(p, LastIndexOf(p, '/') + 1)
  {
    var sep := LastIndexOf(p, '/');
    var dot := LastIndexOf(p, '.');
    ScanFindsStemDot(p);
    if dot > sep && FirstNonDot(p, sep + 1, dot) < dot then dot else |p|
  }

  /** The leading-dot scan of `splitext` succeeds exactly when the basename
      has a dot after a non-dot. */
  lemma ScanFindsStemDot(p: string)
    ensures (LastIndexOf(p, '.') > LastIndexOf(p, '/')
             && FirstNonDot(p, LastIndexOf(p, '/') + 1, LastIndexOf(p, '.')) < LastIndexOf(p, '.'))
            <==> StemDotFrom(p, LastIndexOf(p, '/') + 1)
  {
    var s := LastIndexOf(p, '/');
    var d := LastIndexOf(p, '.');
    if StemDotFrom(p, s + 1) {
      var i, j :| s + 1 <= i < j < |p| && p[i] != '.' && p[j] == '.';
      ScanFromStemDot(p, i, j);
    }
  }

  /** A non-dot before a dot, both past the last '/', means the last dot
      follows the last '/' and the leading-dot scan stops before it. */
  lemma ScanFromStemDot(p: string, i: int, j: int)
    requires LastIndexOf(p, '/') < i < j < |p| && p[i] != '.' && p[j] == '.'
    ensures LastIndexOf(p, '.') > LastIndexOf(p, '/')
    ensures FirstNonDot(p, LastIndexOf(p, '/') + 1, LastIndexOf(p, '.')) < LastIndexOf(p, '.')
  {
    var s := LastIndexOf(p, '/');
    var d := LastIndexOf(p, '.');
    assert d >= j;
    var k := FirstNonDot(p, s + 1, d);
    assert k <= i;
  }

  /** `posixpath.splitext`: `(root, ext)` with `root + ext == p`; the
      extension is non-empty exactly when the basename has a dot after a
      non-dot. */
  function SplitExt(p: string): (r: (string, string))
    ensures r.0 + r.1 == p
    ensures r.1 != [] <==> StemDotFrom(p, LastIndexOf(p, '/') + 1)
  {
    var start := ExtensionStart(p);
    (p[..start], p[start..])
  }

  /** A non-empty `splitext` extension is a '.' followed by neither '.'
      nor '/'. */
  lemma ExtensionShape(p: string)
    ensures var e := SplitExt(p).1;
      e != [] ==> e[0] == '.' && '.' !in e[1..] && '/' !in e
  {
    var start := ExtensionStart(p);
    var e := p[start..];
    assert forall k :: 0 <= k < |e| ==> e[k] == p[start + k];
  }

  /** `splitext` in the terms of its documentation: the extension is
      non-empty exactly when the basename holds a dot after a non-dot,
      that is, when the basename is not just leading dots and a dot-free
      name. */
  lemma SplitExtBasename(p: string)
    ensures SplitExt(p).1 != [] <==> HasStemDot(Basename(p))
  {
    StemDotShift(p, LastIndexOf(p, '/') + 1);
  }

  /** Some character other than '.' comes before a '.' in `b`. */
  ghost predicate HasStemDot(b: string)
  {
    StemDotFrom(b, 0)
  }

  /** Looking for a stem dot from index `n` on is looking in `p[n..]`. */
  lemma StemDotShift(p: string, n: nat)
    requires n <= |p|
    ensures StemDotFrom(p, n) <==> StemDotFrom(p[n..], 0)
  {
    var b := p[n..];
    if StemDotFrom(p, n) {
      var i, j :| n <= i < j < |p| && p[i] != '.' && p[j] == '.';
      assert b[i - n] == p[i] && b[j - n] == p[j];
    }
    if StemDotFrom(b, 0) {
      var i, j :| 0 <= i < j < |b| && b[i] != '.' && b[j] == '.';
      assert p[n + i] == b[i] && p[n + j] == b[j];
    }
  }

  /** `posixpath.join(dir, name)` for a directory without a trailing '/':
      an absolute `name` replaces the directory. */
  function Join(dir: string, name: string): (r: string)
    requires dir != [] && dir[|dir| - 1] != '/'
    ensures |name| <= |r| && r[|r| - |name|..] == name
    ensures |name| > 0 && name[0] == '/' ==> r == name
    ensures !(|name| > 0 && name[0] == '/') ==>
      |r| == |dir| + 1 + |name| && r[..|dir| + 1] == dir + "/"
  {
    if |name| > 0 && name[0] == '/' then name else dir + "/" + name
  }
}
