/** The two string primitives both filename validators rely on:
    `str.lower` and `str.rfind` / `str.rsplit(sep, 1)`. */
module Text {

  /** `str.lower` on one character. Only the ASCII letters A-Z are mapped. */
  function LowerChar(c: char): (r: char)
  {
    if 'A' <= c <= 'Z' then (c as int + 32) as char else c
  }

  /** `str.lower`, character by character. */
  function Lower(s: string): (r: string)
    ensures |r| == |s|
    ensures forall i :: 0 <= i < |s| ==> r[i] == LowerChar(s[i])
  {
    seq(|s|, i requires 0 <= i < |s| => LowerChar(s[i]))
  }

  /** Lower-casing never creates or removes a separator. */
  lemma LowerCharKeepsSeparators(c: char)
    ensures LowerChar(c) == '.' <==> c == '.'
    ensures LowerChar(c) == '/' <==> c == '/'
  {
  }

  /** Lower-casing twice is lower-casing once. */
  lemma LowerIdempotent(s: string)
    ensures Lower(Lower(s)) == Lower(s)
  {
  }

  /** Lower-casing commutes with taking a suffix. */
  lemma LowerSuffix(s: string, i: nat)
    requires i <= |s|
    ensures Lower(s[i..]) == Lower(s)[i..]
  {
  }

  /** `str.rfind(c)`: the index of the last occurrence of `c` in `s`,
      or -1 when there is none. */
  function LastIndexOf(s: string, c: char): (r: int)
    ensures -1 <= r < |s|
    ensures r >= 0 ==> s[r] == c
    ensures forall j :: r < j < |s| ==> s[j] != c
  {
    LastIndexBelow(s, c, |s|)
  }

  /** `rfind` finds nothing exactly when the character does not occur. */
  lemma LastIndexOfAbsent(s: string, c: char)
    ensures LastIndexOf(s, c) == -1 <==> c !in s
  {
  }

  /** The last occurrence of `c` among the first `n` characters, scanning
      down from `n - 1`, or -1. */
  function LastIndexBelow(s: string, c: char, n: nat): (r: int)
    requires n <= |s|
    ensures -1 <= r < n
    ensures r >= 0 ==> s[r] == c
    ensures forall j :: r < j < n ==> s[j] != c
    decreases n
  {
    if n == 0 then -1
    else if s[n - 1] == c then n - 1
    else LastIndexBelow(s, c, n - 1)
  }

  /** The last occurrence is the only occurrence with none after it. */
  lemma LastIndexOfUnique(s: string, c: char, i: int)
    requires 0 <= i < |s| && s[i] == c
    requires forall j :: i < j < |s| ==> s[j] != c
    ensures LastIndexOf(s, c) == i
  {
  }

  /** Appending characters other than `c` leaves the last `c` where it was. */
  lemma LastIndexOfAppend(a: string, b: string, c: char)
    requires c !in b
    ensures LastIndexOf(a + b, c) == LastIndexOf(a, c)
  {
    var ab := a + b;
    var i := LastIndexOf(a, c);
    forall j | i < j < |ab|
      ensures ab[j] != c
    {
      if j < |a| {
        assert ab[j] == a[j];
      } else {
        assert ab[j] == b[j - |a|];
      }
    }
    if i >= 0 {
      LastIndexOfUnique(ab, c, i);
    }
  }

  /** Lower-casing keeps the position of the last '.' and the last '/'. */
  lemma LowerKeepsLastSeparator(s: string, c: char)
    requires c == '.' || c == '/'
    ensures LastIndexOf(Lower(s), c) == LastIndexOf(s, c)
  {
    var i := LastIndexOf(s, c);
    forall j | 0 <= j < |s|
      ensures Lower(s)[j] == c <==> s[j] == c
    {
      LowerCharKeepsSeparators(s[j]);
    }
    if i >= 0 {
      LastIndexOfUnique(Lower(s), c, i);
    }
  }
}
