/**
 The string trimming the store applies to every text field it writes: Python's
 `str.strip()` with no argument, which removes leading and trailing whitespace.
 */
module Text {

  /** The characters Python's `str.isspace()` accepts. */
  predicate IsSpace(c: char)
  {
    || ('\U{9}' <= c <= '\U{D}')
    || ('\U{1C}' <= c <= '\U{20}')
    || c == '\U{85}' || c == '\U{A0}' || c == '\U{1680}'
    || ('\U{2000}' <= c <= '\U{200A}')
    || c == '\U{2028}' || c == '\U{2029}' || c == '\U{202F}' || c == '\U{205F}'
    || c == '\U{3000}'
  }

  /** `r` is `s[i..j]`, `s` is cut only at whitespace, and neither end of `r` is whitespace. */
  ghost predicate StripsAt(s: string, r: string, i: int, j: int)
  {
    && 0 <= i <= j <= |s|
    && r == s[i..j]
    && (forall k | 0 <= k < i :: IsSpace(s[k]))
    && (forall k | j <= k < |s| :: IsSpace(s[k]))
    && (r == [] || (!IsSpace(r[0]) && !IsSpace(r[|r| - 1])))
  }

  /** `r` is what is left of `s` once the whitespace at both ends is removed. */
  ghost predicate IsStripOf(s: string, r: string)
  {
    exists i, j :: StripsAt(s, r, i, j)
  }

  /** Removes leading whitespace. */
  function StripStart(s: string): (r: string)
    ensures |r| <= |s| && r == s[|s| - |r|..]
    ensures r == [] || !IsSpace(r[0])
    ensures forall k | 0 <= k < |s| - |r| :: IsSpace(s[k])
  {
    if |s| > 0 && IsSpace(s[0]) then StripStart(s[1..]) else s
  }

  /** Removes trailing whitespace. */
  function StripEnd(s: string): (r: string)
    ensures |r| <= |s| && r == s[..|r|]
    ensures r == [] || !IsSpace(r[|r| - 1])
    ensures forall k | |r| <= k < |s| :: IsSpace(s[k])
  {
    if |s| > 0 && IsSpace(s[|s| - 1]) then StripEnd(s[..|s| - 1]) else s
  }

  /** Python's `s.strip()`. */
  function Strip(s: string): (r: string)
    ensures IsStripOf(s, r)
  {
    var t := StripStart(s);
    var r := StripEnd(t);
    assert StripsAt(s, r, |s| - |t|, |s| - |t| + |r|);
    r
  }

  /** Two cuts that both strip `s` give the same string. */
  lemma StripsAtUnique(s: string, r1: string, i1: int, j1: int, r2: string, i2: int, j2: int)
    requires StripsAt(s, r1, i1, j1) && StripsAt(s, r2, i2, j2)
    ensures r1 == r2
  {
    if r1 != [] && r2 != [] {
      assert s[i1] == r1[0] && s[i2] == r2[0];
      assert i1 == i2;
      assert s[j1 - 1] == r1[|r1| - 1] && s[j2 - 1] == r2[|r2| - 1];
      assert j1 == j2;
    }
  }

  /** There is only one way to strip a string: `IsStripOf` determines its result. */
  lemma StripOfUnique(s: string, r1: string, r2: string)
    requires IsStripOf(s, r1) && IsStripOf(s, r2)
    ensures r1 == r2
  {
    var i1, j1 :| StripsAt(s, r1, i1, j1);
    var i2, j2 :| StripsAt(s, r2, i2, j2);
    StripsAtUnique(s, r1, i1, j1, r2, i2, j2);
  }

  /** Stripping twice is stripping once: the store may re-trim a stored value harmlessly. */
  lemma StripIdempotent(s: string)
    ensures Strip(Strip(s)) == Strip(s)
  {
    var r := Strip(s);
    var i, j :| StripsAt(s, r, i, j);
    assert StripsAt(r, r, 0, |r|);
    StripOfUnique(r, Strip(r), r);
  }

  /** A string with no whitespace at either end is left as it is. */
  lemma StripKeepsTrimmed(s: string)
    requires s == [] || (!IsSpace(s[0]) && !IsSpace(s[|s| - 1]))
    ensures Strip(s) == s
  {
    assert StripsAt(s, s, 0, |s|);
    StripOfUnique(s, Strip(s), s);
  }
}
