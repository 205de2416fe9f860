/** ASCII case handling for upload filenames.

The service lowercases the uploaded filename before it looks at the
extension.  Python's `str.lower` is modelled on the ASCII range only:
the letters 'A'..'Z' map to 'a'..'z' and every other character is left
alone, so lowercasing never changes the length of a string and never
touches the path separator '/' or the extension separator '.'.
 */
module AsciiText {

  predicate IsUpper(c: char) {
    'A' <= c <= 'Z'
  }

  predicate IsLower(c: char) {
    'a' <= c <= 'z'
  }

  /** The lower-case form of one character (ASCII letters only). */
  function LowerChar(c: char): char {
    if IsUpper(c) then (c as int + 32) as char else c
  }

  /** The other-case form of an ASCII letter; any other character is its own swap. */
  function SwapCase(c: char): char {
    if IsUpper(c) then (c as int + 32) as char
    else if IsLower(c) then (c as int - 32) as char
    else c
  }

  /** Python's `s.lower()` over ASCII: the result has the same length and no
      upper-case letter, and each character is either kept or is an upper-case
      letter moved to its lower-case partner 32 code points on. */
  function Lower(s: string): (r: string)
    ensures |r| == |s|
    ensures forall i :: 0 <= i < |r| ==> !IsUpper(r[i])
    ensures forall i :: 0 <= i < |s| ==> r[i] == s[i] || (IsUpper(s[i]) && r[i] as int == s[i] as int + 32)
  {
    seq(|s|, i requires 0 <= i < |s| => LowerChar(s[i]))
  }

  /** `b` is `a` with the case of any number of ASCII letters flipped. */
  ghost predicate CaseVariant(a: string, b: string) {
    && |a| == |b|
    && forall i :: 0 <= i < |a| ==> b[i] == a[i] || b[i] == SwapCase(a[i])
  }

  /** A lowered string holds no upper-case letter, and lowering it again changes nothing. */
  lemma LowerNormalises(s: string)
    ensures forall i :: 0 <= i < |Lower(s)| ==> !IsUpper(Lower(s)[i])
    ensures Lower(Lower(s)) == Lower(s)
  {
  }

  /** Lowering keeps the two separators where they are and creates no new ones. */
  lemma LowerKeepsSeparators(s: string)
    ensures forall i :: 0 <= i < |s| ==> (Lower(s)[i] == '.' <==> s[i] == '.')
    ensures forall i :: 0 <= i < |s| ==> (Lower(s)[i] == '/' <==> s[i] == '/')
  {
  }

  /** Two strings lower to the same string exactly when they differ only in ASCII letter case. */
  lemma LowerEqualIffCaseVariant(a: string, b: string)
    ensures Lower(a) == Lower(b) <==> CaseVariant(a, b)
  {
    if Lower(a) == Lower(b) {
      forall i | 0 <= i < |a|
        ensures b[i] == a[i] || b[i] == SwapCase(a[i])
      {
        assert LowerChar(a[i]) == LowerChar(b[i]);
      }
    }
    if CaseVariant(a, b) {
      assert forall i :: 0 <= i < |a| ==> Lower(a)[i] == Lower(b)[i];
    }
  }

  /** Lowering a slice is slicing the lowered string. */
  lemma LowerSlice(s: string, lo: int, hi: int)
    requires 0 <= lo <= hi <= |s|
    ensures Lower(s[lo..hi]) == Lower(s)[lo..hi]
  {
  }
}
