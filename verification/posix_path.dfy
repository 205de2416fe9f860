/** POSIX `os.path.splitext`.

The handler splits the filename into a root and an extension with
Python's POSIX path rules: the extension is the text from the last '.'
to the end, provided that dot lies in the last path component (after
the last '/') and is preceded in that component by at least one
character that is not a dot.  Leading dots therefore never start an
extension (".cr2" is all root), and a string with no qualifying dot
splits into itself and the empty extension.
 */
module PosixPath {
  import opened AsciiText

  const Sep: char := '/'
  const ExtSep: char := '.'

  /** `s.rfind(c)` for a single character: the last index holding `c`, or -1. */
  function RFind(s: string, c: char): (i: int)
    ensures -1 <= i < |s|
    ensures 0 <= i ==> s[i] == c
    ensures forall j :: i < j < |s| ==> s[j] != c
  {
    if |s| == 0 then -1
    else if s[|s| - 1] == c then |s| - 1
    else RFind(s[..|s| - 1], c)
  }

  /** Every character of `s` in positions `lo..hi` is a dot. */
  predicate DotsBetween(s: string, lo: int, hi: int)
    requires 0 <= lo <= hi <= |s|
  {
    forall k :: lo <= k < hi ==> s[k] == ExtSep
  }

  /** The pair `(root, ext)` returned by `os.path.splitext`. */
  datatype Split = Split(root: string, ext: string)

  /** `os.path.splitext(p)` with the POSIX separators. */
  function SplitExt(p: string): (r: Split)
    ensures r.root + r.ext == p
    ensures r.ext == [] || (r.ext[0] == ExtSep && ExtSep !in r.ext[1..] && Sep !in r.ext)
  {
    var sepIndex := RFind(p, Sep);
    var dotIndex := RFind(p, ExtSep);
    if dotIndex > sepIndex && !DotsBetween(p, sepIndex + 1, dotIndex) then
      assert forall j :: dotIndex <= j < |p| ==> p[j] != Sep;
      Split(p[..dotIndex], p[dotIndex..])
    else
      Split(p, [])
  }

  /** The same split computed by the scanning loop of Python's `genericpath._splitext`:
      walk from the start of the last component towards the last dot and stop at the
      first character that is not a dot. */
  method SplitExtScan(p: string) returns (root: string, ext: string)
    ensures Split(root, ext) == SplitExt(p)
  {
    var sepIndex := RFind(p, Sep);
    var dotIndex := RFind(p, ExtSep);
    if dotIndex > sepIndex {
      var filenameIndex := sepIndex + 1;
      while filenameIndex < dotIndex
        invariant sepIndex + 1 <= filenameIndex <= dotIndex
        invariant DotsBetween(p, sepIndex + 1, filenameIndex)
      {
        if p[filenameIndex] != ExtSep {
          return p[..dotIndex], p[dotIndex..];
        }
        filenameIndex := filenameIndex + 1;
      }
    }
    return p, [];
  }

  /** Within the path component that ends at position `d`, some character before `d`
      is not a dot. */
  ghost predicate StemBefore(p: string, d: int) {
    exists k :: 0 <= k < d <= |p| && p[k] != ExtSep && forall j :: k <= j < d ==> p[j] != Sep
  }

  lemma StemWitness(p: string, k: int, d: int)
    requires 0 <= k < d <= |p| && p[k] != ExtSep
    requires forall j :: k <= j < d ==> p[j] != Sep
    ensures StemBefore(p, d)
  {
  }

  /** `d` is where a POSIX extension of `p` starts: a dot with neither a dot nor a
      slash after it, preceded within the same path component by a non-dot character. */
  ghost predicate IsExtStart(p: string, d: int) {
    && 0 <= d < |p|
    && p[d] == ExtSep
    && (forall j :: d < j < |p| ==> p[j] != ExtSep && p[j] != Sep)
    && StemBefore(p, d)
  }

  /** `SplitExt` agrees with the declarative description: it yields a non-empty
      extension exactly when an extension start exists, and then the extension is
      the suffix from that position. */
  lemma SplitExtMatchesExtStart(p: string)
    ensures SplitExt(p).ext != [] <==> exists d :: IsExtStart(p, d)
    ensures forall d :: IsExtStart(p, d) ==> SplitExt(p).ext == p[d..]
  {
    var sepIndex := RFind(p, Sep);
    var dotIndex := RFind(p, ExtSep);
    if SplitExt(p).ext != [] {
      assert dotIndex > sepIndex && !DotsBetween(p, sepIndex + 1, dotIndex);
      var k :| sepIndex + 1 <= k < dotIndex && p[k] != ExtSep;
      assert p[k] != ExtSep && forall j :: k <= j < dotIndex ==> p[j] != Sep;
      assert IsExtStart(p, dotIndex);
    }
    forall d | IsExtStart(p, d)
      ensures SplitExt(p).ext == p[d..]
    {
      ExtStartIsLastDot(p, d);
    }
  }

  /** An extension start is the last dot, lies after the last slash, and has a
      non-dot character between the two. */
  lemma ExtStartIsLastDot(p: string, d: int)
    requires IsExtStart(p, d)
    ensures SplitExt(p) == Split(p[..d], p[d..])
  {
    var sepIndex := RFind(p, Sep);
    var dotIndex := RFind(p, ExtSep);
    assert dotIndex == d;
    var k :| 0 <= k < d && p[k] != ExtSep && forall j :: k <= j < d ==> p[j] != Sep;
    assert sepIndex < k;
  }

  /** The last path component: everything after the last slash.  A helper for
      stating which names have no extension. */
  function Basename(p: string): (b: string)
    ensures Sep !in b
  {
    p[RFind(p, Sep) + 1..]
  }

  /** No dot in the last component: no extension. This covers names without any dot
      and names such as "a.nef/b" whose last dot is in a directory component. */
  lemma NoDotInBasenameNoExt(p: string)
    requires ExtSep !in Basename(p)
    ensures SplitExt(p) == Split(p, [])
  {
  }

  /** When the only dots of the last component are leading ones (".cr2", "..x"),
      there is no extension. */
  lemma LeadingDotsNoExt(p: string, dir: string, dots: string, rest: string)
    requires p == dir + dots + rest
    requires dir == [] || dir[|dir| - 1] == Sep
    requires forall k :: 0 <= k < |dots| ==> dots[k] == ExtSep
    requires ExtSep !in rest && Sep !in rest
    ensures SplitExt(p) == Split(p, [])
  {
    var sepIndex := RFind(p, Sep);
    var dotIndex := RFind(p, ExtSep);
    assert forall j :: |dir| <= j < |p| ==> p[j] != Sep by {
      forall j | |dir| <= j < |p|
        ensures p[j] != Sep
      {
        if j < |dir| + |dots| {
          assert p[j] == dots[j - |dir|];
        } else {
          assert p[j] == rest[j - |dir| - |dots|];
        }
      }
    }
    if dir != [] {
      assert p[|dir| - 1] == dir[|dir| - 1];
    }
    assert sepIndex == |dir| - 1;
    if dotIndex > sepIndex {
      forall k | sepIndex + 1 <= k < dotIndex
        ensures p[k] == ExtSep
      {
        assert p[k] == dots[k - |dir|];
      }
    }
  }

  /** `str.rfind` of a separator does not see letter case. */
  lemma {:induction false} RFindLower(s: string, c: char)
    requires !IsUpper(c) && !IsLower(c)
    ensures RFind(Lower(s), c) == RFind(s, c)
    decreases |s|
  {
    if |s| > 0 {
      LowerSlice(s, 0, |s| - 1);
      assert Lower(s)[..|s| - 1] == Lower(s[..|s| - 1]);
      RFindLower(s[..|s| - 1], c);
    }
  }

  /** Lowering commutes with `splitext`: splitting the lowered name gives the lowered
      root and the lowered extension of the original name. */
  lemma SplitExtLower(p: string)
    ensures SplitExt(Lower(p)) == Split(Lower(SplitExt(p).root), Lower(SplitExt(p).ext))
  {
    var q := Lower(p);
    RFindLower(p, Sep);
    RFindLower(p, ExtSep);
    var sepIndex := RFind(p, Sep);
    var dotIndex := RFind(p, ExtSep);
    SplitExtCases(p, sepIndex, dotIndex);
    SplitExtCases(q, sepIndex, dotIndex);
    if dotIndex > sepIndex {
      LowerDotsBetween(p, sepIndex + 1, dotIndex);
      if !DotsBetween(p, sepIndex + 1, dotIndex) {
        LowerPrefixSuffix(p, dotIndex);
      }
    }
  }

  /** Lowering changes no dot into a non-dot and no non-dot into a dot. */
  lemma LowerDotsBetween(p: string, lo: int, hi: int)
    requires 0 <= lo <= hi <= |p|
    ensures DotsBetween(Lower(p), lo, hi) == DotsBetween(p, lo, hi)
  {
    LowerKeepsSeparators(p);
  }

  lemma LowerPrefixSuffix(p: string, d: int)
    requires 0 <= d <= |p|
    ensures Lower(p[..d]) == Lower(p)[..d] && Lower(p[d..]) == Lower(p)[d..]
  {
    LowerSlice(p, 0, d);
    LowerSlice(p, d, |p|);
    assert p[0..d] == p[..d] && p[d..|p|] == p[d..];
  }

  /** `SplitExt` in terms of the two `rfind` results. */
  lemma SplitExtCases(p: string, sepIndex: int, dotIndex: int)
    requires sepIndex == RFind(p, Sep) && dotIndex == RFind(p, ExtSep)
    ensures dotIndex > sepIndex && !DotsBetween(p, sepIndex + 1, dotIndex) ==>
              SplitExt(p) == Split(p[..dotIndex], p[dotIndex..])
    ensures !(dotIndex > sepIndex && !DotsBetween(p, sepIndex + 1, dotIndex)) ==>
              SplitExt(p) == Split(p, [])
  {
  }
}
