/**
  The `os.path` operations the converter uses to name its output, with
  POSIX semantics (`posixpath`): the separator is '/', the extension separator
  is '.'.
*/
module PyPath {

  const Sep: char := '/'
  const ExtSep: char := '.'

  /** `s.rfind(c)`: the index of the last occurrence of `c`, or -1. */
  function RFind(s: string, c: char): (r: int)
    ensures -1 <= r < |s|
    decreases |s|
  {
    if |s| == 0 then -1
    else if s[|s| - 1] == c then |s| - 1
    else RFind(s[..|s| - 1], c)
  }

  /** `rfind` finds an occurrence of `c` with none after it, and -1 only when
      there is none at all. */
  lemma {:induction false} RFindSpec(s: string, c: char)
    ensures RFind(s, c) >= 0 ==> s[RFind(s, c)] == c
    ensures forall k :: RFind(s, c) < k < |s| ==> s[k] != c
    decreases |s|
  {
    if |s| > 0 && s[|s| - 1] != c {
      RFindSpec(s[..|s| - 1], c);
    }
  }

  /** `os.path.basename(p)`: what follows the last separator. */
  function Basename(p: string): (r: string)
    ensures |r| <= |p|
  {
    p[RFind(p, Sep) + 1..]
  }

  /** The base name holds no separator and is a suffix of `p` that is either
      all of `p` or directly preceded by a separator. */
  lemma BasenameSpec(p: string)
    ensures Basename(p) == p[|p| - |Basename(p)|..]
    ensures Sep !in Basename(p)
    ensures |Basename(p)| < |p| ==> p[|p| - |Basename(p)| - 1] == Sep
  {
    RFindSpec(p, Sep);
  }

  /** True when some character of `s` is not the extension separator. */
  predicate HasNonDot(s: string) {
    exists k :: 0 <= k < |s| && s[k] != ExtSep
  }

  /** `os.path.splitext(p)`: the root and the extension, which together are
      `p`. */
  function SplitExt(p: string): (r: (string, string))
    ensures r.0 + r.1 == p
  {
    var sepIndex := RFind(p, Sep);
    var dotIndex := RFind(p, ExtSep);
    if dotIndex > sepIndex && HasNonDot(p[sepIndex + 1..dotIndex]) then
      (p[..dotIndex], p[dotIndex..])
    else
      (p, [])
  }

  /** The extension is the text from the last '.' of the final path component
      on, unless every character of that component before the '.' is itself
      a '.' (so ".bashrc" and "..x" have none). */
  lemma SplitExtSpec(p: string)
    ensures var r := SplitExt(p);
      r.1 != [] ==>
      && r.1[0] == ExtSep
      && ExtSep !in r.1[1..]
      && Sep !in r.1
      && HasNonDot(r.0[RFind(r.0, Sep) + 1..])
    ensures var r := SplitExt(p);
      r.1 == [] ==>
      || RFind(p, ExtSep) <= RFind(p, Sep)
      || !HasNonDot(p[RFind(p, Sep) + 1..RFind(p, ExtSep)])
  {
    var r := SplitExt(p);
    var sepIndex := RFind(p, Sep);
    var dotIndex := RFind(p, ExtSep);
    RFindSpec(p, Sep);
    RFindSpec(p, ExtSep);
    if r.1 != [] {
      var root := p[..dotIndex];
      RFindPrefix(p, Sep, dotIndex);
      assert root[sepIndex + 1..] == p[sepIndex + 1..dotIndex];
    }
  }

  /** Cutting `s` just after its last `c` (or anywhere later) keeps that
      last `c`. */
  lemma RFindPrefix(s: string, c: char, n: nat)
    requires RFind(s, c) < n <= |s|
    ensures RFind(s[..n], c) == RFind(s, c)
  {
    RFindSpec(s, c);
    RFindSpec(s[..n], c);
  }

  /** An index holding `c` with no `c` after it is what `rfind` returns. */
  lemma RFindLast(s: string, c: char, i: int)
    requires -1 <= i < |s|
    requires i >= 0 ==> s[i] == c
    requires forall k :: i < k < |s| ==> s[k] != c
    ensures RFind(s, c) == i
  {
  }

  /** Appending an extension to a separator-free stem and splitting again
      gives the stem and the extension back, unless the stem is all dots, in
      which case the whole name reads as a dot file with no extension. */
  lemma SplitExtAppended(stem: string, ext: string)
    requires Sep !in stem
    requires |ext| >= 1 && ext[0] == ExtSep && ExtSep !in ext[1..] && Sep !in ext
    ensures HasNonDot(stem) ==> SplitExt(stem + ext) == (stem, ext)
    ensures !HasNonDot(stem) ==> SplitExt(stem + ext) == (stem + ext, [])
  {
    var p := stem + ext;
    RFindLast(p, Sep, -1);
    forall k | |stem| < k < |p|
      ensures p[k] != ExtSep
    {
      assert p[k] == ext[1..][k - |stem| - 1];
    }
    RFindLast(p, ExtSep, |stem|);
    assert p[0..|stem|] == stem;
  }

  /** `os.path.join(a, b)` for two components: an absolute `b` replaces `a`;
      otherwise one separator is inserted unless `a` is empty or already ends
      with one. */
  function Join(a: string, b: string): (r: string)
    ensures |b| > 0 && b[0] == Sep ==> r == b
    ensures |a| == 0 ==> r == b
    ensures (|b| == 0 || b[0] != Sep) ==> |r| >= |b| && r[|r| - |b|..] == b
    ensures (|b| == 0 || b[0] != Sep) && |a| > 0 ==>
      && |r| >= |a| + |b|
      && |r| > |b|
      && r[..|a|] == a
      && r[|r| - |b| - 1] == Sep
    // at most one separator is inserted, and none after a trailing one
    ensures (|b| == 0 || b[0] != Sep) ==> |r| <= |a| + |b| + 1
    ensures (|b| == 0 || b[0] != Sep) && |a| > 0 && a[|a| - 1] == Sep ==> r == a + b
    ensures (|b| == 0 || b[0] != Sep) && |a| > 0 && a[|a| - 1] != Sep ==> |r| == |a| + |b| + 1
  {
    if |b| > 0 && b[0] == Sep then b
    else if |a| == 0 || a[|a| - 1] == Sep then a + b
    else a + [Sep] + b
  }
}
