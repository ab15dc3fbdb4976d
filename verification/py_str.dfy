/**
  The pieces of Python's `str` behaviour that the converter relies on:
  `str.isspace`, `str.strip` (no argument) and the decimal rendering of a
  non-negative `int` inside an f-string. A Python `str` is a sequence of code
  points and `len` counts code points, which is what `|s|` counts on a Dafny
  `string` of Unicode scalar values.
*/
module PyStr {

  /** Python 3's `str.isspace()` on one code point: the controls
      U+0009..U+000D (tab, LF, VT, FF, CR), the information separators
      U+001C..U+001F, the space, NEL, NBSP, OGHAM SPACE MARK,
      the typographic spaces U+2000..U+200A, the line and paragraph separators,
      NNBSP, MMSP and the ideographic space. */
  predicate IsSpace(c: char) {
    var n := c as int;
    || (0x09 <= n <= 0x0D)
    || (0x1C <= n <= 0x20)
    || n == 0x85
    || n == 0xA0
    || n == 0x1680
    || (0x2000 <= n <= 0x200A)
    || n == 0x2028
    || n == 0x2029
    || n == 0x202F
    || n == 0x205F
    || n == 0x3000
  }

  predicate AllSpace(s: string) {
    forall k :: 0 <= k < |s| ==> IsSpace(s[k])
  }

  /** `s.lstrip()`: drops whitespace from the front. */
  function LStrip(s: string): (r: string)
    ensures |r| <= |s|
    decreases |s|
  {
    if |s| > 0 && IsSpace(s[0]) then LStrip(s[1..]) else s
  }

  /** `lstrip` removes the longest all-whitespace prefix: what it keeps is a
      suffix of `s`, everything dropped is whitespace, and what is kept does
      not start with whitespace. */
  lemma {:induction false} LStripSpec(s: string)
    ensures LStrip(s) == s[|s| - |LStrip(s)|..]
    ensures AllSpace(s[..|s| - |LStrip(s)|])
    ensures |LStrip(s)| > 0 ==> !IsSpace(LStrip(s)[0])
    decreases |s|
  {
    if |s| > 0 && IsSpace(s[0]) {
      LStripSpec(s[1..]);
      var n := |s| - |LStrip(s)|;
      assert s[..n] == [s[0]] + s[1..][..n - 1];
    }
  }

  /** `s.rstrip()`: drops whitespace from the back. */
  function RStrip(s: string): (r: string)
    ensures |r| <= |s|
    decreases |s|
  {
    if |s| > 0 && IsSpace(s[|s| - 1]) then RStrip(s[..|s| - 1]) else s
  }

  /** `rstrip` removes the longest all-whitespace suffix: what it keeps is a
      prefix of `s`, everything dropped is whitespace, and what is kept does
      not end with whitespace. */
  lemma {:induction false} RStripSpec(s: string)
    ensures RStrip(s) == s[..|RStrip(s)|]
    ensures AllSpace(s[|RStrip(s)|..])
    ensures |RStrip(s)| > 0 ==> !IsSpace(RStrip(s)[|RStrip(s)| - 1])
    decreases |s|
  {
    if |s| > 0 && IsSpace(s[|s| - 1]) {
      var t := s[..|s| - 1];
      RStripSpec(t);
      var n := |RStrip(s)|;
      assert s[n..] == t[n..] + [s[|s| - 1]];
    }
  }

  /** `s.strip()`: `rstrip` after `lstrip`. */
  function Strip(s: string): (r: string)
    ensures |r| <= |s|
  {
    RStrip(LStrip(s))
  }

  /** What `strip` keeps: the slice of `s` that is left once the whitespace
      before it and after it is gone. It neither starts nor ends with
      whitespace, and it is empty exactly when `s` is all whitespace. */
  lemma StripSpec(s: string)
    ensures exists lo :: 0 <= lo <= |s| - |Strip(s)| && IsCore(s, lo, Strip(s))
    ensures |Strip(s)| > 0 ==> !IsSpace(Strip(s)[0]) && !IsSpace(Strip(s)[|Strip(s)| - 1])
    ensures |Strip(s)| == 0 <==> AllSpace(s)
  {
    var l := LStrip(s);
    var r := RStrip(l);
    var lo := |s| - |l|;
    LStripSpec(s);
    RStripSpec(l);
    assert r == Strip(s);
    assert s[lo..][..|r|] == s[lo..lo + |r|];
    assert s[lo + |r|..] == l[|r|..];
    assert IsCore(s, lo, r);
    if |r| == 0 {
      assert s == s[..lo] + l;
    }
  }

  /** `r` sits at offset `lo` of `s` and everything around it is whitespace. */
  predicate IsCore(s: string, lo: nat, r: string)
    requires lo + |r| <= |s|
  {
    && s[lo..lo + |r|] == r
    && AllSpace(s[..lo])
    && AllSpace(s[lo + |r|..])
  }

  predicate IsDigit(c: char) {
    '0' <= c <= '9'
  }

  predicate AllDigits(s: string) {
    forall k :: 0 <= k < |s| ==> IsDigit(s[k])
  }

  function DigitChar(d: nat): (c: char)
    requires d < 10
    ensures IsDigit(c) && c as int - '0' as int == d
  {
    ('0' as int + d) as char
  }

  /** `str(n)` / `f"{n}"` for a non-negative int: at least one digit, only
      digits, and a leading zero only for zero itself. */
  function DecimalString(n: nat): (r: string)
    ensures |r| >= 1
    ensures AllDigits(r)
    ensures r[0] == '0' <==> n == 0
    decreases n
  {
    if n < 10 then [DigitChar(n)] else DecimalString(n / 10) + [DigitChar(n % 10)]
  }

  /** Reading a digit string back as a number, most significant digit first. */
  function DecimalValue(s: string): (v: nat)
    requires AllDigits(s)
  {
    if |s| == 0 then 0
    else DecimalValue(s[..|s| - 1]) * 10 + (s[|s| - 1] as int - '0' as int)
  }

  /** Rendering then reading back gives the number again. */
  lemma {:induction false} DecimalRoundTrip(n: nat)
    ensures DecimalValue(DecimalString(n)) == n
    decreases n
  {
    if n >= 10 {
      var s := DecimalString(n);
      assert s[..|s| - 1] == DecimalString(n / 10);
      DecimalRoundTrip(n / 10);
    }
  }

  /** Hence two numbers with the same rendering are the same number. */
  lemma DecimalStringInjective(m: nat, n: nat)
    requires DecimalString(m) == DecimalString(n)
    ensures m == n
  {
    DecimalRoundTrip(m);
    DecimalRoundTrip(n);
  }
}
