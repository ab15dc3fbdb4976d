/**
  Per-page text resolution of `process_pdf` (convert.py, lines 44-68).

  The recognition engine is deterministic on a given enhanced page image, so a
  page is described by what each of the three recognition passes would give
  back: text, or an exception. Which passes are actually invoked, and which
  text becomes the page's paragraph, is decided here.
*/
module OcrPage {
  import opened PyStr

  /** The outcome of one recognition call: the recognised text, or an error. */
  datatype PassResult = Text(text: string) | Error

  /** The three language arguments the converter gives the engine:
      "ben+eng", "eng" and "ben". */
  datatype Lang = BenEng | Eng | Ben

  /** One rasterised page: whether its image preprocessing succeeds, and what
      each recognition pass over the enhanced image yields. */
  datatype Page = Page(preprocessOk: bool, combined: PassResult, eng: PassResult, ben: PassResult)

  /** What the pass in language `l` yields on page `p`. */
  function Recognize(p: Page, l: Lang): (r: PassResult) {
    match l
    case BenEng => p.combined
    case Eng => p.eng
    case Ben => p.ben
  }

  /** How the page's paragraph was obtained; `text` is the paragraph itself. */
  datatype Resolution =
    | UsedCombined(text: string)
    | UsedFallback(text: string)
    | OcrFailed(text: string)

  /** Stripped combined text shorter than this sends the page to the
      single-language passes. */
  const MinCombinedLength: nat := 10

  /** The paragraph written for a page whose recognition raised. */
  function Marker(pageNumber: nat): (m: string)
    ensures |m| > |MarkerPrefix| + |MarkerSuffix|
    ensures m[..|MarkerPrefix|] == MarkerPrefix
    ensures m[|m| - |MarkerSuffix|..] == MarkerSuffix
    ensures AllDigits(m[|MarkerPrefix|..|m| - |MarkerSuffix|])
  {
    var m := MarkerPrefix + DecimalString(pageNumber) + MarkerSuffix;
    assert m[|MarkerPrefix|..|m| - |MarkerSuffix|] == DecimalString(pageNumber);
    m
  }

  const MarkerPrefix: string := "[OCR failed for page "
  const MarkerSuffix: string := "]"

  /** Different pages get different markers, and the number in a marker is
      the page number it was made for. */
  lemma MarkerNamesPage(m: nat, n: nat)
    ensures var s := Marker(m); DecimalValue(s[|MarkerPrefix|..|s| - |MarkerSuffix|]) == m
    ensures Marker(m) == Marker(n) ==> m == n
  {
    var s := Marker(m);
    assert s[|MarkerPrefix|..|s| - |MarkerSuffix|] == DecimalString(m);
    DecimalRoundTrip(m);
    if Marker(m) == Marker(n) {
      var t := Marker(n);
      assert t[|MarkerPrefix|..|t| - |MarkerSuffix|] == DecimalString(n);
      DecimalStringInjective(m, n);
    }
  }

  /** True when the combined pass found enough non-blank text to be kept. */
  function Sufficient(combinedText: string): (b: bool)
    // a blank text is never enough, and enough text has at least ten raw
    // characters, not all of them whitespace
    ensures b ==> |combinedText| >= MinCombinedLength && !AllSpace(combinedText)
  {
    StripSpec(combinedText);
    |Strip(combinedText)| >= MinCombinedLength
  }

  /** The recognition calls made for a page, in the order they are made. */
  function PassesRun(p: Page): (calls: seq<Lang>)
    ensures 1 <= |calls| <= 3
    ensures calls == [BenEng, Eng, Ben][..|calls|]
    ensures Eng in calls <==> p.combined.Text? && !Sufficient(p.combined.text)
    ensures Ben in calls <==> Eng in calls && p.eng.Text?
  {
    if p.combined.Text? && !Sufficient(p.combined.text) then
      if p.eng.Text? then [BenEng, Eng, Ben] else [BenEng, Eng]
    else [BenEng]
  }

  /** True when one of the listed passes raises on the page. */
  predicate SomeFails(p: Page, calls: seq<Lang>) {
    exists k :: 0 <= k < |calls| && Recognize(p, calls[k]).Error?
  }

  /** The text resolved for 0-based page `i`. */
  function ResolvePage(i: nat, p: Page): (r: Resolution)
    // the marker is used exactly when a pass that was made raised
    ensures r.OcrFailed? <==> SomeFails(p, PassesRun(p))
    ensures r.OcrFailed? ==> r.text == Marker(i + 1)
    // otherwise the paragraph is the raw output of a pass that was made
    ensures r.UsedCombined? ==> p.combined == Text(r.text) && Sufficient(r.text)
    ensures r.UsedFallback? ==>
      && p.combined.Text? && !Sufficient(p.combined.text)
      && p.eng.Text? && p.ben.Text?
      && (r.text == p.eng.text || r.text == p.ben.text)
      && |r.text| == Max(|p.eng.text|, |p.ben.text|)
  {
    match p.combined
    case Error =>
      assert Recognize(p, PassesRun(p)[0]).Error?;
      OcrFailed(Marker(i + 1))
    case Text(t) =>
      if |Strip(t)| < MinCombinedLength then
        match p.eng
        case Error => OcrFailed(Marker(i + 1))
        case Text(engText) =>
          match p.ben
          case Error => OcrFailed(Marker(i + 1))
          case Text(benText) =>
            UsedFallback(if |engText| > |benText| then engText else benText)
      else
        UsedCombined(t)
  }

  /** The larger of two lengths. */
  function Max(a: int, b: int): (m: int)
    ensures m >= a && m >= b && (m == a || m == b)
  {
    if a >= b then a else b
  }

  /** A combined text that is long enough once stripped is kept raw, with its
      surrounding whitespace, and the single-language passes are neither run
      nor able to change the outcome. */
  lemma CombinedWins(i: nat, p: Page, engAlt: PassResult, benAlt: PassResult)
    requires p.combined.Text? && Sufficient(p.combined.text)
    ensures ResolvePage(i, p) == UsedCombined(p.combined.text)
    ensures PassesRun(p) == [BenEng]
    ensures ResolvePage(i, p) == ResolvePage(i, p.(eng := engAlt, ben := benAlt))
  {
  }

  /** A short combined text defers to the longer single-language text by raw,
      unstripped length, and a tie (both empty included) goes to Bengali. */
  lemma FallbackChoice(i: nat, p: Page)
    requires p.combined.Text? && !Sufficient(p.combined.text)
    requires p.eng.Text? && p.ben.Text?
    ensures |p.eng.text| > |p.ben.text| ==> ResolvePage(i, p) == UsedFallback(p.eng.text)
    ensures |p.eng.text| <= |p.ben.text| ==> ResolvePage(i, p) == UsedFallback(p.ben.text)
    ensures PassesRun(p) == [BenEng, Eng, Ben]
  {
  }

  /** A failing pass on the way yields the page's marker, even when the
      combined pass succeeded and only a later fallback pass raised. */
  lemma FailureGivesMarker(i: nat, p: Page)
    requires
      || p.combined.Error?
      || (!Sufficient(p.combined.text) && (p.eng.Error? || (p.eng.Text? && p.ben.Error?)))
    ensures ResolvePage(i, p) == OcrFailed("[OCR failed for page " + DecimalString(i + 1) + "]")
  {
  }

  /** The resolution depends on nothing but the results of the passes that are
      actually made: two pages that agree on those resolve identically. */
  lemma OnlyRunPassesMatter(i: nat, p: Page, q: Page)
    requires forall k :: 0 <= k < |PassesRun(p)| ==> Recognize(p, PassesRun(p)[k]) == Recognize(q, PassesRun(p)[k])
    ensures PassesRun(q) == PassesRun(p)
    ensures ResolvePage(i, q) == ResolvePage(i, p)
  {
    var calls := PassesRun(p);
    assert calls[0] == BenEng;
    if |calls| >= 2 {
      assert calls[1] == Eng;
    }
    if |calls| == 3 {
      assert calls[2] == Ben;
    }
  }
}
