/**
  The driver `process_pdf` of convert.py: the output name, the page loop that
  turns rasterised pages into one paragraph each, the save with its Desktop
  fallback, and the whole run.
*/
module Convert {
  import opened PyStr
  import opened PyPath
  import opened OcrPage

  /** The name of the Word file written for `pdfPath`: its base name without
      the extension, plus ".docx" (lines 16-17). */
  function OutputName(pdfPath: string): (name: string)
    ensures Sep !in name
    ensures |name| >= 5 && name[|name| - 5..] == ".docx"
    ensures name[..|name| - 5] + SplitExt(Basename(pdfPath)).1 == Basename(pdfPath)
  {
    var base := Basename(pdfPath);
    var stem := SplitExt(base).0;
    assert Sep !in stem by {
      BasenameSpec(pdfPath);
      assert stem == base[..|stem|];
    }
    var name := stem + ".docx";
    assert name[..|name| - 5] == stem;
    name
  }

  /** Naming is a round trip with `splitext`: the output's own extension is
      ".docx" and its stem is the source's stem, unless that stem is all dots
      (then `splitext` sees a dot file and finds no extension at all). */
  lemma OutputNameSplits(pdfPath: string)
    ensures var stem := SplitExt(Basename(pdfPath)).0;
      HasNonDot(stem) ==> SplitExt(OutputName(pdfPath)) == (stem, ".docx")
    ensures var stem := SplitExt(Basename(pdfPath)).0;
      !HasNonDot(stem) ==> SplitExt(OutputName(pdfPath)) == (OutputName(pdfPath), "")
  {
    var base := Basename(pdfPath);
    var stem := SplitExt(base).0;
    assert Sep !in stem by {
      BasenameSpec(pdfPath);
      assert stem == base[..|stem|];
    }
    SplitExtAppended(stem, ".docx");
  }

  /** `os.path.join(os.path.join(home, "Desktop"), name)` (lines 75-76). */
  function DesktopPath(home: string, name: string): (d: string)
    ensures |d| >= |name| && d[|d| - |name|..] == name
    ensures |name| > 0 && name[0] == Sep ==> d == name
    ensures (|name| == 0 || name[0] != Sep) ==>
      |d| >= |name| + 8 && d[|d| - |name| - 8..|d| - |name|] == "Desktop/"
  {
    var dir := Join(home, "Desktop");
    assert dir[|dir| - 7..] == "Desktop";
    Join(dir, name)
  }

  /** The Desktop copy keeps the output's file name and sits in a directory
      named "Desktop" directly under the home directory: it is the home
      directory, a separator unless the home directory already ends with one,
      "Desktop/" and the name. */
  lemma DesktopPathShape(home: string, name: string)
    requires Sep !in name
    ensures Basename(DesktopPath(home, name)) == name
    ensures var d := DesktopPath(home, name);
      |d| >= |name| + 8 && d[|d| - |name| - 8..|d| - |name|] == "Desktop/"
    ensures |home| == 0 ==> DesktopPath(home, name) == "Desktop/" + name
    ensures |home| > 0 ==>
      var d := DesktopPath(home, name);
      var gap := if home[|home| - 1] == Sep then 0 else 1;
      && |d| == |home| + gap + 8 + |name|
      && d[..|home|] == home
      && (gap == 1 ==> d[|home|] == Sep)
  {
    var dir := Join(home, "Desktop");
    var d := DesktopPath(home, name);
    assert dir[|dir| - 7..] == "Desktop";
    assert d == dir + [Sep] + name;
    assert d[|d| - |name| - 8..|d| - |name|] == dir[|dir| - 7..] + [Sep];
    forall k | |dir| < k < |d|
      ensures d[k] != Sep
    {
      assert d[k] == name[k - |dir| - 1];
    }
    RFindLast(d, Sep, |dir|);
    assert d[|dir| + 1..] == name;
  }

  /** What the page loop produces: the paragraphs, or the 0-based index of the
      page whose image preprocessing raised, which ends the run through the
      outer handler (lines 37-42, 88-89). */
  datatype Assembly = Assembled(paragraphs: seq<string>) | PreprocessAborted(page: nat)

  /** The page loop of lines 32-68, from page `i` on, with `doc` holding the
      paragraphs of the pages before `i`. */
  function AssembleFrom(pages: seq<Page>, i: nat, doc: seq<string>): (a: Assembly)
    requires i <= |pages|
    ensures a.Assembled? ==> |a.paragraphs| == |doc| + |pages| - i
    ensures a.PreprocessAborted? ==> i <= a.page < |pages|
    decreases |pages| - i
  {
    if i == |pages| then Assembled(doc)
    else if !pages[i].preprocessOk then PreprocessAborted(i)
    else AssembleFrom(pages, i + 1, doc + [ResolvePage(i, pages[i]).text])
  }

  /** The page loop over all pages, starting with an empty document. */
  function Assemble(pages: seq<Page>): (a: Assembly)
    ensures a.Assembled? ==> |a.paragraphs| == |pages|
    ensures a.PreprocessAborted? ==> a.page < |pages|
  {
    AssembleFrom(pages, 0, [])
  }

  /** The document the loop is meant to build: paragraph k is page k's
      resolved text. */
  function ExpectedParagraphs(pages: seq<Page>): (doc: seq<string>)
    ensures |doc| == |pages|
    ensures forall k :: 0 <= k < |pages| ==> doc[k] == ResolvePage(k, pages[k]).text
  {
    seq(|pages|, k requires 0 <= k < |pages| => ResolvePage(k, pages[k]).text)
  }

  predicate AllPreprocessed(pages: seq<Page>) {
    forall k :: 0 <= k < |pages| ==> pages[k].preprocessOk
  }

  /** The loop yields one paragraph per page, in page order, exactly when
      every page preprocesses; otherwise it stops at the first page that
      does not. */
  lemma AssembleCorrect(pages: seq<Page>)
    ensures Assemble(pages).Assembled? <==> AllPreprocessed(pages)
    ensures Assemble(pages).Assembled? ==> Assemble(pages).paragraphs == ExpectedParagraphs(pages)
    ensures Assemble(pages).PreprocessAborted? ==>
      var k := Assemble(pages).page;
      k < |pages| && !pages[k].preprocessOk && AllPreprocessed(pages[..k])
  {
    AssembleFromCorrect(pages, 0, []);
  }

  lemma {:induction false} AssembleFromCorrect(pages: seq<Page>, i: nat, doc: seq<string>)
    requires i <= |pages|
    requires doc == ExpectedParagraphs(pages[..i])
    requires AllPreprocessed(pages[..i])
    ensures AssembleFrom(pages, i, doc).Assembled? <==> AllPreprocessed(pages)
    ensures AssembleFrom(pages, i, doc).Assembled? ==>
      AssembleFrom(pages, i, doc).paragraphs == ExpectedParagraphs(pages)
    ensures AssembleFrom(pages, i, doc).PreprocessAborted? ==>
      var k := AssembleFrom(pages, i, doc).page;
      i <= k < |pages| && !pages[k].preprocessOk && AllPreprocessed(pages[..k])
    decreases |pages| - i
  {
    if i == |pages| {
      assert pages[..i] == pages;
    } else if !pages[i].preprocessOk {
    } else {
      var doc' := doc + [ResolvePage(i, pages[i]).text];
      var e := ExpectedParagraphs(pages[..i + 1]);
      forall k | 0 <= k < i + 1
        ensures doc'[k] == e[k]
      {
        if k < i {
          assert pages[..i + 1][k] == pages[..i][k];
        }
      }
      assert doc' == e;
      assert AllPreprocessed(pages[..i + 1]) by {
        assert forall k :: 0 <= k < i ==> pages[..i + 1][k] == pages[..i][k];
      }
      AssembleFromCorrect(pages, i + 1, doc');
      assert AssembleFrom(pages, i, doc) == AssembleFrom(pages, i + 1, doc');
    }
  }

  /** Where the document ended up. */
  datatype SaveResult = SavedAt(path: string) | NotSaved

  /** The paths `doc.save` was called with, in order, and the result. */
  datatype SaveReport = SaveReport(attempts: seq<string>, result: SaveResult)

  /** The save of lines 70-81: the primary path first, the Desktop path only
      when that raises, nothing after a second failure. `primaryOk` and
      `desktopOk` say whether the respective `doc.save` call succeeds. */
  function SaveWithFallback(primary: string, desktop: string, primaryOk: bool, desktopOk: bool): (s: SaveReport)
    ensures 1 <= |s.attempts| <= 2 && s.attempts[0] == primary
    ensures |s.attempts| == 2 <==> !primaryOk
    ensures |s.attempts| == 2 ==> s.attempts[1] == desktop
    ensures s.result.SavedAt? <==> primaryOk || desktopOk
    ensures s.result.SavedAt? ==> s.result.path == s.attempts[|s.attempts| - 1]
  {
    if primaryOk then SaveReport([primary], SavedAt(primary))
    else if desktopOk then SaveReport([primary, desktop], SavedAt(desktop))
    else SaveReport([primary, desktop], NotSaved)
  }

  /** The policy the save follows, stated for any list of locations: try them
      in order and stop at the first save that succeeds. `oks[k]` says whether
      saving to `paths[k]` succeeds. */
  function TryInOrder(paths: seq<string>, oks: seq<bool>): (s: SaveReport)
    requires |paths| == |oks|
    ensures |s.attempts| <= |paths| && s.attempts == paths[..|s.attempts|]
    ensures forall k :: 0 <= k < |s.attempts| - 1 ==> !oks[k]
    ensures s.result.SavedAt? <==> |s.attempts| > 0 && oks[|s.attempts| - 1]
    ensures s.result.SavedAt? ==> s.result.path == s.attempts[|s.attempts| - 1]
    ensures s.result.NotSaved? ==> s.attempts == paths
    decreases |paths|
  {
    if |paths| == 0 then SaveReport([], NotSaved)
    else if oks[0] then SaveReport([paths[0]], SavedAt(paths[0]))
    else
      var rest := TryInOrder(paths[1..], oks[1..]);
      SaveReport([paths[0]] + rest.attempts, rest.result)
  }

  /** The save of lines 70-81 is that policy over the primary and the Desktop
      location. */
  lemma SaveIsTryInOrder(primary: string, desktop: string, primaryOk: bool, desktopOk: bool)
    ensures SaveWithFallback(primary, desktop, primaryOk, desktopOk)
      == TryInOrder([primary, desktop], [primaryOk, desktopOk])
  {
  }

  /** Rasterisation either yields the pages in order or raises. */
  datatype Raster = Rasterized(pages: seq<Page>) | RasterFailed

  /** How a run of `process_pdf` ends. */
  datatype RunOutcome =
    | SetupFailed
    | PageAborted(page: nat)
    | Completed(paragraphs: seq<string>, save: SaveReport)

  /** One run of `process_pdf(pdfPath)` with home directory `home`. */
  function ProcessPdf(pdfPath: string, home: string, raster: Raster, primaryOk: bool, desktopOk: bool): (out: RunOutcome)
    ensures raster.RasterFailed? <==> out == SetupFailed
    ensures out.Completed? ==>
      && raster.Rasterized?
      && 1 <= |out.save.attempts| <= 2
      && |out.paragraphs| == |raster.pages|
      && (forall k :: 0 <= k < |raster.pages| ==> out.paragraphs[k] == ResolvePage(k, raster.pages[k]).text)
      && out.save.attempts[0] == OutputName(pdfPath)
      && (|out.save.attempts| == 2 ==> out.save.attempts[1] == DesktopPath(home, OutputName(pdfPath)))
      // the Desktop is tried only after the primary save fails, and the
      // document is saved, at the last path tried, exactly when a save succeeds
      && (|out.save.attempts| == 2 <==> !primaryOk)
      && (out.save.result.SavedAt? <==> primaryOk || desktopOk)
      && (out.save.result.SavedAt? ==> out.save.result.path == out.save.attempts[|out.save.attempts| - 1])
    ensures raster.Rasterized? ==> (out.Completed? <==> AllPreprocessed(raster.pages))
    ensures out.PageAborted? ==>
      && raster.Rasterized? && out.page < |raster.pages|
      && !raster.pages[out.page].preprocessOk
      && (forall k :: 0 <= k < out.page ==> raster.pages[k].preprocessOk)
  {
    match raster
    case RasterFailed => SetupFailed
    case Rasterized(pages) =>
      AssembleCorrect(pages);
      match Assemble(pages)
      case PreprocessAborted(k) => PageAborted(k)
      case Assembled(doc) =>
        var name := OutputName(pdfPath);
        Completed(doc, SaveWithFallback(name, DesktopPath(home, name), primaryOk, desktopOk))
  }

  /** A two-page run: "Hello world" from the combined
      pass is kept; a blank combined text falls back and "cat" beats an empty
      Bengali text. */
  lemma ExamplePages()
    ensures ResolvePage(0, Page(true, Text("Hello world"), Error, Error)) == UsedCombined("Hello world")
    ensures ResolvePage(1, Page(true, Text("  "), Text("cat"), Text(""))) == UsedFallback("cat")
  {
  }

  /** Equally long fallback texts give the Bengali one, here after a combined
      text that is only a newline and a form feed; a raising Bengali pass
      after a successful combined pass gives the marker. */
  lemma ExampleTieAndFailure()
    ensures ResolvePage(2, Page(true, Text("\n\U{000C}"), Text("ab"), Text("cd"))) == UsedFallback("cd")
    ensures ResolvePage(3, Page(true, Text("x"), Text("ab"), Error)) == OcrFailed("[OCR failed for page 4]")
  {
  }

  /** "scans/test.pdf" is written as "test.docx". The path comes in as a
      parameter so that the solver does not unfold the path functions on the
      literal before the proof has split it. */
  lemma ExampleName(pdfPath: string)
    requires pdfPath == "scans/test.pdf"
    ensures OutputName(pdfPath) == "test.docx"
  {
    RFindLast(pdfPath, Sep, 5);
    assert Basename(pdfPath) == "test" + ".pdf";
    assert HasNonDot("test") by { assert "test"[0] != ExtSep; }
    SplitExtAppended("test", ".pdf");
  }

  /** With home "/home/u" the fallback for "test.docx" is
      "/home/u/Desktop/test.docx". */
  lemma ExampleDesktop()
    ensures DesktopPath("/home/u", "test.docx") == "/home/u/Desktop/test.docx"
  {
  }

  /** The two-page run: page 1 keeps its combined text, page 2 falls back to
      "cat"; the primary save fails and the Desktop save succeeds. The inputs
      are parameters fixed by the preconditions, as in `ExampleName`, so that
      the page loop is unfolded one step at a time below. */
  lemma ExampleRun(pdfPath: string, home: string, pages: seq<Page>)
    requires pdfPath == "scans/test.pdf" && home == "/home/u"
    requires pages == [
        Page(true, Text("Hello world"), Error, Error),
        Page(true, Text("  "), Text("cat"), Text(""))]
    ensures ProcessPdf(pdfPath, home, Rasterized(pages), false, true)
      == Completed(["Hello world", "cat"],
                   SaveReport(["test.docx", "/home/u/Desktop/test.docx"], SavedAt("/home/u/Desktop/test.docx")))
  {
    ExamplePages();
    var d0: seq<string> := [];
    var d1 := d0 + [ResolvePage(0, pages[0]).text];
    var d2 := d1 + [ResolvePage(1, pages[1]).text];
    assert d2 == ["Hello world", "cat"];
    assert AssembleFrom(pages, 2, d2) == Assembled(d2);
    assert AssembleFrom(pages, 1, d1) == Assembled(d2);
    assert Assemble(pages) == Assembled(d2);
    ExampleName(pdfPath);
    ExampleDesktop();
  }
}
