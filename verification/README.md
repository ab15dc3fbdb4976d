# OCR_Converter: per-page text resolution, in Dafny

OCR_Converter turns a scanned PDF into a Word document. `process_pdf` in
`convert.py` rasterises the PDF, binarises each page image, runs Tesseract
over it with Bengali and English enabled together, and, when that finds next
to nothing, runs an English-only and a Bengali-only pass and keeps the longer
text. Each page normally becomes one paragraph (see "## Left out" for the
exception); the document is saved under a bare
file name, so in the current working directory, or on the user's Desktop if
that fails.

This project models the decisions in that function as pure functions and
proves what they guarantee:

- `py_str.dfy` (module `PyStr`): Python's `str.isspace`, `str.strip` and the
  decimal rendering of an `int`, the three string operations the decisions
  depend on. Lengths are code-point counts, as Python's `len` is.
- `py_path.dfy` (module `PyPath`): `str.rfind` and `os.path.basename`,
  `os.path.splitext` and `os.path.join` with POSIX semantics, including
  `splitext`'s rule that a name whose part before the last dot is all dots
  (".bashrc") has no extension.
- `ocr_page.dfy` (module `OcrPage`): one page. A page is described by whether
  its image preprocessing succeeds and by what each of the three recognition
  passes (`ben+eng`, `eng`, `ben`) yields: text or an exception. `PassesRun`
  gives the passes actually made, in order, and `ResolvePage` gives the
  paragraph, tagged with the path taken (combined text kept, fallback used,
  or failure marker).
- `convert.dfy` (module `Convert`): the output name, the page loop, the save
  with its Desktop fallback, and a whole run, `ProcessPdf`.

The decision table, as the code has it:

- The combined text is kept, raw and with its surrounding whitespace, when it
  has at least 10 characters after `strip()`; the single-language passes are
  then not run at all.
- Otherwise the English pass runs and then, if it returns, the Bengali pass;
  the English text is kept only if its raw, unstripped length is strictly
  greater, and a tie, both empty included, keeps the Bengali text.
- An exception from any pass that is run, including a fallback pass after a
  successful combined pass, makes the paragraph `[OCR failed for page N]`
  with N the 1-based page number. No other pass is tried. The same handler
  also catches an exception from adding the recognised text to the document
  (line 64), a case the model leaves out (see "## Left out").
- An exception while preparing the page image (reading it back, grayscale,
  blur, threshold) is outside the per-page handler: the outer handler ends
  the whole run, and nothing is saved.

## Model

| member | source | states |
|---|---|---|
| PyStr.IsSpace | convert.py:50 | the code points `str.isspace` accepts, which `strip()` removes: U+0009..U+000D, U+001C..U+0020, U+0085, U+00A0, U+1680, U+2000..U+200A, U+2028, U+2029, U+202F, U+205F, U+3000 |
| PyStr.LStrip | convert.py:50 | `lstrip()`; its own contract says only that the result is no longer than the text, and `LStripSpec` characterises it |
| PyStr.RStrip | convert.py:50 | `rstrip()`; its own contract says only that the result is no longer than the text, and `RStripSpec` characterises it |
| PyStr.Strip | convert.py:50 | `strip()` as `rstrip` after `lstrip`; its own contract says only that the result is no longer than the text, and `StripSpec` characterises it |
| PyStr.LStripSpec | convert.py:50 | `lstrip` removes exactly the longest whitespace prefix: the kept text is a suffix, everything dropped is whitespace, the kept text does not start with whitespace |
| PyStr.RStripSpec | convert.py:50 | `rstrip` removes exactly the longest whitespace suffix, symmetrically |
| PyStr.StripSpec | convert.py:50 | `strip()` keeps a slice of the text with only whitespace around it, not starting or ending with whitespace, and empty exactly when the text is all whitespace |
| PyStr.DecimalString | convert.py:68 | the page number in the marker is rendered with at least one digit, digits only, and no leading zero |
| PyStr.DecimalRoundTrip | convert.py:68 | reading the rendered page number back gives the number |
| PyStr.DecimalStringInjective | convert.py:68 | different page numbers render differently |
| PyPath.RFind | convert.py:16 | `str.rfind` on one character: an index into the text, or -1; `RFindSpec` and `RFindLast` characterise it |
| PyPath.Basename | convert.py:16 | `posixpath.basename`: no longer than the path; `BasenameSpec` characterises it |
| PyPath.SplitExt | convert.py:16 | `posixpath.splitext`: root and extension put together give the path back; `SplitExtSpec` characterises the cut |
| PyPath.RFindSpec | convert.py:16 | `rfind` returns an occurrence with none after it, or -1 when there is none |
| PyPath.RFindLast | convert.py:16 | conversely, an occurrence with none after it is what `rfind` returns |
| PyPath.BasenameSpec | convert.py:16 | the base name is a separator-free suffix of the path, all of it or preceded by a separator |
| PyPath.SplitExtSpec | convert.py:16 | the extension starts at the last dot of the final component and holds no further dot or separator, and is empty only when there is no such dot or the name before it is all dots |
| PyPath.SplitExtAppended | convert.py:16-17 | appending an extension to a stem and splitting gives stem and extension back, unless the stem is all dots |
| PyPath.Join | convert.py:75-76 | an absolute second part replaces the first, and an empty first part gives the second; otherwise the result starts with the first part and ends with the second, with exactly one separator inserted between them unless the first part already ends with one |
| OcrPage.Marker | convert.py:68 | the failure paragraph is "[OCR failed for page ", digits, "]" |
| OcrPage.MarkerNamesPage | convert.py:68 | the digits in a marker read back as the page number it was made for, so distinct pages get distinct markers |
| OcrPage.Sufficient | convert.py:50 | the combined text is kept when it strips to at least 10 characters; such a text has at least 10 raw characters and is not all whitespace |
| OcrPage.PassesRun | convert.py:44-59 | the passes made are a prefix of `ben+eng`, `eng`, `ben`; `eng` runs exactly when the combined pass returned text that strips to fewer than 10 characters, and `ben` exactly when, in addition, `eng` returned |
| OcrPage.ResolvePage | convert.py:44-68 | the marker is used exactly when a pass that was made raised, and names page i+1; otherwise the paragraph is the raw combined text (which strips to 10 or more) or, after a short combined text, one of the two fallback texts whose raw length is the larger of the two |
| OcrPage.CombinedWins | convert.py:45-64 | a combined text of 10 or more stripped characters is kept raw, only the combined pass is made, and the English and Bengali results cannot change the outcome |
| OcrPage.FallbackChoice | convert.py:50-59 | after a short combined text, English is kept only when strictly longer, and a tie goes to Bengali |
| OcrPage.FailureGivesMarker | convert.py:44-68 | a raising combined pass, or a raising fallback pass after a short combined text, gives exactly "[OCR failed for page " + (i+1) + "]" |
| OcrPage.OnlyRunPassesMatter | convert.py:44-59 | two pages whose passes agree on the passes actually made resolve identically and make the same passes |
| Convert.OutputName | convert.py:16-17 | the output name has no separator, ends in ".docx", and what precedes ".docx" followed by the source's extension is the source's base name |
| Convert.OutputNameSplits | convert.py:16-17 | splitting the output name gives the source's stem and ".docx", except that an all-dots stem makes the whole name a dot file |
| Convert.DesktopPath | convert.py:75-76 | the Desktop location ends with the output name, is that name itself when it is absolute, and otherwise has "Desktop/" directly in front of it |
| Convert.DesktopPathShape | convert.py:75-76 | for a separator-free name, the Desktop location has the name as its base name, "Desktop/" just before it, and the home directory in front, followed by a separator unless the home directory ends with one; with an empty home directory it is "Desktop/" and the name |
| Convert.AssembleFrom | convert.py:32-68 | the page loop from page i on: a finished loop has one more paragraph per remaining page, and an aborted one stops at a page from i on |
| Convert.Assemble | convert.py:32-68 | the page loop from the first page: a finished loop has one paragraph per page, and an aborted one names an existing page; `AssembleCorrect` gives the paragraphs and the page |
| Convert.AssembleCorrect | convert.py:32-68 | the page loop yields exactly one paragraph per page, paragraph k being page k's resolved text, exactly when every page's image preprocessing succeeds; otherwise it stops at the first page whose preprocessing fails |
| Convert.AssembleFromCorrect | convert.py:32-68 | the same, from any page on, given the paragraphs of the earlier pages |
| Convert.SaveWithFallback | convert.py:70-81 | the primary path is tried first; the Desktop path is tried exactly when the primary save fails; at most two attempts; the document is saved exactly when one succeeds, at the path tried last |
| Convert.TryInOrder | convert.py:70-81 | trying locations in order: the attempts are a prefix of the locations, all but the last failed, the result is saved at the last one exactly when it succeeded, and nothing is saved only when every location failed |
| Convert.SaveIsTryInOrder | convert.py:70-81 | the save is the try-in-order policy over the primary and the Desktop location |
| Convert.ProcessPdf | convert.py:13-89 | a run whose rasterisation fails saves nothing; a run completes exactly when every page preprocesses, and then has one paragraph per page in page order, tries the output name first and the Desktop location second exactly when the first save fails, and is saved, at the last path tried, exactly when one of the saves succeeds; an aborted run names the first page whose preprocessing failed; nothing but a failed rasterisation is reported as a setup failure |
| Convert.ExamplePages | convert.py:44-64 | "Hello world" from the combined pass is kept; a blank combined text with "cat" in English and nothing in Bengali gives "cat" |
| Convert.ExampleTieAndFailure | convert.py:44-68 | "ab" against "cd" after a newline-and-form-feed combined text gives "cd"; a raising Bengali pass on the fourth page gives "[OCR failed for page 4]" |
| Convert.ExampleName | convert.py:16-17 | "scans/test.pdf" is written as "test.docx" |
| Convert.ExampleDesktop | convert.py:75-76 | the fallback for "test.docx" under home "/home/u" is "/home/u/Desktop/test.docx" |
| Convert.ExampleRun | convert.py:13-81 | the two-page run with a failing primary save ends with ["Hello world", "cat"] saved at "/home/u/Desktop/test.docx" after two attempts |

## Left out

- PDF rasterisation (`convert_from_path`), the JPEG round trip and the OpenCV grayscale, 5x5 Gaussian blur and Otsu threshold (lines 26, 33-42) are foreign library calls over pixels; a page carries only whether that preparation succeeds, and the rasteriser only the ordered pages or a failure.
- Tesseract (lines 45-58) and its global executable path (line 11) are outside the model; each pass is an input, text or an exception. Opening the enhanced image (`Image.open`) is inside the same handler and counts as part of the pass.
- Temporary-folder creation (lines 19-22) can only fail before any page is read, with the same effect as a failed rasterisation, so `RasterFailed` stands for both.
- The python-docx document is a sequence of paragraph strings, and `doc.add_paragraph(text)` (line 64) is assumed never to raise. In the program it can: it sits inside the per-page handler, and python-docx rejects text that XML cannot hold (control characters such as U+000C, which recognition output may contain). python-docx adds the paragraph before writing its text, so such a page ends up with an empty or partial paragraph followed by the failure marker of line 68: two paragraphs, not one. `AssembleCorrect`'s one paragraph per page, and `ProcessPdf`'s, hold only under this assumption.
- `doc.save` is represented only by whether each of the two calls succeeds.
- `os.path.expanduser("~")` is the `home` parameter, which is more general than what `expanduser` returns: that is never empty (it gives "/" rather than ""), so the empty-home case of `DesktopPathShape` is stated for completeness and no run reaches it. Paths follow `posixpath`; the drive letters and backslash separators of `ntpath` are not modelled, although the hard-coded Tesseract path (line 11) shows the program is meant to run on Windows. For the only call, `process_pdf("test.pdf")` (line 92), `basename` and `splitext` give the same result on both platforms. The one place where they differ is the separator `join` puts into the Desktop path (lines 75-76): `ntpath` inserts a backslash where the model inserts '/'.
- Removing the temporary files (lines 84-86) happens after the save and has no effect on the document or on where it is saved.
- The `print` calls (lines 25, 35, 60, 62, 67, 72, 74, 79, 81, 89) are assumed not to raise; the `Resolution` tags stand for which per-page message is printed. In the program a print can raise (an encoding error on a redirected console, a broken pipe), and where it sits decides the effect. Line 72 is inside the primary save's `try`, so a raising print there would also save the document at the Desktop path after a successful primary save. Lines 60 and 62 are inside the per-page handler, so the page would get the failure marker. Lines 25 and 35 are under only the outer handler, so the run would end. `SaveWithFallback`'s "the Desktop path is tried exactly when the primary save fails", `ResolvePage`'s choice of paragraph and `ProcessPdf`'s outcome hold under this assumption.
- PyStr.LStrip, PyStr.RStrip, PyStr.Strip: their own contracts only bound the length of the result; the full characterisation is in `LStripSpec`, `RStripSpec` and `StripSpec`, kept out of the functions so that every use of `ResolvePage` does not carry it.
- PyPath.RFind, PyPath.Basename, PyPath.SplitExt: their own contracts are likewise light, and `RFindSpec`, `RFindLast`, `BasenameSpec` and `SplitExtSpec` characterise them.
- Convert.AssembleFrom, Convert.Assemble: their own contracts give only the number of paragraphs and the range of the aborting page; which paragraphs and which page is `AssembleFromCorrect` and `AssembleCorrect`.
- Rerunning on the same inputs gives the same paragraphs because every member is a pure function; there is no separate lemma for it.
- The module-level call `process_pdf("test.pdf")` (line 92) is `ProcessPdf` with that path.
