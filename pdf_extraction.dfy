/**
 * Text extraction of the command-line bot: direct text extraction from a PDF,
 * a 50-character threshold on the trimmed text, and a page-by-page OCR fallback
 * that skips pages whose recognition fails and aborts on a page that cannot be
 * rendered.
 *
 * The PDF library and the OCR engine are not modelled; a `PdfFile` carries what
 * they would produce for that file: whether it loads, what the text stripper
 * returns, and for each page whether it renders and what recognition yields.
 * Ghost counters on the file record how many document handles are open and how
 * often the file was loaded, so that release on every path and "OCR was not run"
 * can be stated.
 */
module PdfExtraction {
  import opened Text

  /**
   * Below this many UTF-16 code units of trimmed text (Java's `length()`) the
   * OCR fallback runs.
   */
  const OcrThreshold := 50

  /** `System.lineSeparator()`, fixed to a line feed. */
  const LineSeparator := "\n"

  /** What `doOCR` yields for one page image. */
  datatype Recognition = Recognized(text: string) | RecognizedNull | RecognitionThrows

  /** One page as the renderer sees it: it fails to render, or renders to an image. */
  datatype PageRaster = RenderThrows | Renders(recognition: Recognition)

  /** What the text stripper returns for the whole document. */
  datatype TextLayer = Stripped(text: string) | StrippedNull | StripThrows

  /** A 300-DPI page image, represented by what the OCR engine reads from it. */
  datatype PageImage = PageImage(recognition: Recognition)

  /** The `IOException`s that leave `extractTextFromPDF`. */
  datatype PdfError = LoadFailed | StripFailed | RenderFailed(page: nat)

  datatype Result<+T> = Ok(value: T) | Err(error: PdfError)

  class PdfFile {
    const loadable: bool
    const textLayer: TextLayer
    const pages: seq<PageRaster>
    /** Document handles on this file that are open right now. */
    ghost var openHandles: nat
    /** Number of times the file has been handed to the PDF loader. */
    ghost var loads: nat

    constructor (loadable: bool, textLayer: TextLayer, pages: seq<PageRaster>)
      ensures this.loadable == loadable && this.textLayer == textLayer && this.pages == pages
      ensures openHandles == 0 && loads == 0
    {
      this.loadable := loadable;
      this.textLayer := textLayer;
      this.pages := pages;
      openHandles := 0;
      loads := 0;
    }
  }

  class PdfDocument {
    const file: PdfFile
    ghost var open: bool

    /** Opening a document takes one handle on its file. */
    constructor Opened(file: PdfFile)
      modifies file
      ensures this.file == file && open
      ensures file.openHandles == old(file.openHandles) + 1 && file.loads == old(file.loads)
    {
      this.file := file;
      open := true;
      new;
      file.openHandles := file.openHandles + 1;
    }

    /** `PDFTextStripper.getText`. */
    method GetText() returns (r: Result<Option<string>>)
      requires open
      ensures r == match file.textLayer
                   case Stripped(t) => Ok(Some(t))
                   case StrippedNull => Ok(None)
                   case StripThrows => Err(StripFailed)
    {
      match file.textLayer
      case Stripped(t) => r := Ok(Some(t));
      case StrippedNull => r := Ok(None);
      case StripThrows => r := Err(StripFailed);
    }

    /** `getNumberOfPages`. */
    method PageCount() returns (n: nat)
      requires open
      ensures n == |file.pages|
    {
      n := |file.pages|;
    }

    /** `renderImageWithDPI(i, 300)`. */
    method RenderImage(i: nat) returns (r: Result<PageImage>)
      requires open && i < |file.pages|
      ensures r == match file.pages[i]
                   case RenderThrows => Err(RenderFailed(i))
                   case Renders(rec) => Ok(PageImage(rec))
    {
      match file.pages[i]
      case RenderThrows => r := Err(RenderFailed(i));
      case Renders(rec) => r := Ok(PageImage(rec));
    }

    /** `close`: releases this handle. */
    method Close()
      requires open && file.openHandles > 0
      modifies this, file
      ensures !open
      ensures file.openHandles == old(file.openHandles) - 1 && file.loads == old(file.loads)
    {
      open := false;
      file.openHandles := file.openHandles - 1;
    }
  }

  /** `PDDocument.load`: a fresh open handle, or an error for an unreadable file. */
  method Load(file: PdfFile) returns (r: Result<PdfDocument>)
    modifies file
    ensures file.loads == old(file.loads) + 1
    ensures r.Ok? <==> file.loadable
    ensures r.Ok? ==> fresh(r.value) && r.value.open && r.value.file == file
                      && file.openHandles == old(file.openHandles) + 1
    ensures r.Err? ==> r.error == LoadFailed && file.openHandles == old(file.openHandles)
  {
    file.loads := file.loads + 1;
    if file.loadable {
      var doc := new PdfDocument.Opened(file);
      r := Ok(doc);
    } else {
      r := Err(LoadFailed);
    }
  }

  /** `Tesseract.doOCR` on one page image. */
  function DoOcr(image: PageImage): Recognition {
    image.recognition
  }

  /** What one rendered page adds to the OCR text: its text and a line separator, or nothing. */
  function Contribution(p: PageRaster): string {
    if p.Renders? && p.recognition.Recognized? then p.recognition.text + LineSeparator else ""
  }

  /** The OCR accumulator after the given pages, in page order. */
  function Accumulated(pages: seq<PageRaster>): string {
    if pages == [] then "" else Accumulated(pages[..|pages| - 1]) + Contribution(pages[|pages| - 1])
  }

  /** The first page that cannot be rendered, if any. */
  function FirstRenderFailure(pages: seq<PageRaster>): (r: Option<nat>)
    ensures r.Some? ==> r.value < |pages| && pages[r.value].RenderThrows?
                        && forall i :: 0 <= i < r.value ==> pages[i].Renders?
    ensures r.None? ==> forall i :: 0 <= i < |pages| ==> pages[i].Renders?
  {
    if pages == [] then None
    else if pages[0].RenderThrows? then Some(0)
    else match FirstRenderFailure(pages[1..])
      case Some(k) => Some(k + 1)
      case None => None
  }

  /** What `performOCR` returns for a file. */
  function OcrOutcome(loadable: bool, pages: seq<PageRaster>): Result<string> {
    if !loadable then Err(LoadFailed)
    else match FirstRenderFailure(pages)
      case Some(i) => Err(RenderFailed(i))
      case None => Ok(Accumulated(pages))
  }

  /** The direct-extraction text after `trim`, with a null result read as "". */
  function TrimmedLayer(t: TextLayer): string
    requires !t.StripThrows?
  {
    if t.Stripped? then JavaTrim(t.text) else ""
  }

  /** Whether `extractTextFromPDF` calls `performOCR` on this file. */
  predicate OcrInvoked(loadable: bool, t: TextLayer) {
    loadable && !t.StripThrows? && Utf16Length(TrimmedLayer(t)) < OcrThreshold
  }

  /**
   * What `extractTextFromPDF` returns. `isWhitespace` is the whitespace class
   * used by `isBlank`.
   */
  function ExtractOutcome(loadable: bool, t: TextLayer, pages: seq<PageRaster>,
                          isWhitespace: char -> bool): Result<string> {
    if !loadable then Err(LoadFailed)
    else if t.StripThrows? then Err(StripFailed)
    else
      var text := TrimmedLayer(t);
      if Utf16Length(text) >= OcrThreshold then Ok(text)
      else match OcrOutcome(loadable, pages)
        case Err(e) => Err(e)
        case Ok(ocr) => Ok(if IsBlank(ocr, isWhitespace) then text else JavaTrim(ocr))
  }

  /**
   * `performOCR`: loads the file again, renders each page in order and appends
   * each recognised text with a line separator; a page whose recognition throws
   * or yields null is skipped, a page that cannot be rendered aborts. The
   * handle is closed on every path.
   */
  method PerformOcr(file: PdfFile) returns (r: Result<string>)
    modifies file
    ensures r == OcrOutcome(file.loadable, file.pages)
    ensures file.openHandles == old(file.openHandles)
    ensures file.loads == old(file.loads) + 1
  {
    var loaded := Load(file);
    if loaded.Err? {
      return Err(LoadFailed);
    }
    var document := loaded.value;
    r := RecognisePages(document);
    document.Close();
  }

  /**
   * The page loop of `performOCR` on an open document: renders each page in
   * order and appends each recognised text with a line separator; a page that
   * cannot be rendered ends the loop with its error.
   */
  method RecognisePages(document: PdfDocument) returns (r: Result<string>)
    requires document.open
    ensures r == OcrOutcome(true, document.file.pages)
  {
    ghost var pages := document.file.pages;
    ghost var done: seq<PageRaster> := [];
    var sb := "";
    var n := document.PageCount();
    var i := 0;
    while i < n
      invariant 0 <= i <= n == |pages|
      invariant done == pages[..i]
      invariant FirstRenderFailure(done) == None
      invariant sb == Accumulated(done)
    {
      var part := RecognisePage(document, i);
      if part.Err? {
        OcrOutcomeAfterRenderingPrefix(pages, i);
        return Err(RenderFailed(i));
      }
      RenderingPrefixGrows(done, pages[i]);
      sb := sb + part.value;
      done := done + [pages[i]];
      i := i + 1;
    }
    assert done == pages;
    r := Ok(sb);
  }

  /**
   * One turn of the page loop: renders page i and recognises its image. The
   * result is what the page adds to the text (its recognised text and a line
   * separator, or nothing when recognition throws or yields null), or the
   * rendering error.
   */
  method RecognisePage(document: PdfDocument, i: nat) returns (r: Result<string>)
    requires document.open && i < |document.file.pages|
    ensures r == if document.file.pages[i].RenderThrows? then Err(RenderFailed(i))
                 else Ok(Contribution(document.file.pages[i]))
  {
    var image := document.RenderImage(i);
    if image.Err? {
      return Err(image.error);
    }
    var result := DoOcr(image.value);
    if result.Recognized? {
      r := Ok(result.text + LineSeparator);
    } else {
      // RecognizedNull adds nothing; RecognitionThrows is reported and skipped
      r := Ok("");
    }
  }

  /**
   * `extractTextFromPDF`: returns the trimmed direct text when it has at least
   * 50 UTF-16 code units; otherwise runs the OCR fallback and returns its trimmed
   * result unless that is blank, in which case the short text is kept. Both
   * document handles are released on every path, and the file is loaded a
   * second time exactly when the fallback runs.
   */
  method ExtractTextFromPdf(file: PdfFile, isWhitespace: char -> bool) returns (r: Result<string>)
    modifies file
    ensures r == ExtractOutcome(file.loadable, file.textLayer, file.pages, isWhitespace)
    ensures file.openHandles == old(file.openHandles)
    ensures file.loads == old(file.loads) + (if OcrInvoked(file.loadable, file.textLayer) then 2 else 1)
  {
    var loaded := Load(file);
    if loaded.Err? {
      return Err(LoadFailed);
    }
    var document := loaded.value;
    var stripped := document.GetText();
    if stripped.Err? {
      document.Close();
      return Err(StripFailed);
    }
    var text := if stripped.value.None? then "" else JavaTrim(stripped.value.value);
    if Utf16Length(text) < OcrThreshold {
      var ocr := PerformOcr(file);
      document.Close();
      if ocr.Err? {
        return Err(ocr.error);
      }
      r := Ok(if IsBlank(ocr.value, isWhitespace) then text else JavaTrim(ocr.value));
      return;
    }
    document.Close();
    r := Ok(text);
  }

  // ---------------------------------------------------------------------------
  // Properties of the extraction decision and the OCR accumulation

  /** A page that cannot be rendered after pages that all render is the first failure. */
  lemma {:induction false} FirstRenderFailureAt(pages: seq<PageRaster>, i: nat)
    requires i < |pages| && pages[i].RenderThrows?
    requires forall k :: 0 <= k < i ==> pages[k].Renders?
    ensures FirstRenderFailure(pages) == Some(i)
  {
    if i > 0 {
      FirstRenderFailureAt(pages[1..], i - 1);
    }
  }

  /** A page that cannot be rendered after a prefix that renders gives the OCR outcome its error. */
  lemma OcrOutcomeAfterRenderingPrefix(pages: seq<PageRaster>, i: nat)
    requires i < |pages| && pages[i].RenderThrows?
    requires FirstRenderFailure(pages[..i]) == None
    ensures OcrOutcome(true, pages) == Err(RenderFailed(i))
  {
    assert forall k :: 0 <= k < i ==> pages[..i][k] == pages[k];
    FirstRenderFailureAt(pages, i);
  }

  /** A page that renders extends a rendering prefix and adds its contribution to the text. */
  lemma RenderingPrefixGrows(done: seq<PageRaster>, p: PageRaster)
    requires FirstRenderFailure(done) == None && p.Renders?
    ensures FirstRenderFailure(done + [p]) == None
    ensures Accumulated(done + [p]) == Accumulated(done) + Contribution(p)
  {
    AccumulatedSnoc(done, p);
  }

  /** One more page adds its contribution at the end. */
  lemma AccumulatedSnoc(pages: seq<PageRaster>, p: PageRaster)
    ensures Accumulated(pages + [p]) == Accumulated(pages) + Contribution(p)
  {
    assert (pages + [p])[..|pages|] == pages;
  }

  /**
   * A page whose recognition throws or yields null is skipped: the text is the
   * same as if the page were not there.
   */
  lemma {:induction false} SkippedPageContributesNothing(before: seq<PageRaster>, p: PageRaster, after: seq<PageRaster>)
    requires p.Renders? && !p.recognition.Recognized?
    ensures Accumulated(before + [p] + after) == Accumulated(before + after)
    decreases |after|
  {
    if after == [] {
      assert before + [p] + after == before + [p];
      assert before + after == before;
      AccumulatedSnoc(before, p);
    } else {
      var init, q := after[..|after| - 1], after[|after| - 1];
      assert after == init + [q];
      SkippedPageContributesNothing(before, p, init);
      SkipOneMore(before, p, init, q);
    }
  }

  /** One more page after the skipped one keeps the two accumulations equal. */
  lemma SkipOneMore(before: seq<PageRaster>, p: PageRaster, init: seq<PageRaster>, q: PageRaster)
    requires Accumulated(before + [p] + init) == Accumulated(before + init)
    ensures Accumulated(before + [p] + (init + [q])) == Accumulated(before + (init + [q]))
  {
    assert before + [p] + (init + [q]) == (before + [p] + init) + [q];
    assert before + (init + [q]) == (before + init) + [q];
    AccumulatedSnoc(before + [p] + init, q);
    AccumulatedSnoc(before + init, q);
  }

  /** When no page yields text, the OCR accumulator stays empty. */
  lemma {:induction false} NoRecognisedTextGivesEmpty(pages: seq<PageRaster>)
    requires forall i :: 0 <= i < |pages| ==> Contribution(pages[i]) == ""
    ensures Accumulated(pages) == ""
  {
    if pages != [] {
      NoRecognisedTextGivesEmpty(pages[..|pages| - 1]);
    }
  }

  /**
   * Three pages where recognition of the last throws: the text of the first two
   * pages, in order, each followed by a line separator.
   */
  lemma ThirdPageFailureIsSkipped(t0: string, t1: string)
    ensures OcrOutcome(true, [Renders(Recognized(t0)), Renders(Recognized(t1)), Renders(RecognitionThrows)])
            == Ok(t0 + LineSeparator + t1 + LineSeparator)
  {
    var pages := [Renders(Recognized(t0)), Renders(Recognized(t1)), Renders(RecognitionThrows)];
    assert pages[..2][..1] == [pages[0]];
    assert [pages[0]][..0] == [];
    assert pages[..2] == pages[..|pages| - 1];
    assert Accumulated([pages[0]]) == t0 + LineSeparator;
    assert Accumulated(pages[..2]) == t0 + LineSeparator + t1 + LineSeparator;
    assert Contribution(pages[2]) == "";
    assert Accumulated(pages) == Accumulated(pages[..2]) + "";
    assert FirstRenderFailure(pages) == None;
    assert OcrOutcome(true, pages) == Ok(Accumulated(pages));
    assert Accumulated(pages) == t0 + LineSeparator + t1 + LineSeparator;
    assert OcrOutcome(true, pages) == Ok(t0 + LineSeparator + t1 + LineSeparator);
  }

  /**
   * Threshold met: with at least 50 characters of trimmed text the pages are
   * never consulted, so the result is that text whatever the pages would do,
   * even fail to render.
   */
  lemma LongTextSkipsOcr(t: TextLayer, pages: seq<PageRaster>, isWhitespace: char -> bool)
    requires !t.StripThrows? && Utf16Length(TrimmedLayer(t)) >= OcrThreshold
    ensures ExtractOutcome(true, t, pages, isWhitespace) == Ok(TrimmedLayer(t))
    ensures !OcrInvoked(true, t)
  {
  }

  /** Threshold missed and OCR produced non-blank text: that text, trimmed, replaces the short one. */
  lemma ShortTextReplacedByOcr(t: TextLayer, pages: seq<PageRaster>, isWhitespace: char -> bool)
    requires !t.StripThrows? && Utf16Length(TrimmedLayer(t)) < OcrThreshold
    requires FirstRenderFailure(pages).None?
    requires !IsBlank(Accumulated(pages), isWhitespace)
    ensures ExtractOutcome(true, t, pages, isWhitespace) == Ok(JavaTrim(Accumulated(pages)))
  {
  }

  /** With line feeds counted as whitespace, pages that yield only blank text accumulate blank text. */
  lemma {:induction false} BlankPagesAccumulateBlank(pages: seq<PageRaster>, isWhitespace: char -> bool)
    requires isWhitespace('\n')
    requires forall i :: 0 <= i < |pages| ==> Contribution(pages[i]) == "" || IsBlank(pages[i].recognition.text, isWhitespace)
    ensures IsBlank(Accumulated(pages), isWhitespace)
  {
    if pages != [] {
      var init, last := pages[..|pages| - 1], pages[|pages| - 1];
      assert forall i :: 0 <= i < |init| ==> init[i] == pages[i];
      BlankPagesAccumulateBlank(init, isWhitespace);
      var a, c := Accumulated(init), Contribution(last);
      assert IsBlank(c, isWhitespace) by {
        if c != "" {
          assert c == last.recognition.text + LineSeparator;
        }
      }
      assert forall i :: 0 <= i < |a + c| ==> (a + c)[i] == if i < |a| then a[i] else c[i - |a|];
    }
  }

  /**
   * Threshold missed and every page renders but yields no text, null, an
   * exception or only whitespace: the short trimmed text is returned unchanged.
   */
  lemma ShortTextKeptWhenOcrYieldsNothing(t: TextLayer, pages: seq<PageRaster>, isWhitespace: char -> bool)
    requires !t.StripThrows? && Utf16Length(TrimmedLayer(t)) < OcrThreshold
    requires isWhitespace('\n')
    requires forall i :: 0 <= i < |pages| ==> pages[i].Renders?
    requires forall i :: 0 <= i < |pages| && pages[i].recognition.Recognized? ==>
               IsBlank(pages[i].recognition.text, isWhitespace)
    ensures ExtractOutcome(true, t, pages, isWhitespace) == Ok(TrimmedLayer(t))
  {
    BlankPagesAccumulateBlank(pages, isWhitespace);
  }

  /**
   * The threshold counts UTF-16 code units: 25 characters above U+FFFF make 50
   * units, so such a text is returned as it is and OCR is not invoked.
   */
  lemma SupplementaryCharactersCountTwice(pages: seq<PageRaster>, isWhitespace: char -> bool)
    ensures var text := seq(25, i => '\U{1D400}');
            ExtractOutcome(true, Stripped(text), pages, isWhitespace) == Ok(text)
            && !OcrInvoked(true, Stripped(text))
  {
    var text := seq(25, i => '\U{1D400}');
    assert forall c :: c in text ==> c as int > 0xFFFF;
    Utf16LengthOfSupplementary(text);
    TrimOfTrimmed(text, JavaTrimmable);
  }

  /**
   * A rendering failure during the fallback is an extraction failure: the short
   * text is not substituted.
   */
  lemma RenderFailureIsNotMasked(t: TextLayer, pages: seq<PageRaster>, isWhitespace: char -> bool, k: nat)
    requires !t.StripThrows? && Utf16Length(TrimmedLayer(t)) < OcrThreshold
    requires k < |pages| && pages[k].RenderThrows?
    ensures ExtractOutcome(true, t, pages, isWhitespace).Err?
    ensures ExtractOutcome(true, t, pages, isWhitespace).error.RenderFailed?
  {
  }

  /** The returned text never has leading or trailing characters that `trim` removes. */
  lemma ExtractedTextIsTrimmed(t: TextLayer, pages: seq<PageRaster>, isWhitespace: char -> bool)
    requires ExtractOutcome(true, t, pages, isWhitespace).Ok?
    ensures var s := ExtractOutcome(true, t, pages, isWhitespace).value;
            s == [] || (!JavaTrimmable(s[0]) && !JavaTrimmable(s[|s| - 1]))
  {
    var text := TrimmedLayer(t);
    var r := ExtractOutcome(true, t, pages, isWhitespace);
    if t.Stripped? {
      assert text == Trim(t.text, JavaTrimmable);
    }
    if Utf16Length(text) >= OcrThreshold {
      assert r.value == text;
    } else {
      var ocr := OcrOutcome(true, pages);
      assert ocr.Ok?;
      if IsBlank(ocr.value, isWhitespace) {
        assert r.value == text;
      } else {
        assert r.value == Trim(ocr.value, JavaTrimmable);
      }
    }
  }

  /**
   * OCR output that is not blank can still trim to nothing when it holds only
   * control characters that `isBlank` does not count as whitespace (such as
   * U+0000): then the empty string replaces the short text.
   */
  lemma NonBlankOcrCanTrimToEmpty(t: TextLayer, isWhitespace: char -> bool)
    requires !t.StripThrows? && Utf16Length(TrimmedLayer(t)) < OcrThreshold
    requires !isWhitespace('\0')
    ensures ExtractOutcome(true, t, [Renders(Recognized("\0"))], isWhitespace) == Ok("")
  {
    OnePageOcr("\0");
    NulLineTrimsToEmpty(isWhitespace);
  }

  lemma OnePageOcr(text: string)
    ensures OcrOutcome(true, [Renders(Recognized(text))]) == Ok(text + LineSeparator)
  {
    var p := Renders(Recognized(text));
    RenderingPrefixGrows([], p);
    assert [] + [p] == [p];
    assert Accumulated([]) + Contribution(p) == text + LineSeparator;
  }

  lemma NulLineTrimsToEmpty(isWhitespace: char -> bool)
    requires !isWhitespace('\0')
    ensures !IsBlank("\0" + LineSeparator, isWhitespace)
    ensures JavaTrim("\0" + LineSeparator) == ""
  {
    var ocr := "\0" + LineSeparator;
    assert ocr[0] == '\0';
    assert IsBlank(ocr, JavaTrimmable);
  }
}
