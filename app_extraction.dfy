/**
 * Text extraction of the Streamlit app: selectable text page by page, a
 * configurable character threshold, and an OCR fallback that recognises every
 * page image and joins the results with line feeds. The result carries a flag
 * telling whether the threshold was missed.
 *
 * The PDF reader, the rasteriser and the OCR engine are not modelled; their
 * outcomes for a document are inputs. `isSpace` is the whitespace class of
 * Python's `str.strip()`.
 */
module AppExtraction {
  import opened Text
  import opened AppStrings

  /** What `page.extract_text()` does for one page. */
  datatype PageRead = PageText(text: string) | PageNone | PageRaises

  /** What `PdfReader(...)` does: raise, or give the pages. */
  datatype Reader = ReaderRaises | Reader(pages: seq<PageRead>)

  /** What `pytesseract.image_to_string` does for one page image. */
  datatype ImageRead = ImageText(text: string) | ImageNone | ImageRaises

  /** What `convert_from_bytes` does: raise, or give one image per page. */
  datatype Raster = ConvertRaises | Images(images: seq<ImageRead>)

  /** An exception leaving the OCR fallback. */
  datatype AppError = OcrRaised

  datatype Result<+T> = Ok(value: T) | Err(error: AppError)

  /** Separator between the texts of consecutive pages. */
  const PageSeparator := "\n\n"

  /** Separator between the OCR texts of consecutive page images. */
  const ImageSeparator := "\n"

  /** The stripped text of one page, kept only when it is not empty. */
  function KeptText(p: PageRead, isSpace: char -> bool): seq<string> {
    if p.PageText? && Trim(p.text, isSpace) != [] then [Trim(p.text, isSpace)] else []
  }

  /** The texts kept from the given pages, in page order. */
  function KeptPages(pages: seq<PageRead>, isSpace: char -> bool): seq<string> {
    if pages == [] then [] else KeptPages(pages[..|pages| - 1], isSpace) + KeptText(pages[|pages| - 1], isSpace)
  }

  predicate AnyPageRaises(pages: seq<PageRead>) {
    exists k :: 0 <= k < |pages| && pages[k].PageRaises?
  }

  /** Reading one more page that does not raise extends the kept texts by that page's text. */
  lemma NextPage(pages: seq<PageRead>, i: nat, isSpace: char -> bool)
    requires i < |pages| && !AnyPageRaises(pages[..i]) && !pages[i].PageRaises?
    ensures !AnyPageRaises(pages[..i + 1])
    ensures KeptPages(pages[..i + 1], isSpace) == KeptPages(pages[..i], isSpace) + KeptText(pages[i], isSpace)
  {
    var prefix := pages[..i + 1];
    assert prefix[..i] == pages[..i];
    forall k | 0 <= k < i + 1 ensures !prefix[k].PageRaises? {
      if k < i {
        assert prefix[k] == pages[..i][k];
      }
    }
  }

  /** The selectable text: "" when the reader or any page raises. */
  function SelectableText(reader: Reader, isSpace: char -> bool): string {
    if reader.ReaderRaises? || AnyPageRaises(reader.pages) then ""
    else Trim(Join(PageSeparator, KeptPages(reader.pages, isSpace)), isSpace)
  }

  /** What one page image contributes to the OCR text; a falsy result counts as "". */
  function ImageTextOf(im: ImageRead): string {
    if im.ImageText? then im.text else ""
  }

  function ImageTexts(images: seq<ImageRead>): (parts: seq<string>)
    ensures |parts| == |images|
    ensures forall i :: 0 <= i < |images| ==> parts[i] == ImageTextOf(images[i])
  {
    if images == [] then [] else ImageTexts(images[..|images| - 1]) + [ImageTextOf(images[|images| - 1])]
  }

  predicate AnyImageRaises(images: seq<ImageRead>) {
    exists k :: 0 <= k < |images| && images[k].ImageRaises?
  }

  /** Recognising one more image that does not raise appends its text. */
  lemma NextImage(images: seq<ImageRead>, i: nat)
    requires i < |images| && !AnyImageRaises(images[..i]) && !images[i].ImageRaises?
    ensures !AnyImageRaises(images[..i + 1])
    ensures ImageTexts(images[..i + 1]) == ImageTexts(images[..i]) + [ImageTextOf(images[i])]
  {
    var prefix := images[..i + 1];
    assert prefix[..i] == images[..i];
    forall k | 0 <= k < i + 1 ensures !prefix[k].ImageRaises? {
      if k < i {
        assert prefix[k] == images[..i][k];
      }
    }
  }

  /** What `ocr_pdf_text` returns. */
  function OcrOutcome(raster: Raster): Result<string> {
    if raster.ConvertRaises? || AnyImageRaises(raster.images) then Err(OcrRaised)
    else Ok(Join(ImageSeparator, ImageTexts(raster.images)))
  }

  /** What `extract_pdf_text` returns: the cleaned text and whether OCR was attempted. */
  function ExtractOutcome(reader: Reader, raster: Raster, threshold: nat, isSpace: char -> bool): Result<(string, bool)> {
    var extracted := SelectableText(reader, isSpace);
    if |extracted| >= threshold then Ok((CleanText(extracted, isSpace), false))
    else match OcrOutcome(raster)
      case Err(e) => Err(e)
      case Ok(ocr) =>
        var t := Trim(ocr, isSpace);
        if t != [] then Ok((CleanText(t, isSpace), true)) else Ok((CleanText(extracted, isSpace), true))
  }

  /**
   * `ocr_pdf_text`: recognises each page image in order, reading a falsy
   * result as "", and joins the results with line feeds. An exception from
   * the rasteriser or the engine leaves the function.
   */
  method OcrPdfText(raster: Raster) returns (r: Result<string>)
    ensures r == OcrOutcome(raster)
  {
    if raster.ConvertRaises? {
      return Err(OcrRaised);
    }
    var images := raster.images;
    var parts: seq<string> := [];
    for i := 0 to |images|
      invariant parts == ImageTexts(images[..i])
      invariant !AnyImageRaises(images[..i])
    {
      var image := images[i];
      if image.ImageRaises? {
        assert AnyImageRaises(images) by { assert images[i].ImageRaises?; }
        return Err(OcrRaised);
      }
      var text := if image.ImageText? then image.text else "";
      parts := parts + [text];
      NextImage(images, i);
    }
    assert images[..|images|] == images;
    r := Ok(Join(ImageSeparator, parts));
  }

  /**
   * The selectable-text part of `extract_pdf_text`: strips each page's text,
   * drops empty pages and joins the rest with blank lines; an exception from
   * the reader or from any page gives "".
   */
  method ReadSelectableText(reader: Reader, isSpace: char -> bool) returns (extracted: string)
    ensures extracted == SelectableText(reader, isSpace)
  {
    if reader.ReaderRaises? {
      return "";
    }
    var pdfPages := reader.pages;
    var pages: seq<string> := [];
    for i := 0 to |pdfPages|
      invariant !AnyPageRaises(pdfPages[..i])
      invariant pages == KeptPages(pdfPages[..i], isSpace)
    {
      var page := pdfPages[i];
      if page.PageRaises? {
        assert AnyPageRaises(pdfPages) by { assert pdfPages[i].PageRaises?; }
        return "";
      }
      var text := if page.PageText? then page.text else "";
      var stripped := Trim(text, isSpace);
      if stripped != [] {
        pages := pages + [stripped];
      }
      assert pages == KeptPages(pdfPages[..i], isSpace) + KeptText(page, isSpace);
      NextPage(pdfPages, i, isSpace);
    }
    assert pdfPages[..|pdfPages|] == pdfPages;
    extracted := Trim(Join(PageSeparator, pages), isSpace);
  }

  /**
   * `extract_pdf_text`: with at least `threshold` characters of selectable
   * text it returns the cleaned text and `false`; otherwise it runs OCR and
   * returns the cleaned OCR text, or the cleaned selectable text when OCR
   * yields nothing, with `true`. An exception from OCR leaves the function.
   */
  method ExtractPdfText(reader: Reader, raster: Raster, threshold: nat, isSpace: char -> bool)
    returns (r: Result<(string, bool)>)
    ensures r == ExtractOutcome(reader, raster, threshold, isSpace)
  {
    var extracted := ReadSelectableText(reader, isSpace);
    if |extracted| >= threshold {
      return Ok((CleanText(extracted, isSpace), false));
    }
    var ocr := OcrPdfText(raster);
    if ocr.Err? {
      return Err(ocr.error);
    }
    var ocrText := Trim(ocr.value, isSpace);
    if ocrText != [] {
      return Ok((CleanText(ocrText, isSpace), true));
    }
    r := Ok((CleanText(extracted, isSpace), true));
  }

  // ---------------------------------------------------------------------------
  // Properties

  /** A non-empty text with no whitespace at either end. */
  predicate IsStrippedText(t: string, isSpace: char -> bool) {
    t != [] && !isSpace(t[0]) && !isSpace(t[|t| - 1])
  }

  /** Every kept page text is non-empty and already stripped. */
  lemma {:induction false} KeptPagesAreStripped(pages: seq<PageRead>, isSpace: char -> bool)
    ensures forall t :: t in KeptPages(pages, isSpace) ==> IsStrippedText(t, isSpace)
  {
    if pages != [] {
      var init := pages[..|pages| - 1];
      KeptPagesAreStripped(init, isSpace);
      KeptTextIsStripped(pages[|pages| - 1], isSpace);
      AllStrippedAppend(KeptPages(init, isSpace), KeptText(pages[|pages| - 1], isSpace), isSpace);
    }
  }

  lemma KeptTextIsStripped(p: PageRead, isSpace: char -> bool)
    ensures forall t :: t in KeptText(p, isSpace) ==> IsStrippedText(t, isSpace)
  {
  }

  lemma AllStrippedAppend(a: seq<string>, b: seq<string>, isSpace: char -> bool)
    requires forall t :: t in a ==> IsStrippedText(t, isSpace)
    requires forall t :: t in b ==> IsStrippedText(t, isSpace)
    ensures forall t :: t in a + b ==> IsStrippedText(t, isSpace)
  {
  }

  /**
   * The final `strip()` of the joined pages changes nothing: the join starts
   * with the first kept page and ends with the last, both already stripped.
   */
  lemma JoinedPagesAreStripped(pages: seq<PageRead>, isSpace: char -> bool)
    ensures var kept := KeptPages(pages, isSpace);
            Trim(Join(PageSeparator, kept), isSpace) == Join(PageSeparator, kept)
  {
    var kept := KeptPages(pages, isSpace);
    var j := Join(PageSeparator, kept);
    if kept != [] {
      KeptPagesAreStripped(pages, isSpace);
      var first, last := kept[0], kept[|kept| - 1];
      assert IsStrippedText(first, isSpace) && IsStrippedText(last, isSpace);
      JoinStartsWithFirst(PageSeparator, kept);
      JoinEndsWithLast(PageSeparator, kept);
      assert j[0] == j[..|first|][0] == first[0];
      assert j[|j| - 1] == j[|j| - |last|..][|last| - 1] == last[|last| - 1];
    }
    TrimOfTrimmed(j, isSpace);
  }

  /** Threshold met: the cleaned selectable text with `false`, whatever OCR would do. */
  lemma ThresholdMetSkipsOcr(reader: Reader, raster: Raster, threshold: nat, isSpace: char -> bool)
    requires |SelectableText(reader, isSpace)| >= threshold
    ensures ExtractOutcome(reader, raster, threshold, isSpace)
            == Ok((CleanText(SelectableText(reader, isSpace), isSpace), false))
  {
  }

  /** Threshold missed and OCR yields text: the cleaned OCR text with `true`. */
  lemma ThresholdMissedUsesOcr(reader: Reader, raster: Raster, threshold: nat, isSpace: char -> bool)
    requires |SelectableText(reader, isSpace)| < threshold
    requires OcrOutcome(raster).Ok? && Trim(OcrOutcome(raster).value, isSpace) != []
    ensures ExtractOutcome(reader, raster, threshold, isSpace)
            == Ok((CleanText(Trim(OcrOutcome(raster).value, isSpace), isSpace), true))
  {
  }

  /** Threshold missed and OCR yields only whitespace: the cleaned selectable text, still with `true`. */
  lemma ThresholdMissedKeepsSelectable(reader: Reader, raster: Raster, threshold: nat, isSpace: char -> bool)
    requires |SelectableText(reader, isSpace)| < threshold
    requires OcrOutcome(raster).Ok? && IsBlank(OcrOutcome(raster).value, isSpace)
    ensures ExtractOutcome(reader, raster, threshold, isSpace)
            == Ok((CleanText(SelectableText(reader, isSpace), isSpace), true))
  {
  }

  /**
   * The flag is true exactly when the threshold was missed, and the text is
   * always cleaned: normalised, with no whitespace at either end.
   */
  lemma ExtractOutcomeShape(reader: Reader, raster: Raster, threshold: nat, isSpace: char -> bool)
    requires ExtractOutcome(reader, raster, threshold, isSpace).Ok?
    ensures var (text, usedOcr) := ExtractOutcome(reader, raster, threshold, isSpace).value;
            (usedOcr <==> |SelectableText(reader, isSpace)| < threshold)
            && Normalised(text) && (text == [] || (!isSpace(text[0]) && !isSpace(text[|text| - 1])))
  {
    var extracted := SelectableText(reader, isSpace);
    CleanTextIsNormalised(extracted, isSpace);
    if OcrOutcome(raster).Ok? {
      CleanTextIsNormalised(Trim(OcrOutcome(raster).value, isSpace), isSpace);
    }
  }

  /** A page that raises while the text is read discards the text of every page. */
  lemma PageRaiseDiscardsAll(pages: seq<PageRead>, k: nat, isSpace: char -> bool)
    requires k < |pages| && pages[k].PageRaises?
    ensures SelectableText(Reader(pages), isSpace) == ""
  {
  }

  /** The OCR text starts with the first page image's text and ends with the last one's. */
  lemma OcrTextRunsFromFirstToLastImage(images: seq<ImageRead>)
    requires !AnyImageRaises(images) && images != []
    ensures OcrOutcome(Images(images)).Ok?
    ensures StartsWith(OcrOutcome(Images(images)).value, ImageTextOf(images[0]))
    ensures EndsWith(OcrOutcome(Images(images)).value, ImageTextOf(images[|images| - 1]))
  {
    JoinStartsWithFirst(ImageSeparator, ImageTexts(images));
    JoinEndsWithLast(ImageSeparator, ImageTexts(images));
  }
}
