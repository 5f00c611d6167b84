/** `pdf_extractor.py`: both extractors open a document, walk its pages in
    order, keep the text of every page that is not whitespace-only, and join
    the kept texts with a blank line. Opening the document and reading a
    page's text are PyMuPDF calls; here they are given: `open(path)` or
    `openStream(bytes)` yields the document as the outcome of reading each of
    its pages, or the failure that opening it raised. */
module PdfExtractor {
  import opened Wrappers
  import opened Seqs
  import opened PyStrings

  /** What `page.get_text()` gave for one page: its text, or the failure it raised. */
  datatype PageRead = PageText(text: string) | PageFailure(detail: string)

  /** What `fitz.open` gave: the document's pages in order, or the failure it raised. */
  datatype Document = OpenFailure(detail: string) | Opened(pages: seq<PageRead>)

  const ExtractErrorPrefix := "Failed to extract text from PDF: "
  const PageSeparator := "\n\n"

  /** `if text.strip():` — the page has some non-whitespace character. */
  predicate IsContentPage(text: string) {
    Strip(text) != ""
  }

  /** The page test is exactly "not whitespace-only". */
  lemma ContentPageIffNotBlank(text: string)
    ensures IsContentPage(text) <==> !IsBlank(text)
  {
  }

  /** The list the loop builds, for the pages it visits: the texts of the
      content pages in order, or the failure of the first page that could not
      be read. */
  function KeptPages(pages: seq<PageRead>): Result<seq<string>, string>
  {
    if pages == [] then Ok([])
    else
      match KeptPages(pages[..|pages| - 1])
      case Err(d) => Err(d)
      case Ok(kept) =>
        match pages[|pages| - 1]
        case PageFailure(d) => Err(d)
        case PageText(t) => Ok(kept + if IsContentPage(t) then [t] else [])
  }

  /** What an extractor returns or raises for an opened (or unopenable)
      document. Both failures carry the same prefix. */
  function Extraction(doc: Document): Result<string, string>
  {
    match doc
    case OpenFailure(d) => Err(ExtractErrorPrefix + d)
    case Opened(pages) =>
      match KeptPages(pages)
      case Err(d) => Err(ExtractErrorPrefix + d)
      case Ok(kept) => Ok(Join(PageSeparator, kept))
  }

  /** Once a page fails, later pages do not matter. */
  lemma {:induction false} FailurePersists(pages: seq<PageRead>, k: nat)
    requires k <= |pages| && KeptPages(pages[..k]).Err?
    ensures KeptPages(pages) == KeptPages(pages[..k])
  {
    if k < |pages| {
      var init := pages[..|pages| - 1];
      assert init[..k] == pages[..k];
      FailurePersists(init, k);
    } else {
      assert pages[..k] == pages;
    }
  }

  /** The page loop of lines 24-28 (and 53-57): visit every page in order,
      append the text of each content page, and stop at the first page whose
      text cannot be read. */
  method ReadPages(pages: seq<PageRead>) returns (r: Result<seq<string>, string>)
    ensures r == KeptPages(pages)
  {
    var textContent: seq<string> := [];
    for pageNum := 0 to |pages|
      invariant KeptPages(pages[..pageNum]) == Ok(textContent)
    {
      assert pages[..pageNum + 1][..pageNum] == pages[..pageNum];
      var page := pages[pageNum];
      if page.PageFailure? {
        FailurePersists(pages, pageNum + 1);
        return Err(page.detail);
      }
      var text := page.text;
      if IsContentPage(text) {
        textContent := textContent + [text];
      } else {
        assert textContent + [] == textContent;
      }
    }
    assert pages[..|pages|] == pages;
    return Ok(textContent);
  }

  /** Lines 19-35 of `extract_text_from_pdf`: open, read the pages, join;
      any failure is re-raised with the extraction prefix. */
  method ExtractTextFromPdf(pdfPath: string, open: string -> Document) returns (r: Result<string, string>)
    ensures r == Extraction(open(pdfPath))
  {
    var doc := open(pdfPath);
    if doc.OpenFailure? {
      return Err(ExtractErrorPrefix + doc.detail);
    }
    var textContent := ReadPages(doc.pages);
    if textContent.Err? {
      return Err(ExtractErrorPrefix + textContent.error);
    }
    return Ok(Join(PageSeparator, textContent.value));
  }

  /** Lines 48-64 of `extract_text_from_bytes`: the same loop over a document
      opened from the uploaded bytes. */
  method ExtractTextFromBytes(pdfBytes: seq<bv8>, openStream: seq<bv8> -> Document) returns (r: Result<string, string>)
    ensures r == Extraction(openStream(pdfBytes))
  {
    var doc := openStream(pdfBytes);
    if doc.OpenFailure? {
      return Err(ExtractErrorPrefix + doc.detail);
    }
    var textContent := ReadPages(doc.pages);
    if textContent.Err? {
      return Err(ExtractErrorPrefix + textContent.error);
    }
    return Ok(Join(PageSeparator, textContent.value));
  }

  // ------------------------------------------------------------ properties

  /** The text of every page, when every page can be read. */
  predicate AllReadable(pages: seq<PageRead>) {
    forall i :: 0 <= i < |pages| ==> pages[i].PageText?
  }

  function Texts(pages: seq<PageRead>): (texts: seq<string>)
    requires AllReadable(pages)
    ensures |texts| == |pages|
    ensures forall i :: 0 <= i < |pages| ==> texts[i] == pages[i].text
  {
    seq(|pages|, i requires 0 <= i < |pages| => pages[i].text)
  }

  /** When every page can be read, the kept texts are exactly the content
      pages' texts, in document order. */
  lemma {:induction false} ReadableKeepsContentPages(pages: seq<PageRead>)
    requires AllReadable(pages)
    ensures KeptPages(pages) == Ok(Filter(IsContentPage, Texts(pages)))
  {
    if pages != [] {
      var init := pages[..|pages| - 1];
      ReadableKeepsContentPages(init);
      assert Texts(pages)[..|pages| - 1] == Texts(init);
    }
  }

  /** Kept pages appear in document order and unmodified: the j-th kept text
      is the text of the j-th content page, positions increase, and every
      content page is kept. */
  lemma KeptPagesInOrder(pages: seq<PageRead>)
    requires AllReadable(pages)
    ensures KeptPages(pages).Ok?
    ensures var kept, idx := KeptPages(pages).value, FilterIndices(IsContentPage, Texts(pages));
              && |kept| == |idx|
              && (forall j :: 0 <= j < |idx| ==> idx[j] < |pages| && kept[j] == pages[idx[j]].text)
              && (forall j, k :: 0 <= j < k < |idx| ==> idx[j] < idx[k])
              && (forall i :: 0 <= i < |pages| ==> (IsContentPage(pages[i].text) <==> i in idx))
  {
    ReadableKeepsContentPages(pages);
    FilterSelects(IsContentPage, Texts(pages));
  }

  /** No whitespace-only page is ever kept. */
  lemma {:induction false} KeptPagesNeverBlank(pages: seq<PageRead>)
    requires KeptPages(pages).Ok?
    ensures forall j :: 0 <= j < |KeptPages(pages).value| ==> !IsBlank(KeptPages(pages).value[j])
  {
    if pages != [] {
      KeptPagesNeverBlank(pages[..|pages| - 1]);
    }
  }

  /** The first page that cannot be read decides the failure. */
  lemma {:induction false} FirstFailureReported(pages: seq<PageRead>, i: nat)
    requires i < |pages| && pages[i].PageFailure?
    requires forall k :: 0 <= k < i ==> pages[k].PageText?
    ensures KeptPages(pages) == Err(pages[i].detail)
    ensures Extraction(Opened(pages)) == Err(ExtractErrorPrefix + pages[i].detail)
  {
    var prefix := pages[..i];
    assert AllReadable(prefix);
    ReadableKeepsContentPages(prefix);
    assert pages[..i + 1][..i] == prefix;
    FailurePersists(pages, i + 1);
  }

  /** The result is the kept texts joined by a blank line; with no content
      page it is empty, with one it is that page's text. */
  lemma ExtractionJoinsKeptPages(doc: Document)
    requires doc.Opened? && KeptPages(doc.pages).Ok?
    ensures var kept := KeptPages(doc.pages).value;
              && Extraction(doc) == Ok(Join(PageSeparator, kept))
              && (kept == [] ==> Extraction(doc) == Ok(""))
              && (|kept| == 1 ==> Extraction(doc) == Ok(kept[0]))
              && (|kept| >= 2 ==> Extraction(doc) == Ok(kept[0] + PageSeparator + Join(PageSeparator, kept[1..])))
  {
  }

  /** A document of whitespace-only pages extracts to the empty text. */
  lemma {:induction false} BlankDocumentIsEmpty(pages: seq<PageRead>)
    requires forall i :: 0 <= i < |pages| ==> pages[i].PageText? && IsBlank(pages[i].text)
    ensures Extraction(Opened(pages)) == Ok("")
  {
    if pages != [] {
      BlankDocumentIsEmpty(pages[..|pages| - 1]);
    }
  }

  /** Every failure, from opening or from a page, carries the extraction prefix. */
  lemma ExtractionErrorsArePrefixed(doc: Document)
    ensures Extraction(doc).Err? ==> StartsWith(Extraction(doc).error, ExtractErrorPrefix)
    ensures doc.OpenFailure? ==> Extraction(doc) == Err(ExtractErrorPrefix + doc.detail)
    ensures doc.Opened? ==> (Extraction(doc).Err? <==> KeptPages(doc.pages).Err?)
  {
  }
}
