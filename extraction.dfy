/** Text extraction for one decoded PDF (app.py, `process_pdf`, lines 67-81):
    the native text layer joined in page order, the all-or-nothing OCR
    fallback below 100 stripped characters, and the empty-content check.
    The PDF library, the 300 DPI rasteriser and Tesseract are black boxes:
    each page carries what they produce for it. */
module Extraction {
  import opened Wrappers
  import opened PyText

  /** One page: its embedded text (`page.get_text("text")`, taken as
      never failing) and the outcome of rasterising it and running OCR on the
      image, either the recognised text or the text of the raised error. */
  datatype Page = Page(native: string, ocr: Result<string, string>)

  /** Why an ingestion fails, each kind carrying what `str(e)` shows. */
  datatype IngestError =
    | DecodeFailed(reason: string)    // `fitz.open` raised
    | OcrFailed(reason: string)       // rasterising or Tesseract raised
    | NoText                          // the 400 raised at app.py:81

  /** The fixed threshold under which a document counts as scanned. */
  const SCANNED_BELOW: nat := 100

  function NativeParts(pages: seq<Page>): (r: seq<string>)
    ensures |r| == |pages|
  {
    seq(|pages|, i requires 0 <= i < |pages| => pages[i].native)
  }

  /** `"".join(page.get_text("text") for page in doc)`. */
  function NativeText(pages: seq<Page>): (r: string)
  {
    Join(NativeParts(pages))
  }

  /** A one-page document's native text is that page's text, with nothing
      added; with `NativeTextAppend` this fixes the native text of every
      document. */
  lemma NativeTextOnePage(p: Page)
    ensures NativeText([p]) == p.native
  {
    assert NativeParts([p]) == [p.native];
    assert NativeParts([p])[..0] == [];
    assert Join([p.native]) == Join([]) + p.native;
  }

  /** The native text is empty exactly when no page has embedded text. */
  lemma NativeTextEmptyIff(pages: seq<Page>)
    ensures NativeText(pages) == [] <==> forall i :: 0 <= i < |pages| ==> pages[i].native == []
  {
    assert forall i :: 0 <= i < |pages| ==> NativeParts(pages)[i] == pages[i].native;
    JoinEmptyIff(NativeParts(pages));
  }

  /** The native text of a document is the native text of its first part
      followed directly by that of the rest: no separator between pages. */
  lemma NativeTextAppend(p: seq<Page>, q: seq<Page>)
    ensures NativeText(p + q) == NativeText(p) + NativeText(q)
  {
    assert NativeParts(p + q) == NativeParts(p) + NativeParts(q);
    JoinAppend(NativeParts(p), NativeParts(q));
  }

  /** Every page's text appears in the native text, at the position right
      after the text of the pages before it. */
  lemma NativeTextPageAt(pages: seq<Page>, k: nat)
    requires k < |pages|
    ensures var off := |NativeText(pages[..k])|;
            off + |pages[k].native| <= |NativeText(pages)| &&
            NativeText(pages)[off..off + |pages[k].native|] == pages[k].native
  {
    assert NativeParts(pages)[..k] == NativeParts(pages[..k]);
    JoinPartAt(NativeParts(pages), k);
  }

  /** The document is treated as scanned: `len(full_text.strip()) < 100`. */
  predicate Scanned(pages: seq<Page>)
  {
    |Strip(NativeText(pages))| < SCANNED_BELOW
  }

  predicate AllOcrOk(pages: seq<Page>)
  {
    forall i :: 0 <= i < |pages| ==> pages[i].ocr.Success?
  }

  /** What one page contributes on the OCR path: its text and a newline. */
  function OcrLines(pages: seq<Page>): (r: seq<string>)
    requires AllOcrOk(pages)
    ensures |r| == |pages|
  {
    seq(|pages|, i requires 0 <= i < |pages| && AllOcrOk(pages) => pages[i].ocr.value + "\n")
  }

  /** The OCR loop of app.py:72-77 as a function of the pages: every page in
      order, each result followed by "\n"; the first page whose OCR raises
      ends the loop with that error. */
  function OcrText(pages: seq<Page>): (r: Result<string, string>)
    ensures r.Success? ==> |r.value| >= |pages| && (pages != [] ==> r.value[|r.value| - 1] == '\n')
  {
    if pages == [] then Success("")
    else
      match OcrText(pages[..|pages| - 1])
      case Failure(e) => Failure(e)
      case Success(t) =>
        match pages[|pages| - 1].ocr
        case Failure(e) => Failure(e)
        case Success(s) => Success(t + s + "\n")
  }

  /** Once OCR has failed on a prefix, later pages do not change the outcome. */
  lemma {:induction false} OcrFailureFinal(p: seq<Page>, q: seq<Page>)
    requires OcrText(p).Failure?
    ensures OcrText(p + q) == OcrText(p)
    decreases |q|
  {
    if q == [] {
      assert p + q == p;
    } else {
      assert (p + q)[..|p + q| - 1] == p + q[..|q| - 1];
      OcrFailureFinal(p, q[..|q| - 1]);
    }
  }

  /** OCR succeeds exactly when it succeeds on every page, and then its text
      is the in-order join of `ocr(page) + "\n"`. */
  lemma {:induction false} OcrTextSucceeds(pages: seq<Page>)
    ensures OcrText(pages).Success? <==> AllOcrOk(pages)
    ensures AllOcrOk(pages) ==> OcrText(pages) == Success(Join(OcrLines(pages)))
  {
    if pages != [] {
      var init := pages[..|pages| - 1];
      OcrTextSucceeds(init);
      if AllOcrOk(pages) {
        assert AllOcrOk(init);
        var lines := OcrLines(pages);
        assert lines[..|lines| - 1] == OcrLines(init);
        assert Join(lines) == Join(OcrLines(init)) + (pages[|pages| - 1].ocr.value + "\n");
        assert OcrText(init) == Success(Join(OcrLines(init)));
        assert pages[|pages| - 1].ocr.Success?;
        assert OcrText(pages) == Success(Join(OcrLines(init)) + pages[|pages| - 1].ocr.value + "\n");
        assert Join(OcrLines(init)) + pages[|pages| - 1].ocr.value + "\n" == Join(lines);
      } else if AllOcrOk(init) {
        assert pages[|pages| - 1].ocr.Failure?;
      }
    }
  }

  /** When OCR fails, the error is that of the first page whose OCR fails. */
  lemma OcrStopsAtFirstFailure(pages: seq<Page>, k: nat)
    requires k < |pages| && pages[k].ocr.Failure?
    requires forall j :: 0 <= j < k ==> pages[j].ocr.Success?
    ensures OcrText(pages) == Failure(pages[k].ocr.error)
  {
    OcrTextSucceeds(pages[..k]);
    assert pages[..k + 1][..k] == pages[..k];
    assert pages == pages[..k + 1] + pages[k + 1..];
    OcrFailureFinal(pages[..k + 1], pages[k + 1..]);
  }

  /** The OCR result depends on the pages' OCR outcomes only, never on
      their native text. */
  lemma {:induction false} OcrIgnoresNative(p: seq<Page>, q: seq<Page>)
    requires |p| == |q| && forall i :: 0 <= i < |p| ==> p[i].ocr == q[i].ocr
    ensures OcrText(p) == OcrText(q)
  {
    if p != [] {
      OcrIgnoresNative(p[..|p| - 1], q[..|q| - 1]);
    }
  }

  /** The OCR loop of app.py:72-77: `full_text = ""`, then for each page in
      order `full_text += image_to_string(img) + "\n"`; an exception from
      the provider leaves the loop at once. */
  method RunOcr(pages: seq<Page>) returns (r: Result<string, string>)
    ensures r == OcrText(pages)
  {
    var text := "";
    var i := 0;
    while i < |pages|
      invariant 0 <= i <= |pages|
      invariant OcrText(pages[..i]) == Success(text)
    {
      assert pages[..i + 1][..i] == pages[..i];
      match pages[i].ocr
      case Failure(e) =>
        assert pages == pages[..i + 1] + pages[i + 1..];
        OcrFailureFinal(pages[..i + 1], pages[i + 1..]);
        return Failure(e);
      case Success(s) =>
        text := text + s + "\n";
      i := i + 1;
    }
    assert pages[..i] == pages;
    r := Success(text);
  }

  /** The check at app.py:80-81 on the text either path produced. */
  function NonEmpty(text: string): (r: Result<string, IngestError>)
    ensures r.Failure? <==> AllWs(text)
    ensures r.Failure? ==> r.error == NoText
    ensures r.Success? ==> r.value == text
  {
    StripEmptyIff(text);
    if Strip(text) == [] then Failure(NoText) else Success(text)
  }

  /** The whole extraction of app.py:68-81 on a decoded document: the text
      that `process_pdf` goes on to store, or why it fails. */
  function ExtractText(pages: seq<Page>): (r: Result<string, IngestError>)
    ensures r.Success? ==> Strip(r.value) != []
  {
    if Scanned(pages) then
      match OcrText(pages)
      case Failure(e) => Failure(OcrFailed(e))
      case Success(t) => NonEmpty(t)
    else NonEmpty(NativeText(pages))
  }

  /** Successful extraction always yields text that is not blank, and that
      text is the native text or the OCR text according to the threshold
      alone, never a page-by-page mix of the two. */
  lemma ExtractTextIsOneSource(pages: seq<Page>)
    ensures ExtractText(pages).Success? ==> Strip(ExtractText(pages).value) != []
    ensures !Scanned(pages) ==> ExtractText(pages) == Success(NativeText(pages))
    ensures Scanned(pages) ==>
              (ExtractText(pages).Success? <==> AllOcrOk(pages) && Strip(Join(OcrLines(pages))) != [])
    ensures Scanned(pages) && ExtractText(pages).Success? ==>
              AllOcrOk(pages) && ExtractText(pages).value == Join(OcrLines(pages))
  {
    OcrTextSucceeds(pages);
  }

  /** Below the threshold the native text is discarded: two documents whose
      pages have the same OCR outcomes extract identically, whatever their
      embedded text. */
  lemma ScannedIgnoresNative(p: seq<Page>, q: seq<Page>)
    requires |p| == |q| && forall i :: 0 <= i < |p| ==> p[i].ocr == q[i].ocr
    requires Scanned(p) && Scanned(q)
    ensures ExtractText(p) == ExtractText(q)
  {
    OcrIgnoresNative(p, q);
  }

  /** At or above the threshold OCR is never consulted: two documents whose
      pages have the same embedded text extract identically, whatever their
      OCR outcomes (a failing OCR provider included). */
  lemma NativeIgnoresOcr(p: seq<Page>, q: seq<Page>)
    requires |p| == |q| && forall i :: 0 <= i < |p| ==> p[i].native == q[i].native
    requires !Scanned(p)
    ensures !Scanned(q)
    ensures ExtractText(p) == ExtractText(q) == Success(NativeText(p))
  {
    assert NativeParts(p) == NativeParts(q);
  }

  /** The boundary: native text of exactly 100 non-whitespace characters is
      kept; with 99 the OCR path runs instead. */
  lemma ThresholdBoundary(pages: seq<Page>)
    requires forall i :: 0 <= i < |NativeText(pages)| ==> !IsWs(NativeText(pages)[i])
    ensures |NativeText(pages)| == 100 ==> ExtractText(pages) == Success(NativeText(pages))
    ensures |NativeText(pages)| == 99 ==> Scanned(pages)
  {
    var native := NativeText(pages);
    assert |Strip(native)| == |native| by {
      StripNoWhitespace(native);
    }
    if |native| == 100 {
      assert !Scanned(pages);
      ExtractTextIsOneSource(pages);
    }
  }

  /** A document without pages has no native text, no OCR text, and fails
      the empty-content check. */
  lemma ZeroPagesHaveNoText()
    ensures NativeText([]) == "" && OcrText([]) == Success("")
    ensures ExtractText([]) == Failure(NoText)
  {
    assert Strip("") == "";
  }

  /** A two-page scan without embedded text: OCR runs once per page, in
      order, and the result is `p1 + "\n" + p2 + "\n"`. */
  lemma TwoPageScan(a: string, b: string)
    requires Strip(a + "\n" + b + "\n") != []
    ensures ExtractText([Page("", Success(a)), Page("", Success(b))]) == Success(a + "\n" + b + "\n")
  {
    var pages := [Page("", Success(a)), Page("", Success(b))];
    assert Scanned(pages) by {
      NativeTextEmptyIff(pages);
      assert Strip("") == "";
    }
    TwoPageOcr(pages[0], pages[1]);
  }

  /** OCR on two pages that both succeed: the first page's text, then the
      second's, each followed by a newline. */
  lemma TwoPageOcr(p1: Page, p2: Page)
    requires p1.ocr.Success? && p2.ocr.Success?
    ensures OcrText([p1, p2]) == Success(p1.ocr.value + "\n" + p2.ocr.value + "\n")
  {
    assert OcrText([p1]) == Success(p1.ocr.value + "\n") by {
      assert [p1][..0] == [];
      assert "" + p1.ocr.value + "\n" == p1.ocr.value + "\n";
    }
    assert [p1, p2][..1] == [p1];
  }

}
