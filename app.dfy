/** The request-facing part of app.py: the single global slot
    `document_state` (line 52), `process_pdf` (lines 63-89), which fills it
    only on success and turns every exception into an HTTP 500, and the
    guard of `ask_question` (lines 103-104). */
module App {
  import opened Wrappers
  import opened PyText
  import opened Extraction

  /** An `HTTPException`: status code and detail text. */
  datatype HttpError = HttpError(status: nat, detail: string)

  const NO_TEXT_DETAIL := "Could not extract any text from the PDF."
  const NO_DOCUMENT_DETAIL := "No PDF has been processed yet."
  const MESSAGE_HEAD := "Successfully processed '"
  const MESSAGE_TAIL := "'. Ready to answer questions."

  /** `str(e)` for each failure. The library and OCR errors carry their own
      text; the 400 raised at line 81 prints as `"<status>: <detail>"`. */
  function Detail(f: IngestError): (r: string)
    ensures f.DecodeFailed? || f.OcrFailed? ==> r == f.reason
    ensures f.NoText? ==> |r| > 5 && r[..5] == "400: " && r[5..] == NO_TEXT_DETAIL
  {
    match f
    case DecodeFailed(reason) => reason
    case OcrFailed(reason) => reason
    case NoText => "400: " + NO_TEXT_DETAIL
  }

  /** The confirmation returned at line 86. */
  function SuccessMessage(filename: string): (r: string)
    ensures |r| == |MESSAGE_HEAD| + |filename| + |MESSAGE_TAIL|
    ensures r[..|MESSAGE_HEAD|] == MESSAGE_HEAD && r[|r| - |MESSAGE_TAIL|..] == MESSAGE_TAIL
  {
    MESSAGE_HEAD + filename + MESSAGE_TAIL
  }

  /** The confirmation quotes the file name verbatim, so different names
      give different confirmations. */
  lemma SuccessMessageNamesFile(a: string, b: string)
    ensures SuccessMessage(a)[|MESSAGE_HEAD|..|MESSAGE_HEAD| + |a|] == a
    ensures SuccessMessage(a) == SuccessMessage(b) ==> a == b
  {
    if SuccessMessage(a) == SuccessMessage(b) {
      assert |a| == |b|;
      assert a == SuccessMessage(a)[|MESSAGE_HEAD|..|MESSAGE_HEAD| + |a|];
    }
  }

  /** The outcome of `fitz.open`: a decoded document or the error text. */
  function Ingest(decoded: Result<seq<Page>, string>): Result<string, IngestError>
  {
    match decoded
    case Failure(reason) => Failure(DecodeFailed(reason))
    case Success(pages) => ExtractText(pages)
  }

  /** What `process_pdf` returns or raises for an extraction outcome: the
      `except Exception` at lines 87-89 re-raises everything as a 500. */
  function Respond(outcome: Result<string, IngestError>, filename: string): (r: Result<string, HttpError>)
    ensures r.Success? <==> outcome.Success?
    ensures r.Success? ==> r.value == SuccessMessage(filename)
    ensures r.Failure? ==> r.error.status == 500 && r.error.detail == Detail(outcome.error)
  {
    match outcome
    case Success(_) => Success(SuccessMessage(filename))
    case Failure(f) => Failure(HttpError(500, Detail(f)))
  }

  /** Every failed upload answers 500, the empty-content 400 included, whose
      text survives inside the 500's detail. */
  lemma EveryFailureIs500(decoded: Result<seq<Page>, string>, filename: string)
    ensures Respond(Ingest(decoded), filename).Failure? <==> Ingest(decoded).Failure?
    ensures Respond(Ingest(decoded), filename).Failure? ==>
              Respond(Ingest(decoded), filename).error.status == 500
    ensures Ingest(decoded) == Failure(NoText) ==>
              Respond(Ingest(decoded), filename) == Failure(HttpError(500, "400: " + NO_TEXT_DETAIL))
    ensures decoded == Success([]) ==>
              Respond(Ingest(decoded), filename) == Failure(HttpError(500, "400: " + NO_TEXT_DETAIL))
  {
    ZeroPagesHaveNoText();
  }

  /** `doc.close()` at line 78 is reached unless the OCR loop raised. */
  predicate ReachesClose(pages: seq<Page>)
  {
    !Scanned(pages) || AllOcrOk(pages)
  }

  /** The handle is left open exactly when extraction failed inside OCR. */
  lemma CloseSkippedOnlyByOcrFailure(pages: seq<Page>)
    ensures !ReachesClose(pages) <==> ExtractText(pages).Failure? && ExtractText(pages).error.OcrFailed?
  {
    if Scanned(pages) {
      OcrTextSucceeds(pages);
      if AllOcrOk(pages) {
        assert OcrText(pages).Success?;
      } else {
        assert OcrText(pages).Failure?;
      }
    }
  }

  /** The value of `document_state`. */
  datatype Slot = Slot(fullText: Option<string>, filename: Option<string>)

  const STARTUP := Slot(None, None)

  /** What `process_pdf` maintains: text and name are set together, and a
      stored text is never blank. */
  predicate SlotOk(s: Slot)
  {
    && (s.fullText.Some? <==> s.filename.Some?)
    && (s.fullText.Some? ==> Strip(s.fullText.value) != [])
  }

  /** The writes of lines 83-84, which happen only after every point that
      can raise. */
  function Store(s: Slot, outcome: Result<string, IngestError>, filename: string): (r: Slot)
    ensures outcome.Failure? ==> r == s
    ensures outcome.Success? ==> r.fullText == Some(outcome.value) && r.filename == Some(filename)
    ensures SlotOk(s) && (outcome.Success? ==> Strip(outcome.value) != []) ==> SlotOk(r)
  {
    if outcome.Success? then Slot(Some(outcome.value), Some(filename)) else s
  }

  /** A successful upload replaces both fields and keeps nothing of the
      earlier document; a failed one leaves the slot exactly as it was;
      either way the slot invariant is kept. */
  lemma UploadReplacesOnSuccessOnly(s: Slot, t: Slot, decoded: Result<seq<Page>, string>, filename: string)
    ensures SlotOk(s) ==> SlotOk(Store(s, Ingest(decoded), filename))
    ensures Ingest(decoded).Success? ==>
              Store(s, Ingest(decoded), filename) == Store(t, Ingest(decoded), filename) &&
              Store(s, Ingest(decoded), filename) == Slot(Some(Ingest(decoded).value), Some(filename))
    ensures Ingest(decoded).Failure? ==> Store(s, Ingest(decoded), filename) == s
  {
    match decoded
    case Failure(_) =>
    case Success(pages) => ExtractTextIsOneSource(pages);
  }

  /** Uploading the same document twice leaves the same state as once. */
  lemma ReuploadIdempotent(s: Slot, decoded: Result<seq<Page>, string>, filename: string)
    ensures var once := Store(s, Ingest(decoded), filename);
            Store(once, Ingest(decoded), filename) == once
  {
  }

  /** What the slot sees of one call of `process_pdf`: the extraction
      outcome and the file name. */
  datatype Event = Event(outcome: Result<string, IngestError>, filename: string)

  /** The slot after a series of calls, one after another. */
  function Replay(s: Slot, es: seq<Event>): Slot
  {
    if es == [] then s
    else Store(Replay(s, es[..|es| - 1]), es[|es| - 1].outcome, es[|es| - 1].filename)
  }

  /** Every text a call may store is non-blank, as `process_pdf` ensures. */
  predicate StoresNonBlank(es: seq<Event>)
  {
    forall i :: 0 <= i < |es| && es[i].outcome.Success? ==> Strip(es[i].outcome.value) != []
  }

  /** The invariant survives any series of calls. */
  lemma {:induction false} ReplayKeepsSlotOk(s: Slot, es: seq<Event>)
    requires SlotOk(s) && StoresNonBlank(es)
    ensures SlotOk(Replay(s, es))
  {
    if es != [] {
      assert StoresNonBlank(es[..|es| - 1]);
      ReplayKeepsSlotOk(s, es[..|es| - 1]);
    }
  }

  /** Nothing clears the slot: once a text is stored, some text stays. */
  lemma {:induction false} OnceSetStaysSet(s: Slot, es: seq<Event>)
    requires s.fullText.Some?
    ensures Replay(s, es).fullText.Some?
  {
    if es != [] {
      OnceSetStaysSet(s, es[..|es| - 1]);
    }
  }

  /** The slot holds the latest successful call, whatever came before it. */
  lemma {:induction false} LatestSuccessWins(s: Slot, es: seq<Event>, k: nat)
    requires k < |es| && es[k].outcome.Success?
    requires forall j :: k < j < |es| ==> es[j].outcome.Failure?
    ensures Replay(s, es) == Slot(Some(es[k].outcome.value), Some(es[k].filename))
  {
    if k < |es| - 1 {
      LatestSuccessWins(s, es[..|es| - 1], k);
    }
  }

  /** A series of failed calls changes nothing. */
  lemma {:induction false} FailuresChangeNothing(s: Slot, es: seq<Event>)
    requires forall j :: 0 <= j < |es| ==> es[j].outcome.Failure?
    ensures Replay(s, es) == s
  {
    if es != [] {
      FailuresChangeNothing(s, es[..|es| - 1]);
    }
  }

  /** Calls run in two batches end where they end when run in one. */
  lemma {:induction false} ReplayAppend(s: Slot, p: seq<Event>, q: seq<Event>)
    ensures Replay(s, p + q) == Replay(Replay(s, p), q)
    decreases |q|
  {
    if q == [] {
      assert p + q == p;
    } else {
      assert (p + q)[..|p + q| - 1] == p + q[..|q| - 1];
      ReplayAppend(s, p, q[..|q| - 1]);
    }
  }

  /** One call `process_pdf(content, filename)`, with the decode outcome of
      `content` given. */
  datatype Upload = Upload(decoded: Result<seq<Page>, string>, filename: string)

  function EventsOf(us: seq<Upload>): seq<Event>
  {
    seq(|us|, i requires 0 <= i < |us| => Event(Ingest(us[i].decoded), us[i].filename))
  }

  /** From startup on, whatever PDFs are uploaded, the slot keeps its
      invariant. */
  lemma UploadsKeepSlotOk(us: seq<Upload>)
    ensures SlotOk(Replay(STARTUP, EventsOf(us)))
  {
    var es := EventsOf(us);
    forall i | 0 <= i < |es| && es[i].outcome.Success?
      ensures Strip(es[i].outcome.value) != []
    {
      UploadReplacesOnSuccessOnly(STARTUP, STARTUP, us[i].decoded, us[i].filename);
    }
    ReplayKeepsSlotOk(STARTUP, es);
  }

  /** After any successful upload, and whatever uploads follow it, a
      question is never refused for lack of a document. */
  lemma AskAllowedAfterSuccess(s: Slot, es: seq<Event>, k: nat)
    requires k < |es| && es[k].outcome.Success?
    ensures Replay(s, es).fullText.Some?
  {
    var done, rest := es[..k + 1], es[k + 1..];
    assert done[..k] == es[..k];
    assert es == done + rest;
    ReplayAppend(s, done, rest);
    OnceSetStaysSet(Replay(s, done), rest);
  }

  /** A decoded PDF handle. The pages are what the library shows of it;
      `closeCount` records the calls to `close()`. */
  class PdfDocument {
    const pages: seq<Page>
    var closeCount: nat

    constructor Open(pages: seq<Page>)
      ensures this.pages == pages && closeCount == 0
    {
      this.pages := pages;
      closeCount := 0;
    }

    method Close()
      modifies this
      ensures closeCount == old(closeCount) + 1
    {
      closeCount := closeCount + 1;
    }
  }

  /** The body of the `try` at app.py:67-81 once `fitz.open` has
      succeeded: extract, close the handle, check for content. An OCR
      error leaves before `doc.close()`, so the handle stays open. */
  method ExtractAndClose(doc: PdfDocument) returns (outcome: Result<string, IngestError>)
    modifies doc
    ensures outcome == ExtractText(doc.pages)
    ensures doc.closeCount == old(doc.closeCount) + (if ReachesClose(doc.pages) then 1 else 0)
  {
    var text := NativeText(doc.pages);
    if |Strip(text)| < SCANNED_BELOW {
      var ocr := RunOcr(doc.pages);
      match ocr {
        case Failure(e) =>
          assert !ReachesClose(doc.pages) by {
            OcrTextSucceeds(doc.pages);
          }
          return Failure(OcrFailed(e));
        case Success(t) =>
          assert ReachesClose(doc.pages) by {
            OcrTextSucceeds(doc.pages);
          }
          text := t;
      }
    }
    doc.Close();
    outcome := if Strip(text) == [] then Failure(NoText) else Success(text);
  }

  function PagesOf(decoded: Result<PdfDocument, string>): Result<seq<Page>, string>
  {
    match decoded
    case Failure(reason) => Failure(reason)
    case Success(doc) => Success(doc.pages)
  }

  function HandlesOf(decoded: Result<PdfDocument, string>): set<object>
  {
    if decoded.Success? then {decoded.value} else {}
  }

  /** The process-wide `document_state` dictionary and the two operations
      that use it. */
  class DocumentState {
    var fullText: Option<string>
    var filename: Option<string>

    function Current(): Slot
      reads this
    {
      Slot(fullText, filename)
    }

    ghost predicate Valid()
      reads this
    {
      SlotOk(Current())
    }

    /** `{ "full_text": None, "filename": None }` at startup. */
    constructor ()
      ensures Valid() && Current() == STARTUP
    {
      fullText := None;
      filename := None;
    }

    /** `process_pdf(pdf_content, filename)`, given the outcome of decoding
        `pdf_content`. The state changes only on success, and then to the
        new text and name; the answer is the confirmation or a 500; the
        handle is closed once unless OCR raised. */
    method ProcessPdf(decoded: Result<PdfDocument, string>, filename: string)
      returns (r: Result<string, HttpError>)
      requires Valid()
      modifies this, HandlesOf(decoded)
      ensures Valid()
      ensures Current() == Store(old(Current()), Ingest(PagesOf(decoded)), filename)
      ensures r == Respond(Ingest(PagesOf(decoded)), filename)
      ensures decoded.Success? ==>
                decoded.value.closeCount ==
                old(decoded.value.closeCount) + (if ReachesClose(decoded.value.pages) then 1 else 0)
    {
      var outcome: Result<string, IngestError>;
      match decoded {
        case Failure(reason) =>
          outcome := Failure(DecodeFailed(reason));
        case Success(doc) =>
          outcome := ExtractAndClose(doc);
      }
      if outcome.Success? {
        this.fullText := Some(outcome.value);
        this.filename := Some(filename);
      }
      r := Respond(outcome, filename);
    }

    /** The guard of `ask_question`: with no stored text the request fails
        with a 400; otherwise the stored text is the context handed to the
        completion service, which is therefore never blank. */
    method Ask() returns (r: Result<string, HttpError>)
      requires Valid()
      ensures r.Failure? <==> fullText.None?
      ensures r.Failure? ==> r.error == HttpError(400, NO_DOCUMENT_DETAIL)
      ensures r.Success? ==> r.value == fullText.value
      ensures r.Success? ==> Strip(r.value) != []
    {
      if fullText.None? {
        return Failure(HttpError(400, NO_DOCUMENT_DETAIL));
      }
      r := Success(fullText.value);
    }
  }
}
