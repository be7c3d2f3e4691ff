# PDF ingestion and document slot — a Dafny model

This project models the ingestion core of a small PDF question-answering
service (`app.py`). An uploaded PDF is decoded. Its embedded text is joined
page by page. If that text, once stripped, has fewer than 100 characters, the
document counts as scanned: the embedded text is thrown away and every page is
run through OCR instead. A document whose final text is blank is refused. On
success the text and the file name are stored in the process-wide
`document_state` slot, which the question endpoint reads. It refuses questions
while the slot is empty.

Layout:

- `wrappers.dfy` (`Wrappers`): `Option` for Python's `None`, `Result` for
  values or raised exceptions.
- `pytext.dfy` (`PyText`): `str.strip()` with Python's whitespace set, and
  `"".join(...)`.
- `extraction.dfy` (`Extraction`): pages and extraction. The native join, the
  OCR loop as a `while` method (`RunOcr`) proved against the function
  `OcrText`, the threshold decision and the empty-content check
  (`ExtractText`).
- `app.dfy` (`App`): the decoded PDF handle as a class that counts `close()`
  calls. `DocumentState` is the global slot, as a class with `ProcessPdf` and
  `Ask`. Pure `Store`/`Replay` functions and lemmas cover any series of uploads.

The PDF library, the 300 DPI rasteriser and Tesseract are black boxes. Each page
carries its embedded text and the outcome of OCR on it: the recognised text, or
the text of the exception raised. The outcome of `fitz.open` is a parameter of
`ProcessPdf`: an open handle, or the decoder's error text.

Behaviour of `process_pdf` that is easy to misread:

- The threshold compares `len(full_text.strip())` with 100. Whitespace inside
  the text counts toward the 100. Only whitespace at the ends is discarded, so
  the threshold is not a count of non-whitespace characters.
- `doc.close()` sits in the `try` body and not in a `finally`. When OCR raises,
  the handle is never closed. Release is therefore not unconditional
  (`ExtractAndClose`, `CloseSkippedOnlyByOcrFailure`).
- Every ingestion failure reaches the client as status 500. This includes the
  "no text" 400, which the broad `except Exception` catches. Its text survives
  only in the detail `"400: Could not extract any text from the PDF."`. That is
  how the framework's `HTTPException` renders under `str()`.
- The "no document" 400 of `ask_question` is raised before that handler's
  `try`, so it stays a 400.

## Model

| member | source | states |
|---|---|---|
| `PyText.IsWs` | app.py:70-80 | the characters `str.isspace()` accepts, which `strip()` removes at lines 70 and 80 |
| `PyText.TrimStart` | app.py:70 | the result is a suffix of the input; everything dropped is whitespace; the result is empty or starts with non-whitespace |
| `PyText.TrimEnd` | app.py:70 | the result is a prefix of the input; everything dropped is whitespace; the result is empty or ends with non-whitespace |
| `PyText.Strip` | app.py:70 | `strip()` never lengthens a string; a non-empty result starts and ends with non-whitespace |
| `PyText.StripIsSlice` | app.py:70 | `strip()` returns a contiguous piece of its input, beginning where the leading whitespace ends |
| `PyText.StripDropsWhitespace` | app.py:70 | everything `strip()` drops, before and after the piece it keeps, is whitespace |
| `PyText.StripEmptyIff` | app.py:80 | `strip()` gives the empty string exactly when every character is whitespace |
| `PyText.StripNoWhitespace` | app.py:70 | a string without whitespace is unchanged by `strip()` |
| `PyText.Join` | app.py:68 | `"".join(parts)`: the parts glued together in order |
| `PyText.JoinEmptyIff` | app.py:68 | `"".join(parts)` is empty exactly when every part is empty |
| `PyText.JoinAppend` | app.py:68 | joining with no separator distributes over concatenation of the part lists |
| `PyText.JoinPartAt` | app.py:68 | each part appears in the joined string, right after the parts before it |
| `Extraction.NativeText` | app.py:68 | the pages' embedded texts joined in page order with no separator; `NativeTextOnePage` and `NativeTextAppend` together fix its value |
| `Extraction.NativeTextOnePage` | app.py:68 | a one-page document's native text is exactly that page's embedded text, with no terminator or separator added |
| `Extraction.NativeTextEmptyIff` | app.py:68 | the native text is empty exactly when no page has embedded text |
| `Extraction.NativeTextAppend` | app.py:68 | the native text of a document is its first pages' text followed directly by the rest's: no separator between pages |
| `Extraction.NativeTextPageAt` | app.py:68 | every page's embedded text appears in the native text at the offset of the pages before it, so none is skipped or reordered |
| `Extraction.Scanned` | app.py:70 | the threshold decision `len(full_text.strip()) < 100` on the native text |
| `Extraction.OcrText` | app.py:72-77 | the OCR pass over the pages: a successful result has at least one character per page and, for a non-empty document, ends with the newline the last page added; its other properties are the lemmas below |
| `Extraction.OcrFailureFinal` | app.py:73-77 | once OCR has raised on a page, later pages do not change the outcome |
| `Extraction.OcrTextSucceeds` | app.py:72-77 | the OCR pass succeeds iff every page's OCR succeeds, and then yields the in-order join of `ocr(page) + "\n"` |
| `Extraction.OcrStopsAtFirstFailure` | app.py:73-77 | when OCR fails, the error is that of the first page whose OCR fails |
| `Extraction.OcrIgnoresNative` | app.py:72-77 | the OCR pass depends only on the pages' OCR outcomes, never on their embedded text |
| `Extraction.RunOcr` | app.py:72-77 | the `+=` loop over pages returns exactly `OcrText(pages)`: the ordered, newline-terminated OCR text or the first error |
| `Extraction.NonEmpty` | app.py:80-81 | the empty-content check refuses a text with `NoText` exactly when every character is whitespace, and otherwise passes the text through unchanged |
| `Extraction.ExtractText` | app.py:68-81 | the native text when it strips to 100 or more characters, otherwise the OCR text or the first OCR error; a blank result fails with `NoText`; a success is never blank |
| `Extraction.ExtractTextIsOneSource` | app.py:68-81 | a successful extraction is never blank; at or above the threshold it is the native text; below it, it succeeds iff all OCR succeeds with non-blank text, and then it is the OCR text; there is never a page-by-page mix |
| `Extraction.ScannedIgnoresNative` | app.py:70-77 | below the threshold the native text is discarded: documents with the same OCR outcomes extract identically |
| `Extraction.NativeIgnoresOcr` | app.py:68-70 | at or above the threshold OCR is never consulted: documents with the same embedded text extract identically to their native text, even when OCR would fail |
| `Extraction.ThresholdBoundary` | app.py:70 | for whitespace-free native text, 100 characters keep the native text and 99 take the OCR path |
| `Extraction.ZeroPagesHaveNoText` | app.py:68-81 | a zero-page document has empty native text, empty OCR text, and fails the empty-content check |
| `Extraction.TwoPageOcr` | app.py:72-77 | OCR over two pages that both succeed yields the first page's text, a newline, the second's and a newline |
| `Extraction.TwoPageScan` | app.py:70-77 | a two-page scan without embedded text yields `p1 + "\n" + p2 + "\n"` |
| `App.Detail` | app.py:80-89 | `str(e)` for each failure: the decoder's and the OCR provider's texts pass through verbatim; the 400 raised at line 81 renders as `"400: "` followed by its detail, the way `HTTPException` prints |
| `App.SuccessMessage` | app.py:86 | the confirmation is the fixed opening, the file name and the fixed closing, with nothing else |
| `App.SuccessMessageNamesFile` | app.py:86 | the confirmation quotes the file name verbatim, so distinct names give distinct confirmations |
| `App.Ingest` | app.py:67-81 | a decoding error becomes `DecodeFailed` with the decoder's text; a decoded document goes on to `ExtractText` |
| `App.Respond` | app.py:86-89 | the answer succeeds exactly when ingestion succeeded, with the confirmation for the file; any failure becomes status 500 whose detail is `str(e)` of that failure |
| `App.EveryFailureIs500` | app.py:80-89 | an upload fails exactly when ingestion fails, and always as status 500; the empty-content 400 and a zero-page document both surface as a 500 with detail `"400: Could not extract any text from the PDF."` |
| `App.ReachesClose` | app.py:72-78 | line 78 is reached unless the document is scanned and some page's OCR raises |
| `App.CloseSkippedOnlyByOcrFailure` | app.py:72-78 | with the native pass taken as never failing, the handle misses `close()` exactly when extraction fails inside OCR |
| `App.Store` | app.py:83-84 | on success both fields hold the new text and name; on failure the slot is unchanged; the slot invariant is kept whenever a stored text is non-blank |
| `App.UploadReplacesOnSuccessOnly` | app.py:83-84 | a successful upload sets both fields to the new text and name, whatever the slot held; a failed one leaves the slot unchanged; the slot invariant is kept |
| `App.ReuploadIdempotent` | app.py:83-84 | uploading the same document twice leaves the same slot as uploading it once |
| `App.ReplayKeepsSlotOk` | app.py:83-84 | over any series of calls that store only non-blank text, text and name stay set together and the stored text stays non-blank |
| `App.OnceSetStaysSet` | app.py:83-84 | nothing empties the slot: once a text is stored, a text stays stored |
| `App.LatestSuccessWins` | app.py:83-84 | after a series of calls the slot holds exactly the text and name of the latest successful one |
| `App.FailuresChangeNothing` | app.py:87-89 | a series of failed calls leaves the slot as it was |
| `App.UploadsKeepSlotOk` | app.py:80-84 | from startup on, whatever is uploaded, the slot invariant holds |
| `App.AskAllowedAfterSuccess` | app.py:103-104 | after any successful upload, whatever follows, the slot is non-empty, so questions are not refused |
| `App.PdfDocument.Open` | app.py:67 | a freshly decoded handle holds the document's pages and has not been closed yet |
| `App.PdfDocument.Close` | app.py:78 | each `close()` adds one to the handle's close count |
| `App.ExtractAndClose` | app.py:67-81 | the `try` body after decoding yields `ExtractText(pages)` and closes the handle once, unless OCR raised |
| `App.DocumentState.constructor` | app.py:52 | the slot starts with both fields `None` |
| `App.DocumentState.ProcessPdf` | app.py:63-89 | the slot becomes the new text and name on success and is unchanged on failure; the answer is the confirmation or a 500; the handle's close count matches `ReachesClose`; the slot invariant is kept |
| `App.DocumentState.Ask` | app.py:103-104 | a question is refused with 400 "No PDF has been processed yet." exactly when no text is stored; otherwise the stored text is the context, and that context is never blank |

## Left out

- PDF decoding, `get_text`, `get_pixmap(dpi=300)`, `Image.frombytes` and `pytesseract.image_to_string` are foreign library calls. Each page's embedded text and OCR outcome are given values, so the 300 DPI constant plays no part.
- An error raised while rasterising a page is not told apart from one raised by Tesseract. Both are the page's OCR failure, and they behave the same way in `process_pdf`.
- Exceptions raised while iterating pages or calling `get_text` in the native pass (app.py:68) are not modelled: the native pass is taken as never failing. Such an exception would surface as a 500 like a decode failure, except that the handle would stay open.
- The text of exceptions from the PDF library and the OCR provider is given as strings, because their formats belong to those libraries.
- App.DocumentState.Ask: models only the guard on the slot and the context handed on. The question text, the prompt, the generation settings, the model call and its safety-filter fallback are a network/LLM wrapper outside the model.
- FastAPI routing, CORS, reading the uploaded file, serving `index.html` and starting uvicorn are HTTP plumbing.
- Detecting the Tesseract path from the operating system and checking the API key are configuration I/O.
- `print` logging and the unused imports have no effect on the logic.
- Concurrent uploads racing on the unlocked global slot are not modelled. Calls are taken one after another.
