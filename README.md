# PDF-Processor search core in Dafny

PDF-Processor takes a PDF over a socket, runs OCR on it and reports where a
phrase occurs in the recognised text. This project models the part between
the socket and the OCR engine, in its three variants:

- the current server (`server/PDFServer.java`, module `Server`). It validates
  the request, stages the upload in a temporary file and calls OCR. It
  normalises the text (every `\r` and `\n` becomes a space, then
  lower-case) and scans for every non-overlapping occurrence of the phrase.
  It answers with one context window per occurrence and deletes the
  temporary file in a `finally` block;
- the older server (`PDFServer.java`, module `RootServer`). It does no
  validation and reports only the first occurrence. A Tesseract failure
  becomes an error response; any other exception gets no answer at all;
- the batch thread (`PDFThread.java`, module `Batch`). It walks a directory
  listing and OCRs every regular `*.pdf` file. It records one
  `SearchResult` per file whose text contains the search text.

Shared string operations live in `Text`: normalisation, Java's `indexOf`
and `contains`, and `extractContext` (50 characters on each side of the
match, clamped to the text, between `"..."` markers). The messages live in
`Protocol` (package `shared`) and `RootProtocol` (root package), and the
batch result lives in `Results`. `Env` holds what comes from outside the
core:

- `Received` is the object read off the socket: null, another class, or a
  request;
- `StageOutcome` is what creating and writing the temporary file do;
- `OcrOutcome` is what the OCR engine returns;
- `Trace` is what a handler leaves behind: the reply, whether the
  temporary file was created, whether OCR was called, and whether the file
  was deleted.

The handlers and the batch loop are imperative methods, as in the source.
`Server.Scan` is the `while` loop of `handleClient`. It is proved against
`Server.Hits`, the list of match positions, and the lemmas show that this
list is exactly the greedy leftmost non-overlapping set of occurrences.
`Batch.PDFThread` is a class whose `Run` appends to its `results` field.
`Run` is proved against the function `Batch.Collect`, and the lemmas about
`Collect` state what one file contributes and how listing order is kept.

Behaviour of the code that the model keeps as written, although it looks unintended:

- `server/PDFServer.java:136` passes the `List<String>` of contexts to the
  `SearchResponse(boolean, String, String)` constructor
  (`shared/PDFProtocol.java:40`), so that line does not type-check. The
  model's `Protocol.SearchResponse` carries the list, `Option<seq<string>>`,
  which is what the server evidently means.
- An empty phrase passes the server's null-only check
  (`server/PDFServer.java:89`); only the client rejects a blank phrase. With
  an empty phrase, `indexOf("", k)` is `k` and the cursor grows by 0, so the
  loop at lines 129-132 never ends (`Server.EmptyPhraseStalls`).
  `Server.Scan` therefore requires a non-empty phrase. Each turn adds a
  context to the list, so the loop ends in an `OutOfMemoryError`. That is an
  `Error`, not an `Exception`: it skips `catch (Exception e)` at line 167 and
  passes the `finally` at lines 156-165, which deletes the temporary file.
  `Server.HandleClient` models this path as no reply with the file deleted.
  The client rejects a blank phrase (`client/PDFClient.java:120-121`); the
  server does not.
- Empty OCR text is an error response ("No text could be extracted from the
  PDF"), not a "no matches" response. Error and not-found responses carry a
  null context list, not an empty one.
- The older server creates and writes the temporary file (lines 60-61)
  before the `try`/`finally` that deletes it (lines 63-81). A null request,
  null content or a failed write therefore leaves the file behind and sends
  nothing (`RootServer.HandleClient`).
- In the batch thread only a `TesseractException` skips a single file. Any
  other exception, and any `Error`, ends the whole run and keeps the results
  so far. That
  includes the `NullPointerException` a null OCR text causes at
  `PDFThread.java:66` (`Batch.AbortStops`).

## Model

| member | source | states |
|---|---|---|
| Text.LowerString | src/main/java/com/pdfprocessor/server/PDFServer.java:121-122 | lower-casing keeps the length, maps each character on its own, and leaves no upper-case letter |
| Text.ReplaceLineBreaks | src/main/java/com/pdfprocessor/server/PDFServer.java:121 | each `\r` and each `\n` becomes one space and the length is unchanged, so no line break is left |
| Text.Normalize | src/main/java/com/pdfprocessor/server/PDFServer.java:121 | line breaks become spaces, every other character is only lower-cased, the length is kept, and the result has no line break or upper-case letter |
| Text.IndexOf | src/main/java/com/pdfprocessor/server/PDFServer.java:129 | `indexOf(phrase, from)` is -1 or a position at or after `from` with room for the phrase |
| Text.IndexOfIsLeftmost | src/main/java/com/pdfprocessor/server/PDFServer.java:129 | `indexOf` returns an occurrence, with no occurrence between `from` and it, and returns -1 exactly when no occurrence starts at or after `from` |
| Text.Contains | src/main/java/com/pdfprocessor/PDFServer.java:69 | `contains` holds exactly when the phrase occurs somewhere in the text |
| Text.WindowStart | src/main/java/com/pdfprocessor/server/PDFServer.java:215 | the window starts at most 50 characters before the match, and exactly 50 before it unless clamped to 0 |
| Text.WindowEnd | src/main/java/com/pdfprocessor/server/PDFServer.java:216 | the window ends at most 50 characters after the match, inside the text, and exactly 50 after it unless clamped to the text length |
| Text.ExtractContext | src/main/java/com/pdfprocessor/server/PDFServer.java:213-218 | the substring bounds are valid, and a context is between `|phrase| + 6` and `|phrase| + 106` characters long |
| Text.ContextShape | src/main/java/com/pdfprocessor/server/PDFServer.java:213-218 | a context is `"..."`, then the clamped window of the text, then `"..."`, and it contains the matched phrase at offset `3 + matchIndex - start` |
| Text.FirstContext | src/main/java/com/pdfprocessor/PDFServer.java:69-71 | there is a context exactly when the text contains the phrase, and it is the context of the leftmost occurrence |
| Server.HitsAreSpacedOccurrences | src/main/java/com/pdfprocessor/server/PDFServer.java:127-133 | the scan records only true occurrences, in increasing order, each starting at least `|phrase|` after the previous one |
| Server.HitsAreGreedy | src/main/java/com/pdfprocessor/server/PDFServer.java:127-133 | the recorded positions are the greedy leftmost non-overlapping occurrences: each is the first occurrence after the end of the previous one, and none follow the last |
| Server.GreedyScanIsUnique | src/main/java/com/pdfprocessor/server/PDFServer.java:127-133 | any greedy leftmost non-overlapping list of occurrences is the one the scan computes, so the number of matches is determined |
| Server.HitsNonEmptyIffContains | src/main/java/com/pdfprocessor/server/PDFServer.java:129-135 | the scan records a match exactly when `contains` holds, and the first match is where `indexOf` from 0 finds it |
| Server.Scan | src/main/java/com/pdfprocessor/server/PDFServer.java:127-133 | for a non-empty phrase the loop terminates and collects one context per recorded match, in order, each cut around its match |
| Server.EmptyPhraseStalls | src/main/java/com/pdfprocessor/server/PDFServer.java:129-132 | with an empty phrase `indexOf` returns the cursor itself, so the cursor never advances |
| Server.RepeatedPhraseExample | src/main/java/com/pdfprocessor/server/PDFServer.java:127-133 | "ab" in "ababab" is recorded at 0, 2 and 4 |
| Server.SingleOccurrence | src/main/java/com/pdfprocessor/server/PDFServer.java:127-133 | a phrase whose first character appears nowhere around it is recorded exactly once, where it stands |
| Server.ShortLineExample | src/main/java/com/pdfprocessor/server/PDFServer.java:127-133 | "forecasting" in a 45-character line is found once, at 14, and its context is the whole line between markers |
| Server.MaxFileSizeMiB | src/main/java/com/pdfprocessor/server/PDFServer.java:98 | `MAX_FILE_SIZE / (1024 * 1024)` is 50 |
| Server.TooLargeMessage | src/main/java/com/pdfprocessor/server/PDFServer.java:97-98 | the oversize error reads "PDF file too large. Maximum size is 50MB" |
| Server.ErrorResponse | src/main/java/com/pdfprocessor/server/PDFServer.java:201-211 | an error response is not found, has no contexts, and carries the message |
| Server.HandleClient | src/main/java/com/pdfprocessor/server/PDFServer.java:76-170 | wrong type, null fields and oversize content (strictly more than the limit) are rejected with their messages before staging or OCR; OCR runs only after staging succeeds; the file is deleted on every path once created; each failure gets its message; nothing is written back exactly when an `Error` escapes, either from OCR or as the `OutOfMemoryError` that ends the endless scan for an empty phrase; a non-empty phrase is found exactly when it occurs, with one context per greedy occurrence; every response sent is well-formed |
| Protocol.MaxFileSizeValue | src/main/java/com/pdfprocessor/shared/PDFProtocol.java:7 | the shared limit is 52428800 bytes, 50 MiB |
| RootProtocol.MaxFileSizeValue | src/main/java/com/pdfprocessor/PDFProtocol.java:7 | the root limit is 104857600 bytes, twice the shared one |
| RootServer.HandleClient | src/main/java/com/pdfprocessor/PDFServer.java:53-92 | a foreign object gets no reply and nothing is staged; OCR runs only once the content is written; the file is deleted exactly when OCR was called, so a null request, null content or failed write leaks it with no reply; a Tesseract error becomes `(false, null, message)`; other exceptions, an `Error`, a null OCR text or a null phrase get no reply; otherwise the reply is found exactly when the phrase occurs, with the context of the leftmost occurrence and a null error |
| RootServer.AgreesWithFirstScanContext | src/main/java/com/pdfprocessor/PDFServer.java:69-72 | for a non-empty phrase the older server finds the phrase exactly when the current one collects a context, and its context is the current server's first one |
| RootServer.EmptyPhraseFoundAtStart | src/main/java/com/pdfprocessor/PDFServer.java:67-71 | with an empty phrase the older server reports a match at position 0 |
| Results.SearchResult.ToString | src/main/java/com/pdfprocessor/SearchResult.java:20-23 | the text is "Match in ", the file name, a colon and a line feed, then the context, and both fields can be read back at fixed offsets |
| Batch.PDFThread.constructor | src/main/java/com/pdfprocessor/PDFThread.java:33-36 | the search text is stored lower-cased and the results start empty |
| Batch.PDFThread.Run | src/main/java/com/pdfprocessor/PDFThread.java:43-86 | a null listing appends nothing; otherwise `results` grows by exactly what the files contribute, in listing order, up to the first file whose processing throws |
| Batch.OneFile | src/main/java/com/pdfprocessor/PDFThread.java:59-76 | a file contributes at most one result, exactly when it is a regular `*.pdf` file whose normalised text contains the search text, carrying its name and the context of the first occurrence; an ineligible file or a Tesseract failure contributes nothing |
| Batch.CollectAppend | src/main/java/com/pdfprocessor/PDFThread.java:58-77 | when no file of the first part ends the run, the results for a listing are the first part's results followed by the rest's, so the order follows the listing |
| Batch.AbortStops | src/main/java/com/pdfprocessor/PDFThread.java:63-79 | the first file whose OCR throws something other than a `TesseractException`, or returns null, ends the run: the files after it contribute nothing |
| Batch.ResultsHaveOrigins | src/main/java/com/pdfprocessor/PDFThread.java:68-71 | every result comes from a file of the listing that produces it |

## Left out

- Sockets and streams: accepting connections, stream creation and flushing,
  socket options and timeouts, and closing. These are I/O. A request arrives
  as a `Received` value and the response written is the `Reply` in the trace.
- Server.HandleClient: the check at `server/PDFServer.java:143-150` that
  skips the write when the socket is already closed is not modelled. A
  computed response is always treated as sent.
- Server.ErrorResponse: the null-stream guard and a failing write in
  `sendErrorResponse` are not modelled; the response is treated as sent.
- The thread pool, the accept loop, `shutdown`, the `running` flag and the
  semaphore in `PDFThread` (including an interrupted `acquire`). These are
  concurrency.
- The OCR engine (`OCRProcessor`) and `Config`. They are foreign calls and
  global settings. OCR enters as an `OcrOutcome` per call or per file; the
  directory listing is a parameter of `Run`.
- The temporary file is tracked only by the `staged` and `deleted` flags of
  the trace. A failing `deleteIfExists` (only logged) is not modelled.
- Server.HandleClient: the scan for an empty phrase is taken to end in the
  `OutOfMemoryError` its growing list of contexts raises; the heap is not
  modelled. An `Error` is modelled only where it comes from OCR or from that
  scan, not from validation or staging.
- Text: a `char` is a Unicode scalar value, while Java's `length`,
  `indexOf` and `substring` count UTF-16 code units. For text with
  characters outside the Basic Multilingual Plane, the model's match
  indices, 50-character windows and clamp in `WindowEnd` differ from Java's.
  A Java `substring` can also split a surrogate pair, which the model cannot
  do.
- Exception messages are abstract strings. Java prints a null message as
  "null"; that case is not distinguished.
- Text.LowerString: lower-cases ASCII letters only. Java's `toLowerCase` is
  locale- and Unicode-aware and can change the length of a string.
- Text.WindowEnd: uses unbounded integers. In Java,
  `matchIndex + phrase.length() + 50` could overflow only for texts within
  50 characters of the largest `int`.
- Request and response getters are the datatypes' field selectors, and the
  datatypes are immutable, as the classes with final fields are. They carry
  no separate members.
- `Batch.PDFThread`'s `getResults` hands out the mutable list itself. The
  model keeps `results` as a field and does not model aliasing through that
  getter.
- The root `MAX_FILE_SIZE` is declared but never checked by the older
  server, so it appears only as a constant.
- Clients, the GUI, `Main` and logging are outside the core.
