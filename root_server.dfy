/**
 * The older server in the root package (`PDFServer.handleClient`). It casts
 * whatever arrives to a `SearchRequest` without checking, stages the upload
 * in a temporary file before its try/finally block, reports only the first
 * occurrence, answers a Tesseract failure with an error response, and writes
 * nothing back for any other exception or error.
 */
module RootServer {
  import opened Env
  import opened Text
  import opened RootProtocol
  import S = Server

  /**
   * `handleClient` from the object read off the socket to the response
   * written back. `stage` is what creating and writing the temporary file do,
   * `ocr` what the OCR engine returns. The temporary file is created at line
   * 60 and written at line 61, outside the try/finally that deletes it.
   */
  method HandleClient(received: Received<SearchRequest>, stage: StageOutcome, ocr: OcrOutcome)
    returns (t: Trace<SearchResponse>)
    // a foreign object fails the cast before anything else happens
    ensures received.OtherObject? ==> t == Trace(NoReply, false, false, false)
    // the temporary file is created for anything that passes the cast
    ensures t.staged <==> !received.OtherObject? && !stage.CreateFailed?
    // OCR runs once the content has been written to it
    ensures t.ocrInvoked <==> received.Request? && received.request.pdfContent.Some? && stage.Staged?
    // the file is deleted only when the try/finally is entered
    ensures t.deleted <==> t.ocrInvoked
    // so a null request, null content or a failed write leaves it behind, unanswered
    ensures t.staged && !t.ocrInvoked ==> t.reply == NoReply && !t.deleted
    ensures !t.ocrInvoked ==> t.reply == NoReply
    // outcomes of the OCR call
    ensures t.ocrInvoked && ocr.TesseractError? ==> t.reply == Sent(SearchResponse(false, None, Some(ocr.message)))
    ensures t.ocrInvoked && (ocr.RuntimeError? || ocr.FatalError?) ==> t.reply == NoReply
    ensures t.ocrInvoked && ocr.Text? && (ocr.text.None? || received.request.searchPhrase.None?) ==> t.reply == NoReply
    // the search: found exactly when the phrase occurs, with the context of the leftmost occurrence
    ensures t.ocrInvoked && ocr.Text? && ocr.text.Some? && received.request.searchPhrase.Some? ==>
              var context := FirstContext(Normalize(ocr.text.value), LowerString(received.request.searchPhrase.value));
              t.reply == Sent(SearchResponse(context.Some?, context, None))
  {
    if received.OtherObject? {
      // ClassCastException, caught by the outer handler
      return Trace(NoReply, false, false, false);
    }
    if stage.CreateFailed? {
      return Trace(NoReply, false, false, false);
    }
    // the temporary file exists from here on
    if received.NullObject? || received.request.pdfContent.None? || stage.WriteFailed? {
      // NullPointerException or IOException at line 61, before the try/finally
      return Trace(NoReply, true, false, false);
    }
    var request := received.request;
    var reply: Reply<SearchResponse>;
    match ocr {
      case TesseractError(m) =>
        reply := Sent(SearchResponse(false, None, Some(m)));
      case RuntimeError(_) =>
        reply := NoReply;
      case FatalError(_) =>
        // an Error passes the finally block and leaves handleClient
        reply := NoReply;
      case Text(extracted) =>
        if extracted.None? || request.searchPhrase.None? {
          // NullPointerException at line 66 or 67
          reply := NoReply;
        } else {
          var formattedText := Normalize(extracted.value);
          var searchPhrase := LowerString(request.searchPhrase.value);
          if Contains(formattedText, searchPhrase) {
            var index := IndexOf(formattedText, searchPhrase, 0);
            reply := Sent(SearchResponse(true, Some(ExtractContext(formattedText, index, |searchPhrase|)), None));
          } else {
            reply := Sent(SearchResponse(false, None, None));
          }
        }
    }
    // finally: the temporary file is deleted
    t := Trace(reply, true, true, true);
  }

  /**
   * For a non-empty phrase the root server and the current server agree: the
   * root one finds the phrase exactly when the current one collects at least
   * one context, and its single context is the first of them.
   */
  lemma AgreesWithFirstScanContext(text: string, phrase: string, contexts: seq<string>)
    requires |phrase| > 0
    requires S.ContextsFor(text, |phrase|, S.Hits(text, phrase, 0), contexts)
    ensures FirstContext(text, phrase).Some? <==> contexts != []
    ensures contexts != [] ==> FirstContext(text, phrase) == Some(contexts[0])
  {
    S.HitsNonEmptyIffContains(text, phrase);
  }

  /** With an empty phrase the root server does not hang: it reports a match at the start of the text. */
  lemma EmptyPhraseFoundAtStart(text: string)
    ensures FirstContext(text, "") == Some(ExtractContext(text, 0, 0))
  {
    assert OccursAt(text, "", 0);
  }
}
