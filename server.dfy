/**
 * The current server's per-connection handler (`handleClient`): validate the
 * request, stage the upload in a temporary file, OCR it, normalise the text,
 * collect a context around every non-overlapping occurrence of the phrase,
 * answer once, and delete the temporary file.
 */
module Server {
  import opened Env
  import opened Text
  import opened Protocol

  // ---------------------------------------------------------------------------
  // The multi-occurrence scan

  /**
   * The match indices the scan loop visits from cursor `from`: find the next
   * occurrence, record it, and resume just past its end.
   */
  function Hits(text: string, phrase: string, from: nat): (hs: seq<int>)
    requires |phrase| > 0 && from <= |text|
    decreases |text| - from
  {
    var i := IndexOf(text, phrase, from);
    if i == -1 then [] else [i] + Hits(text, phrase, i + |phrase|)
  }

  /** Every index of `hs` is an occurrence at or after `from`, each starting at or after the end of the one before. */
  ghost predicate SpacedOccurrences(text: string, phrase: string, from: int, hs: seq<int>) {
    && (forall j :: 0 <= j < |hs| ==> from <= hs[j] && OccursAt(text, phrase, hs[j]))
    && (forall j, k :: 0 <= j < k < |hs| ==> hs[j] + |phrase| <= hs[k])
  }

  /** The scan records only true occurrences, and they do not overlap. */
  lemma {:induction false} HitsAreSpacedOccurrences(text: string, phrase: string, from: nat)
    requires |phrase| > 0 && from <= |text|
    ensures SpacedOccurrences(text, phrase, from, Hits(text, phrase, from))
    decreases |text| - from
  {
    var i := IndexOf(text, phrase, from);
    IndexOfIsLeftmost(text, phrase, from);
    if i != -1 {
      var hs, tail := Hits(text, phrase, from), Hits(text, phrase, i + |phrase|);
      HitsAreSpacedOccurrences(text, phrase, i + |phrase|);
      assert hs == [i] + tail;
      assert forall j :: 0 < j < |hs| ==> hs[j] == tail[j - 1];
    }
  }

  /**
   * `hs` is the greedy leftmost non-overlapping list of occurrences at or
   * after `from`: its head is an occurrence with none before it, its tail is
   * the greedy list from just past the head's end, and when it is empty the
   * phrase does not occur at all.
   */
  ghost predicate IsGreedyScan(text: string, phrase: string, from: nat, hs: seq<int>)
    decreases |hs|
  {
    if hs == [] then NoOccurrenceIn(text, phrase, from, |text| + 1)
    else
      && from <= hs[0]
      && OccursAt(text, phrase, hs[0])
      && NoOccurrenceIn(text, phrase, from, hs[0])
      && IsGreedyScan(text, phrase, hs[0] + |phrase|, hs[1..])
  }

  /** The scan finds exactly the greedy occurrences. */
  lemma {:induction false} HitsAreGreedy(text: string, phrase: string, from: nat)
    requires |phrase| > 0 && from <= |text|
    ensures IsGreedyScan(text, phrase, from, Hits(text, phrase, from))
    decreases |text| - from
  {
    var i := IndexOf(text, phrase, from);
    IndexOfIsLeftmost(text, phrase, from);
    if i != -1 {
      HitsAreGreedy(text, phrase, i + |phrase|);
      assert Hits(text, phrase, from)[1..] == Hits(text, phrase, i + |phrase|);
    }
  }

  /** Any greedy list is the one `Hits` computes, so the number of matches is determined. */
  lemma {:induction false} GreedyScanIsUnique(text: string, phrase: string, from: nat, hs: seq<int>)
    requires |phrase| > 0 && from <= |text|
    requires IsGreedyScan(text, phrase, from, hs)
    ensures Hits(text, phrase, from) == hs
    decreases |hs|
  {
    if hs == [] {
      IndexOfNone(text, phrase, from);
    } else {
      var h := hs[0];
      IndexOfFinds(text, phrase, from, h);
      GreedyScanIsUnique(text, phrase, h + |phrase|, hs[1..]);
      assert hs == [h] + hs[1..];
    }
  }

  /** `indexOf` from `from` answers `h` when `h` is an occurrence and none starts between `from` and `h`. */
  lemma IndexOfFinds(text: string, phrase: string, from: nat, h: int)
    requires from <= h && OccursAt(text, phrase, h) && NoOccurrenceIn(text, phrase, from, h)
    ensures IndexOf(text, phrase, from) == h
  {
    IndexOfIsLeftmost(text, phrase, from);
  }

  /** `indexOf` from `from` answers -1 when no occurrence starts at or after `from`. */
  lemma IndexOfNone(text: string, phrase: string, from: nat)
    requires from <= |text| && NoOccurrenceIn(text, phrase, from, |text| + 1)
    ensures IndexOf(text, phrase, from) == -1
  {
    IndexOfIsLeftmost(text, phrase, from);
  }

  /** The scan records a match exactly when `contains` holds, and the first is the one `indexOf` finds. */
  lemma HitsNonEmptyIffContains(text: string, phrase: string)
    requires |phrase| > 0
    ensures Hits(text, phrase, 0) != [] <==> Contains(text, phrase)
    ensures Contains(text, phrase) ==> Hits(text, phrase, 0)[0] == IndexOf(text, phrase, 0)
  {
  }

  /** The contexts collected for the match indices `hs`: one per index, in the same order. */
  ghost predicate ContextsFor(text: string, phraseLength: nat, hs: seq<int>, contexts: seq<string>) {
    && |contexts| == |hs|
    && forall j :: 0 <= j < |hs| ==> 0 <= hs[j] && hs[j] + phraseLength <= |text| && contexts[j] == ExtractContext(text, hs[j], phraseLength)
  }

  /** One turn of the scan loop: the match found from the cursor moves from the pending hits to the recorded ones. */
  lemma HitsStep(text: string, phrase: string, cursor: nat, i: nat, done: seq<int>)
    requires |phrase| > 0 && cursor <= |text| && i == IndexOf(text, phrase, cursor)
    requires done + Hits(text, phrase, cursor) == Hits(text, phrase, 0)
    ensures (done + [i]) + Hits(text, phrase, i + |phrase|) == Hits(text, phrase, 0)
  {
    assert Hits(text, phrase, cursor) == [i] + Hits(text, phrase, i + |phrase|);
  }

  /**
   * The `while` loop of `handleClient`: repeatedly `indexOf` from the cursor,
   * record the context, and move the cursor past the match. It collects one
   * context per greedy occurrence.
   */
  method Scan(text: string, phrase: string) returns (contexts: seq<string>)
    requires |phrase| > 0
    ensures ContextsFor(text, |phrase|, Hits(text, phrase, 0), contexts)
  {
    contexts := [];
    var cursor := 0;
    ghost var hits: seq<int> := [];
    var lastIndex := IndexOf(text, phrase, 0);
    while lastIndex != -1
      invariant cursor <= |text|
      invariant lastIndex == IndexOf(text, phrase, cursor)
      invariant hits + Hits(text, phrase, cursor) == Hits(text, phrase, 0)
      invariant ContextsFor(text, |phrase|, hits, contexts)
      decreases |text| - cursor
    {
      HitsStep(text, phrase, cursor, lastIndex, hits);
      contexts := contexts + [ExtractContext(text, lastIndex, |phrase|)];
      hits := hits + [lastIndex];
      cursor := lastIndex + |phrase|;
      lastIndex := IndexOf(text, phrase, cursor);
    }
  }

  /**
   * An empty phrase never moves the cursor: `indexOf("", k)` is `k` and the
   * cursor grows by `"".length()`, so the loop repeats forever.
   */
  lemma EmptyPhraseStalls(text: string, cursor: nat)
    requires cursor <= |text|
    ensures IndexOf(text, "", cursor) == cursor
  {
  }

  /** Overlapping occurrences are not counted: "ab" is found three times in "ababab". */
  lemma RepeatedPhraseExample()
    ensures Hits("ababab", "ab", 0) == [0, 2, 4]
  {
  }

  /**
   * When the phrase's first character appears nowhere around it, the scan
   * finds the phrase exactly once, where it was put.
   */
  lemma SingleOccurrence(before: string, phrase: string, after: string)
    requires |phrase| > 0 && phrase[0] !in before && phrase[0] !in after
    ensures Hits(before + phrase + after, phrase, 0) == [|before|]
  {
    SingleOccurrenceIsGreedy(before, phrase, after);
    GreedyScanIsUnique(before + phrase + after, phrase, 0, [|before|]);
  }

  /** The phrase where it stands, and nothing before or after it, is the greedy scan. */
  lemma SingleOccurrenceIsGreedy(before: string, phrase: string, after: string)
    requires |phrase| > 0 && phrase[0] !in before && phrase[0] !in after
    ensures IsGreedyScan(before + phrase + after, phrase, 0, [|before|])
  {
    var u, n := before + phrase + after, |before|;
    SingleOccurrenceGaps(before, phrase, after);
    assert u[n..n + |phrase|] == phrase;
    assert [n][1..] == [];
  }

  /** Neither before nor after the phrase does another occurrence start. */
  lemma SingleOccurrenceGaps(before: string, phrase: string, after: string)
    requires |phrase| > 0 && phrase[0] !in before && phrase[0] !in after
    ensures NoOccurrenceIn(before + phrase + after, phrase, 0, |before|)
    ensures NoOccurrenceIn(before + phrase + after, phrase, |before| + |phrase|, |before + phrase + after| + 1)
  {
    var u, n, m := before + phrase + after, |before|, |before| + |phrase|;
    assert forall k :: 0 <= k < n ==> u[k] == before[k];
    FirstCharAbsent(u, phrase, 0, n);
    assert forall k :: m <= k < |u| ==> u[k] == after[k - m];
    FirstCharAbsent(u, phrase, m, |u| + 1);
  }

  /** Where the phrase's first character does not appear, the phrase does not start. */
  lemma FirstCharAbsent(text: string, phrase: string, lo: int, hi: int)
    requires |phrase| > 0
    requires forall k :: lo <= k < hi && 0 <= k < |text| ==> text[k] != phrase[0]
    ensures NoOccurrenceIn(text, phrase, lo, hi)
  {
    forall k | lo <= k < hi
      ensures !OccursAt(text, phrase, k)
    {
      OccurrenceStartsWithFirstChar(text, phrase, k);
    }
  }

  /**
   * A phrase in the middle of a short line is found once, and its context is
   * the whole line, because the line has fewer than 50 characters on either
   * side of the match.
   */
  lemma ShortLineExample()
    ensures Hits("the quarterly " + "forecasting" + " report shows growth", "forecasting", 0) == [14]
    ensures ExtractContext("the quarterly forecasting report shows growth", 14, 11)
         == "..." + "the quarterly forecasting report shows growth" + "..."
  {
    SingleOccurrence("the quarterly ", "forecasting", " report shows growth");
    var u := "the quarterly forecasting report shows growth";
    assert WindowStart(14) == 0 && WindowEnd(|u|, 25) == |u|;
    assert u[0..|u|] == u;
  }

  // ---------------------------------------------------------------------------
  // Responses

  /** 50 MiB expressed in whole mebibytes, the number the too-large message prints. */
  function MaxFileSizeMiB(): (n: nat)
    ensures n == 50
  {
    MAX_FILE_SIZE / (1024 * 1024)
  }

  /** Decimal digits of a non-negative int, as Java's string concatenation prints it. */
  function DecimalString(n: nat): (s: string)
    ensures |s| >= 1 && forall i :: 0 <= i < |s| ==> '0' <= s[i] <= '9'
    decreases n
  {
    var last := ['0' + (n % 10) as char];
    if n < 10 then last else DecimalString(n / 10) + last
  }

  /** The error for an oversized upload. */
  function TooLargeMessage(): (m: string)
    ensures m == "PDF file too large. Maximum size is 50MB"
  {
    assert DecimalString(50) == "50" by {
      assert DecimalString(5) == "5";
    }
    "PDF file too large. Maximum size is " + DecimalString(MaxFileSizeMiB()) + "MB"
  }

  /**
   * The shapes of response the server may send: `found` exactly when there
   * is a non-empty list of contexts (null otherwise), and an error only
   * together with `found == false`.
   */
  predicate WellFormed(r: SearchResponse) {
    && (r.found <==> r.contexts.Some?)
    && (r.contexts.Some? ==> r.contexts.value != [])
    && (r.error.Some? ==> !r.found)
  }

  /** `sendErrorResponse`: not found, no contexts, the message as error. */
  function ErrorResponse(message: string): (r: SearchResponse)
    ensures WellFormed(r) && !r.found && r.error == Some(message)
  {
    SearchResponse(false, None, Some(message))
  }

  /** The request gets past validation: it is a `SearchRequest` with content and phrase, and the content fits. */
  predicate Accepted(received: Received<SearchRequest>) {
    && received.Request?
    && received.request.pdfContent.Some?
    && received.request.searchText.Some?
    && |received.request.pdfContent.value| <= MAX_FILE_SIZE
  }

  /** OCR returned null or the empty string. */
  predicate NoText(ocr: OcrOutcome) {
    ocr.Text? && (ocr.text.None? || ocr.text.value == "")
  }

  // ---------------------------------------------------------------------------
  // The handler

  /**
   * `handleClient` from the request read off the socket to the response
   * written back. `stage` and `ocr` are what the filesystem and the OCR
   * engine do when called.
   */
  method HandleClient(received: Received<SearchRequest>, stage: StageOutcome, ocr: OcrOutcome)
    returns (t: Trace<SearchResponse>)
    // validation, before anything is staged or OCR is called
    ensures !received.Request? ==> t == Trace(Sent(ErrorResponse("Invalid request type")), false, false, false)
    ensures received.Request? && (received.request.pdfContent.None? || received.request.searchText.None?)
            ==> t == Trace(Sent(ErrorResponse("Invalid request data")), false, false, false)
    ensures received.Request? && received.request.pdfContent.Some? && received.request.searchText.Some?
            && |received.request.pdfContent.value| > MAX_FILE_SIZE
            ==> t == Trace(Sent(ErrorResponse(TooLargeMessage())), false, false, false)
    // the temporary file and the OCR call
    ensures t.staged <==> Accepted(received) && !stage.CreateFailed?
    ensures t.ocrInvoked <==> Accepted(received) && stage.Staged?
    // the finally block deletes the file on every path once it exists
    ensures t.deleted <==> t.staged
    // failures after validation
    ensures Accepted(received) && !stage.Staged? ==> t.reply == Sent(ErrorResponse("Server error: " + stage.message))
    ensures t.ocrInvoked && ocr.TesseractError? ==> t.reply == Sent(ErrorResponse("Error processing PDF: " + ocr.message))
    ensures t.ocrInvoked && ocr.RuntimeError? ==> t.reply == Sent(ErrorResponse("Server error: " + ocr.message))
    ensures t.ocrInvoked && NoText(ocr) ==> t.reply == Sent(ErrorResponse("No text could be extracted from the PDF"))
    // nothing is written back exactly when an Error escapes every catch: one from OCR,
    // or the OutOfMemoryError that ends the endless scan for an empty phrase
    ensures t.reply.NoReply? <==> t.ocrInvoked && (ocr.FatalError? || (ocr.Text? && !NoText(ocr) && received.request.searchText.value == ""))
    // the search
    ensures t.ocrInvoked && ocr.Text? && !NoText(ocr) && received.request.searchText.value != "" ==>
              var text := Normalize(ocr.text.value);
              var phrase := LowerString(received.request.searchText.value);
              && t.reply.Sent? && t.reply.response.error.None?
              && (t.reply.response.found <==> Contains(text, phrase))
              && (t.reply.response.found ==> t.reply.response.contexts.Some? && ContextsFor(text, |phrase|, Hits(text, phrase, 0), t.reply.response.contexts.value))
    // every response written has one of the three shapes
    ensures t.reply.Sent? ==> WellFormed(t.reply.response)
  {
    if !received.Request? {
      return Trace(Sent(ErrorResponse("Invalid request type")), false, false, false);
    }
    var request := received.request;
    if request.pdfContent.None? || request.searchText.None? {
      return Trace(Sent(ErrorResponse("Invalid request data")), false, false, false);
    }
    if |request.pdfContent.value| > MAX_FILE_SIZE {
      return Trace(Sent(ErrorResponse(TooLargeMessage())), false, false, false);
    }

    var tempFile := false;
    var ocrInvoked := false;
    var reply: Reply<SearchResponse>;
    if stage.CreateFailed? {
      reply := Sent(ErrorResponse("Server error: " + stage.message));
    } else {
      tempFile := true;
      if stage.WriteFailed? {
        reply := Sent(ErrorResponse("Server error: " + stage.message));
      } else {
        ocrInvoked := true;
        match ocr {
          case TesseractError(m) =>
            reply := Sent(ErrorResponse("Error processing PDF: " + m));
          case RuntimeError(m) =>
            reply := Sent(ErrorResponse("Server error: " + m));
          case FatalError(_) =>
            // not an Exception: it passes both finally blocks and leaves handleClient
            reply := NoReply;
          case Text(extracted) =>
            if extracted.None? || extracted.value == "" {
              reply := Sent(ErrorResponse("No text could be extracted from the PDF"));
            } else {
              var formattedText := Normalize(extracted.value);
              var searchPhrase := LowerString(request.searchText.value);
              if searchPhrase == "" {
                // the cursor never advances (EmptyPhraseStalls) and the list of contexts
                // grows until an OutOfMemoryError, which passes both finally blocks
                reply := NoReply;
              } else {
                var contexts := Scan(formattedText, searchPhrase);
                if contexts != [] {
                  reply := Sent(SearchResponse(true, Some(contexts), None));
                } else {
                  reply := Sent(SearchResponse(false, None, None));
                }
              }
            }
        }
      }
    }
    // finally: delete the temporary file if it was created
    var deleted := tempFile;
    t := Trace(reply, tempFile, ocrInvoked, deleted);
  }
}
