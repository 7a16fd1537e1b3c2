/**
 * The batch search thread (`PDFThread`): it lower-cases the search text once,
 * walks a directory listing, OCRs every regular `*.pdf` file and records one
 * `SearchResult` per file whose text contains the search text, with the
 * context of the first occurrence.
 */
module Batch {
  import opened Env
  import opened Text
  import opened Results

  /** One entry of the directory listing, with what the OCR engine returns for it. */
  datatype FileEntry = FileEntry(name: string, isFile: bool, ocr: OcrOutcome)

  /** `String.endsWith`, case-sensitive. */
  predicate EndsWith(s: string, suffix: string) {
    |suffix| <= |s| && s[|s| - |suffix|..] == suffix
  }

  /** The loop only looks at regular files whose name ends in ".pdf". */
  predicate Eligible(e: FileEntry) {
    e.isFile && EndsWith(e.name, ".pdf")
  }

  /** What one turn of the loop does with a file. */
  datatype Step = Skip | Found(result: SearchResult) | Abort

  /**
   * One turn of the loop: ineligible files and files whose OCR throws a
   * `TesseractException` are skipped; any other exception, including the
   * `NullPointerException` a null OCR text causes, and any `Error` leave the loop.
   */
  function StepOf(searchText: string, e: FileEntry): Step {
    if !Eligible(e) then Skip
    else match e.ocr
      case TesseractError(_) => Skip
      case RuntimeError(_) => Abort
      case FatalError(_) => Abort
      case Text(t) =>
        if t.None? then Abort
        else match FirstContext(Normalize(t.value), searchText)
          case None => Skip
          case Some(context) => Found(SearchResult(e.name, context))
  }

  /** The results a run over `files` appends, in listing order, up to the first file that ends the loop. */
  function Collect(searchText: string, files: seq<FileEntry>): seq<SearchResult>
    decreases |files|
  {
    if files == [] then []
    else match StepOf(searchText, files[0])
      case Skip => Collect(searchText, files[1..])
      case Found(r) => [r] + Collect(searchText, files[1..])
      case Abort => []
  }

  /** No file among `files` ends the loop early. */
  predicate NoAbort(searchText: string, files: seq<FileEntry>) {
    forall i :: 0 <= i < |files| ==> !StepOf(searchText, files[i]).Abort?
  }

  /** Result `r` is what file `e` contributes: `e` is an eligible file whose text contains the search text, and `r` carries its name and first context. */
  predicate Produces(searchText: string, e: FileEntry, r: SearchResult) {
    && Eligible(e)
    && e.ocr.Text? && e.ocr.text.Some?
    && r.fileName == e.name
    && FirstContext(Normalize(e.ocr.text.value), searchText) == Some(r.matchContext)
  }

  class PDFThread {
    /** The search text, lower-cased once by the constructor. */
    const searchText: string
    /** The results collected so far. */
    var results: seq<SearchResult>

    constructor(searchText: string)
      ensures this.searchText == LowerString(searchText)
      ensures results == []
    {
      this.searchText := LowerString(searchText);
      results := [];
    }

    /**
     * `run` over a directory listing (`None` when `listFiles` returns null).
     * The semaphore and logging are left out.
     */
    method Run(listing: Option<seq<FileEntry>>)
      modifies this
      ensures listing.None? ==> results == old(results)
      ensures listing.Some? ==> results == old(results) + Collect(searchText, listing.value)
    {
      if listing.None? {
        return;
      }
      var files := listing.value;
      for i := 0 to |files|
        invariant old(results) + Collect(searchText, files) == results + Collect(searchText, files[i..])
      {
        var file := files[i];
        assert files[i..][1..] == files[i + 1..];
        if !file.isFile || !EndsWith(file.name, ".pdf") {
          continue;
        }
        match file.ocr {
          case TesseractError(_) =>
          case RuntimeError(_) =>
            return;
          case FatalError(_) =>
            // the Error leaves run() after the semaphore is released
            return;
          case Text(result) =>
            if result.None? {
              return;
            }
            var formattedResult := Normalize(result.value);
            if Contains(formattedResult, searchText) {
              var index := IndexOf(formattedResult, searchText, 0);
              results := results + [SearchResult(file.name, ExtractContext(formattedResult, index, |searchText|))];
            }
        }
      }
    }
  }

  /** A listing without an early exit starts with a file that does not exit and continues with such a listing. */
  lemma NoAbortTail(searchText: string, files: seq<FileEntry>)
    requires files != [] && NoAbort(searchText, files)
    ensures !StepOf(searchText, files[0]).Abort? && NoAbort(searchText, files[1..])
  {
    assert forall i :: 0 <= i < |files| - 1 ==> files[1..][i] == files[i + 1];
  }

  /** Without an early exit in `front`, the results for `front + back` are those for `front` followed by those for `back`. */
  lemma {:induction false} CollectAppend(searchText: string, front: seq<FileEntry>, back: seq<FileEntry>)
    requires NoAbort(searchText, front)
    ensures Collect(searchText, front + back) == Collect(searchText, front) + Collect(searchText, back)
    decreases |front|
  {
    if front != [] {
      assert (front + back)[0] == front[0];
      assert (front + back)[1..] == front[1..] + back;
      NoAbortTail(searchText, front);
      CollectAppend(searchText, front[1..], back);
      match StepOf(searchText, front[0])
      case Skip =>
      case Found(r) =>
        assert [r] + Collect(searchText, front[1..] + back) == ([r] + Collect(searchText, front[1..])) + Collect(searchText, back);
    } else {
      assert front + back == back;
    }
  }

  /**
   * A single file contributes at most one result: exactly one when it is an
   * eligible file whose text contains the search text, none otherwise,
   * including when its OCR fails with a `TesseractException`.
   */
  lemma OneFile(searchText: string, e: FileEntry)
    ensures |Collect(searchText, [e])| <= 1
    ensures forall r :: Collect(searchText, [e]) == [r] <==> Produces(searchText, e, r)
    ensures e.ocr.TesseractError? ==> Collect(searchText, [e]) == []
    ensures !Eligible(e) ==> Collect(searchText, [e]) == []
  {
    assert [e][1..] == [];
    var s := StepOf(searchText, e);
    assert Collect(searchText, [e]) == if s.Found? then [s.result] else [];
    forall r
      ensures Collect(searchText, [e]) == [r] <==> Produces(searchText, e, r)
    {
      if Produces(searchText, e, r) {
        assert r == SearchResult(e.name, r.matchContext);
      }
      if Collect(searchText, [e]) == [r] {
        assert s == Found(r);
      }
    }
  }

  /** The first file whose processing throws ends the run: nothing after it is looked at. */
  lemma {:induction false} AbortStops(searchText: string, files: seq<FileEntry>, k: nat)
    requires k < |files| && StepOf(searchText, files[k]).Abort?
    requires NoAbort(searchText, files[..k])
    ensures Collect(searchText, files) == Collect(searchText, files[..k])
    decreases k
  {
    if k == 0 {
      assert files[..0] == [];
    } else {
      assert files[..k][0] == files[0];
      assert files[..k][1..] == files[1..][..k - 1];
      NoAbortTail(searchText, files[..k]);
      AbortStops(searchText, files[1..], k - 1);
    }
  }

  /** Every result comes from a file of the listing that produces it. */
  lemma {:induction false} ResultsHaveOrigins(searchText: string, files: seq<FileEntry>)
    ensures forall r :: r in Collect(searchText, files) ==> exists e :: e in files && Produces(searchText, e, r)
    decreases |files|
  {
    if files != [] {
      ResultsHaveOrigins(searchText, files[1..]);
      OneFile(searchText, files[0]);
      assert forall e :: e in files[1..] ==> e in files;
    }
  }
}
