/**
 * What crosses into the request-handling core from outside it: Java's
 * nullable references, the object read off the socket, the outcome of
 * staging the upload in a temporary file, the outcome of the OCR call, and
 * what the handler leaves behind (the reply written and the temp-file
 * bookkeeping).
 */
module Env {

  /** A Java reference that may be null. */
  datatype Option<+T> = None | Some(value: T)

  /** One element of a Java byte[]. */
  newtype byte = b: int | 0 <= b < 256

  /** The object `readObject` returned: null, an object of another class, or a request. */
  datatype Received<+R> = NullObject | OtherObject | Request(request: R)

  /** `Files.createTempFile` followed by `Files.write`: both succeed, or one throws an IOException. */
  datatype StageOutcome = Staged | CreateFailed(message: string) | WriteFailed(message: string)

  /**
   * What `extractTextFromImage` does: return a (possibly null) string, throw a
   * TesseractException, throw an unchecked exception (the root variant's
   * OCRProcessor throws IllegalArgumentException for a missing file), or throw
   * a `java.lang.Error` (an `OutOfMemoryError`, or an error from the native
   * OCR library), which no `catch (Exception e)` handles.
   */
  datatype OcrOutcome =
    | Text(text: Option<string>)
    | TesseractError(message: string)
    | RuntimeError(message: string)
    | FatalError(message: string)

  /** What reaches the client: one response object, or nothing (the exception was only logged, or propagated). */
  datatype Reply<+R> = Sent(response: R) | NoReply

  /**
   * The observable effect of one call of a connection handler: the reply, and
   * whether a temp file was created, OCR was called and the temp file deleted.
   */
  datatype Trace<+R> = Trace(reply: Reply<R>, staged: bool, ocrInvoked: bool, deleted: bool)
}
