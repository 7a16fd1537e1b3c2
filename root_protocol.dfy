/**
 * The messages of the older client and server (root package). Same shape as
 * the shared protocol except that the phrase getter is `getSearchPhrase`,
 * the response carries one context, and the size constant is twice as large
 * (and is never checked by the older server).
 */
module RootProtocol {
  import opened Env
  import Protocol

  const DEFAULT_PORT: nat := 12349

  /** 100 MiB; unlike the shared protocol's 50 MiB. */
  const MAX_FILE_SIZE: nat := 100 * 1024 * 1024

  /** The root limit is 100 MiB, twice the shared protocol's. */
  lemma MaxFileSizeValue()
    ensures MAX_FILE_SIZE == 104857600 && MAX_FILE_SIZE == 2 * Protocol.MAX_FILE_SIZE
  {
  }

  datatype SearchRequest = SearchRequest(pdfContent: Option<seq<byte>>, searchPhrase: Option<string>, fileName: Option<string>)

  datatype SearchResponse = SearchResponse(found: bool, context: Option<string>, error: Option<string>)
}
