/**
 * The messages of the current client and server (package `shared`). Both
 * classes are immutable: their fields are final and their getters return what
 * the constructor was given, so each is a datatype whose destructors are the
 * getters. Every field is a Java reference and may be null.
 */
module Protocol {
  import opened Env

  const DEFAULT_PORT: nat := 12349

  /** 50 MiB: the largest upload the server accepts. */
  const MAX_FILE_SIZE: nat := 50 * 1024 * 1024

  /** The limit in bytes, and in the whole mebibytes the server's error message prints. */
  lemma MaxFileSizeValue()
    ensures MAX_FILE_SIZE == 52428800 && MAX_FILE_SIZE / (1024 * 1024) == 50
  {
  }

  datatype SearchRequest = SearchRequest(pdfContent: Option<seq<byte>>, searchText: Option<string>, fileName: Option<string>)

  /**
   * The server's answer. The class declares one `String context`, but the
   * server builds it from its list of contexts; the model carries that list.
   */
  datatype SearchResponse = SearchResponse(found: bool, contexts: Option<seq<string>>, error: Option<string>)
}
