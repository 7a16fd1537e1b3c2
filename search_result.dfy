/** One match found by the batch search: the file it is in and the context around its first occurrence. */
module Results {

  datatype SearchResult = SearchResult(fileName: string, matchContext: string) {

    /**
     * `toString`: "Match in <fileName>:" then a line feed, then the context.
     * Both fields can be read back from the text at fixed offsets.
     */
    function ToString(): (s: string)
      ensures |s| == |fileName| + |matchContext| + 11
      ensures s[..9] == "Match in "
      ensures s[9..9 + |fileName|] == fileName
      ensures s[9 + |fileName|..11 + |fileName|] == ":\n"
      ensures s[11 + |fileName|..] == matchContext
    {
      "Match in " + fileName + ":\n" + matchContext
    }
  }
}
