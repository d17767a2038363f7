/** The value types of search-server/document.h. */
module Documents {

  /** DocumentStatus: ACTUAL, IRRELEVANT, BANNED, REMOVED. */
  datatype DocumentStatus = Actual | Irrelevant | Banned | Removed

  /** A ranked search hit. The relevance is a double in the source; the
      model never computes one, so it is kept as a real. */
  datatype Document = Document(id: int, relevance: real, rating: int)
}
