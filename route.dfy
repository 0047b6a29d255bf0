/** What the two scraping routes (app/api/aksozluk/route.ts and
    app/api/etimolojitr/route.ts) have in common: the `word` query parameter,
    the upstream fetch, and the JSON reply they classify into a status. */
module Route {
  import opened Wrappers

  /** What fetching the upstream page produced: a non-ok HTTP response, an
      exception (network failure or a failed body read), or a loaded page
      already read into the scraped parts `P`. */
  datatype Fetch<P> = NotOk | Thrown | Loaded(page: P)

  /** The JSON reply: an error object with its HTTP status, or the success
      object `{ source, word, data, success: true }` with status 200. */
  datatype Reply<D> =
    | Failure(status: int, error: string)
    | Success(source: string, word: string, data: D)

  const WordRequired := "Word parameter is required"
  const WordNotFound := "Word not found"
  const NoContent := "No etymology content found"

  /** `!word`: the parameter is absent or the empty string. */
  predicate MissingWord(word: Option<string>) {
    word.None? || word.value == []
  }

  /** The HTTP status a reply is sent with. */
  function Status<D>(reply: Reply<D>): int {
    if reply.Failure? then reply.status else 200
  }
}
