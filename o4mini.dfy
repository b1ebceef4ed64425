/** The response handling of `fetchPaletteFromO4Mini`: an unexpected
    response raises, anything else yields five colours, parsed, scanned or
    defaulted. */
module O4Mini {
  import opened Wrappers
  import opened Hex
  import opened Json
  import opened Replies
  import opened Extract

  const DefaultPalette: seq<string> := ["#000000", "#111111", "#222222", "#333333", "#444444"]

  const ApiError: string := "O4-Mini API error"

  /** The parsing tail: structured path, then the scan, then the default.
      A parse failure never raises. */
  function ParseCompletion(text: string): (r: seq<string>)
    ensures IsPalette(r)
  {
    match StructuredOrScan(text)
    case Some(p) => p
    case None => DefaultPalette
  }

  function FetchPalette(reply: ChatReply): (r: Result<seq<string>, string>)
    ensures r.Success? <==> reply.Completion?
    ensures r.Success? ==> IsPalette(r.value)
    ensures reply.Unexpected? ==> r.error == OrElse(reply.errorMessage, ApiError) && r.error != ""
    ensures reply.Thrown? ==> r.error == reply.thrownMessage
  {
    match reply
    case Unexpected(m) => Failure(OrElse(m, ApiError))
    case Thrown(m) => Failure(m)
    case Completion(text) => Success(ParseCompletion(text))
  }

  /** What the parser returns, in terms of the scan alone: the first five
      matches when there are five, the default otherwise. */
  lemma ParseCompletionIsScanOrDefault(text: string)
    ensures ParseCompletion(text) ==
      if |HexMatches(text)| >= 5 then HexMatches(text)[..5] else DefaultPalette
  {
  }

  /** An empty completion (missing content included) gives the default. */
  lemma EmptyCompletionGivesDefault()
    ensures FetchPalette(Completion("")) == Success(DefaultPalette)
  {
    ParseCompletionIsScanOrDefault("");
  }

  /** A well-formed array answer is returned as asked for, trimmed to five. */
  lemma ArrayAnswerReturned(xs: seq<string>, gap: string)
    requires |xs| >= 5 && AllHexColors(xs) && AllJsonWhitespace(gap)
    ensures ParseCompletion(Serialize(xs, gap)) == xs[..5]
  {
    SerializedColors(xs, gap);
  }
}
