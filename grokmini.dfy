/** The response handling of `fetchPaletteFromGrokMini`: the same steps as
    O4-Mini's, with its own error text. Its prompt names the default palette
    as the answer to give when the model cannot comply. */
module GrokMini {
  import opened Wrappers
  import opened Hex
  import opened Json
  import opened Replies
  import opened Extract

  const DefaultPalette: seq<string> := ["#000000", "#111111", "#222222", "#333333", "#444444"]

  const ApiError: string := "Grok-3-Mini API error"

  /** The array the prompt asks for when the model cannot comply: the
      default palette with a space after each comma. */
  const NonCompliantAnswer: string := Serialize(DefaultPalette, " ")

  /** The parsing tail: structured path, then the scan, then the default. */
  function ParseCompletion(text: string): (r: seq<string>)
    ensures IsPalette(r)
  {
    match StructuredOrScan(text)
    case Some(p) => p
    case None => DefaultPalette
  }

  function FetchPalette(reply: ChatReply): (r: Result<seq<string>, string>)
    ensures r.Success? <==> reply.Completion?
    ensures r.Success? ==> IsPalette(r.value)
    ensures reply.Unexpected? ==> r.error == OrElse(reply.errorMessage, ApiError) && r.error != ""
    ensures reply.Thrown? ==> r.error == reply.thrownMessage
  {
    match reply
    case Unexpected(m) => Failure(OrElse(m, ApiError))
    case Thrown(m) => Failure(m)
    case Completion(text) => Success(ParseCompletion(text))
  }

  /** The parser in terms of the scan alone: the first five matches, with
      duplicates, when there are five; the default otherwise. */
  lemma ParseCompletionIsScanOrDefault(text: string)
    ensures ParseCompletion(text) ==
      if |HexMatches(text)| >= 5 then HexMatches(text)[..5] else DefaultPalette
  {
  }

  /** An array of at least five colours comes back trimmed to five. */
  lemma ArrayAnswerReturned(xs: seq<string>, gap: string)
    requires |xs| >= 5 && AllHexColors(xs) && AllJsonWhitespace(gap)
    ensures ParseCompletion(Serialize(xs, gap)) == xs[..5]
  {
    SerializedColors(xs, gap);
  }

  /** Reading the non-compliance answer gives the default palette back, so
      a compliant refusal and a useless answer end the same way. */
  lemma NonCompliantAnswerParses()
    ensures ParseCompletion(NonCompliantAnswer) == DefaultPalette
  {
    DefaultIsPalette();
    ArrayAnswerReturned(DefaultPalette, " ");
    assert DefaultPalette[..5] == DefaultPalette;
  }

  lemma DefaultIsPalette()
    ensures IsPalette(DefaultPalette)
  {
  }
}
