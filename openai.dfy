/** `fetchPaletteFromOpenAI`: the key check, the status check, and the
    regex extraction from the completion. There is no structured path and
    no default palette. */
module OpenAi {
  import opened Wrappers
  import opened Hex
  import opened Replies
  import opened Extract

  const MissingKey: string := "OpenAI API key not set in .env"

  const ApiError: string := "OpenAI API error"

  const Unparsable: string := "Could not parse 5 hex codes from AI response"

  /** `apiKey` is the configured key, "" when unset; `reply` carries
      `choices[0].message.content`, "" when missing. */
  function FetchPalette(apiKey: string, reply: HttpReply<string>): (r: Result<seq<string>, string>)
    ensures apiKey == "" ==> r == Failure(MissingKey)
    ensures apiKey != "" && reply.NotOk? ==> r == Failure(ApiError)
    ensures apiKey != "" && reply.Ok? ==>
      (if |HexMatches(reply.data)| >= 5 then r == Success(HexMatches(reply.data)[..5])
       else r == Failure(Unparsable))
    ensures r.Success? ==> IsPalette(r.value)
  {
    if apiKey == "" then Failure(MissingKey)
    else
      match reply
      case NotOk(_, _) => Failure(ApiError)
      case Ok(text) =>
        match ScanPalette(text)
        case Some(p) => Success(p)
        case None => Failure(Unparsable)
  }

  /** Colours in prose without other `#` characters are returned in order
      of appearance, repeats included. */
  lemma ProseAnswer(apiKey: string, gaps: seq<string>, cs: seq<string>)
    requires apiKey != "" && |cs| >= 5 && |gaps| == |cs| + 1
    requires forall k :: 0 <= k < |gaps| ==> '#' !in gaps[k]
    requires AllHexColors(cs)
    ensures FetchPalette(apiKey, Ok(Interleave(gaps, cs))) == Success(cs[..5])
  {
    ScanOfProse(gaps, cs);
  }
}
