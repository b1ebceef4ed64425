/** `fetchPaletteFromGemini`: the key check, the status check, and the
    parsing of the first candidate's text. Unlike the chat providers it has
    no default palette: text without five colours is an error. */
module Gemini {
  import opened Wrappers
  import opened Hex
  import opened Text
  import opened Replies
  import opened Extract

  const MissingKey: string := "Google Gemini API key not set in .env"

  const Unparsable: string := "Could not parse 5 hex codes from Gemini response"

  /** `Gemini API error: ${status} ${errText}`. */
  function StatusError(status: nat, body: string): (r: string)
    ensures Contains(r, Decimal(status))
  {
    var prefix := "Gemini API error: ";
    var r := prefix + Decimal(status) + " " + body;
    assert OccursAt(r, Decimal(status), |prefix|);
    r
  }

  /** The parsing tail: structured path, then the scan; no default. */
  function ParseText(text: string): (r: Result<seq<string>, string>)
    ensures r.Success? ==> IsPalette(r.value)
    ensures r.Failure? ==> r.error == Unparsable
  {
    match StructuredOrScan(text)
    case Some(p) => Success(p)
    case None => Failure(Unparsable)
  }

  /** `apiKey` is the configured key, "" when unset; `reply` carries the
      first candidate's first part text, "" when missing. */
  function FetchPalette(apiKey: string, reply: HttpReply<string>): (r: Result<seq<string>, string>)
    ensures apiKey == "" ==> r == Failure(MissingKey)
    ensures apiKey != "" && reply.NotOk? ==>
      r.Failure? && r.error == StatusError(reply.status, reply.body)
    ensures apiKey != "" && reply.Ok? ==> r == ParseText(reply.data)
    ensures r.Success? ==> IsPalette(r.value)
  {
    if apiKey == "" then Failure(MissingKey)
    else
      match reply
      case NotOk(status, body) => Failure(StatusError(status, body))
      case Ok(text) => ParseText(text)
  }

  /** With a key and an ok response, the outcome is decided by the scan
      alone: its first five matches, duplicates kept, or the parse error
      when there are fewer than five. */
  lemma ParseTextIsScan(text: string)
    ensures |HexMatches(text)| >= 5 ==> ParseText(text) == Success(HexMatches(text)[..5])
    ensures |HexMatches(text)| < 5 ==> ParseText(text) == Failure(Unparsable)
  {
  }
}
