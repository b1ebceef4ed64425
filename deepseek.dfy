/** The response handling of `fetchPaletteFromDeepSeek`: a stricter policy
    than the other chat providers. The structured path wants exactly five
    distinct colours, and the fallback de-duplicates the scan and wants
    exactly five distinct matches. Every answer has five distinct colours. */
module DeepSeek {
  import opened Wrappers
  import opened Hex
  import opened Json
  import opened Replies

  const DefaultPalette: seq<string> := ["#31d8da", "#bfd219", "#8da2c9", "#384171", "#0d63c1"]

  const ApiError: string := "DeepSeek API error"

  /** The array the prompt asks for when the model cannot comply: the
      default palette with a space after each comma. */
  const NonCompliantAnswer: string := Serialize(DefaultPalette, " ")

  /** `arr.every((c, i, a) => isColour(c) && a.indexOf(c) === i)`. */
  predicate EveryColourAtFirstIndex(arr: seq<string>) {
    forall i :: 0 <= i < |arr| ==> IsHexColor(arr[i]) && IndexOf(arr, arr[i]) == i
  }

  /** The acceptance test of the structured path: exactly five elements,
      each a colour seen for the first time; the array is returned whole. */
  function ExactlyFiveDistinct(arr: seq<string>): (r: Option<seq<string>>)
    ensures r.Some? <==> |arr| == 5 && AllHexColors(arr) && NoDuplicates(arr)
    ensures r.Some? ==> r.value == arr
  {
    IndexOfSelfIffDistinct(arr);
    if |arr| == 5 && EveryColourAtFirstIndex(arr) then Some(arr) else None
  }

  function StructuredPalette(text: string): (r: Option<seq<string>>)
    ensures r.Some? ==> IsPalette(r.value) && NoDuplicates(r.value)
    ensures r.Some? ==> ParseStringArray(ReplaceQuotes(text)) == Some(r.value)
  {
    match ParseStringArray(ReplaceQuotes(text))
    case Some(arr) => ExactlyFiveDistinct(arr)
    case None => None
  }

  /** `Array.from(new Set(text.match(re) || []))`, accepted when exactly five
      remain. */
  function UniqueScanPalette(text: string): (r: Option<seq<string>>)
    ensures r.Some? <==> |Dedupe(HexMatches(text))| == 5
    ensures r.Some? ==> IsPalette(r.value) && NoDuplicates(r.value)
    ensures r.Some? ==> r.value == Dedupe(HexMatches(text))
  {
    var hexes := HexMatches(text);
    var unique := Dedupe(hexes);
    if |unique| == 5 then
      assert AllHexColors(unique) by {
        forall k | 0 <= k < 5 ensures IsHexColor(unique[k]) {
          var j :| 0 <= j < |hexes| && hexes[j] == unique[k];
        }
      }
      Some(unique)
    else None
  }

  function ParseCompletion(text: string): (r: seq<string>)
    ensures IsPalette(r) && NoDuplicates(r)
  {
    match StructuredPalette(text)
    case Some(p) => p
    case None =>
      match UniqueScanPalette(text)
      case Some(p) => p
      case None => DefaultPaletteIsDistinct(); DefaultPalette
  }

  function FetchPalette(reply: ChatReply): (r: Result<seq<string>, string>)
    ensures r.Success? <==> reply.Completion?
    ensures r.Success? ==> IsPalette(r.value) && NoDuplicates(r.value)
    ensures reply.Unexpected? ==> r.error == OrElse(reply.errorMessage, ApiError) && r.error != ""
    ensures reply.Thrown? ==> r.error == reply.thrownMessage
  {
    match reply
    case Unexpected(m) => Failure(OrElse(m, ApiError))
    case Thrown(m) => Failure(m)
    case Completion(text) => Success(ParseCompletion(text))
  }

  /** The parser in terms of the scan alone: the de-duplicated matches when
      exactly five remain, the default otherwise. The structured path never
      changes the outcome. */
  lemma ParseCompletionIsUniqueScanOrDefault(text: string)
    ensures ParseCompletion(text) ==
      if |Dedupe(HexMatches(text))| == 5 then Dedupe(HexMatches(text)) else DefaultPalette
  {
    match StructuredPalette(text)
    case Some(arr) =>
      ParsedColorsAreScan(text);
      DedupeOfDistinct(arr);
    case None =>
  }

  /** Distinctness is by exact spelling: the same colour in two letter cases
      counts twice. */
  lemma CaseVariantsAreDistinct()
    ensures Dedupe(["#ABCDEF", "#abcdef"]) == ["#ABCDEF", "#abcdef"]
  {
    var xs := ["#ABCDEF", "#abcdef"];
    assert xs[0][1] != xs[1][1];
    DedupeOfDistinct(xs);
  }

  /** Five distinct colours written out as a JSON array come back as they
      are. */
  lemma ArrayAnswerReturned(xs: seq<string>, gap: string)
    requires IsPalette(xs) && NoDuplicates(xs) && AllJsonWhitespace(gap)
    ensures ParseCompletion(Serialize(xs, gap)) == xs
  {
    SerializedColoursParse(xs, gap);
  }

  /** The default palette is five distinct colours. */
  lemma DefaultPaletteIsDistinct()
    ensures IsPalette(DefaultPalette) && NoDuplicates(DefaultPalette)
  {
    var d := DefaultPalette;
    assert d[0][1] == '3' && d[1][1] == 'b' && d[2][1] == '8' && d[3][1] == '3' && d[4][1] == '0';
    assert d[0][2] == '1' && d[3][2] == '8';
  }

  /** Reading the non-compliance answer gives the default palette back. */
  lemma NonCompliantAnswerParses()
    ensures ParseCompletion(NonCompliantAnswer) == DefaultPalette
  {
    DefaultPaletteIsDistinct();
    ArrayAnswerReturned(DefaultPalette, " ");
  }
}
