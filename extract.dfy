/** The two ways the chat-based parsers read five colours out of a
    completion: the structured path (`JSON.parse` after quote normalisation,
    at least five elements, every one a colour, the first five taken) and
    the regex fallback (the first five matches of the global scan). The
    theorem of this module is that the first never disagrees with the
    second. */
module Extract {
  import opened Wrappers
  import opened Hex
  import opened Json

  /** The acceptance test of the structured path: `Array.isArray(arr) &&
      arr.length >= 5 && arr.every(isColour)`, then `arr.slice(0, 5)`. */
  function FirstFiveColors(arr: seq<string>): (r: Option<seq<string>>)
    ensures r.Some? <==> |arr| >= 5 && AllHexColors(arr)
    ensures r.Some? ==> IsPalette(r.value) && r.value == arr[..5]
  {
    if |arr| >= 5 && AllHexColors(arr) then Some(arr[..5]) else None
  }

  /** The structured path shared by O4-Mini, Grok-3-Mini and Gemini; a parse
      failure is caught and leads to the fallback. */
  function StructuredPalette(text: string): (r: Option<seq<string>>)
    ensures r.Some? ==> IsPalette(r.value)
  {
    match ParseStringArray(ReplaceQuotes(text))
    case Some(arr) => FirstFiveColors(arr)
    case None => None
  }

  /** The regex fallback: the first five matches in order of appearance,
      duplicates kept, when there are at least five. */
  function ScanPalette(text: string): (r: Option<seq<string>>)
    ensures r.Some? <==> |HexMatches(text)| >= 5
    ensures r.Some? ==> IsPalette(r.value) && r.value == HexMatches(text)[..5]
  {
    var hexes := HexMatches(text);
    if |hexes| >= 5 then Some(hexes[..5]) else None
  }

  /** The structured path, falling back to the scan. Whichever path
      answers, the answer is the first five matches of the scan, and there
      is none exactly when the scan finds fewer than five. */
  function StructuredOrScan(text: string): (r: Option<seq<string>>)
    ensures r.Some? ==> IsPalette(r.value)
    ensures r.Some? <==> |HexMatches(text)| >= 5
    ensures r.Some? ==> r.value == HexMatches(text)[..5]
  {
    assert StructuredPalette(text).Some? ==> ScanPalette(text) == StructuredPalette(text) by {
      if StructuredPalette(text).Some? {
        StructuredIsScan(text);
      }
    }
    match StructuredPalette(text)
    case Some(p) => Some(p)
    case None => ScanPalette(text)
  }

  /** Whatever the structured path accepts, the scan finds too, in the same
      order. */
  lemma StructuredIsScan(text: string)
    requires StructuredPalette(text).Some?
    ensures ScanPalette(text) == StructuredPalette(text)
  {
    var arr := ParseStringArray(ReplaceQuotes(text)).value;
    ParsedColorsAreScan(text);
    assert HexMatches(text) == arr;
  }

  /** Colours written out as a JSON array are read back by the structured
      path, trimmed to five. */
  lemma SerializedColors(xs: seq<string>, gap: string)
    requires |xs| >= 5 && AllHexColors(xs) && AllJsonWhitespace(gap)
    ensures StructuredPalette(Serialize(xs, gap)) == Some(xs[..5])
  {
    SerializedColoursParse(xs, gap);
  }
}
