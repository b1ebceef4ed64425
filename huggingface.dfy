/** `fetchPaletteFromHuggingFace`: the request headers, and the dispatch on
    the shape of the decoded response that produces the candidate list,
    followed by one validation. */
module HuggingFace {
  import opened Wrappers
  import opened Hex
  import opened Json
  import opened Replies

  const ApiError: string := "Hugging Face API error"

  const Unparsable: string := "Could not parse 5 hex codes from Hugging Face response"

  /** A JSON value where only strings matter to the validation. */
  datatype Item = Str(s: string) | NonString

  /** The decoded response body, by the shape the dispatch looks at. An
      object is its own properties in order, keys distinct. */
  datatype HfData =
    | Array(items: seq<Item>)
    | Object(entries: seq<(string, Item)>)
    | Text(text: string)
    | Other

  /** `{ "Content-Type": ..., ...(token ? { Authorization: ... } : {}) }`,
      where `token` is "" when unset. */
  function Headers(token: string): (r: seq<(string, string)>)
    ensures |r| >= 1 && r[0] == ("Content-Type", "application/json")
    ensures (exists i | 0 <= i < |r| :: r[i].0 == "Authorization") <==> token != ""
    ensures forall i :: 0 <= i < |r| && r[i].0 == "Authorization" ==> r[i].1 == "Bearer " + token
  {
    var base := [("Content-Type", "application/json")];
    if token == "" then
      assert "Content-Type" != "Authorization" by {
        assert "Content-Type"[0] != "Authorization"[0];
      }
      base
    else
      var r := base + [("Authorization", "Bearer " + token)];
      assert r[1].0 == "Authorization";
      assert "Content-Type"[0] != "Authorization"[0];
      r
  }

  predicate HasKey(entries: seq<(string, Item)>, key: string) {
    exists i | 0 <= i < |entries| :: entries[i].0 == key
  }

  /** The value under `key`: the first entry that has it. */
  function Lookup(entries: seq<(string, Item)>, key: string): (r: Item)
    requires HasKey(entries, key)
    ensures exists i | 0 <= i < |entries| :: entries[i] == (key, r)
  {
    if entries[0].0 == key then entries[0].1
    else
      assert HasKey(entries[1..], key) by {
        var i :| 0 <= i < |entries| && entries[i].0 == key;
        assert entries[1..][i - 1].0 == key;
      }
      var r := Lookup(entries[1..], key);
      var i :| 0 <= i < |entries[1..]| && entries[1..][i] == (key, r);
      assert entries[i + 1] == (key, r);
      r
  }

  /** `Object.values(data)`. */
  function Values(entries: seq<(string, Item)>): (r: seq<Item>)
    ensures |r| == |entries| && forall i :: 0 <= i < |r| ==> r[i] == entries[i].1
  {
    seq(|entries|, i requires 0 <= i < |entries| => entries[i].1)
  }

  /** `try { arr = JSON.parse(s) } catch {}`: the strings of a parsed array,
      or the empty list the code started with. */
  function ParsedItems(s: string): (r: seq<Item>)
    ensures ParseStringArray(s).None? ==> r == []
    ensures ParseStringArray(s).Some? ==>
      |r| == |ParseStringArray(s).value|
      && forall i :: 0 <= i < |r| ==> r[i] == Str(ParseStringArray(s).value[i])
  {
    match ParseStringArray(s)
    case None => []
    case Some(xs) => seq(|xs|, i requires 0 <= i < |xs| => Str(xs[i]))
  }

  /** The dispatch on the response shape: an array is taken as it is, an
      object by its `"[0]"` key first and its `generated_text` second, a
      string parsed as JSON; anything else gives no candidates. Only an
      array or an object's values can bring non-string items. */
  function Candidates(data: HfData): (r: seq<Item>)
    ensures data.Array? ==> r == data.items
    ensures data.Object? && HasKey(data.entries, "[0]") ==> r == Values(data.entries)
    ensures data.Object? && !HasKey(data.entries, "[0]") && HasKey(data.entries, "generated_text") ==>
      match Lookup(data.entries, "generated_text")
      case Str(g) => r == ParsedItems(g)
      case NonString => r == []
    ensures data.Object? && !HasKey(data.entries, "[0]") && !HasKey(data.entries, "generated_text") ==> r == []
    ensures data.Text? ==> r == ParsedItems(data.text)
    ensures data.Other? ==> r == []
    ensures data.Text? || (data.Object? && !HasKey(data.entries, "[0]")) ==>
      forall i :: 0 <= i < |r| ==> r[i].Str?
  {
    match data
    case Array(items) => items
    case Object(entries) =>
      if HasKey(entries, "[0]") then Values(entries)
      else if HasKey(entries, "generated_text") then
        match Lookup(entries, "generated_text")
        case Str(g) => ParsedItems(g)
        case NonString => []
      else []
    case Text(s) => ParsedItems(s)
    case Other => []
  }

  predicate IsColourItem(item: Item) {
    item.Str? && IsHexColor(item.s)
  }

  /** The validation: at least five candidates, every one a colour string;
      the first five are returned. */
  function Validate(arr: seq<Item>): (r: Result<seq<string>, string>)
    ensures r.Success? <==> |arr| >= 5 && forall i :: 0 <= i < |arr| ==> IsColourItem(arr[i])
    ensures r.Failure? ==> r.error == Unparsable
    ensures r.Success? ==> IsPalette(r.value) && forall i :: 0 <= i < 5 ==> arr[i] == Str(r.value[i])
  {
    if |arr| >= 5 && forall i :: 0 <= i < |arr| ==> IsColourItem(arr[i]) then
      Success(seq(5, i requires 0 <= i < 5 => arr[i].s))
    else Failure(Unparsable)
  }

  function FetchPalette(reply: HttpReply<HfData>): (r: Result<seq<string>, string>)
    ensures reply.NotOk? ==> r == Failure(ApiError)
    ensures reply.Ok? ==> r == Validate(Candidates(reply.data))
    ensures r.Success? ==> IsPalette(r.value)
    ensures r.Failure? ==> r.error == ApiError || r.error == Unparsable
  {
    match reply
    case NotOk(_, _) => Failure(ApiError)
    case Ok(data) => Validate(Candidates(data))
  }

  /** The `"[0]"` key wins over `generated_text`: when both are present the
      object's values are the candidates. */
  lemma IndexKeyTakesPriority(entries: seq<(string, Item)>)
    requires HasKey(entries, "[0]")
    ensures Candidates(Object(entries)) == Values(entries)
  {
  }

  /** A list of colour strings passes the validation, trimmed to five. */
  lemma ValidateColours(xs: seq<string>)
    requires |xs| >= 5 && AllHexColors(xs)
    ensures Validate(seq(|xs|, i requires 0 <= i < |xs| => Str(xs[i]))) == Success(xs[..5])
  {
    var items := seq(|xs|, i requires 0 <= i < |xs| => Str(xs[i]));
    assert forall i :: 0 <= i < |items| ==> IsColourItem(items[i]);
    var r := Validate(items);
    assert r.value == xs[..5];
  }

  /** A `generated_text` holding a JSON array of at least five colours
      gives its first five. */
  lemma GeneratedTextParsed(entries: seq<(string, Item)>, g: string, xs: seq<string>)
    requires !HasKey(entries, "[0]")
    requires HasKey(entries, "generated_text") && Lookup(entries, "generated_text") == Str(g)
    requires ParseStringArray(g) == Some(xs)
    requires |xs| >= 5 && AllHexColors(xs)
    ensures FetchPalette(Ok(Object(entries))) == Success(xs[..5])
  {
    var items := seq(|xs|, i requires 0 <= i < |xs| => Str(xs[i]));
    assert ParsedItems(g) == items;
    assert Candidates(Object(entries)) == items;
    ValidateColours(xs);
  }

  /** Text that is not an array of strings leaves no candidates, so it is
      reported as unparsable. */
  lemma UnparsableText(s: string)
    requires ParseStringArray(s).None?
    ensures FetchPalette(Ok(Text(s))) == Failure(Unparsable)
  {
  }
}
