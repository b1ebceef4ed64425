/** `JSON.parse` restricted to what the palette parsers can use: a JSON
    array of strings. `None` stands for every other outcome (a syntax error,
    which JavaScript throws, or a value that is not an array of strings).
    Strings are read without escape sequences: a backslash inside a string
    makes the parse fail. Also the single-quote normalisation the providers
    apply before parsing. */
module Json {
  import opened Wrappers
  import opened Hex

  /** `text.replace(/'/g, '"')`. */
  function ReplaceQuotes(s: string): (r: string)
    ensures |r| == |s| && '\'' !in r
    ensures forall i :: 0 <= i < |s| && s[i] == '\'' ==> r[i] == '"'
    ensures forall i :: 0 <= i < |s| && s[i] != '\'' ==> r[i] == s[i]
  {
    seq(|s|, i requires 0 <= i < |s| => if s[i] == '\'' then '"' else s[i])
  }

  /** Text without single quotes is left as it is. */
  lemma ReplaceQuotesWithoutQuotes(s: string)
    requires '\'' !in s
    ensures ReplaceQuotes(s) == s
  {
  }

  /** The normalisation touches neither `#` nor hex digits, so the regex
      scan sees the same colours before and after it. */
  lemma {:induction false} ReplaceQuotesKeepsScan(s: string)
    ensures HexMatches(ReplaceQuotes(s)) == HexMatches(s)
    decreases |s|
  {
    var r := ReplaceQuotes(s);
    if |s| >= 7 {
      assert IsHexColor(r[..7]) <==> IsHexColor(s[..7]);
      if IsHexColor(s[..7]) {
        assert r[..7] == s[..7];
        assert r[7..] == ReplaceQuotes(s[7..]);
        ReplaceQuotesKeepsScan(s[7..]);
      } else {
        assert r[1..] == ReplaceQuotes(s[1..]);
        ReplaceQuotesKeepsScan(s[1..]);
      }
    }
  }

  // ---------------------------------------------------------------------
  // The parser

  predicate IsJsonWhitespace(c: char) {
    c == ' ' || c == '\t' || c == '\n' || c == '\r'
  }

  /** A character allowed unescaped inside a JSON string. */
  predicate IsPlainChar(c: char) {
    c != '"' && c != '\\' && c >= ' '
  }

  predicate AllPlain(x: string) {
    forall i :: 0 <= i < |x| ==> IsPlainChar(x[i])
  }

  predicate AllJsonWhitespace(w: string) {
    forall i :: 0 <= i < |w| ==> IsJsonWhitespace(w[i])
  }

  /** The number of JSON whitespace characters `s` starts with. */
  function WhitespaceSpan(s: string): (n: nat)
    ensures n <= |s|
  {
    if s != [] && IsJsonWhitespace(s[0]) then 1 + WhitespaceSpan(s[1..]) else 0
  }

  function SkipWhitespace(s: string): (r: string)
    ensures |r| <= |s|
  {
    s[WhitespaceSpan(s)..]
  }

  /** The length of the run of plain characters `s` starts with. */
  function PlainSpan(s: string): (n: nat)
    ensures n <= |s| && AllPlain(s[..n])
    ensures n == |s| || !IsPlainChar(s[n])
  {
    if s != [] && IsPlainChar(s[0]) then
      var n := 1 + PlainSpan(s[1..]);
      assert s[..n] == [s[0]] + s[1..][..n - 1];
      n
    else 0
  }

  /** A string literal at the start of `s`: its contents and what follows. */
  function ParseString(s: string): (r: Option<(string, string)>)
    ensures r.Some? ==> (|r.value.1| < |s| && AllPlain(r.value.0)
                         && s == ['"'] + r.value.0 + ['"'] + r.value.1)
  {
    if s == [] || s[0] != '"' then None
    else
      var n := PlainSpan(s[1..]);
      if 1 + n < |s| && s[1 + n] == '"' then
        assert s == ['"'] + s[1..1 + n] + ['"'] + s[2 + n..];
        assert s[1..1 + n] == s[1..][..n];
        Some((s[1..1 + n], s[2 + n..]))
      else None
  }

  /** The rest of an array after an element: `, "..."` repeated, then `]`. */
  function ParseMore(s: string): (r: Option<(seq<string>, string)>)
    ensures r.Some? ==> |r.value.1| < |s|
    decreases |s|
  {
    var t := SkipWhitespace(s);
    if t != [] && t[0] == ']' then Some(([], t[1..]))
    else if t != [] && t[0] == ',' then
      match ParseString(SkipWhitespace(t[1..]))
      case None => None
      case Some((x, u)) =>
        match ParseMore(u)
        case None => None
        case Some((xs, v)) => Some(([x] + xs, v))
    else None
  }

  /** The items of an array whose `[` and following whitespace have been
      read. */
  function ParseItems(u: string): Option<(seq<string>, string)>
  {
    if u != [] && u[0] == ']' then Some(([], u[1..]))
    else
      match ParseString(u)
      case None => None
      case Some((x, v)) =>
        match ParseMore(v)
        case None => None
        case Some((xs, w)) => Some(([x] + xs, w))
  }

  /** `JSON.parse(s)` when the value is an array of strings: the text is
      an opening bracket after whitespace, and every string read is free of
      quotes, backslashes and control characters. */
  function ParseStringArray(s: string): (r: Option<seq<string>>)
    ensures r.Some? ==> SkipWhitespace(s) != [] && SkipWhitespace(s)[0] == '['
    ensures r.Some? ==> forall k :: 0 <= k < |r.value| ==> AllPlain(r.value[k])
  {
    var t := SkipWhitespace(s);
    if t == [] || t[0] != '[' then None
    else
      ParseItemsPlain(SkipWhitespace(t[1..]));
      match ParseItems(SkipWhitespace(t[1..]))
      case None => None
      case Some((xs, w)) => if SkipWhitespace(w) == [] then Some(xs) else None
  }

  /** Every string the array parser reads is plain. */
  lemma {:induction false} ParseMorePlain(s: string)
    ensures ParseMore(s).Some? ==> forall k :: 0 <= k < |ParseMore(s).value.0| ==> AllPlain(ParseMore(s).value.0[k])
    decreases |s|
  {
    var t := SkipWhitespace(s);
    if t != [] && t[0] == ',' && ParseString(SkipWhitespace(t[1..])).Some? {
      var (x, u) := ParseString(SkipWhitespace(t[1..])).value;
      ParseMorePlain(u);
    }
  }

  lemma ParseItemsPlain(u: string)
    ensures ParseItems(u).Some? ==> forall k :: 0 <= k < |ParseItems(u).value.0| ==> AllPlain(ParseItems(u).value.0[k])
  {
    if ParseString(u).Some? {
      ParseMorePlain(ParseString(u).value.1);
    }
  }

  // ---------------------------------------------------------------------
  // Serialisation and the round trip

  function Quote(x: string): string {
    ['"'] + x + ['"']
  }

  /** `, "x1", "x2", ...` with `gap` after each comma, followed by `k`. */
  function MoreThen(xs: seq<string>, gap: string, k: string): string {
    if xs == [] then k else [','] + (gap + (Quote(xs[0]) + MoreThen(xs[1..], gap, k)))
  }

  /** The items of an array, followed by `k`. */
  function ItemsThen(xs: seq<string>, gap: string, k: string): string {
    if xs == [] then k else Quote(xs[0]) + MoreThen(xs[1..], gap, k)
  }

  /** An array of strings written out with `gap` after each comma, as the
      prompts spell their example palettes (`gap` empty is what
      `JSON.stringify` writes). */
  function Serialize(xs: seq<string>, gap: string): string {
    ['['] + ItemsThen(xs, gap, [']'])
  }

  lemma {:induction false} MoreThenAppend(xs: seq<string>, gap: string, k: string, t: string)
    ensures MoreThen(xs, gap, k) + t == MoreThen(xs, gap, k + t)
  {
    if xs != [] {
      MoreThenAppend(xs[1..], gap, k, t);
      var q := Quote(xs[0]);
      var m := MoreThen(xs[1..], gap, k);
      assert [','] + (gap + (q + m)) + t == [','] + (gap + (q + (m + t)));
    }
  }

  lemma ItemsThenAppend(xs: seq<string>, gap: string, k: string, t: string)
    ensures ItemsThen(xs, gap, k) + t == ItemsThen(xs, gap, k + t)
  {
    if xs != [] {
      MoreThenAppend(xs[1..], gap, k, t);
      var q := Quote(xs[0]);
      var m := MoreThen(xs[1..], gap, k);
      assert q + m + t == q + (m + t);
    }
  }

  lemma {:induction false} MoreThenQuoteFree(xs: seq<string>, gap: string, k: string)
    requires forall i :: 0 <= i < |xs| ==> '\'' !in xs[i]
    requires '\'' !in gap && '\'' !in k
    ensures '\'' !in MoreThen(xs, gap, k)
  {
    if xs != [] {
      MoreThenQuoteFree(xs[1..], gap, k);
    }
  }

  /** Serialising strings without single quotes writes none, so the quote
      normalisation leaves the text alone. */
  lemma SerializeQuoteFree(xs: seq<string>, gap: string)
    requires forall i :: 0 <= i < |xs| ==> '\'' !in xs[i]
    requires '\'' !in gap
    ensures '\'' !in Serialize(xs, gap)
  {
    if xs != [] {
      MoreThenQuoteFree(xs[1..], gap, [']']);
    }
  }

  lemma {:induction false} SkipLeadingWhitespace(w: string, r: string)
    requires AllJsonWhitespace(w)
    requires r == [] || !IsJsonWhitespace(r[0])
    ensures SkipWhitespace(w + r) == r
    decreases |w|
  {
    if w != [] {
      assert (w + r)[1..] == w[1..] + r;
      SkipLeadingWhitespace(w[1..], r);
    } else {
      assert w + r == r;
    }
  }

  lemma {:induction false} PlainSpanOfQuoted(x: string, rest: string)
    requires AllPlain(x)
    ensures PlainSpan(x + ['"'] + rest) == |x|
    decreases |x|
  {
    if x != [] {
      assert (x + ['"'] + rest)[1..] == x[1..] + ['"'] + rest;
      PlainSpanOfQuoted(x[1..], rest);
    }
  }

  lemma ParseQuoted(x: string, rest: string)
    requires AllPlain(x)
    ensures ParseString(Quote(x) + rest) == Some((x, rest))
  {
    var s := Quote(x) + rest;
    assert s[1..] == x + ['"'] + rest;
    PlainSpanOfQuoted(x, rest);
    assert s[1..1 + |x|] == x;
    assert s[2 + |x|..] == rest;
  }

  lemma ParseMoreOnComma(s: string, x: string, u: string)
    requires s != [] && s[0] == ','
    requires ParseString(SkipWhitespace(s[1..])) == Some((x, u))
    ensures ParseMore(s) == match ParseMore(u)
                            case None => None
                            case Some((xs, v)) => Some(([x] + xs, v))
  {
    assert SkipWhitespace(s) == s;
  }

  lemma ParseMoreOnClose(s: string)
    requires s != [] && s[0] == ']'
    ensures ParseMore(s) == Some(([], s[1..]))
  {
    assert SkipWhitespace(s) == s;
  }

  /** One serialised element after a comma is read back. */
  lemma ParseMoreOnQuoted(gap: string, x: string, more: string)
    requires AllJsonWhitespace(gap) && AllPlain(x)
    ensures ParseMore([','] + (gap + (Quote(x) + more))) == match ParseMore(more)
                            case None => None
                            case Some((xs, v)) => Some(([x] + xs, v))
  {
    var s := [','] + (gap + (Quote(x) + more));
    assert s[1..] == gap + (Quote(x) + more);
    SkipLeadingWhitespace(gap, Quote(x) + more);
    ParseQuoted(x, more);
    ParseMoreOnComma(s, x, more);
  }

  lemma {:induction false} ParseMoreSerialized(xs: seq<string>, gap: string, tail: string)
    requires AllJsonWhitespace(gap)
    requires forall k :: 0 <= k < |xs| ==> AllPlain(xs[k])
    ensures ParseMore(MoreThen(xs, gap, [']'] + tail)) == Some((xs, tail))
  {
    if xs == [] {
      ParseMoreOnClose([']'] + tail);
    } else {
      var more := MoreThen(xs[1..], gap, [']'] + tail);
      ParseMoreOnQuoted(gap, xs[0], more);
      ParseMoreSerialized(xs[1..], gap, tail);
      assert [xs[0]] + xs[1..] == xs;
    }
  }

  lemma ParseItemsOnString(u: string, x: string, v: string)
    requires ParseString(u) == Some((x, v))
    ensures ParseItems(u) == match ParseMore(v)
                             case None => None
                             case Some((xs, w)) => Some(([x] + xs, w))
  {
  }

  lemma ParseArrayOnOpen(s: string, rest: string)
    requires SkipWhitespace(s) == ['['] + rest
    ensures ParseStringArray(s) == match ParseItems(SkipWhitespace(rest))
                                   case None => None
                                   case Some((xs, w)) => if SkipWhitespace(w) == [] then Some(xs) else None
  {
    assert (['['] + rest)[1..] == rest;
  }

  lemma ParseItemsSerialized(xs: seq<string>, gap: string, tail: string)
    requires AllJsonWhitespace(gap)
    requires forall k :: 0 <= k < |xs| ==> AllPlain(xs[k])
    ensures ParseItems(ItemsThen(xs, gap, [']'] + tail)) == Some((xs, tail))
  {
    if xs != [] {
      var more := MoreThen(xs[1..], gap, [']'] + tail);
      var u := Quote(xs[0]) + more;
      ParseQuoted(xs[0], more);
      ParseMoreSerialized(xs[1..], gap, tail);
      ParseItemsOnString(u, xs[0], more);
      assert [xs[0]] + xs[1..] == xs;
    }
  }

  /** Parsing a serialised array, with any JSON whitespace around it, gives
      the strings back in order. */
  lemma ParseSerialized(xs: seq<string>, gap: string, before: string, after: string)
    requires AllJsonWhitespace(gap) && AllJsonWhitespace(before) && AllJsonWhitespace(after)
    requires forall k :: 0 <= k < |xs| ==> AllPlain(xs[k])
    ensures ParseStringArray(before + Serialize(xs, gap) + after) == Some(xs)
  {
    var u := ItemsThen(xs, gap, [']'] + after);
    ItemsThenAppend(xs, gap, [']'], after);
    var s := before + (['['] + u);
    assert before + Serialize(xs, gap) + after == s;
    SkipLeadingWhitespace(before, ['['] + u);
    SkipLeadingWhitespace([], u);
    assert [] + u == u;
    ParseArrayOnOpen(s, u);
    SkipLeadingWhitespace(after, []);
    assert after + [] == after;
    ParseItemsSerialized(xs, gap, after);
  }

  lemma ColoursArePlain(xs: seq<string>)
    requires AllHexColors(xs)
    ensures forall i :: 0 <= i < |xs| ==> AllPlain(xs[i]) && '\'' !in xs[i]
  {
    forall i | 0 <= i < |xs| ensures AllPlain(xs[i]) && '\'' !in xs[i] {
      assert IsHexColor(xs[i]);
    }
  }

  /** Colours and JSON whitespace hold no single quote, so neither does
      their serialisation. */
  lemma SerializedColoursQuoteFree(xs: seq<string>, gap: string)
    requires AllHexColors(xs) && AllJsonWhitespace(gap)
    ensures ReplaceQuotes(Serialize(xs, gap)) == Serialize(xs, gap)
  {
    ColoursArePlain(xs);
    assert forall i :: 0 <= i < |gap| ==> gap[i] != '\'';
    SerializeQuoteFree(xs, gap);
    ReplaceQuotesWithoutQuotes(Serialize(xs, gap));
  }

  lemma SerializedParses(xs: seq<string>, gap: string)
    requires AllJsonWhitespace(gap)
    requires forall k :: 0 <= k < |xs| ==> AllPlain(xs[k])
    ensures ParseStringArray(Serialize(xs, gap)) == Some(xs)
  {
    ParseSerialized(xs, gap, [], []);
    assert [] + Serialize(xs, gap) + [] == Serialize(xs, gap);
  }

  /** Colours written out as a JSON array, read back after the quote
      normalisation, are the same colours. */
  lemma SerializedColoursParse(xs: seq<string>, gap: string)
    requires AllHexColors(xs) && AllJsonWhitespace(gap)
    ensures ParseStringArray(ReplaceQuotes(Serialize(xs, gap))) == Some(xs)
  {
    SerializedColoursQuoteFree(xs, gap);
    ColoursArePlain(xs);
    SerializedParses(xs, gap);
  }

  // ---------------------------------------------------------------------
  // What the regex scan sees in text that parses

  /** The scans of the array's strings, one after the other. */
  function ScanAll(xs: seq<string>): seq<string> {
    if xs == [] then [] else HexMatches(xs[0]) + ScanAll(xs[1..])
  }

  lemma {:induction false} ScanSkipsWhitespace(s: string)
    ensures HexMatches(SkipWhitespace(s)) == HexMatches(s)
    decreases |s|
  {
    if s != [] && IsJsonWhitespace(s[0]) {
      ScanSkipsNonHash(s);
      ScanSkipsWhitespace(s[1..]);
    }
  }

  lemma ScanOfString(s: string, x: string, rest: string)
    requires ParseString(s) == Some((x, rest))
    ensures HexMatches(s) == HexMatches(x) + HexMatches(rest)
  {
    ScanSkipsNonHash(s);
    assert s[1..] == x + (['"'] + rest);
    ScanSplitBeforeNonDigit(x, ['"'] + rest);
    ScanSkipsNonHash(['"'] + rest);
    assert (['"'] + rest)[1..] == rest;
  }

  lemma ParseMoreCases(s: string, xs: seq<string>, rest: string)
    requires ParseMore(s) == Some((xs, rest))
    ensures SkipWhitespace(s) != []
    ensures SkipWhitespace(s)[0] == ']' ==> xs == [] && rest == SkipWhitespace(s)[1..]
    ensures SkipWhitespace(s)[0] != ']' ==>
      var t' := SkipWhitespace(SkipWhitespace(s)[1..]);
      && SkipWhitespace(s)[0] == ','
      && ParseString(t').Some?
      && ParseMore(ParseString(t').value.1).Some?
      && xs == [ParseString(t').value.0] + ParseMore(ParseString(t').value.1).value.0
      && rest == ParseMore(ParseString(t').value.1).value.1
  {
  }

  lemma ParseItemsCases(u: string, xs: seq<string>, rest: string)
    requires ParseItems(u) == Some((xs, rest))
    ensures u != []
    ensures u[0] == ']' ==> xs == [] && rest == u[1..]
    ensures u[0] != ']' ==>
      && ParseString(u).Some?
      && ParseMore(ParseString(u).value.1).Some?
      && xs == [ParseString(u).value.0] + ParseMore(ParseString(u).value.1).value.0
      && rest == ParseMore(ParseString(u).value.1).value.1
  {
  }

  /** Scanning a parsed element and then what follows it: the element's
      colours come first, then those of the remaining elements and text. */
  lemma ScanAllCons(x: string, ys: seq<string>, after: seq<string>)
    ensures ScanAll([x] + ys) + after == HexMatches(x) + (ScanAll(ys) + after)
  {
    assert ([x] + ys)[1..] == ys;
  }

  /** Whitespace, a separator and whitespace hold no colour. */
  lemma ScanSkipsSeparator(s: string)
    requires SkipWhitespace(s) != [] && SkipWhitespace(s)[0] in {',', ']'}
    ensures HexMatches(s) == HexMatches(SkipWhitespace(SkipWhitespace(s)[1..]))
    ensures HexMatches(s) == HexMatches(SkipWhitespace(s)[1..])
  {
    var t := SkipWhitespace(s);
    ScanSkipsWhitespace(s);
    ScanSkipsNonHash(t);
    ScanSkipsWhitespace(t[1..]);
  }

  lemma {:induction false} ScanOfMore(s: string, xs: seq<string>, rest: string)
    requires ParseMore(s) == Some((xs, rest))
    ensures HexMatches(s) == ScanAll(xs) + HexMatches(rest)
    decreases |s|
  {
    var t := SkipWhitespace(s);
    ParseMoreCases(s, xs, rest);
    ScanSkipsSeparator(s);
    if t[0] != ']' {
      var t' := SkipWhitespace(t[1..]);
      var (x, u) := ParseString(t').value;
      var (ys, v) := ParseMore(u).value;
      assert xs == [x] + ys && rest == v;
      ScanOfString(t', x, u);
      assert |u| < |s|;
      ScanOfMore(u, ys, v);
      ScanAllCons(x, ys, HexMatches(v));
      calc {
        HexMatches(s);
        HexMatches(t');
        HexMatches(x) + HexMatches(u);
        HexMatches(x) + (ScanAll(ys) + HexMatches(v));
      }
    }
  }

  lemma ScanOfItems(u: string, xs: seq<string>, rest: string)
    requires ParseItems(u) == Some((xs, rest))
    ensures HexMatches(u) == ScanAll(xs) + HexMatches(rest)
  {
    ParseItemsCases(u, xs, rest);
    if u[0] == ']' {
      ScanSkipsNonHash(u);
    } else {
      var (x, v) := ParseString(u).value;
      var (ys, w) := ParseMore(v).value;
      ScanOfString(u, x, v);
      ScanOfMore(v, ys, w);
      ScanAllCons(x, ys, HexMatches(w));
    }
  }

  /** Text that parses as an array of strings holds exactly the colours
      inside those strings: nothing between them can be part of a match. */
  lemma ScanOfParsedArray(s: string)
    requires ParseStringArray(s).Some?
    ensures HexMatches(s) == ScanAll(ParseStringArray(s).value)
  {
    var t := SkipWhitespace(s);
    ScanSkipsWhitespace(s);
    ScanSkipsNonHash(t);
    ScanSkipsWhitespace(t[1..]);
    var u := SkipWhitespace(t[1..]);
    var (xs, w) := ParseItems(u).value;
    ScanOfItems(u, xs, w);
    ScanSkipsWhitespace(w);
  }

  lemma {:induction false} ScanAllOfColors(xs: seq<string>)
    requires AllHexColors(xs)
    ensures ScanAll(xs) == xs
  {
    if xs != [] {
      ScanOfColor(xs[0]);
      ScanAllOfColors(xs[1..]);
      assert [xs[0]] + xs[1..] == xs;
    }
  }

  /** The structured path and the regex scan agree: when the normalised
      text parses as an array of well-formed colours, scanning the original
      text finds exactly that array. */
  lemma ParsedColorsAreScan(text: string)
    requires ParseStringArray(ReplaceQuotes(text)).Some?
    requires AllHexColors(ParseStringArray(ReplaceQuotes(text)).value)
    ensures HexMatches(text) == ParseStringArray(ReplaceQuotes(text)).value
  {
    ScanOfParsedArray(ReplaceQuotes(text));
    ReplaceQuotesKeepsScan(text);
    ScanAllOfColors(ParseStringArray(ReplaceQuotes(text)).value);
  }
}
