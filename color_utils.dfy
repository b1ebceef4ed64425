/** `colorUtils.ts`: random colours from a given draw, the hue and lightness
    schedule of similar palettes, the three-digit shorthand expansion, and
    the Tailwind `@theme` snippet. */
module ColorUtils {
  import opened Wrappers
  import opened Hex
  import opened Text

  // ---------------------------------------------------------------------
  // Random colours

  /** What `Math.floor(Math.random() * 0xffffff)` can produce. */
  predicate IsDraw(n: nat) {
    n < 0xffffff
  }

  /** `"#" + n.toString(16).padStart(6, "0")` for the draw `n`: a
      well-formed lower-case colour that encodes the draw; so white, which
      no draw reaches, is never produced. */
  function RandomHexColor(draw: nat): (c: string)
    requires IsDraw(draw)
    ensures IsHexColor(c)
    ensures forall i :: 1 <= i < 7 ==> IsLowerDigitIn(c[i], 16)
    ensures RadixValue(c[1..], 16) == draw
    ensures c != "#ffffff"
  {
    var body := PadStart(ToRadix(draw, 16), 6, '0');
    PaddedDraw(draw);
    var c := "#" + body;
    assert c[1..] == body;
    assert forall i :: 1 <= i < 7 ==> c[i] == body[i - 1];
    assert "#ffffff"[1..] == "ffffff";
    c
  }

  /** The six digits of a draw. */
  lemma PaddedDraw(draw: nat)
    requires IsDraw(draw)
    ensures var body := PadStart(ToRadix(draw, 16), 6, '0');
      && |body| == 6
      && (forall i :: 0 <= i < 6 ==> IsLowerDigitIn(body[i], 16) && IsHexDigit(body[i]))
      && RadixValue(body, 16) == draw
      && body != "ffffff"
  {
    SixteenToTheSixth();
    PaddedRadix(draw, 16, 6);
    WhiteValue();
  }

  lemma SixteenToTheSixth()
    ensures Pow(16, 6) == 0x1000000
  {
    assert Pow(16, 3) == 0x1000;
  }

  lemma WhiteValue()
    ensures RadixValue("ffffff", 16) == 0xffffff
  {
    assert "ffffff"[..5] == "fffff" && "fffff"[..4] == "ffff" && "ffff"[..3] == "fff";
    assert "fff"[..2] == "ff" && "ff"[..1] == "f" && "f"[..0] == "";
  }

  /** Five draws, one colour each. */
  function RandomPalette(draws: seq<nat>): (r: seq<string>)
    requires |draws| == 5 && forall i :: 0 <= i < 5 ==> IsDraw(draws[i])
    ensures IsPalette(r)
    ensures forall i :: 0 <= i < 5 ==> RadixValue(r[i][1..], 16) == draws[i]
  {
    var r := seq(5, i requires 0 <= i < 5 => RandomHexColor(draws[i]));
    assert forall i :: 0 <= i < 5 ==> r[i] == RandomHexColor(draws[i]);
    r
  }

  // ---------------------------------------------------------------------
  // Similar palettes

  /** A colour in hue, saturation and lightness, on the integer grid. */
  datatype Hsl = Hsl(h: int, s: int, l: int)

  /** JavaScript's `%`: the remainder takes the sign of the dividend. */
  function JsRem(a: int, b: int): (r: int)
    requires b > 0
    ensures a >= 0 ==> r == a % b
    ensures a < 0 ==> -b < r <= 0
    ensures (a - r) % b == 0
  {
    if a >= 0 then
      assert a - a % b == (a / b) * b;
      MultipleRem(a / b, b);
      a % b
    else
      NegativeRem(a, b);
      -((-a) % b)
  }

  lemma MultipleRem(q: int, b: int)
    requires b > 0
    ensures (q * b) % b == 0
  {
    var x := q * b;
    var m := q - x / b;
    Distribute(q, x / b, b);
    assert x % b == m * b;
    OnlyZeroMultipleBelow(m, b);
  }

  lemma Distribute(p: int, q: int, b: int)
    ensures p * b - q * b == (p - q) * b
  {
  }

  /** The only multiple of `b` in [0, b) is zero. */
  lemma OnlyZeroMultipleBelow(m: int, b: int)
    requires b > 0 && 0 <= m * b < b
    ensures m == 0
  {
  }

  /** For a negative dividend, JavaScript's remainder still differs from
      it by a multiple of the divisor. */
  lemma NegativeRem(a: int, b: int)
    requires a < 0 && b > 0
    ensures (a + (-a) % b) % b == 0
  {
    var q := (-a) / b;
    assert -a == q * b + (-a) % b;
    assert a + (-a) % b == (-q) * b;
    MultipleRem(-q, b);
  }

  /** `i - Math.floor(count / 2)`: the distance from the middle element. */
  function Offset(count: nat, i: nat): int {
    i - count / 2
  }

  /** `(h + offset * 18 + 360) % 360`: the base hue turned by 18 degrees
      per step, in (-360, 360), and in [0, 360) unless the turn goes below
      a full circle backwards. */
  function Hue(h: int, count: nat, i: nat): (r: int)
    ensures -360 < r < 360
    ensures (h + Offset(count, i) * 18 - r) % 360 == 0
    ensures h + Offset(count, i) * 18 + 360 >= 0 ==> r >= 0
    ensures h + Offset(count, i) * 18 + 360 < 0 ==> r <= 0
  {
    var a := h + Offset(count, i) * 18 + 360;
    var r := JsRem(a, 360);
    var k := (a - r) / 360;
    assert a - r == k * 360;
    assert h + Offset(count, i) * 18 - r == (k - 1) * 360;
    MultipleRem(k - 1, 360);
    r
  }

  /** `Math.max(20, Math.min(85, l + offset * 7))`. */
  function Lightness(l: int, count: nat, i: nat): (r: int)
    ensures 20 <= r <= 85
    ensures 20 <= l + Offset(count, i) * 7 <= 85 ==> r == l + Offset(count, i) * 7
    ensures l + Offset(count, i) * 7 < 20 ==> r == 20
    ensures l + Offset(count, i) * 7 > 85 ==> r == 85
  {
    var v := l + Offset(count, i) * 7;
    if v > 85 then 85 else if v < 20 then 20 else v
  }

  /** The colour of element `i`: the base hue and lightness shifted,
      saturation kept. */
  function Step(base: Hsl, count: nat, i: nat): (c: Hsl)
    ensures c.s == base.s && 20 <= c.l <= 85
  {
    Hsl(Hue(base.h, count, i), base.s, Lightness(base.l, count, i))
  }

  /** `generateSimilarPalette` from the base colour in HSL; `hslToHex` is
      the conversion back, which is not part of this model. */
  function SimilarPalette(base: Hsl, count: nat, hslToHex: Hsl -> string): (r: seq<string>)
    ensures |r| == count
    ensures forall i :: 0 <= i < count ==> r[i] == hslToHex(Step(base, count, i))
  {
    seq(count, i requires 0 <= i < count => hslToHex(Step(base, count, i)))
  }

  /** The middle element keeps the base hue. */
  lemma MiddleKeepsHue(h: int, count: nat)
    requires 0 <= h < 360
    ensures Hue(h, count, count / 2) == h
  {
    assert Offset(count, count / 2) == 0;
    assert (h + 360) % 360 == h;
  }

  /** For up to 41 elements every hue is in [0, 360). */
  lemma HuesInRange(h: int, count: nat, i: nat)
    requires 0 <= h < 360 && count <= 41 && i < count
    ensures 0 <= Hue(h, count, i) < 360
  {
    assert Offset(count, i) >= -20;
  }

  /** From 42 elements on, the first hue can fall below zero. */
  lemma NegativeHueFromFortyTwo()
    ensures Hue(0, 42, 0) == -18
  {
    assert Offset(42, 0) == -21;
    assert JsRem(-18, 360) == -18;
  }

  /** Remainders by 360 of small non-negative numbers, without
      multiplication. */
  lemma RemSmall(a: int)
    requires 0 <= a < 1440
    ensures a < 360 ==> a % 360 == a
    ensures 360 <= a < 720 ==> a % 360 == a - 360
    ensures 720 <= a < 1080 ==> a % 360 == a - 720
    ensures 1080 <= a ==> a % 360 == a - 1080
  {
  }

  /** Neighbouring elements are 18 degrees apart around the colour wheel. */
  lemma NeighbourHuesStep(h: int, count: nat, i: nat)
    requires 0 <= h < 360 && count <= 41 && i + 1 < count
    ensures Hue(h, count, i + 1) == (Hue(h, count, i) + 18) % 360
  {
    var off := Offset(count, i);
    assert -20 <= off <= 20 && Offset(count, i + 1) == off + 1;
    var a := h + off * 18 + 360;
    assert 0 <= a < 1080;
    RemSmall(a);
    RemSmall(a + 18);
    RemSmall(a % 360 + 18);
  }

  /** The five hues around a base hue of 200. */
  lemma FiveAroundTwoHundred()
    ensures Hue(200, 5, 0) == 164 && Hue(200, 5, 1) == 182 && Hue(200, 5, 2) == 200
    ensures Hue(200, 5, 3) == 218 && Hue(200, 5, 4) == 236
  {
    assert Offset(5, 0) == -2 && Offset(5, 1) == -1 && Offset(5, 2) == 0;
    assert Offset(5, 3) == 1 && Offset(5, 4) == 2;
    assert JsRem(524, 360) == 164 && JsRem(542, 360) == 182 && JsRem(560, 360) == 200;
    assert JsRem(578, 360) == 218 && JsRem(596, 360) == 236;
  }

  /** `generateRandomPalette(baseColor)`: random when no base colour is
      given (absent or empty), similar colours around it otherwise;
      `hexToHsl` is the conversion of the base, which is not part of this
      model. */
  function GenerateRandomPalette(baseColor: Option<string>, draws: seq<nat>,
                                 hexToHsl: string -> Hsl, hslToHex: Hsl -> string): (r: seq<string>)
    requires |draws| == 5 && forall i :: 0 <= i < 5 ==> IsDraw(draws[i])
    ensures |r| == 5
    ensures baseColor.None? || baseColor == Some("") ==> r == RandomPalette(draws)
    ensures baseColor.Some? && baseColor.value != "" ==>
      forall i :: 0 <= i < 5 ==> r[i] == hslToHex(Step(hexToHsl(baseColor.value), 5, i))
  {
    match baseColor
    case None => RandomPalette(draws)
    case Some(b) => if b == "" then RandomPalette(draws) else SimilarPalette(hexToHsl(b), 5, hslToHex)
  }

  // ---------------------------------------------------------------------
  // The hex body read by hexToHSL

  /** `s.replace("#", "")`: a string pattern, so only the first `#` goes. */
  function RemoveFirstHash(s: string): (r: string)
    ensures '#' !in s ==> r == s
    ensures '#' in s ==> |r| == |s| - 1 && s == r[..IndexOf(s, '#')] + "#" + r[IndexOf(s, '#')..]
    ensures '#' in s ==> '#' !in r[..IndexOf(s, '#')]
  {
    var k := IndexOf(s, '#');
    if k < 0 then s
    else
      var r := s[..k] + s[k + 1..];
      assert r[..k] == s[..k] && r[k..] == s[k + 1..];
      assert s == s[..k] + "#" + s[k + 1..];
      r
  }

  /** `c.split("").map(x => x + x).join("")`. */
  function Doubled(c: string): string {
    Join(seq(|c|, i requires 0 <= i < |c| => [c[i], c[i]]), "")
  }

  lemma {:induction false} DoubledSpec(c: string)
    ensures |Doubled(c)| == 2 * |c|
    ensures forall k :: 0 <= k < |c| ==> Doubled(c)[2 * k] == c[k] && Doubled(c)[2 * k + 1] == c[k]
    decreases |c|
  {
    if |c| == 1 {
      assert Doubled(c) == [c[0], c[0]];
    } else if |c| > 1 {
      var parts := seq(|c|, i requires 0 <= i < |c| => [c[i], c[i]]);
      assert parts[1..] == seq(|c| - 1, i requires 0 <= i < |c| - 1 => [c[1..][i], c[1..][i]]);
      DoubledSpec(c[1..]);
      var d := Doubled(c);
      assert d == [c[0], c[0]] + Doubled(c[1..]);
      forall k | 0 <= k < |c| ensures d[2 * k] == c[k] && d[2 * k + 1] == c[k] {
        if k > 0 {
          assert d[2 * k] == Doubled(c[1..])[2 * (k - 1)];
          assert d[2 * k + 1] == Doubled(c[1..])[2 * (k - 1) + 1];
        }
      }
    }
  }

  /** The hex digits `hexToHSL` parses: the first `#` removed, and a
      three-digit shorthand expanded by doubling each digit. */
  function HexBody(hex: string): (r: string)
    ensures |RemoveFirstHash(hex)| == 3 ==> (
      && |r| == 6
      && forall k :: 0 <= k < 3 ==> r[2 * k] == RemoveFirstHash(hex)[k] && r[2 * k + 1] == RemoveFirstHash(hex)[k])
    ensures |RemoveFirstHash(hex)| != 3 ==> r == RemoveFirstHash(hex)
  {
    var c := RemoveFirstHash(hex);
    if |c| == 3 then DoubledSpec(c); Doubled(c) else c
  }

  lemma ShorthandExample()
    ensures HexBody("#abc") == "aabbcc"
  {
    assert IndexOf("#abc", '#') == 0;
    assert RemoveFirstHash("#abc") == "abc";
    var c := RemoveFirstHash("#abc");
    assert c[0] == 'a' && c[1] == 'b' && c[2] == 'c';
    var d := HexBody("#abc");
    assert d[0] == c[0] && d[1] == c[0] && d[2] == c[1] && d[3] == c[1] && d[4] == c[2] && d[5] == c[2];
  }

  // ---------------------------------------------------------------------
  // The Tailwind snippet

  /** `${prefix}-${idx + 1}`. */
  function Key(prefix: string, idx: nat): string {
    prefix + "-" + Decimal(idx + 1)
  }

  lemma KeysDistinct(prefix: string, i: nat, j: nat)
    requires i != j
    ensures Key(prefix, i) != Key(prefix, j)
  {
    if Key(prefix, i) == Key(prefix, j) {
      var n := |prefix| + 1;
      assert Key(prefix, i)[n..] == Decimal(i + 1);
      assert Key(prefix, j)[n..] == Decimal(j + 1);
      DecimalInjective(i + 1, j + 1);
    }
  }

  /** A `Record<string, string>` as its entries in insertion order. */
  type Record = seq<(string, string)>

  predicate HasKey(rec: Record, key: string) {
    exists i | 0 <= i < |rec| :: rec[i].0 == key
  }

  /** `acc[key] = value`: an existing key keeps its place and takes the new
      value, a new key goes last. */
  function Put(rec: Record, key: string, value: string): (r: Record)
    ensures !HasKey(rec, key) ==> r == rec + [(key, value)]
    ensures HasKey(rec, key) ==> |r| == |rec|
    ensures forall i :: 0 <= i < |rec| && rec[i].0 != key ==> r[i] == rec[i]
    ensures HasKey(rec, key) ==> exists i | 0 <= i < |rec| ::
      rec[i].0 == key && !HasKey(rec[..i], key) && r == rec[i := (key, value)]
  {
    if rec == [] then [(key, value)]
    else if rec[0].0 == key then
      assert rec[..0] == [];
      assert [(key, value)] + rec[1..] == rec[0 := (key, value)];
      [(key, value)] + rec[1..]
    else
      var t := Put(rec[1..], key, value);
      PutBehindHead(rec, key, value, t);
      [rec[0]] + t
  }

  /** The recursive step of `Put`: when the head holds another key, putting
      into the tail and keeping the head is putting into the whole record. */
  lemma PutBehindHead(rec: Record, key: string, value: string, t: Record)
    requires rec != [] && rec[0].0 != key
    requires !HasKey(rec[1..], key) ==> t == rec[1..] + [(key, value)]
    requires HasKey(rec[1..], key) ==> |t| == |rec| - 1
    requires forall i :: 0 <= i < |rec| - 1 && rec[1..][i].0 != key ==> t[i] == rec[1..][i]
    requires HasKey(rec[1..], key) ==> exists i | 0 <= i < |rec| - 1 ::
      rec[1..][i].0 == key && !HasKey(rec[1..][..i], key) && t == rec[1..][i := (key, value)]
    ensures HasKey(rec, key) <==> HasKey(rec[1..], key)
    ensures !HasKey(rec, key) ==> [rec[0]] + t == rec + [(key, value)]
    ensures HasKey(rec, key) ==> |[rec[0]] + t| == |rec|
    ensures forall i :: 0 <= i < |rec| && rec[i].0 != key ==> ([rec[0]] + t)[i] == rec[i]
    ensures HasKey(rec, key) ==> exists i | 0 <= i < |rec| ::
      rec[i].0 == key && !HasKey(rec[..i], key) && [rec[0]] + t == rec[i := (key, value)]
  {
    if HasKey(rec, key) {
      var i :| 0 <= i < |rec| && rec[i].0 == key;
      assert rec[1..][i - 1].0 == key;
    }
    if HasKey(rec[1..], key) {
      var i :| 0 <= i < |rec[1..]| && rec[1..][i].0 == key;
      assert rec[i + 1].0 == key;
      var j :| 0 <= j < |rec| - 1 && rec[1..][j].0 == key && !HasKey(rec[1..][..j], key)
        && t == rec[1..][j := (key, value)];
      FirstAfterHead(rec, key, j);
      assert [rec[0]] + t == rec[j + 1 := (key, value)];
    } else {
      assert [rec[0]] + t == rec + [(key, value)];
    }
    forall i | 0 <= i < |rec| && rec[i].0 != key ensures ([rec[0]] + t)[i] == rec[i] {
      if i > 0 {
        assert rec[1..][i - 1] == rec[i];
      }
    }
  }

  /** A key first found at `j` after a head holding another key is first
      found at `j + 1` in the whole record. */
  lemma FirstAfterHead(rec: Record, key: string, j: nat)
    requires j + 1 < |rec| && rec[0].0 != key && !HasKey(rec[1..][..j], key)
    ensures !HasKey(rec[..j + 1], key)
  {
    assert rec[..j + 1] == [rec[0]] + rec[1..][..j];
  }

  /** `colors.reduce((acc, color, idx) => { acc[key] = color; ... }, {})`.
      Since the keys are distinct, the reduction never overwrites: entry
      `i` is the key for `i` with the `i`-th colour. */
  function BuildRecord(colors: seq<string>, prefix: string): (r: Record)
    ensures r == Entries(colors, prefix)
  {
    if colors == [] then []
    else
      var n := |colors| - 1;
      var e := BuildRecord(colors[..n], prefix);
      assert !HasKey(e, Key(prefix, n)) by {
        if HasKey(e, Key(prefix, n)) {
          var i :| 0 <= i < |e| && e[i].0 == Key(prefix, n);
          KeysDistinct(prefix, i, n);
        }
      }
      assert Entries(colors, prefix) == e + [(Key(prefix, n), colors[n])];
      Put(e, Key(prefix, n), colors[n])
  }

  /** The entries the reduction builds. */
  function Entries(colors: seq<string>, prefix: string): (r: Record)
    ensures |r| == |colors|
  {
    seq(|colors|, i requires 0 <= i < |colors| => (Key(prefix, i), colors[i]))
  }

  /** `  --${key}: '${value}';`. */
  function ThemeLine(entry: (string, string)): string {
    "  --" + entry.0 + ": '" + entry.1 + "';"
  }

  function SnippetLines(rec: Record): (r: seq<string>)
    ensures |r| == |rec| + 2
  {
    ["@theme {"] + seq(|rec|, i requires 0 <= i < |rec| => ThemeLine(rec[i])) + ["}"]
  }

  /** `prefix = "custom"` as a default parameter. */
  function PrefixOrDefault(prefix: Option<string>): string {
    match prefix
    case None => "custom"
    case Some(q) => q
  }

  /** `generateTailwindThemeSnippet(colors, prefix)`: the `@theme` block
      with one line per colour, opened by `@theme {` and closed by `}`. */
  function ThemeSnippet(colors: seq<string>, prefix: Option<string>): (r: string)
    ensures r == Join(SnippetLines(Entries(colors, PrefixOrDefault(prefix))), "\n")
    ensures |r| >= 10 && r[..8] == "@theme {" && r[|r| - 1] == '}'
  {
    var lines := SnippetLines(BuildRecord(colors, PrefixOrDefault(prefix)));
    JoinFrame(lines, "\n");
    Join(lines, "\n")
  }

  /** The lines of the snippet: the opening line, one line per colour in
      order, the closing brace. */
  lemma SnippetShape(colors: seq<string>, prefix: string)
    ensures ThemeSnippet(colors, Some(prefix)) == Join(SnippetLines(Entries(colors, prefix)), "\n")
    ensures forall i :: 1 <= i <= |colors| ==>
      SnippetLines(Entries(colors, prefix))[i] == "  --" + Key(prefix, i - 1) + ": '" + colors[i - 1] + "';"
    ensures SnippetLines(Entries(colors, prefix))[0] == "@theme {"
    ensures SnippetLines(Entries(colors, prefix))[|colors| + 1] == "}"
  {
  }

  /** Without a prefix, every key is `custom-<n>`. */
  lemma DefaultPrefixKeys(colors: seq<string>)
    ensures ThemeSnippet(colors, None) == Join(SnippetLines(Entries(colors, "custom")), "\n")
    ensures forall i :: 0 <= i < |colors| ==> Entries(colors, "custom")[i].0 == "custom-" + Decimal(i + 1)
  {
  }

  lemma {:induction false} DecimalHasNoNewline(n: nat)
    ensures '\n' !in Decimal(n)
  {
    var d := Decimal(n);
    forall i | 0 <= i < |d| ensures d[i] != '\n' {
      assert IsLowerDigitIn(d[i], 10);
    }
  }

  lemma ThemeLineHasNoNewline(prefix: string, i: nat, color: string)
    requires '\n' !in prefix && '\n' !in color
    ensures '\n' !in ThemeLine((Key(prefix, i), color))
  {
    DecimalHasNoNewline(i + 1);
  }

  /** When neither the prefix nor any colour holds a line break, splitting
      the snippet on line breaks gives back its lines: there are exactly
      `|colors| + 2` of them. */
  lemma SnippetLineCount(colors: seq<string>, prefix: string)
    requires '\n' !in prefix
    requires forall i :: 0 <= i < |colors| ==> '\n' !in colors[i]
    ensures Split(ThemeSnippet(colors, Some(prefix)), '\n') == SnippetLines(Entries(colors, prefix))
    ensures |Split(ThemeSnippet(colors, Some(prefix)), '\n')| == |colors| + 2
  {
    var lines := SnippetLines(Entries(colors, prefix));
    forall k | 0 <= k < |lines| ensures '\n' !in lines[k] {
      if 1 <= k <= |colors| {
        ThemeLineHasNoNewline(prefix, k - 1, colors[k - 1]);
      }
    }
    SplitJoin(lines, '\n');
  }

  /** No colours: just the opening and closing lines. */
  lemma EmptySnippet()
    ensures ThemeSnippet([], None) == "@theme {\n}"
  {
    var lines := SnippetLines([]);
    assert lines == ["@theme {", "}"];
    assert lines[1..] == ["}"];
  }
}
