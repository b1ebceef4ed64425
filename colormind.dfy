/** `fetchPaletteFromColormind`: validation of the `result` list and the
    rendering of its first five `[r, g, b]` triples as hex colours. */
module Colormind {
  import opened Wrappers
  import opened Hex
  import opened Text
  import opened Replies

  const ApiError: string := "Colormind API error"

  const Invalid: string := "Invalid Colormind response"

  /** `v.toString(16).padStart(2, "0")`: at least two lower-case digits
      that read back as `v`, exactly two for a byte. */
  function ComponentHex(v: nat): (r: string)
    ensures |r| >= 2
    ensures forall i :: 0 <= i < |r| ==> IsLowerDigitIn(r[i], 16)
    ensures RadixValue(r, 16) == v
    ensures v < 256 ==> |r| == 2
  {
    PaddedNumber(v, 16, 2);
    assert v < 256 ==> |PadStart(ToRadix(v, 16), 2, '0')| == 2 by {
      if v < 256 {
        assert Pow(16, 2) == 256 by {
          assert Pow(16, 1) == 16;
        }
        PaddedRadix(v, 16, 2);
      }
    }
    PadStart(ToRadix(v, 16), 2, '0')
  }

  /** `"#" + rgb.map(ComponentHex).join("")`: a `#` and then only
      lower-case digits, at least two per component. */
  function RgbToHex(rgb: seq<nat>): (r: string)
    ensures |r| >= 1 + 2 * |rgb| && r[0] == '#'
    ensures forall i :: 1 <= i < |r| ==> IsLowerDigitIn(r[i], 16)
  {
    var parts := seq(|rgb|, i requires 0 <= i < |rgb| => ComponentHex(rgb[i]));
    JoinOfDigits(parts);
    var body := Join(parts, "");
    assert forall i :: 1 <= i < 1 + |body| ==> ("#" + body)[i] == body[i - 1];
    "#" + body
  }

  /** Joining digit strings of length two or more gives digits only, two
      or more per part. */
  lemma {:induction false} JoinOfDigits(parts: seq<string>)
    requires forall k :: 0 <= k < |parts| ==> |parts[k]| >= 2
    requires forall k, i :: 0 <= k < |parts| && 0 <= i < |parts[k]| ==> IsLowerDigitIn(parts[k][i], 16)
    ensures |Join(parts, "")| >= 2 * |parts|
    ensures forall i :: 0 <= i < |Join(parts, "")| ==> IsLowerDigitIn(Join(parts, "")[i], 16)
  {
    if |parts| > 1 {
      JoinOfDigits(parts[1..]);
      var rest := Join(parts[1..], "");
      assert Join(parts, "") == parts[0] + rest;
      forall i | 0 <= i < |parts[0] + rest| ensures IsLowerDigitIn((parts[0] + rest)[i], 16) {
        if i >= |parts[0]| {
          assert (parts[0] + rest)[i] == rest[i - |parts[0]|];
        }
      }
    }
  }

  /** Reading a colour back: the three two-digit components. */
  function HexToRgb(c: string): (rgb: seq<nat>)
    requires |c| == 7
    ensures |rgb| == 3
  {
    [RadixValue(c[1..3], 16), RadixValue(c[3..5], 16), RadixValue(c[5..7], 16)]
  }

  predicate IsByteTriple(rgb: seq<nat>) {
    |rgb| == 3 && forall i :: 0 <= i < 3 ==> rgb[i] < 256
  }

  /** `result` is `None` when it is missing or not an array. */
  function FetchPalette(reply: HttpReply<Option<seq<seq<nat>>>>): (r: Result<seq<string>, string>)
    ensures reply.NotOk? ==> r == Failure(ApiError)
    ensures reply.Ok? ==> (r.Failure? <==> reply.data.None? || |reply.data.value| < 5)
    ensures r.Failure? ==> r.error == ApiError || r.error == Invalid
    ensures r.Success? ==> |r.value| == 5
  {
    match reply
    case NotOk(_, _) => Failure(ApiError)
    case Ok(None) => Failure(Invalid)
    case Ok(Some(result)) =>
      if |result| < 5 then Failure(Invalid)
      else Success(seq(5, i requires 0 <= i < 5 => RgbToHex(result[i])))
  }

  lemma JoinOfThree(parts: seq<string>)
    requires |parts| == 3
    ensures Join(parts, "") == parts[0] + parts[1] + parts[2]
  {
    assert parts[1..][1..] == [parts[2]];
    assert Join(parts[1..], "") == parts[1] + "" + parts[2];
  }

  /** Where the three components sit in `#rrggbb`. */
  lemma Layout(x: string, y: string, z: string)
    requires |x| == 2 && |y| == 2 && |z| == 2
    requires forall i :: 0 <= i < 2 ==> IsLowerDigitIn(x[i], 16) && IsLowerDigitIn(y[i], 16) && IsLowerDigitIn(z[i], 16)
    ensures var c := "#" + x + y + z;
      && |c| == 7 && c[0] == '#'
      && c[1..3] == x && c[3..5] == y && c[5..7] == z
      && forall i :: 1 <= i < 7 ==> IsLowerDigitIn(c[i], 16) && IsHexDigit(c[i])
  {
    var c := "#" + x + y + z;
    forall i | 1 <= i < 7 ensures IsLowerDigitIn(c[i], 16) && IsHexDigit(c[i]) {
      if i < 3 { assert c[i] == x[i - 1]; }
      else if i < 5 { assert c[i] == y[i - 3]; }
      else { assert c[i] == z[i - 5]; }
    }
  }

  /** A triple of bytes renders as a well-formed lower-case colour that
      reads back as the triple. */
  lemma RgbToHexOfBytes(rgb: seq<nat>)
    requires IsByteTriple(rgb)
    ensures IsHexColor(RgbToHex(rgb))
    ensures forall i :: 1 <= i < 7 ==> IsLowerDigitIn(RgbToHex(rgb)[i], 16)
    ensures HexToRgb(RgbToHex(rgb)) == rgb
  {
    var parts := seq(|rgb|, i requires 0 <= i < |rgb| => ComponentHex(rgb[i]));
    var x, y, z := parts[0], parts[1], parts[2];
    JoinOfThree(parts);
    var c := RgbToHex(rgb);
    assert c == "#" + x + y + z;
    Layout(x, y, z);
    assert HexToRgb(c) == [RadixValue(x, 16), RadixValue(y, 16), RadixValue(z, 16)];
  }

  /** With components that are bytes, the five colours are well formed and
      the i-th reads back as the i-th triple. */
  lemma PaletteOfBytes(result: seq<seq<nat>>)
    requires |result| >= 5 && forall i :: 0 <= i < 5 ==> IsByteTriple(result[i])
    ensures FetchPalette(Ok(Some(result))).Success?
    ensures IsPalette(FetchPalette(Ok(Some(result))).value)
    ensures forall i :: 0 <= i < 5 ==> HexToRgb(FetchPalette(Ok(Some(result))).value[i]) == result[i]
  {
    var p := FetchPalette(Ok(Some(result))).value;
    forall i | 0 <= i < 5 ensures IsHexColor(p[i]) && HexToRgb(p[i]) == result[i] {
      RgbToHexOfBytes(result[i]);
    }
  }
}
