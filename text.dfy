/** The JavaScript string operations the palette code relies on, on
    `string == seq<char>`: `trim`, `includes`, `join`, `split`, `padStart`
    and `Number.prototype.toString(radix)` for non-negative integers. */
module Text {

  // ---------------------------------------------------------------------
  // Whitespace and String.prototype.trim

  /** ECMAScript WhiteSpace and LineTerminator code points, the set that
      `String.prototype.trim` removes at both ends. */
  const JsWhitespace: set<char> := {
    '\t', '\n', '\U{B}', '\U{C}', '\r', ' ', '\U{A0}', '\U{1680}',
    '\U{2000}', '\U{2001}', '\U{2002}', '\U{2003}', '\U{2004}', '\U{2005}',
    '\U{2006}', '\U{2007}', '\U{2008}', '\U{2009}', '\U{200A}',
    '\U{2028}', '\U{2029}', '\U{202F}', '\U{205F}', '\U{3000}', '\U{FEFF}'
  }

  predicate IsJsWhitespace(c: char) {
    c in JsWhitespace
  }

  predicate AllWhitespace(s: string) {
    forall i :: 0 <= i < |s| ==> IsJsWhitespace(s[i])
  }

  /** The number of whitespace characters `s` starts with. */
  function LeadingWhitespace(s: string): (n: nat)
    ensures n <= |s|
    ensures forall k :: 0 <= k < n ==> IsJsWhitespace(s[k])
    ensures n == |s| || !IsJsWhitespace(s[n])
  {
    if s != [] && IsJsWhitespace(s[0]) then
      var n := 1 + LeadingWhitespace(s[1..]);
      assert forall k :: 1 <= k < n ==> s[k] == s[1..][k - 1];
      n
    else 0
  }

  /** The number of whitespace characters `s` ends with. */
  function TrailingWhitespace(s: string): (n: nat)
    ensures n <= |s|
    ensures forall k :: |s| - n <= k < |s| ==> IsJsWhitespace(s[k])
    ensures n == |s| || !IsJsWhitespace(s[|s| - n - 1])
  {
    if s != [] && IsJsWhitespace(s[|s| - 1]) then
      var init := s[..|s| - 1];
      var n := 1 + TrailingWhitespace(init);
      assert forall k :: |s| - n <= k < |s| - 1 ==> s[k] == init[k];
      n
    else 0
  }

  /** `s.trim()`: neither starts nor ends with whitespace. */
  function Trim(s: string): (r: string)
    ensures |r| <= |s|
    ensures r == [] || (!IsJsWhitespace(r[0]) && !IsJsWhitespace(r[|r| - 1]))
  {
    var t := s[LeadingWhitespace(s)..];
    t[..|t| - TrailingWhitespace(t)]
  }

  /** What `trim` removes is whitespace on both sides: `s` is the result
      framed by the leading and the trailing whitespace. */
  lemma TrimFrame(s: string)
    ensures var i := LeadingWhitespace(s);
      && i + |Trim(s)| <= |s|
      && s[i..i + |Trim(s)|] == Trim(s)
      && AllWhitespace(s[..i]) && AllWhitespace(s[i + |Trim(s)|..])
  {
    TrimSlice(s);
    TrimSides(s);
  }

  lemma TrimSlice(s: string)
    ensures var i := LeadingWhitespace(s);
      i + |Trim(s)| <= |s| && s[i..i + |Trim(s)|] == Trim(s)
  {
    var i := LeadingWhitespace(s);
    var t := s[i..];
    var j := |t| - TrailingWhitespace(t);
    assert Trim(s) == t[..j];
    assert t[..j] == s[i..i + j];
  }

  lemma TrimSides(s: string)
    ensures var i := LeadingWhitespace(s);
      i + |Trim(s)| <= |s| && AllWhitespace(s[..i]) && AllWhitespace(s[i + |Trim(s)|..])
  {
    var i := LeadingWhitespace(s);
    var t := s[i..];
    var j := |t| - TrailingWhitespace(t);
    assert |Trim(s)| == j by {
      assert Trim(s) == t[..j];
    }
    WhitespaceOutside(s, i, j);
  }

  /** Whitespace before `i`, and whitespace in `s[i..]` from `j` on, make
      the two slices around `s[i..i + j]` whitespace. */
  lemma WhitespaceOutside(s: string, i: nat, j: nat)
    requires i + j <= |s|
    requires forall k :: 0 <= k < i ==> IsJsWhitespace(s[k])
    requires forall k :: j <= k < |s| - i ==> IsJsWhitespace(s[i..][k])
    ensures AllWhitespace(s[..i]) && AllWhitespace(s[i + j..])
  {
    forall k | i + j <= k < |s| ensures IsJsWhitespace(s[k]) {
      assert s[k] == s[i..][k - i];
    }
  }

  /** A trimmed string is empty exactly when every character is whitespace. */
  lemma TrimEmptyIff(s: string)
    ensures Trim(s) == [] <==> AllWhitespace(s)
  {
    var a := LeadingWhitespace(s);
    var t := s[a..];
    LeadingAll(s);
    TrailingAll(t);
    assert Trim(s) == t[..|t| - TrailingWhitespace(t)];
    assert a < |s| ==> t[0] == s[a];
  }

  lemma LeadingAll(s: string)
    ensures LeadingWhitespace(s) == |s| <==> AllWhitespace(s)
  {
    assert s[..|s|] == s;
  }

  lemma TrailingAll(s: string)
    ensures TrailingWhitespace(s) == |s| <==> AllWhitespace(s)
  {
    assert s[0..] == s;
  }

  // ---------------------------------------------------------------------
  // String.prototype.includes

  /** `s.includes(sub)`: `sub` occurs in `s` at some offset. */
  predicate Contains(s: string, sub: string): (c: bool)
    ensures sub == [] ==> c
    ensures c ==> |sub| <= |s|
    ensures |sub| == |s| ==> (c <==> s == sub)
  {
    assert s[0..|s|] == s && s[0..0] == [];
    assert sub == [] || (|sub| == |s| && s == sub) ==> OccursAt(s, sub, 0);
    exists i | 0 <= i <= |s| - |sub| :: OccursAt(s, sub, i)
  }

  predicate OccursAt(s: string, sub: string, i: int) {
    0 <= i <= |s| - |sub| && s[i..i + |sub|] == sub
  }

  /** A string includes anything written inside it. */
  lemma ContainsInfix(a: string, sub: string, b: string)
    ensures Contains(a + sub + b, sub)
  {
    var s := a + sub + b;
    assert s[|a|..|a| + |sub|] == sub;
    assert OccursAt(s, sub, |a|);
  }

  /** Text added on either side keeps an occurrence. */
  lemma ContainsExtend(s: string, sub: string, t: string)
    requires Contains(s, sub)
    ensures Contains(s + t, sub) && Contains(t + s, sub)
  {
    var i :| 0 <= i <= |s| - |sub| && OccursAt(s, sub, i);
    assert (s + t)[i..i + |sub|] == s[i..i + |sub|];
    assert OccursAt(s + t, sub, i);
    assert (t + s)[|t| + i..|t| + i + |sub|] == s[i..i + |sub|];
    assert OccursAt(t + s, sub, |t| + i);
  }

  // ---------------------------------------------------------------------
  // Array.prototype.join and String.prototype.split on one character

  /** `parts.join(sep)`. */
  function Join(parts: seq<string>, sep: string): string
  {
    if |parts| == 0 then ""
    else if |parts| == 1 then parts[0]
    else parts[0] + sep + Join(parts[1..], sep)
  }

  /** A join of two or more parts starts with the first part and ends with
      the last, with at least one separator between them. */
  lemma {:induction false} JoinFrame(parts: seq<string>, sep: string)
    requires |parts| >= 2
    ensures var j := Join(parts, sep); var last := parts[|parts| - 1];
      && |j| >= |parts[0]| + |sep| + |last|
      && j[..|parts[0]|] == parts[0]
      && j[|j| - |last|..] == last
  {
    var rest := Join(parts[1..], sep);
    var last := parts[|parts| - 1];
    if |parts| > 2 {
      JoinFrame(parts[1..], sep);
      assert parts[1..][|parts| - 2] == last;
    }
    assert rest[|rest| - |last|..] == last;
    var j := parts[0] + sep + rest;
    assert j[|j| - |last|..] == rest[|rest| - |last|..];
  }

  /** `s.split(c)` for a one-character separator: the maximal runs between
      occurrences of `c`, so always at least one part. */
  function Split(s: string, c: char): (r: seq<string>)
    ensures |r| >= 1
    ensures forall k :: 0 <= k < |r| ==> c !in r[k]
  {
    if s == [] then [""]
    else
      var rest := Split(s[1..], c);
      if s[0] == c then [""] + rest else [[s[0]] + rest[0]] + rest[1..]
  }

  lemma {:induction false} SplitNoSeparator(p: string, c: char)
    requires c !in p
    ensures Split(p, c) == [p]
  {
    if p != [] {
      SplitNoSeparator(p[1..], c);
      assert [p[0]] + p[1..] == p;
    }
  }

  lemma {:induction false} SplitAtFirstSeparator(p: string, c: char, t: string)
    requires c !in p
    ensures Split(p + [c] + t, c) == [p] + Split(t, c)
  {
    if p == [] {
      assert (p + [c] + t)[1..] == t;
    } else {
      SplitAtFirstSeparator(p[1..], c, t);
      assert (p + [c] + t)[1..] == p[1..] + [c] + t;
      assert [p[0]] + p[1..] == p;
    }
  }

  /** Splitting a join on a separator that occurs in none of the parts
      gives the parts back. */
  lemma {:induction false} SplitJoin(parts: seq<string>, c: char)
    requires |parts| >= 1
    requires forall k :: 0 <= k < |parts| ==> c !in parts[k]
    ensures Split(Join(parts, [c]), c) == parts
  {
    if |parts| == 1 {
      SplitNoSeparator(parts[0], c);
    } else {
      SplitJoin(parts[1..], c);
      SplitAtFirstSeparator(parts[0], c, Join(parts[1..], [c]));
      assert [parts[0]] + parts[1..] == parts;
    }
  }

  // ---------------------------------------------------------------------
  // String.prototype.padStart with a one-character pad

  function Repeat(c: char, n: nat): (r: string)
    ensures |r| == n && forall i :: 0 <= i < n ==> r[i] == c
  {
    if n == 0 then [] else [c] + Repeat(c, n - 1)
  }

  /** `s.padStart(width, pad)`: pads on the left up to `width`, never
      truncates. */
  function PadStart(s: string, width: nat, pad: char): (r: string)
    ensures |s| >= width ==> r == s
    ensures |s| < width ==> (|r| == width && r[width - |s|..] == s
                             && forall i :: 0 <= i < width - |s| ==> r[i] == pad)
  {
    if |s| >= width then s else Repeat(pad, width - |s|) + s
  }

  // ---------------------------------------------------------------------
  // Number.prototype.toString(radix) on non-negative integers, and its
  // inverse

  function Pow(b: nat, k: nat): nat
  {
    if k == 0 then 1 else b * Pow(b, k - 1)
  }

  /** The digit for `d` as `toString` writes it: `0`-`9`, then lower-case
      `a`-`f`. */
  function DigitChar(d: nat): (c: char)
    requires d < 16
    ensures ('0' <= c <= '9' || 'a' <= c <= 'f') && DigitValue(c) == d
  {
    if d < 10 then ('0' as int + d) as char else ('a' as int + d - 10) as char
  }

  /** The value of a digit in either case, as `parseInt` reads it. */
  function DigitValue(c: char): nat
  {
    if '0' <= c <= '9' then c as int - '0' as int
    else if 'a' <= c <= 'f' then c as int - 'a' as int + 10
    else if 'A' <= c <= 'F' then c as int - 'A' as int + 10
    else 0
  }

  predicate IsDigitIn(c: char, radix: nat) {
    (('0' <= c <= '9') || ('a' <= c <= 'f') || ('A' <= c <= 'F')) && DigitValue(c) < radix
  }

  predicate IsLowerDigitIn(c: char, radix: nat) {
    (('0' <= c <= '9') || ('a' <= c <= 'f')) && DigitValue(c) < radix
  }

  /** `n.toString(radix)`: the shortest digit string for `n`, lower case. */
  function ToRadix(n: nat, radix: nat): (s: string)
    requires 2 <= radix <= 16
    ensures |s| >= 1
    ensures forall i :: 0 <= i < |s| ==> IsLowerDigitIn(s[i], radix)
    ensures n == 0 ==> s == "0"
    ensures n > 0 ==> s[0] != '0'
    ensures |s| == 1 || s[0] != '0'
    decreases n
  {
    if n < radix then [DigitChar(n)]
    else
      DivMod(n, radix);
      ToRadix(n / radix, radix) + [DigitChar(n % radix)]
  }

  lemma DivMod(n: nat, radix: nat)
    requires 2 <= radix <= n
    ensures 1 <= n / radix < n && n % radix < radix
    ensures radix * (n / radix) + n % radix == n
  {
    var q := n / radix;
    var m := n % radix;
    assert radix * q == n - m && 0 <= m < radix;
    assert q > 0;
    assert radix * q == (radix - 2) * q + 2 * q;
    assert (radix - 2) * q >= 0;
  }

  /** The number a digit string denotes, most significant digit first. */
  function RadixValue(s: string, radix: nat): nat
  {
    if s == [] then 0
    else radix * RadixValue(s[..|s| - 1], radix) + DigitValue(s[|s| - 1])
  }

  /** `${n}` in a template literal. */
  function Decimal(n: nat): string
  {
    ToRadix(n, 10)
  }

  /** Reading back what `toString(radix)` wrote gives the number. */
  lemma {:induction false} RadixRoundTrip(n: nat, radix: nat)
    requires 2 <= radix <= 16
    ensures RadixValue(ToRadix(n, radix), radix) == n
    decreases n
  {
    var s := ToRadix(n, radix);
    if n >= radix {
      DivMod(n, radix);
      RadixRoundTrip(n / radix, radix);
      assert s[..|s| - 1] == ToRadix(n / radix, radix);
    }
  }

  /** Distinct numbers get distinct decimal strings. */
  lemma DecimalInjective(m: nat, n: nat)
    requires Decimal(m) == Decimal(n)
    ensures m == n
  {
    RadixRoundTrip(m, 10);
    RadixRoundTrip(n, 10);
  }

  /** A number below `radix^k` needs at most `k` digits. */
  lemma {:induction false} RadixLength(n: nat, radix: nat, k: nat)
    requires 2 <= radix <= 16 && 1 <= k && n < Pow(radix, k)
    ensures |ToRadix(n, radix)| <= k
    decreases n
  {
    if n >= radix {
      if k > 1 {
        var q := n / radix;
        DivMod(n, radix);
        assert Pow(radix, k) == radix * Pow(radix, k - 1);
        QuotientBelowPower(n, radix, Pow(radix, k - 1));
        RadixLength(q, radix, k - 1);
      }
    }
  }

  lemma QuotientBelowPower(n: nat, radix: nat, p: nat)
    requires radix >= 2 && n < radix * p
    ensures n / radix < p
  {
    var q := n / radix;
    assert radix * q <= n;
  }

  /** Leading zeros do not change the value. */
  lemma {:induction false} LeadingZeros(m: nat, s: string, radix: nat)
    ensures RadixValue(Repeat('0', m) + s, radix) == RadixValue(s, radix)
    decreases |s|
  {
    if s == [] {
      ZerosValue(m, radix);
      assert Repeat('0', m) + s == Repeat('0', m);
    } else {
      var t := Repeat('0', m) + s;
      assert t[..|t| - 1] == Repeat('0', m) + s[..|s| - 1];
      LeadingZeros(m, s[..|s| - 1], radix);
    }
  }

  lemma {:induction false} ZerosValue(m: nat, radix: nat)
    ensures RadixValue(Repeat('0', m), radix) == 0
  {
    if m > 0 {
      var z := Repeat('0', m);
      assert z[..m - 1] == Repeat('0', m - 1);
      ZerosValue(m - 1, radix);
    }
  }

  /** `n.toString(radix).padStart(width, "0")`: at least `width` lower-case
      digits that read back as `n`. */
  lemma PaddedNumber(n: nat, radix: nat, width: nat)
    requires 2 <= radix <= 16
    ensures |PadStart(ToRadix(n, radix), width, '0')| >= width
    ensures forall i :: 0 <= i < |PadStart(ToRadix(n, radix), width, '0')| ==>
      IsLowerDigitIn(PadStart(ToRadix(n, radix), width, '0')[i], radix)
    ensures RadixValue(PadStart(ToRadix(n, radix), width, '0'), radix) == n
  {
    RadixRoundTrip(n, radix);
    PadZeros(ToRadix(n, radix), width, radix);
  }

  /** Padding digits with `0` keeps them digits and keeps their value. */
  lemma PadZeros(s: string, width: nat, radix: nat)
    requires 2 <= radix
    requires forall i :: 0 <= i < |s| ==> IsLowerDigitIn(s[i], radix)
    ensures |PadStart(s, width, '0')| >= width
    ensures forall i :: 0 <= i < |PadStart(s, width, '0')| ==> IsLowerDigitIn(PadStart(s, width, '0')[i], radix)
    ensures RadixValue(PadStart(s, width, '0'), radix) == RadixValue(s, radix)
  {
    if |s| < width {
      var z := Repeat('0', width - |s|);
      LeadingZeros(width - |s|, s, radix);
      assert PadStart(s, width, '0') == z + s;
      PaddedDigits(z, s, radix);
    }
  }

  /** For `n < radix^width` the padding gives exactly `width` digits. */
  lemma PaddedRadix(n: nat, radix: nat, width: nat)
    requires 2 <= radix <= 16 && 1 <= width && n < Pow(radix, width)
    ensures |PadStart(ToRadix(n, radix), width, '0')| == width
    ensures forall i :: 0 <= i < width ==> IsLowerDigitIn(PadStart(ToRadix(n, radix), width, '0')[i], radix)
    ensures RadixValue(PadStart(ToRadix(n, radix), width, '0'), radix) == n
  {
    RadixLength(n, radix, width);
    PaddedNumber(n, radix, width);
  }

  lemma PaddedDigits(z: string, s: string, radix: nat)
    requires 2 <= radix
    requires forall i :: 0 <= i < |z| ==> z[i] == '0'
    requires forall i :: 0 <= i < |s| ==> IsLowerDigitIn(s[i], radix)
    ensures forall i :: 0 <= i < |z + s| ==> IsLowerDigitIn((z + s)[i], radix)
  {
    forall i | 0 <= i < |z + s| ensures IsLowerDigitIn((z + s)[i], radix) {
      if i >= |z| {
        assert (z + s)[i] == s[i - |z|];
      } else {
        assert (z + s)[i] == '0';
      }
    }
  }
}
