/** The hex-colour grammar shared by every provider: the anchored test
    `/^#([0-9a-fA-F]{6})$/`, the global scan `/#([0-9a-fA-F]{6})/g`, and the
    `indexOf` / `new Set` de-duplication the DeepSeek parser applies. */
module Hex {
  import opened Text

  predicate IsHexDigit(c: char) {
    '0' <= c <= '9' || 'a' <= c <= 'f' || 'A' <= c <= 'F'
  }

  /** `/^#([0-9a-fA-F]{6})$/.test(s)`. */
  predicate IsHexColor(s: string) {
    |s| == 7 && s[0] == '#' && forall i :: 1 <= i < 7 ==> IsHexDigit(s[i])
  }

  /** The class `[0-9a-fA-F]` is exactly the digits `parseInt(_, 16)`
      reads, in either case. */
  lemma HexColorDigits(s: string)
    ensures IsHexColor(s) <==> |s| == 7 && s[0] == '#' && forall i :: 1 <= i < 7 ==> IsDigitIn(s[i], 16)
  {
  }

  predicate AllHexColors(xs: seq<string>) {
    forall k :: 0 <= k < |xs| ==> IsHexColor(xs[k])
  }

  /** What every provider promises to hand back: five well-formed colours. */
  predicate IsPalette(xs: seq<string>) {
    |xs| == 5 && AllHexColors(xs)
  }

  // ---------------------------------------------------------------------
  // The global regex scan

  /** `s.match(/#([0-9a-fA-F]{6})/g) || []`: scanning left to right, a match
      at the current position is emitted and the scan resumes right after
      it; otherwise the scan moves on by one character. */
  function HexMatches(s: string): (r: seq<string>)
    ensures AllHexColors(r)
    ensures 7 * |r| <= |s|
    decreases |s|
  {
    if |s| < 7 then []
    else if IsHexColor(s[..7]) then [s[..7]] + HexMatches(s[7..])
    else HexMatches(s[1..])
  }

  /** The pattern matches the seven characters of `s` starting at `i`. */
  predicate MatchAt(s: string, i: int) {
    0 <= i && i + 7 <= |s| && IsHexColor(s[i..i + 7])
  }

  /** Reference definition: the text at every position where the pattern
      matches, left to right, with no skipping after a match. */
  function MatchesFrom(s: string, i: nat): seq<string>
    decreases |s| - i
  {
    if i + 7 > |s| then []
    else (if MatchAt(s, i) then [s[i..i + 7]] else []) + MatchesFrom(s, i + 1)
  }

  /** Two matches never overlap: the six characters after a `#` that starts
      a match are digits, not `#`. */
  lemma {:induction false} SkipNonMatches(s: string, a: nat, b: nat)
    requires a <= b
    requires forall j :: a <= j < b ==> !MatchAt(s, j)
    ensures MatchesFrom(s, a) == MatchesFrom(s, b)
    decreases b - a
  {
    if a < b {
      SkipNonMatches(s, a + 1, b);
    }
  }

  /** The scan finds exactly the matches at every position: resuming after
      a match loses nothing. */
  lemma {:induction false} ScanFindsEveryMatch(s: string, i: nat)
    requires i <= |s|
    ensures HexMatches(s[i..]) == MatchesFrom(s, i)
    decreases |s| - i
  {
    var t := s[i..];
    if |t| >= 7 {
      assert t[..7] == s[i..i + 7];
      if MatchAt(s, i) {
        forall j | i < j < i + 7 ensures !MatchAt(s, j) {
          assert s[j] == s[i..i + 7][j - i];
        }
        SkipNonMatches(s, i + 1, i + 7);
        assert t[7..] == s[i + 7..];
        ScanFindsEveryMatch(s, i + 7);
      } else {
        assert t[1..] == s[i + 1..];
        ScanFindsEveryMatch(s, i + 1);
      }
    }
  }

  /** Every occurrence of a colour in `s` is among the scan's results. */
  lemma ScanFindsOccurrence(s: string, i: nat)
    requires MatchAt(s, i)
    ensures s[i..i + 7] in HexMatches(s)
  {
    ScanFindsEveryMatch(s, 0);
    assert s[0..] == s;
    OccurrenceInMatchesFrom(s, 0, i);
  }

  lemma {:induction false} OccurrenceInMatchesFrom(s: string, a: nat, i: nat)
    requires a <= i && MatchAt(s, i)
    ensures s[i..i + 7] in MatchesFrom(s, a)
    decreases i - a
  {
    if a < i {
      OccurrenceInMatchesFrom(s, a + 1, i);
    }
  }

  /** Dropping a prefix of `a` keeps the no-straddle condition. */
  lemma NoStraddleAfterDrop(a: string, b: string, k: nat)
    requires k <= |a|
    requires forall i :: 0 <= i < |a| && |a| < i + 7 ==> !MatchAt(a + b, i)
    ensures forall i :: 0 <= i < |a| - k && |a| - k < i + 7 ==> !MatchAt(a[k..] + b, i)
  {
    var s := a + b;
    var t := a[k..] + b;
    assert t == s[k..];
    forall i | 0 <= i < |a| - k && |a| - k < i + 7 ensures !MatchAt(t, i) {
      assert !MatchAt(s, i + k);
      if i + 7 <= |t| {
        assert t[i..i + 7] == s[i + k..i + k + 7];
      }
    }
  }

  /** The scan of a concatenation is the concatenation of the scans when no
      match could start in `a` and run on into `b`. */
  lemma {:induction false} ScanConcat(a: string, b: string)
    requires forall i :: 0 <= i < |a| && |a| < i + 7 ==> !MatchAt(a + b, i)
    ensures HexMatches(a + b) == HexMatches(a) + HexMatches(b)
    decreases |a|
  {
    var s := a + b;
    if a == [] {
      assert s == b;
    } else if |s| < 7 {
    } else if MatchAt(s, 0) {
      assert s[..7] == s[0..7];
      assert |a| >= 7;
      assert s[..7] == a[..7];
      assert s[7..] == a[7..] + b;
      NoStraddleAfterDrop(a, b, 7);
      ScanConcat(a[7..], b);
    } else {
      assert s[..7] == s[0..7];
      assert s[1..] == a[1..] + b;
      NoStraddleAfterDrop(a, b, 1);
      ScanConcat(a[1..], b);
      if |a| >= 7 {
        assert a[..7] == s[..7];
      }
    }
  }

  /** A split right before a character that is not a hex digit never cuts
      a match. */
  lemma ScanSplitBeforeNonDigit(a: string, b: string)
    requires b == [] || !IsHexDigit(b[0])
    ensures HexMatches(a + b) == HexMatches(a) + HexMatches(b)
  {
    forall i | 0 <= i < |a| && |a| < i + 7 ensures !MatchAt(a + b, i) {
      if i + 7 <= |a + b| {
        assert (a + b)[i..i + 7][|a| - i] == b[0];
      }
    }
    ScanConcat(a, b);
  }

  /** A split whose last six characters before it hold no `#` never cuts a
      match. */
  lemma ScanSplitAfterHashFree(a: string, b: string)
    requires forall i :: 0 <= i < |a| && |a| < i + 7 ==> a[i] != '#'
    ensures HexMatches(a + b) == HexMatches(a) + HexMatches(b)
  {
    forall i | 0 <= i < |a| && |a| < i + 7 ensures !MatchAt(a + b, i) {
      if i + 7 <= |a + b| {
        assert (a + b)[i..i + 7][0] == a[i];
      }
    }
    ScanConcat(a, b);
  }

  /** A leading character other than `#` is skipped. */
  lemma ScanSkipsNonHash(s: string)
    requires s != [] && s[0] != '#'
    ensures HexMatches(s) == HexMatches(s[1..])
  {
    if |s| >= 7 {
      assert s[..7][0] == s[0];
    }
  }

  /** Text without a `#` holds no colour. */
  lemma {:induction false} ScanHashFree(s: string)
    requires '#' !in s
    ensures HexMatches(s) == []
    decreases |s|
  {
    if s != [] {
      ScanSkipsNonHash(s);
      assert '#' !in s[1..];
      ScanHashFree(s[1..]);
    }
  }

  /** A well-formed colour on its own scans to itself. */
  lemma ScanOfColor(c: string)
    requires IsHexColor(c)
    ensures HexMatches(c) == [c]
  {
    assert c[..7] == c;
    assert HexMatches(c[7..]) == [];
  }

  /** Prose interleaved with colours: `gaps[0] + cs[0] + gaps[1] + ... `. */
  function Interleave(gaps: seq<string>, cs: seq<string>): string
    requires |gaps| == |cs| + 1
  {
    if cs == [] then gaps[0] else gaps[0] + cs[0] + Interleave(gaps[1..], cs[1..])
  }

  /** Colours embedded in prose that has no `#` of its own are found, in
      order of appearance, duplicates included. */
  lemma {:induction false} ScanOfProse(gaps: seq<string>, cs: seq<string>)
    requires |gaps| == |cs| + 1
    requires forall k :: 0 <= k < |gaps| ==> '#' !in gaps[k]
    requires AllHexColors(cs)
    ensures HexMatches(Interleave(gaps, cs)) == cs
  {
    ScanHashFree(gaps[0]);
    if cs != [] {
      var rest := Interleave(gaps[1..], cs[1..]);
      ScanOfProse(gaps[1..], cs[1..]);
      ScanSplitAfterHashFree(gaps[0], cs[0] + rest);
      forall i | 0 <= i < 7 && 7 < i + 7 ensures cs[0][i] != '#' {
        assert IsHexDigit(cs[0][i]);
      }
      ScanSplitAfterHashFree(cs[0], rest);
      ScanOfColor(cs[0]);
      assert gaps[0] + cs[0] + rest == gaps[0] + (cs[0] + rest);
    }
  }

  // ---------------------------------------------------------------------
  // Array.prototype.indexOf and Array.from(new Set(...))

  /** `xs.indexOf(x)`: the first index holding `x`, or -1. */
  function IndexOf<T(==)>(xs: seq<T>, x: T): (r: int)
    ensures r == -1 <==> x !in xs
    ensures r >= 0 ==> r < |xs| && xs[r] == x && x !in xs[..r]
  {
    if xs == [] then -1
    else if xs[0] == x then 0
    else
      var k := IndexOf(xs[1..], x);
      if k < 0 then -1
      else
        assert xs[..k + 1] == [xs[0]] + xs[1..][..k];
        k + 1
  }

  predicate NoDuplicates<T(==)>(xs: seq<T>) {
    forall i, j :: 0 <= i < j < |xs| ==> xs[i] != xs[j]
  }

  /** The DeepSeek check `a.indexOf(c) === i` for every `i` holds exactly
      when no element repeats. */
  lemma IndexOfSelfIffDistinct<T>(xs: seq<T>)
    ensures (forall i :: 0 <= i < |xs| ==> IndexOf(xs, xs[i]) == i) <==> NoDuplicates(xs)
  {
    if forall i :: 0 <= i < |xs| ==> IndexOf(xs, xs[i]) == i {
      forall i, j | 0 <= i < j < |xs| ensures xs[i] != xs[j] {
        assert IndexOf(xs, xs[j]) == j;
        assert xs[i] in xs[..j];
      }
    }
    if NoDuplicates(xs) {
      forall i | 0 <= i < |xs| ensures IndexOf(xs, xs[i]) == i {
        var k := IndexOf(xs, xs[i]);
        assert xs[k] == xs[i];
      }
    }
  }

  /** `Array.from(new Set(xs))`: each distinct element once, in order of
      first occurrence. */
  function Dedupe<T(==)>(xs: seq<T>): (r: seq<T>)
    ensures NoDuplicates(r)
    ensures forall k :: 0 <= k < |r| ==> r[k] in xs
    ensures forall k :: 0 <= k < |xs| ==> xs[k] in r
    ensures |r| <= |xs|
  {
    if xs == [] then []
    else
      var d := Dedupe(xs[..|xs| - 1]);
      var last := xs[|xs| - 1];
      assert xs == xs[..|xs| - 1] + [last];
      if last in d then d else d + [last]
  }

  lemma {:induction false} IndexOfPrefix<T>(xs: seq<T>, m: nat, x: T)
    requires m <= |xs| && x in xs[..m]
    ensures IndexOf(xs, x) == IndexOf(xs[..m], x)
  {
    var k := IndexOf(xs[..m], x);
    var r := IndexOf(xs, x);
    assert xs[..m][..k] == xs[..k];
  }

  /** The de-duplicated list keeps first-occurrence order. */
  lemma {:induction false} DedupeKeepsOrder<T>(xs: seq<T>, i: nat, j: nat)
    requires i < j < |Dedupe(xs)|
    ensures IndexOf(xs, Dedupe(xs)[i]) < IndexOf(xs, Dedupe(xs)[j])
    decreases |xs|
  {
    var n := |xs|;
    var init := xs[..n - 1];
    var d := Dedupe(init);
    var r := Dedupe(xs);
    assert xs == init + [xs[n - 1]];
    assert init == xs[..n - 1];
    if j < |d| {
      assert r[i] == d[i] && r[j] == d[j];
      DedupeKeepsOrder(init, i, j);
      IndexOfPrefix(xs, n - 1, d[i]);
      IndexOfPrefix(xs, n - 1, d[j]);
    } else {
      assert r[j] == xs[n - 1] && r[j] !in init;
      assert r[i] == d[i];
      IndexOfPrefix(xs, n - 1, d[i]);
    }
  }

  /** De-duplicating a list without repeats changes nothing. */
  lemma {:induction false} DedupeOfDistinct<T>(xs: seq<T>)
    requires NoDuplicates(xs)
    ensures Dedupe(xs) == xs
  {
    if xs != [] {
      var init := xs[..|xs| - 1];
      DedupeOfDistinct(init);
      assert xs[|xs| - 1] !in init;
      assert xs == init + [xs[|xs| - 1]];
    }
  }
}
