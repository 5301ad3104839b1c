/** Python string operations the evaluator relies on, written out over `seq<char>`:
    whitespace stripping, prefix and suffix tests, `str.replace`, `str.split` with a
    one-character separator, and decimal digits. */
module Strings {

  /** The characters for which Python's `str.isspace()` holds; `str.strip()` with no
      argument removes exactly these from both ends. */
  const Whitespace: set<char> := {
    '\t', '\n', '\U{B}', '\U{C}', '\r', '\U{1C}', '\U{1D}', '\U{1E}', '\U{1F}', ' ',
    '\U{85}', '\U{A0}', '\U{1680}',
    '\U{2000}', '\U{2001}', '\U{2002}', '\U{2003}', '\U{2004}', '\U{2005}',
    '\U{2006}', '\U{2007}', '\U{2008}', '\U{2009}', '\U{200A}',
    '\U{2028}', '\U{2029}', '\U{202F}', '\U{205F}', '\U{3000}'
  }

  /** Removes the characters of `cs` from the front. */
  function TrimLeft(s: string, cs: set<char>): (r: string)
    ensures |r| <= |s|
    ensures r == [] || r[0] !in cs
  {
    if |s| > 0 && s[0] in cs then TrimLeft(s[1..], cs) else s
  }

  /** Removes the characters of `cs` from the back. */
  function TrimRight(s: string, cs: set<char>): (r: string)
    ensures |r| <= |s|
    ensures r == [] || r[|r| - 1] !in cs
  {
    if |s| > 0 && s[|s| - 1] in cs then TrimRight(s[..|s| - 1], cs) else s
  }

  /** What `TrimRight` keeps is a prefix, and all it removes belongs to `cs`. */
  lemma {:induction false} TrimRightPrefix(s: string, cs: set<char>)
    ensures TrimRight(s, cs) == s[..|TrimRight(s, cs)|]
    ensures forall i :: |TrimRight(s, cs)| <= i < |s| ==> s[i] in cs
    decreases |s|
  {
    if |s| > 0 && s[|s| - 1] in cs {
      TrimRightPrefix(s[..|s| - 1], cs);
    }
  }

  /** Python's `s.strip(chars)`: the longest slice of `s` that neither starts nor ends
      with a character of `cs`, obtained by removing only characters of `cs`. */
  function StripChars(s: string, cs: set<char>): (r: string)
    ensures |r| <= |s|
    ensures r == [] || (r[0] !in cs && r[|r| - 1] !in cs)
  {
    TrimRightPrefix(TrimLeft(s, cs), cs);
    TrimRight(TrimLeft(s, cs), cs)
  }

  /** Python's `s.strip()`. */
  function Strip(s: string): (r: string)
    ensures |r| <= |s|
    ensures r == [] || (r[0] !in Whitespace && r[|r| - 1] !in Whitespace)
  {
    StripChars(s, Whitespace)
  }

  /** A string that already has no removable character at either end is its own strip;
      in particular stripping twice is stripping once. */
  lemma StripCharsNoop(s: string, cs: set<char>)
    requires s == [] || (s[0] !in cs && s[|s| - 1] !in cs)
    ensures StripChars(s, cs) == s
  {
  }

  lemma StripIdempotent(s: string)
    ensures Strip(Strip(s)) == Strip(s)
  {
    StripCharsNoop(Strip(s), Whitespace);
  }

  predicate StartsWith(s: string, prefix: string) {
    prefix <= s
  }

  predicate EndsWith(s: string, suffix: string) {
    |suffix| <= |s| && s[|s| - |suffix|..] == suffix
  }

  /** `pattern` occurs in `s` at position `i`. */
  predicate OccursAt(s: string, pattern: string, i: nat) {
    i + |pattern| <= |s| && s[i..i + |pattern|] == pattern
  }

  /** Python's `s.replace(pat, rep)` for a non-empty `pat`: every non-overlapping
      occurrence, scanning from the left, is replaced. */
  function Replace(s: string, pat: string, rep: string): (r: string)
    requires |pat| > 0
    ensures |rep| <= |pat| ==> |r| <= |s|
    decreases |s|
  {
    if |s| == 0 then []
    else if pat <= s then rep + Replace(s[|pat|..], pat, rep)
    else [s[0]] + Replace(s[1..], pat, rep)
  }

  /** When `pat` does not occur, `replace` returns its input. */
  lemma {:induction false} ReplaceAbsent(s: string, pat: string, rep: string)
    requires |pat| > 0
    requires forall i: nat :: !OccursAt(s, pat, i)
    ensures Replace(s, pat, rep) == s
    decreases |s|
  {
    if |s| > 0 {
      assert !OccursAt(s, pat, 0);
      assert !(pat <= s);
      forall i: nat ensures !OccursAt(s[1..], pat, i) {
        assert !OccursAt(s, pat, i + 1);
        if i + |pat| <= |s[1..]| {
          assert s[1..][i..i + |pat|] == s[i + 1..i + 1 + |pat|];
        }
      }
      ReplaceAbsent(s[1..], pat, rep);
    }
  }

  /** `replace` leaves text alone when the pattern's first character is missing. */
  lemma ReplaceLacking(s: string, pat: string, rep: string)
    requires |pat| > 0 && pat[0] !in s
    ensures Replace(s, pat, rep) == s
  {
    forall i: nat ensures !OccursAt(s, pat, i) {
      if i + |pat| <= |s| {
        assert s[i..i + |pat|][0] == s[i];
      }
    }
    ReplaceAbsent(s, pat, rep);
  }

  /** A character that belongs neither to `pat` nor to `rep` splits a replacement:
      no occurrence of `pat` can straddle it. */
  lemma {:induction false} ReplaceSplits(a: string, c: char, b: string, pat: string, rep: string)
    requires |pat| > 0 && c !in pat
    ensures Replace(a + [c] + b, pat, rep) == Replace(a, pat, rep) + [c] + Replace(b, pat, rep)
    decreases |a|
  {
    var s := a + [c] + b;
    if |a| == 0 {
      assert s == [c] + b;
      assert s[0] == c && pat[0] in pat;
      assert !(pat <= s);
      assert s[1..] == b;
    } else if pat <= a {
      assert pat <= s;
      assert s[|pat|..] == a[|pat|..] + [c] + b;
      ReplaceSplits(a[|pat|..], c, b, pat, rep);
    } else {
      if |pat| <= |a| {
        assert a[..|pat|] == s[..|pat|];
      } else {
        assert s[|a|] == c && pat[|a|] in pat;
      }
      assert !(pat <= s);
      assert s[1..] == a[1..] + [c] + b;
      ReplaceSplits(a[1..], c, b, pat, rep);
    }
  }

  /** Joins non-empty list of pieces with a one-character separator (Python's
      `sep.join(parts)`). */
  function JoinOn(parts: seq<string>, sep: char): string
    requires |parts| >= 1
  {
    if |parts| == 1 then parts[0] else parts[0] + [sep] + JoinOn(parts[1..], sep)
  }

  /** Python's `s.split(sep)` for a one-character separator: always at least one piece,
      pieces never contain the separator, and joining them back gives `s`. */
  function SplitOn(s: string, sep: char): (r: seq<string>)
    ensures |r| >= 1
    ensures forall i :: 0 <= i < |r| ==> sep !in r[i]
    ensures JoinOn(r, sep) == s
    decreases |s|
  {
    if |s| == 0 then [[]]
    else if s[0] == sep then
      var rest := SplitOn(s[1..], sep);
      assert s == [] + [sep] + s[1..];
      [[]] + rest
    else
      var rest := SplitOn(s[1..], sep);
      var r := [[s[0]] + rest[0]] + rest[1..];
      assert r[1..] == rest[1..];
      assert s == [s[0]] + s[1..];
      r
  }

  /** The other half of the round trip: splitting a join of separator-free pieces
      gives the pieces back. */
  lemma {:induction false} SplitOnJoin(parts: seq<string>, sep: char)
    requires |parts| >= 1
    requires forall i :: 0 <= i < |parts| ==> sep !in parts[i]
    ensures SplitOn(JoinOn(parts, sep), sep) == parts
    decreases |parts|, |parts[0]|
  {
    var p := parts[0];
    if |p| == 0 {
      if |parts| == 1 {
      } else {
        var j := JoinOn(parts, sep);
        assert j == [sep] + JoinOn(parts[1..], sep);
        assert j[0] == sep && j[1..] == JoinOn(parts[1..], sep);
        SplitOnJoin(parts[1..], sep);
        assert parts == [[]] + parts[1..];
      }
    } else {
      var j := JoinOn(parts, sep);
      var parts' := [p[1..]] + parts[1..];
      assert parts'[1..] == parts[1..];
      assert j == [p[0]] + JoinOn(parts', sep);
      assert p[0] != sep by { assert p[0] in parts[0]; }
      assert j[1..] == JoinOn(parts', sep);
      assert forall i :: 0 <= i < |parts'| ==> sep !in parts'[i] by {
        forall i | 0 <= i < |parts'| ensures sep !in parts'[i] {
          if i == 0 {
          } else {
            assert parts'[i] == parts[i];
          }
        }
      }
      SplitOnJoin(parts', sep);
      assert [p[0]] + parts'[0] == p;
      assert parts == [[p[0]] + parts'[0]] + parts'[1..];
    }
  }

  /** Splitting text without the separator gives the text alone. */
  lemma SplitOnAbsent(s: string, sep: char)
    requires sep !in s
    ensures SplitOn(s, sep) == [s]
  {
    SplitOnJoin([s], sep);
  }

  /** Text holding the separator splits into at least two pieces, and the second piece
      is shorter than the text. */
  lemma SplitOnSecond(s: string, sep: char)
    requires sep in s
    ensures |SplitOn(s, sep)| >= 2 && |SplitOn(s, sep)[1]| < |s|
  {
    var parts := SplitOn(s, sep);
    var tail := JoinOn(parts[1..], sep);
    assert JoinOn(parts, sep) == parts[0] + [sep] + tail;
    assert |tail| >= |parts[1]| by {
      if |parts[1..]| > 1 {
        assert tail == parts[1] + [sep] + JoinOn(parts[2..], sep) by {
          assert parts[1..][1..] == parts[2..];
        }
      }
    }
  }

  /** Joins with a multi-character separator; used for the `repr` of containers. */
  function JoinWith(parts: seq<string>, sep: string): string {
    if |parts| == 0 then []
    else if |parts| == 1 then parts[0]
    else parts[0] + sep + JoinWith(parts[1..], sep)
  }

  /** Concatenation of a list of strings (Python's `''.join(parts)`). */
  function Concat(parts: seq<string>): string {
    if |parts| == 0 then [] else parts[0] + Concat(parts[1..])
  }

  // ---------------------------------------------------------------------------
  // Decimal digits (ASCII only)
  // ---------------------------------------------------------------------------

  predicate IsDigit(c: char) {
    '0' <= c <= '9'
  }

  /** Python's `str.isdigit()`, restricted to ASCII digits: non-empty and all digits. */
  predicate AllDigits(s: string) {
    |s| > 0 && forall i :: 0 <= i < |s| ==> IsDigit(s[i])
  }

  /** A character that is not a digit does not occur in a run of digits. */
  lemma DigitsExclude(s: string, c: char)
    requires AllDigits(s) && !IsDigit(c)
    ensures c !in s
  {
  }

  function DigitChar(d: nat): (c: char)
    requires d < 10
    ensures IsDigit(c)
  {
    ('0' as int + d) as char
  }

  function DigitValue(c: char): (d: nat)
    requires IsDigit(c)
    ensures d < 10 && DigitChar(d) == c
  {
    c as int - '0' as int
  }

  /** The number a run of decimal digits denotes (Python's `int(s)` on such a string). */
  function DigitsValue(s: string): nat
    requires forall i :: 0 <= i < |s| ==> IsDigit(s[i])
  {
    if |s| == 0 then 0 else 10 * DigitsValue(s[..|s| - 1]) + DigitValue(s[|s| - 1])
  }

  /** Python's `str(n)` for a natural number: the decimal digits without leading zeros,
      which read back as `n`. */
  function NatText(n: nat): (r: string)
    ensures AllDigits(r)
    ensures DigitsValue(r) == n
    ensures r[0] == '0' ==> r == "0"
    ensures n < 10 ==> |r| == 1
    ensures n >= 10 ==> |r| >= 2
  {
    if n < 10 then [DigitChar(n)]
    else
      var r := NatText(n / 10) + [DigitChar(n % 10)];
      assert r[..|r| - 1] == NatText(n / 10);
      r
  }

  /** Python's `str(i)` for an integer. */
  function IntText(i: int): string {
    if i < 0 then "-" + NatText(-i) else NatText(i)
  }

  function Pow10(n: nat): (p: nat)
    ensures p >= 1
  {
    if n == 0 then 1 else 10 * Pow10(n - 1)
  }

  /** Division and remainder by a positive number, which the solver does not see for
      a divisor that is not a constant. */
  lemma DivModBounds(q: nat, p: nat)
    requires p >= 1
    ensures 0 <= q / p && 0 <= q % p < p && q == (q / p) * p + q % p
  {
  }

  lemma {:induction false} NatTextLength(n: nat, width: nat)
    requires n < Pow10(width)
    ensures |NatText(n)| <= width || (width == 0 && n == 0)
    decreases width
  {
    if width == 0 {
    } else if n >= 10 {
      assert n / 10 < Pow10(width - 1);
      NatTextLength(n / 10, width - 1);
    }
  }

  /** `n` in decimal, padded on the left with `0` to at least `width` characters, as
      the C format `%0<width>d` does. */
  function ZeroPad(n: nat, width: nat): (r: string)
    ensures AllDigits(r) && DigitsValue(r) == n
    ensures |r| >= width
    ensures n < Pow10(width) && width > 0 ==> |r| == width
  {
    var t := NatText(n);
    assert n < Pow10(width) ==> |t| <= width || (width == 0 && n == 0) by {
      if n < Pow10(width) { NatTextLength(n, width); }
    }
    if |t| >= width then t
    else
      var r := Zeros(width - |t|) + t;
      DigitsValueLeadingZeros(width - |t|, t);
      r
  }

  function Zeros(k: nat): (z: string)
    ensures |z| == k && forall i :: 0 <= i < k ==> z[i] == '0'
  {
    if k == 0 then [] else Zeros(k - 1) + ['0']
  }

  lemma {:induction false} DigitsValueLeadingZeros(k: nat, t: string)
    requires forall i :: 0 <= i < |t| ==> IsDigit(t[i])
    ensures DigitsValue(Zeros(k) + t) == DigitsValue(t)
    decreases |t|
  {
    if |t| == 0 {
      assert Zeros(k) + t == Zeros(k);
      ZerosValue(k);
    } else {
      var s := Zeros(k) + t;
      assert s[..|s| - 1] == Zeros(k) + t[..|t| - 1];
      DigitsValueLeadingZeros(k, t[..|t| - 1]);
    }
  }

  lemma {:induction false} ZerosValue(k: nat)
    ensures DigitsValue(Zeros(k)) == 0
  {
    if k > 0 {
      assert Zeros(k)[..k - 1] == Zeros(k - 1);
      ZerosValue(k - 1);
    }
  }
}
