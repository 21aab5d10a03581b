/**
 * The pieces of Python's `str` behaviour that the scripts rely on: the
 * whitespace class used by `str.strip()`, `str.split()` and the regular
 * expression `\s`, splitting on a separator, ASCII lower-casing, and the
 * decimal conversions `str(int)` and `int(str)`.
 */
module Strings {

  import opened Results

  /** The characters CPython treats as whitespace in `str.isspace()`,
      `str.strip()`, `str.split()` and `\s` of a `str` pattern. */
  predicate IsSpace(c: char) {
    ('\t' <= c <= '\r') || ('\U{1C}' <= c <= '\U{1F}') || c == ' ' ||
    c == '\U{85}' || c == '\U{A0}' || c == '\U{1680}' ||
    ('\U{2000}' <= c <= '\U{200A}') || c == '\U{2028}' || c == '\U{2029}' ||
    c == '\U{202F}' || c == '\U{205F}' || c == '\U{3000}'
  }

  predicate NoSpace(s: string) {
    forall i :: 0 <= i < |s| ==> !IsSpace(s[i])
  }

  predicate AllSpace(s: string) {
    forall i :: 0 <= i < |s| ==> IsSpace(s[i])
  }

  predicate StartsWith(s: string, prefix: string) {
    |prefix| <= |s| && s[..|prefix|] == prefix
  }

  predicate EndsWith(s: string, suffix: string) {
    |suffix| <= |s| && s[|s| - |suffix|..] == suffix
  }

  /** `needle` occurs in `s` at position `i`. */
  predicate OccursAt(s: string, needle: string, i: int) {
    0 <= i <= |s| - |needle| && s[i..i + |needle|] == needle
  }

  /** `needle in s` for two strings. */
  predicate Contains(s: string, needle: string) {
    exists i :: 0 <= i <= |s| && OccursAt(s, needle, i)
  }

  /** True when `s` neither starts nor ends with whitespace. */
  predicate Trimmed(s: string) {
    s == [] || (!IsSpace(s[0]) && !IsSpace(s[|s| - 1]))
  }

  /** The length of the whitespace run `s` starts with. */
  function LeadingSpace(s: string): (k: nat)
    ensures k <= |s| && AllSpace(s[..k])
    ensures k == |s| || !IsSpace(s[k])
  {
    if s != [] && IsSpace(s[0]) then
      var k := 1 + LeadingSpace(s[1..]);
      assert forall i :: 1 <= i < k ==> s[..k][i] == s[1..][..k - 1][i - 1];
      k
    else 0
  }

  /** Where the whitespace run that `s` ends with begins. */
  function TrailingSpace(s: string): (k: nat)
    ensures k <= |s| && AllSpace(s[k..])
    ensures k == 0 || !IsSpace(s[k - 1])
  {
    if s != [] && IsSpace(s[|s| - 1]) then
      var t := s[..|s| - 1];
      var k := TrailingSpace(t);
      assert s[k..] == t[k..] + [s[|s| - 1]];
      k
    else |s|
  }

  /** `s.lstrip()`. */
  function TrimLeft(s: string): (r: string)
    ensures r == [] || !IsSpace(r[0])
  {
    s[LeadingSpace(s)..]
  }

  /** `s.rstrip()`. */
  function TrimRight(s: string): (r: string)
    ensures r == [] || !IsSpace(r[|r| - 1])
  {
    s[..TrailingSpace(s)]
  }

  /** `s.strip()`: whitespace removed from both ends. */
  function Strip(s: string): (r: string)
    ensures Trimmed(r)
    ensures |r| <= |s|
    decreases |s|
  {
    if s != [] && IsSpace(s[0]) then Strip(s[1..])
    else if s != [] && IsSpace(s[|s| - 1]) then Strip(s[..|s| - 1])
    else s
  }

  /** Stripping a string whose ends are not whitespace changes nothing. */
  lemma StripTrimmed(s: string)
    requires Trimmed(s)
    ensures Strip(s) == s
  {
  }

  /** `s.strip()` is the slice of `s` between a whitespace prefix and a whitespace suffix. */
  lemma {:induction false} StripBounds(s: string) returns (a: nat, b: nat)
    ensures a <= b <= |s| && Strip(s) == s[a..b]
    ensures forall i :: 0 <= i < a ==> IsSpace(s[i])
    ensures forall i :: b <= i < |s| ==> IsSpace(s[i])
    decreases |s|
  {
    if s != [] && IsSpace(s[0]) {
      var t := s[1..];
      assert Strip(s) == Strip(t);
      var a', b' := StripBounds(t);
      a, b := a' + 1, b' + 1;
      assert t[a'..b'] == s[a..b];
      assert forall i :: 1 <= i < |s| ==> s[i] == t[i - 1];
    } else if s != [] && IsSpace(s[|s| - 1]) {
      var t := s[..|s| - 1];
      assert Strip(s) == Strip(t);
      a, b := StripBounds(t);
      assert t[a..b] == s[a..b];
      assert forall i :: 0 <= i < |t| ==> s[i] == t[i];
    } else {
      a, b := 0, |s|;
      assert s[0..|s|] == s;
    }
  }

  /** Whitespace around a trimmed text is exactly what `strip` removes. */
  lemma {:induction false} StripPadded(p: string, x: string, q: string)
    requires AllSpace(p) && AllSpace(q) && Trimmed(x)
    ensures Strip(p + x + q) == x
    decreases |p| + |q|
  {
    var s := p + x + q;
    if p != [] {
      assert s[0] == p[0];
      assert s[1..] == p[1..] + x + q;
      StripPadded(p[1..], x, q);
    } else if q != [] && x == [] {
      assert s == q && s[0] == q[0];
      assert s[1..] == [] + [] + q[1..];
      StripPadded([], [], q[1..]);
    } else if q != [] {
      assert s == x + q;
      assert s[0] == x[0] && s[|s| - 1] == q[|q| - 1];
      assert s[..|s| - 1] == [] + x + q[..|q| - 1];
      StripPadded([], x, q[..|q| - 1]);
    } else {
      assert s == x;
      StripTrimmed(x);
    }
  }

  /** `s.split(sep)` for a one-character separator: never empty, and the
      pieces are the maximal separator-free runs of `s`. */
  function Split(s: string, sep: char): (r: seq<string>)
    ensures |r| >= 1
    ensures forall k :: 0 <= k < |r| ==> sep !in r[k]
    decreases |s|
  {
    if s == [] then [[]]
    else if s[0] == sep then [[]] + Split(s[1..], sep)
    else
      var rest := Split(s[1..], sep);
      [[s[0]] + rest[0]] + rest[1..]
  }

  /** A string without the separator splits into itself alone. */
  lemma {:induction false} SplitWithoutSeparator(s: string, sep: char)
    requires sep !in s
    ensures Split(s, sep) == [s]
    decreases |s|
  {
    if s != [] {
      assert s[0] in s;
      assert sep !in s[1..] by {
        forall i | 0 <= i < |s[1..]| ensures s[1..][i] != sep { assert s[1..][i] == s[i + 1]; }
      }
      SplitWithoutSeparator(s[1..], sep);
      assert [s[0]] + s[1..] == s;
    }
  }

  /** `sep.join(parts)`. */
  function Join(parts: seq<string>, sep: char): string {
    if parts == [] then []
    else if |parts| == 1 then parts[0]
    else parts[0] + [sep] + Join(parts[1..], sep)
  }

  /** `"".join(parts)`. */
  function Concat(parts: seq<string>): string {
    if parts == [] then [] else Concat(parts[..|parts| - 1]) + parts[|parts| - 1]
  }

  /** Splitting and re-joining on the same separator gives the original string back. */
  lemma {:induction false} JoinSplit(s: string, sep: char)
    ensures Join(Split(s, sep), sep) == s
    decreases |s|
  {
    if s == [] {
    } else if s[0] == sep {
      JoinSplit(s[1..], sep);
      assert Join(Split(s, sep), sep) == [] + [sep] + Join(Split(s[1..], sep), sep);
    } else {
      JoinSplit(s[1..], sep);
      var rest := Split(s[1..], sep);
      if |rest| == 1 {
        assert Join(Split(s, sep), sep) == [s[0]] + rest[0];
      } else {
        assert rest == [rest[0]] + rest[1..];
        assert Join(rest, sep) == rest[0] + [sep] + Join(rest[1..], sep);
        assert Join(Split(s, sep), sep) == [s[0]] + rest[0] + [sep] + Join(rest[1..], sep);
      }
    }
  }

  /** The Kelvin sign, whose lower case in `str.lower()` is the ASCII `k`. */
  const KelvinSign: char := '\U{212A}'

  /** `str.lower()` for the characters whose lower case is an ASCII letter:
      `A`-`Z` and the Kelvin sign. Every other character is kept. */
  function LowerChar(c: char): char {
    if 'A' <= c <= 'Z' then (c as int + 32) as char
    else if c == KelvinSign then 'k'
    else c
  }

  function Lower(s: string): (r: string)
    ensures |r| == |s|
    ensures forall i :: 0 <= i < |s| ==> r[i] == LowerChar(s[i])
  {
    seq(|s|, i requires 0 <= i < |s| => LowerChar(s[i]))
  }

  /** A lower-case ASCII letter or `_`, the characters of the words the
      lowered text is compared with. */
  predicate IsLowerWordChar(c: char) {
    'a' <= c <= 'z' || c == '_'
  }

  /** The characters `str.lower()` turns into the word character `x`: `x`
      itself, its upper-case letter, and for `k` also the Kelvin sign. */
  predicate LowersTo(c: char, x: char) {
    c == x || ('a' <= x <= 'z' && c == (x as int - 32) as char) || (x == 'k' && c == KelvinSign)
  }

  lemma LowerCharTo(c: char, x: char)
    requires IsLowerWordChar(x)
    ensures LowerChar(c) == x <==> LowersTo(c, x)
  {
  }

  /** The texts that lower-case to a word of lower-case letters and `_` are
      exactly those of its length whose every character is, at its place,
      the word's own character, its upper-case letter, or (for `k`) the
      Kelvin sign. */
  lemma LowerIsWord(s: string, w: string)
    requires forall i :: 0 <= i < |w| ==> IsLowerWordChar(w[i])
    ensures Lower(s) == w <==> |s| == |w| && forall i :: 0 <= i < |s| ==> LowersTo(s[i], w[i])
  {
    if Lower(s) == w {
      forall i | 0 <= i < |s| ensures LowersTo(s[i], w[i]) {
        LowerCharTo(s[i], w[i]);
      }
    }
    if |s| == |w| && forall i :: 0 <= i < |s| ==> LowersTo(s[i], w[i]) {
      forall i | 0 <= i < |s| ensures Lower(s)[i] == w[i] {
        LowerCharTo(s[i], w[i]);
      }
    }
  }

  predicate IsDigit(c: char) {
    '0' <= c <= '9'
  }

  predicate AllDigits(s: string) {
    forall i :: 0 <= i < |s| ==> IsDigit(s[i])
  }

  function DigitChar(d: nat): (c: char)
    requires d < 10
    ensures IsDigit(c)
  {
    ('0' as int + d) as char
  }

  /** The value of a run of decimal digits. */
  function DigitsValue(s: string): nat
    requires AllDigits(s)
  {
    if s == [] then 0
    else DigitsValue(s[..|s| - 1]) * 10 + (s[|s| - 1] as int - '0' as int)
  }

  /** `str(n)` for a natural number: its shortest decimal spelling. */
  function NatToString(n: nat): (r: string)
    ensures r != [] && AllDigits(r)
    ensures |r| > 1 ==> r[0] != '0'
  {
    if n < 10 then [DigitChar(n)] else NatToString(n / 10) + [DigitChar(n % 10)]
  }

  /** `str(n)` for any integer. */
  function IntToString(n: int): string {
    if n < 0 then "-" + NatToString(-n) else NatToString(n)
  }

  lemma {:induction false} DigitsOfNat(n: nat)
    ensures DigitsValue(NatToString(n)) == n
  {
    if n >= 10 {
      DigitsOfNat(n / 10);
      var s := NatToString(n);
      assert s[..|s| - 1] == NatToString(n / 10);
    }
  }

  /** `int(s)` restricted to an optional sign and ASCII digits, after
      stripping whitespace; anything else is the `ValueError` case. */
  function ParseInt(s: string): (r: Option<int>)
  {
    var t := Strip(s);
    if t != [] && (t[0] == '-' || t[0] == '+') then
      var digits := t[1..];
      if digits != [] && AllDigits(digits) then
        var v: int := DigitsValue(digits);
        Some(if t[0] == '-' then -v else v)
      else None
    else if t != [] && AllDigits(t) then Some(DigitsValue(t))
    else None
  }

  /** A run of digits parses as its value. */
  lemma ParseIntDigits(t: string)
    requires t != [] && AllDigits(t)
    ensures ParseInt(t) == Some(DigitsValue(t))
  {
    assert IsDigit(t[0]) && IsDigit(t[|t| - 1]);
    StripTrimmed(t);
  }

  /** A minus sign and a run of digits parse as the negated value. */
  lemma ParseIntNegated(t: string, digits: string)
    requires digits != [] && AllDigits(digits) && t == "-" + digits
    ensures ParseInt(t) == Some(-(DigitsValue(digits) as int))
  {
    assert t[0] == '-' && t[1..] == digits;
    assert t[|t| - 1] == digits[|digits| - 1];
    assert IsDigit(t[|t| - 1]);
    StripTrimmed(t);
  }

  /** `int(str(n)) == n`. */
  lemma ParseIntToString(n: int)
    ensures ParseInt(IntToString(n)) == Some(n)
  {
    var m: nat := if n < 0 then -n else n;
    var d := NatToString(m);
    DigitsOfNat(m);
    if n < 0 {
      assert IntToString(n) == "-" + d;
      ParseIntNegated("-" + d, d);
    } else {
      assert IntToString(n) == d;
      ParseIntDigits(d);
    }
  }
}
