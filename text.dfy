/**
 * The string operations the dashboard relies on: `str.isspace`, `str.strip`,
 * `str.upper`, substring and prefix tests, the decimal rendering of an
 * integer (`str(n)`) and the conversion of a text to an integer (`int(s)`).
 */
module Text {
  import opened Wrappers

  /** Python's `str.isspace` for one character. */
  predicate IsSpace(c: char)
  {
    || ('\t' <= c <= '\r')
    || ('\U{1C}' <= c <= ' ')
    || c == '\U{85}' || c == '\U{A0}' || c == '\U{1680}'
    || ('\U{2000}' <= c <= '\U{200A}')
    || c == '\U{2028}' || c == '\U{2029}' || c == '\U{202F}' || c == '\U{205F}' || c == '\U{3000}'
  }

  /** Number of whitespace characters at the start of `s`. */
  function LeadingSpaces(s: string): (n: nat)
    ensures n <= |s|
    ensures forall k :: 0 <= k < n ==> IsSpace(s[k])
    ensures n < |s| ==> !IsSpace(s[n])
  {
    if s == [] || !IsSpace(s[0]) then 0 else 1 + LeadingSpaces(s[1..])
  }

  /** Number of whitespace characters at the end of `s`. */
  function TrailingSpaces(s: string): (n: nat)
    ensures n <= |s|
    ensures forall k :: |s| - n <= k < |s| ==> IsSpace(s[k])
    ensures n < |s| ==> !IsSpace(s[|s| - 1 - n])
  {
    if s == [] || !IsSpace(s[|s| - 1]) then 0 else 1 + TrailingSpaces(s[..|s| - 1])
  }

  /**
   * `s.strip()`: the slice of `s` left once the whitespace at both ends is
   * removed; it neither starts nor ends with whitespace.
   */
  function Strip(s: string): (r: string)
    ensures exists i, j ::
              && 0 <= i <= j <= |s| && r == s[i..j]
              && (forall k :: 0 <= k < i ==> IsSpace(s[k]))
              && (forall k :: j <= k < |s| ==> IsSpace(s[k]))
    ensures r != [] ==> !IsSpace(r[0]) && !IsSpace(r[|r| - 1])
  {
    var i := LeadingSpaces(s);
    var rest := s[i..];
    var n := TrailingSpaces(rest);
    var j := i + |rest| - n;
    assert forall k :: j <= k < |s| ==> IsSpace(s[k]) by {
      forall k | j <= k < |s|
        ensures IsSpace(s[k])
      {
        assert s[k] == rest[k - i];
      }
    }
    assert i < j ==> s[j - 1] == rest[|rest| - 1 - n];
    s[i..j]
  }

  /** A text that neither starts nor ends with whitespace is its own `strip()`. */
  lemma StripTrimmed(s: string)
    requires s == [] || (!IsSpace(s[0]) && !IsSpace(s[|s| - 1]))
    ensures Strip(s) == s
  {
  }

  /**
   * `c.upper()` for the characters the model covers: the ASCII letters, the
   * Latin-1 letters from U+00E0 to U+00FF (U+00F7 is a sign, not a letter)
   * and the micro sign U+00B5, whose upper case is the Greek U+039C.
   */
  function UpperChar(c: char): char
  {
    if 'a' <= c <= 'z' || ('\U{E0}' <= c <= '\U{FE}' && c != '\U{F7}') then
      (c as int - 32) as char
    else if c == '\U{FF}' then
      '\U{178}'
    else if c == '\U{B5}' then
      '\U{39C}'
    else
      c
  }

  /** `s.upper()`, character by character. */
  function Upper(s: string): (r: string)
    ensures |r| == |s|
  {
    seq(|s|, k requires 0 <= k < |s| => UpperChar(s[k]))
  }

  /** A column name as the dashboard normalises it: `name.upper().strip()`. */
  function NormalizeName(name: string): string
  {
    Strip(Upper(name))
  }

  /** Upper-casing a character twice is upper-casing it once. */
  lemma UpperCharIdempotent(c: char)
    ensures UpperChar(UpperChar(c)) == UpperChar(c)
    ensures !('a' <= UpperChar(c) <= 'z')
  {
  }

  /** A slice of an upper-cased text is its own upper case and has no lower-case ASCII letter. */
  lemma UpperSliceFixed(name: string, i: nat, j: nat)
    requires i <= j <= |name|
    ensures Upper(Upper(name)[i..j]) == Upper(name)[i..j]
    ensures forall k :: 0 <= k < j - i ==> !('a' <= Upper(name)[i..j][k] <= 'z')
  {
    var r := Upper(name)[i..j];
    forall k | 0 <= k < |r|
      ensures Upper(r)[k] == r[k]
    {
      assert r[k] == UpperChar(name[i + k]);
      UpperCharIdempotent(name[i + k]);
    }
    forall k | 0 <= k < |r|
      ensures !('a' <= r[k] <= 'z')
    {
      UpperCharIdempotent(name[i + k]);
    }
  }

  /** A text that is its own upper case and is already stripped is its own normal form. */
  lemma NormalizeFixed(r: string)
    requires Upper(r) == r
    requires r != [] ==> !IsSpace(r[0]) && !IsSpace(r[|r| - 1])
    ensures NormalizeName(r) == r
  {
    StripTrimmed(r);
  }

  /**
   * Normalising a normalised name changes nothing, and a normalised name has
   * no lower-case ASCII letter.
   */
  lemma NormalizeIdempotent(name: string)
    ensures NormalizeName(NormalizeName(name)) == NormalizeName(name)
    ensures forall k :: 0 <= k < |NormalizeName(name)| ==> !('a' <= NormalizeName(name)[k] <= 'z')
  {
    var u := Upper(name);
    var r := Strip(u);
    var i, j :| 0 <= i <= j <= |u| && r == u[i..j];
    UpperSliceFixed(name, i, j);
    NormalizeFixed(r);
    assert NormalizeName(name) == r;
    forall k | 0 <= k < |r|
      ensures !('a' <= r[k] <= 'z')
    {
      assert r[k] == u[i..j][k];
    }
  }

  /** `s.startswith(prefix)`. */
  predicate StartsWith(s: string, prefix: string)
  {
    |prefix| <= |s| && s[..|prefix|] == prefix
  }

  /** `needle` occurs in `s` starting at position `i`. */
  predicate OccursAt(s: string, needle: string, i: int)
  {
    0 <= i <= |s| - |needle| && s[i..i + |needle|] == needle
  }

  /** `needle in s` for two texts. */
  predicate Contains(s: string, needle: string)
  {
    exists i :: 0 <= i <= |s| - |needle| && OccursAt(s, needle, i)
  }

  /** A text containing `t` contains every text that `t` contains. */
  lemma ContainsTransitive(s: string, t: string, u: string)
    requires Contains(s, t) && Contains(t, u)
    ensures Contains(s, u)
  {
    var i :| 0 <= i <= |s| - |t| && OccursAt(s, t, i);
    var j :| 0 <= j <= |t| - |u| && OccursAt(t, u, j);
    forall k | 0 <= k < |u| ensures s[i + j + k] == u[k] {
      assert t[j + k] == u[k];
      assert s[i + (j + k)] == t[j + k];
    }
    assert s[i + j..i + j + |u|] == u;
    assert OccursAt(s, u, i + j);
  }

  predicate IsDigit(c: char)
  {
    '0' <= c <= '9'
  }

  function DigitValue(c: char): (d: nat)
    requires IsDigit(c)
    ensures d < 10
  {
    c as int - '0' as int
  }

  function DigitChar(d: nat): (c: char)
    requires d < 10
    ensures IsDigit(c) && DigitValue(c) == d
  {
    ('0' as int + d) as char
  }

  /** `str(n)` for a natural number: its decimal digits, most significant first. */
  function DecimalNat(n: nat): (s: string)
    ensures |s| > 0
    ensures forall k :: 0 <= k < |s| ==> IsDigit(s[k])
  {
    if n < 10 then [DigitChar(n)] else DecimalNat(n / 10) + [DigitChar(n % 10)]
  }

  /** `str(n)` for an integer. */
  function Decimal(n: int): (s: string)
    ensures |s| > 0 && (IsDigit(s[0]) || s[0] == '-')
  {
    if n < 0 then "-" + DecimalNat(-n) else DecimalNat(n)
  }

  /**
   * The body of a Python integer literal as `int()` accepts it: digits, with
   * single underscores allowed between two digits.
   */
  predicate DigitGroups(s: string)
  {
    && |s| > 0
    && IsDigit(s[0])
    && forall k :: 0 <= k < |s| ==> GroupChar(s, k)
  }

  /** Position `k` holds a digit, or an underscore followed by a digit. */
  predicate GroupChar(s: string, k: nat)
    requires k < |s|
  {
    IsDigit(s[k]) || (s[k] == '_' && k + 1 < |s| && IsDigit(s[k + 1]))
  }

  /** Digit groups are made of digits and underscores only. */
  lemma DigitGroupsChars(s: string)
    requires DigitGroups(s)
    ensures forall k :: 0 <= k < |s| ==> IsDigit(s[k]) || s[k] == '_'
  {
    forall k | 0 <= k < |s|
      ensures IsDigit(s[k]) || s[k] == '_'
    {
      assert GroupChar(s, k);
    }
  }

  /** The value of a string of digits and underscores, ignoring the underscores. */
  function DigitsValue(s: string): nat
    requires forall k :: 0 <= k < |s| ==> IsDigit(s[k]) || s[k] == '_'
  {
    if s == [] then 0
    else if s[|s| - 1] == '_' then DigitsValue(s[..|s| - 1])
    else DigitsValue(s[..|s| - 1]) * 10 + DigitValue(s[|s| - 1])
  }

  /**
   * `int(s)` for a text in base 10: surrounding whitespace is ignored, an
   * optional sign is followed by digit groups; anything else fails (None).
   */
  function ParseInt(s: string): (r: Option<int>)
    ensures r.Some? ==> exists k :: 0 <= k < |s| && IsDigit(s[k])
  {
    var t := Strip(s);
    var r := ParseSigned(t);
    assert r.Some? ==> exists k :: 0 <= k < |s| && IsDigit(s[k]) by {
      if r.Some? {
        var k :| 0 <= k < |t| && IsDigit(t[k]);
        var i, j :| 0 <= i <= j <= |s| && t == s[i..j];
        assert s[i + k] == t[k];
      }
    }
    r
  }

  /** `int()` of a text without surrounding whitespace: an optional sign, then digit groups. */
  function ParseSigned(t: string): (r: Option<int>)
    ensures r.Some? ==> exists k :: 0 <= k < |t| && IsDigit(t[k])
  {
    var signed := |t| > 0 && (t[0] == '+' || t[0] == '-');
    var body := if signed then t[1..] else t;
    if !DigitGroups(body) then None
    else
      DigitGroupsChars(body);
      assert IsDigit(t[if signed then 1 else 0]);
      Some(if signed && t[0] == '-' then -(DigitsValue(body) as int) else DigitsValue(body))
  }

  /** Reading back the digits of `str(n)` gives `n`. */
  lemma {:induction false} DigitsValueOfDecimal(n: nat)
    ensures DigitsValue(DecimalNat(n)) == n
  {
    if n >= 10 {
      var s := DecimalNat(n);
      assert s[..|s| - 1] == DecimalNat(n / 10);
      DigitsValueOfDecimal(n / 10);
    }
  }

  /** A digit is not whitespace, so a text that starts and ends with digits is already stripped. */
  lemma DigitNotSpace(c: char)
    requires IsDigit(c)
    ensures !IsSpace(c)
  {
  }

  /** A string of digits is a valid literal and converts to its value. */
  lemma ParseUnsigned(d: string)
    requires |d| > 0 && forall k :: 0 <= k < |d| ==> IsDigit(d[k])
    ensures DigitGroups(d)
    ensures ParseSigned(d) == Some(DigitsValue(d))
  {
    assert forall k :: 0 <= k < |d| ==> GroupChar(d, k);
  }

  /** A minus sign before a string of digits converts to the negated value. */
  lemma ParseNegative(d: string)
    requires |d| > 0 && forall k :: 0 <= k < |d| ==> IsDigit(d[k])
    ensures ParseSigned("-" + d) == Some(-(DigitsValue(d) as int))
  {
    var t := "-" + d;
    ParseUnsigned(d);
    assert |t| > 0 && t[0] == '-';
    assert t[1..] == d;
    DigitGroupsChars(d);
  }

  /** `str(n)` has no surrounding whitespace. */
  lemma DecimalTrimmed(n: int)
    ensures Strip(Decimal(n)) == Decimal(n)
  {
    var s := Decimal(n);
    var d := DecimalNat(if n < 0 then -n else n);
    assert s[|s| - 1] == d[|d| - 1];
    DigitNotSpace(d[|d| - 1]);
    assert !IsSpace(s[0]);
    StripTrimmed(s);
  }

  /** `int(str(n)) == n`: the decimal rendering of an integer converts back to it. */
  lemma ParseDecimal(n: int)
    ensures ParseInt(Decimal(n)) == Some(n)
  {
    DecimalTrimmed(n);
    var d := DecimalNat(if n < 0 then -n else n);
    DigitsValueOfDecimal(if n < 0 then -n else n);
    if n < 0 {
      ParseNegative(d);
    } else {
      ParseUnsigned(d);
    }
  }
}
