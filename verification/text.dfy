/**
 The string handling the habit tracker relies on: Python's `str.strip()`, `int()` on a
 stripped goal entry and `str()` of an integer as the log stores it, the slice `s[:k]`,
 and the `wrap_text` truncation of habit names for labels.
 */
module Text {
  import opened Wrappers

  /** The characters Python's `str.isspace()` accepts, which `str.strip()` removes. */
  predicate IsSpace(c: char) {
    || ('\t' <= c <= '\r')
    || ('\U{1C}' <= c <= '\U{1F}')
    || c == ' '
    || c == '\U{85}'
    || c == '\U{A0}'
    || c == '\U{1680}'
    || ('\U{2000}' <= c <= '\U{200A}')
    || c == '\U{2028}'
    || c == '\U{2029}'
    || c == '\U{202F}'
    || c == '\U{205F}'
    || c == '\U{3000}'
  }

  predicate AllSpace(s: string) {
    forall i :: 0 <= i < |s| ==> IsSpace(s[i])
  }

  /** `s.lstrip()`: the suffix of s left after dropping leading whitespace. */
  function StripLeading(s: string): (r: string)
    ensures |r| <= |s| && r == s[|s| - |r|..]
    ensures AllSpace(s[..|s| - |r|])
    ensures r != [] ==> !IsSpace(r[0])
    decreases |s|
  {
    if s != [] && IsSpace(s[0]) then StripLeading(s[1..]) else s
  }

  /** `s.rstrip()`: the prefix of s left after dropping trailing whitespace. */
  function StripTrailing(s: string): (r: string)
    ensures |r| <= |s| && r == s[..|r|]
    ensures AllSpace(s[|r|..])
    ensures r != [] ==> !IsSpace(r[|r| - 1])
    decreases |s|
  {
    if s != [] && IsSpace(s[|s| - 1]) then StripTrailing(s[..|s| - 1]) else s
  }

  /** r is s with the whitespace s[..k] and s[k + |r|..] cut off either end. */
  predicate TrimmedAt(s: string, r: string, k: int) {
    && 0 <= k && k + |r| <= |s|
    && r == s[k..k + |r|]
    && AllSpace(s[..k])
    && AllSpace(s[k + |r|..])
  }

  lemma AllSpaceConcat(a: string, b: string)
    requires AllSpace(a) && AllSpace(b)
    ensures AllSpace(a + b)
  {
    forall i | 0 <= i < |a + b|
      ensures IsSpace((a + b)[i])
    {
      if i >= |a| {
        assert (a + b)[i] == b[i - |a|];
      }
    }
  }

  /** Stripping both ends of s leaves the infix s[k..k + |r|] with whitespace either side. */
  lemma StripBothEnds(s: string, left: string, r: string)
    requires |left| <= |s| && left == s[|s| - |left|..]
    requires AllSpace(s[..|s| - |left|])
    requires |r| <= |left| && r == left[..|r|]
    requires AllSpace(left[|r|..])
    ensures TrimmedAt(s, r, |s| - |left|)
    ensures r == [] ==> AllSpace(s)
  {
    var k := |s| - |left|;
    assert s[k..k + |r|] == left[..|r|];
    assert s[k + |r|..] == left[|r|..];
    if r == [] {
      assert s == s[..k] + s[k + |r|..];
      AllSpaceConcat(s[..k], s[k + |r|..]);
    }
  }

  /** `s.strip()`. */
  function Strip(s: string): (r: string)
    ensures exists k :: TrimmedAt(s, r, k)
    ensures r != [] ==> !IsSpace(r[0]) && !IsSpace(r[|r| - 1])
    ensures r == [] <==> AllSpace(s)
  {
    var left := StripLeading(s);
    var r := StripTrailing(left);
    StripBothEnds(s, left, r);
    r
  }

  predicate IsDigit(c: char) {
    '0' <= c <= '9'
  }

  predicate AllDigits(s: string) {
    forall i :: 0 <= i < |s| ==> IsDigit(s[i])
  }

  function DigitValue(c: char): (v: int)
    requires IsDigit(c)
    ensures 0 <= v < 10
  {
    c as int - '0' as int
  }

  function DigitChar(v: int): (c: char)
    requires 0 <= v < 10
    ensures IsDigit(c) && DigitValue(c) == v
  {
    ('0' as int + v) as char
  }

  /** The value of a string of decimal digits, most significant first. */
  function DigitsValue(s: string): nat
    requires AllDigits(s)
    decreases |s|
  {
    if s == [] then 0 else 10 * DigitsValue(s[..|s| - 1]) + DigitValue(s[|s| - 1])
  }

  /**
   The texts `int()` accepts once surrounding whitespace is gone: an optional `+` or
   `-` followed by one or more ASCII digits.
   */
  predicate IsIntegerText(s: string) {
    || (|s| > 0 && AllDigits(s))
    || (|s| > 1 && (s[0] == '+' || s[0] == '-') && AllDigits(s[1..]))
  }

  /** The text after one leading `+` or `-`, if there is one. */
  function Unsigned(s: string): (r: string)
    ensures |r| <= |s| && r == s[|s| - |r|..]
    ensures |s| > 0 && (s[0] == '+' || s[0] == '-') ==> |r| == |s| - 1
  {
    if |s| > 0 && (s[0] == '+' || s[0] == '-') then s[1..] else s
  }

  /** `int(s)` for a stripped s; None where Python raises `ValueError`. */
  function ParseInt(s: string): (r: Option<int>)
    ensures r.Some? <==> IsIntegerText(s)
    ensures r.Some? && s[0] == '-' ==> r.value <= 0
    ensures r.Some? && s[0] != '-' ==> r.value >= 0
    ensures r.Some? ==> AllDigits(Unsigned(s))
                        && (if r.value < 0 then -r.value else r.value) == DigitsValue(Unsigned(s))
  {
    if |s| > 0 && AllDigits(s) then Some(DigitsValue(s))
    else if |s| > 1 && s[0] == '-' && AllDigits(s[1..]) then Some(-(DigitsValue(s[1..]) as int))
    else if |s| > 1 && s[0] == '+' && AllDigits(s[1..]) then Some(DigitsValue(s[1..]))
    else None
  }

  /** The decimal digits of n without leading zeros. */
  function NatToString(n: nat): (s: string)
    ensures |s| > 0 && AllDigits(s)
    ensures DigitsValue(s) == n
    ensures |s| > 1 ==> s[0] != '0'
    decreases n
  {
    if n < 10 then [DigitChar(n)]
    else
      var prefix := NatToString(n / 10);
      var s := prefix + [DigitChar(n % 10)];
      assert s[..|s| - 1] == prefix;
      s
  }

  /** `str(n)`, as the log writer stores a goal. */
  function IntToString(n: int): (s: string)
    ensures IsIntegerText(s) && s[0] != '+'
    ensures s[0] == '-' <==> n < 0
    ensures AllDigits(Unsigned(s)) && DigitsValue(Unsigned(s)) == (if n < 0 then -n else n)
    ensures |Unsigned(s)| > 1 ==> Unsigned(s)[0] != '0'
  {
    if n < 0 then
      var s := "-" + NatToString(-n);
      assert s[1..] == NatToString(-n);
      s
    else NatToString(n)
  }

  /** Reading back a goal the log stored gives the same goal. */
  lemma ParseIntRoundTrip(n: int)
    ensures ParseInt(IntToString(n)) == Some(n)
  {
    if n < 0 {
      var s := IntToString(n);
      assert s[1..] == NatToString(-n);
      assert !AllDigits(s) by {
        assert !IsDigit(s[0]);
      }
    }
  }

  /** Python's `s[:k]`: a negative k counts from the end, and k is clamped to the length. */
  function PrefixUpTo(s: string, k: int): (r: string)
    ensures |r| <= |s| && r == s[..|r|]
    ensures k >= 0 ==> |r| == (if k <= |s| then k else |s|)
    ensures k < 0 ==> |r| == (if |s| + k >= 0 then |s| + k else 0)
  {
    if k >= 0 then (if k <= |s| then s[..k] else s)
    else if |s| + k >= 0 then s[..|s| + k]
    else []
  }

  /** `wrap_text(text, max_length)`: truncate to max_length characters ending in "..". */
  function WrapText(text: string, maxLength: int): (r: string)
    ensures |text| <= maxLength ==> r == text
    ensures |text| > maxLength ==> |r| >= 2 && r[|r| - 2..] == ".."
    ensures |text| > maxLength >= 2 ==>
              && |r| == maxLength
              && r[..maxLength - 2] == text[..maxLength - 2]
    ensures maxLength >= 1 ==> (r == text <==> |text| <= maxLength)
  {
    if |text| <= maxLength then text
    else PrefixUpTo(text, maxLength - 2) + ".."
  }
}
