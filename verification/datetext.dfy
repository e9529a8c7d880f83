/**
 The `YYYY-MM-DD` text form of a date: what `date.strftime("%Y-%m-%d")` writes into the
 log and what `datetime.strptime(s, "%Y-%m-%d")` reads back when the charts are drawn.
 */
module DateText {
  import opened Wrappers
  import opened Calendar
  import opened Text

  /** n in two decimal digits, with a leading zero below 10. */
  function TwoDigits(n: int): (s: string)
    requires 0 <= n < 100
    ensures |s| == 2 && AllDigits(s)
  {
    [DigitChar(n / 10), DigitChar(n % 10)]
  }

  /** n in four decimal digits, with leading zeros below 1000. */
  function FourDigits(n: int): (s: string)
    requires 0 <= n < 10000
    ensures |s| == 4 && AllDigits(s)
  {
    TwoDigits(n / 100) + TwoDigits(n % 100)
  }

  lemma DigitsValueTwo(s: string)
    requires |s| == 2 && AllDigits(s)
    ensures DigitsValue(s) == 10 * DigitValue(s[0]) + DigitValue(s[1])
  {
    var first := s[..1];
    assert first[..0] == [] && first[0] == s[0];
    assert DigitsValue(first) == DigitValue(s[0]);
  }

  /** Splitting 10 * a + b (100 * a + b) back into its parts. */
  lemma DivModTen(a: int, b: int)
    requires 0 <= b < 10
    ensures (10 * a + b) / 10 == a && (10 * a + b) % 10 == b
  {
  }

  lemma DivModHundred(a: int, b: int)
    requires 0 <= b < 100
    ensures (100 * a + b) / 100 == a && (100 * a + b) % 100 == b
  {
  }

  lemma DigitsValueFour(s: string)
    requires |s| == 4 && AllDigits(s)
    ensures DigitsValue(s) == 100 * DigitsValue(s[..2]) + DigitsValue(s[2..])
  {
    DigitsValueTwo(s[..2]);
    DigitsValueTwo(s[2..]);
    assert s[..3][..2] == s[..2];
    assert s[..3][..2][..1] == s[..1];
    assert s[..1][..0] == [];
  }

  /** Reading the digits written for n gives back n. */
  lemma TwoDigitsValue(n: int)
    requires 0 <= n < 100
    ensures DigitsValue(TwoDigits(n)) == n
  {
    DigitsValueTwo(TwoDigits(n));
  }

  lemma FourDigitsValue(n: int)
    requires 0 <= n < 10000
    ensures DigitsValue(FourDigits(n)) == n
  {
    var s := FourDigits(n);
    assert s[..2] == TwoDigits(n / 100) && s[2..] == TwoDigits(n % 100);
    DigitsValueFour(s);
    TwoDigitsValue(n / 100);
    TwoDigitsValue(n % 100);
  }

  /** A string of two (four) digits is the padded form of its own value. */
  lemma TwoDigitsOfValue(t: string)
    requires |t| == 2 && AllDigits(t)
    ensures DigitsValue(t) < 100 && TwoDigits(DigitsValue(t)) == t
  {
    DigitsValueTwo(t);
    DivModTen(DigitValue(t[0]), DigitValue(t[1]));
    assert DigitChar(DigitValue(t[0])) == t[0];
    assert DigitChar(DigitValue(t[1])) == t[1];
  }

  lemma FourDigitsOfValue(t: string)
    requires |t| == 4 && AllDigits(t)
    ensures DigitsValue(t) < 10000 && FourDigits(DigitsValue(t)) == t
  {
    DigitsValueFour(t);
    var hi, lo := t[..2], t[2..];
    TwoDigitsOfValue(hi);
    TwoDigitsOfValue(lo);
    DivModHundred(DigitsValue(hi), DigitsValue(lo));
    assert t == hi + lo;
  }

  /** `strftime("%Y-%m-%d")`: four-digit year, two-digit month and day. */
  function FormatDate(d: CalendarDate): (s: string)
    ensures |s| == 10 && s[4] == '-' && s[7] == '-'
    ensures AllDigits(s[..4]) && DigitsValue(s[..4]) == d.year
    ensures AllDigits(s[5..7]) && DigitsValue(s[5..7]) == d.month
    ensures AllDigits(s[8..]) && DigitsValue(s[8..]) == d.day
  {
    var s := FourDigits(d.year) + "-" + TwoDigits(d.month) + "-" + TwoDigits(d.day);
    assert s[..4] == FourDigits(d.year);
    assert s[5..7] == TwoDigits(d.month);
    assert s[8..] == TwoDigits(d.day);
    FourDigitsValue(d.year);
    TwoDigitsValue(d.month);
    TwoDigitsValue(d.day);
    s
  }

  /**
   `strptime(s, "%Y-%m-%d")` on the fixed-width form: None where Python raises
   `ValueError`, either because the text is not of that shape or because the fields
   name no calendar date.
   */
  function ParseDate(s: string): (r: Option<CalendarDate>)
    ensures r.Some? ==> |s| == 10 && s[4] == '-' && s[7] == '-'
  {
    if |s| == 10 && s[4] == '-' && s[7] == '-'
       && AllDigits(s[..4]) && AllDigits(s[5..7]) && AllDigits(s[8..])
    then
      var d := Date(DigitsValue(s[..4]), DigitsValue(s[5..7]), DigitsValue(s[8..]));
      if ValidDate(d) then Some(d) else None
    else None
  }

  /** The date written into the log is read back as the same date. */
  lemma ParseFormatRoundTrip(d: CalendarDate)
    ensures ParseDate(FormatDate(d)) == Some(d)
  {
    var s := FormatDate(d);
    assert s[..4] == FourDigits(d.year);
    assert s[5..7] == TwoDigits(d.month);
    assert s[8..] == TwoDigits(d.day);
    FourDigitsValue(d.year);
    TwoDigitsValue(d.month);
    TwoDigitsValue(d.day);
  }

  /** Text that parses is exactly the text the writer would produce for that date. */
  lemma FormatParseRoundTrip(s: string)
    requires ParseDate(s).Some?
    ensures FormatDate(ParseDate(s).value) == s
  {
    FourDigitsOfValue(s[..4]);
    TwoDigitsOfValue(s[5..7]);
    TwoDigitsOfValue(s[8..]);
    var f := FormatDate(ParseDate(s).value);
    assert f == s[..4] + [s[4]] + s[5..7] + [s[7]] + s[8..];
    assert s == s[..4] + [s[4]] + s[5..7] + [s[7]] + s[8..];
  }

  /** Distinct dates have distinct text, so comparing date strings compares dates. */
  lemma FormatDateInjective(a: CalendarDate, b: CalendarDate)
    ensures FormatDate(a) == FormatDate(b) <==> a == b
  {
    ParseFormatRoundTrip(a);
    ParseFormatRoundTrip(b);
  }
}
