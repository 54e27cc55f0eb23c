/**
 * `date.toISOString().split('T')[0]`: the calendar part of the ISO 8601 text of
 * a date, which for years 0..9999 is the full-date form of section 5.6 of
 * RFC 3339 (`YYYY-MM-DD`), and its decoding by `split('-').map(Number)`.
 */
module IsoDate {
  import opened Text
  import opened Calendar

  /** Four digits for years 0..9999; otherwise a sign and six digits (the expanded-year form). */
  function YearText(y: int): string {
    if 0 <= y <= 9999 then FixedDigits(y, 4)
    else (if y < 0 then "-" else "+") + FixedDigits(if y < 0 then -y else y, 6)
  }

  function ToIso(c: CivilDate): string
    requires Valid(c)
  {
    YearText(c.year) + "-" + FixedDigits(c.month, 2) + "-" + FixedDigits(c.day, 2)
  }

  /** The shape `YYYY-MM-DD`: ten characters, dashes at 4 and 7, decimal digits elsewhere. */
  predicate IsIsoDateString(s: string) {
    |s| == 10 && s[4] == '-' && s[7] == '-'
    && AllDigits(s[..4]) && AllDigits(s[5..7]) && AllDigits(s[8..])
  }

  /** The (year, month, day) numbers of a `YYYY-MM-DD` text. */
  function DecodeIso(s: string): CivilDate
    requires IsIsoDateString(s)
  {
    CivilDate(DigitsValue(s[..4]), DigitsValue(s[5..7]), DigitsValue(s[8..]))
  }

  /**
   * For years 0..9999 the rendered text has the `YYYY-MM-DD` shape, contains
   * no white space, and decodes back to the same date.
   */
  lemma IsoRoundTrip(c: CivilDate)
    requires Valid(c) && 0 <= c.year <= 9999
    ensures IsIsoDateString(ToIso(c)) && NoWhitespace(ToIso(c))
    ensures DecodeIso(ToIso(c)) == c
  {
    assert YearText(c.year) == FixedDigits(c.year, 4);
    IsoShape(FixedDigits(c.year, 4), FixedDigits(c.month, 2), FixedDigits(c.day, 2));
    FixedDigitsValue(c.year, 4);
    FixedDigitsValue(c.month, 2);
    FixedDigitsValue(c.day, 2);
  }

  /** Four, two and two digits joined by dashes have the `YYYY-MM-DD` shape and split back into the parts. */
  lemma IsoShape(y: string, m: string, d: string)
    requires |y| == 4 && |m| == 2 && |d| == 2 && AllDigits(y) && AllDigits(m) && AllDigits(d)
    ensures var s := y + "-" + m + "-" + d;
            IsIsoDateString(s) && NoWhitespace(s) && s[..4] == y && s[5..7] == m && s[8..] == d
  {
    var s := y + "-" + m + "-" + d;
    assert s[..4] == y;
    assert s[5..7] == m;
    assert s[8..] == d;
    forall i | 0 <= i < |s| ensures !IsJsWhitespace(s[i]) {
      if i < 4 {
        assert s[i] == y[i];
      } else if 5 <= i < 7 {
        assert s[i] == m[i - 5];
      } else if 8 <= i {
        assert s[i] == d[i - 8];
      }
    }
  }
}
