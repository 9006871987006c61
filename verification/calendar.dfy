/** Calendar dates and the `dd/mm/yyyy` text form the flight search uses
    (Go time layout "02/01/2006"): formatting, strict parsing, and the
    round trips between them. */
module Calendar {
  import opened Text
  import opened Results

  /** A proleptic Gregorian calendar date, as Go's time package sees it. */
  datatype CivilDate = CivilDate(year: int, month: int, day: int)

  predicate IsLeap(year: int) {
    year % 4 == 0 && (year % 100 != 0 || year % 400 == 0)
  }

  function DaysIn(month: int, year: int): int
    requires 1 <= month <= 12
  {
    if month == 2 then (if IsLeap(year) then 29 else 28)
    else if month == 4 || month == 6 || month == 9 || month == 11 then 30
    else 31
  }

  /** A date a calendar can actually produce. */
  predicate ValidCivil(d: CivilDate) {
    1 <= d.month <= 12 && 1 <= d.day <= DaysIn(d.month, d.year)
  }

  /** A numeric layout field: sign first, then digits zero-padded to `w`. */
  function LayoutInt(x: int, w: nat): string {
    if x < 0 then "-" + ZeroPad(Digits(-x), w) else ZeroPad(Digits(x), w)
  }

  /** `s` is the `dd/mm/yyyy` text of `d`: ten characters, slashes at
      positions 2 and 5, and each field reading back as the date's day,
      month and year. */
  predicate IsDateText(d: CivilDate, s: string) {
    && |s| == 10 && s[2] == '/' && s[5] == '/'
    && AllDigits(s[0..2]) && ParseDigits(s[0..2]) == d.day
    && AllDigits(s[3..5]) && ParseDigits(s[3..5]) == d.month
    && AllDigits(s[6..10]) && ParseDigits(s[6..10]) == d.year
  }

  /** Formatting a date with layout "02/01/2006". When every field fits
      its width the text is exactly `dd/mm/yyyy`, and each field reads
      back as the date's day, month and year. */
  function FormatDate(d: CivilDate): (s: string)
    ensures 0 <= d.day < 100 && 0 <= d.month < 100 && 0 <= d.year < 10000 ==> IsDateText(d, s)
  {
    DateText(d);
    LayoutInt(d.day, 2) + "/" + LayoutInt(d.month, 2) + "/" + LayoutInt(d.year, 4)
  }

  /** The layout fields of a date whose fields fit their widths. */
  lemma DateText(d: CivilDate)
    ensures 0 <= d.day < 100 && 0 <= d.month < 100 && 0 <= d.year < 10000 ==>
      IsDateText(d, LayoutInt(d.day, 2) + "/" + LayoutInt(d.month, 2) + "/" + LayoutInt(d.year, 4))
  {
    if 0 <= d.day < 100 && 0 <= d.month < 100 && 0 <= d.year < 10000 {
      assert Pow10(2) == 100 && Pow10(4) == 10000;
      PaddedWidth(d.day, 2);
      PaddedWidth(d.month, 2);
      PaddedWidth(d.year, 4);
      PaddedReadsBack(d.day, 2);
      PaddedReadsBack(d.month, 2);
      PaddedReadsBack(d.year, 4);
      SplitDateText(LayoutInt(d.day, 2), LayoutInt(d.month, 2), LayoutInt(d.year, 4));
    }
  }

  /** Parsing with layout "02/01/2006": two-digit day, two-digit month,
      four-digit year, no extra text, month in 1..12 and the day within
      that month of that year. Whatever parses is a real date of years
      0..9999, and formatting it gives the text back. */
  function ParseDate(s: string): (r: Option<CivilDate>)
    ensures r.Some? ==>
      && ValidCivil(r.value)
      && 0 <= r.value.year < 10000
      && FormatDate(r.value) == s
  {
    if |s| == 10 && s[2] == '/' && s[5] == '/'
       && AllDigits(s[0..2]) && AllDigits(s[3..5]) && AllDigits(s[6..10])
    then
      var d := CivilDate(ParseDigits(s[6..10]), ParseDigits(s[3..5]), ParseDigits(s[0..2]));
      if ValidCivil(d) then
        FieldsFormatBack(s);
        Some(d)
      else None
    else None
  }

  /** A `dd/mm/yyyy`-shaped text is the formatting of the fields it holds. */
  lemma FieldsFormatBack(s: string)
    requires |s| == 10 && s[2] == '/' && s[5] == '/'
    requires AllDigits(s[0..2]) && AllDigits(s[3..5]) && AllDigits(s[6..10])
    ensures var d := CivilDate(ParseDigits(s[6..10]), ParseDigits(s[3..5]), ParseDigits(s[0..2]));
      0 <= d.year < 10000 && FormatDate(d) == s
  {
    PadOfParse(s[0..2]);
    PadOfParse(s[3..5]);
    PadOfParse(s[6..10]);
    ParseDigitsBound(s[6..10]);
    assert Pow10(4) == 10000;
    assert s == s[0..2] + "/" + s[3..5] + "/" + s[6..10];
  }

  predicate ValidDateString(s: string) {
    ParseDate(s).Some?
  }

  /** Formatting a date of years 0..9999 and parsing it back gives the date. */
  lemma FormatThenParse(d: CivilDate)
    requires ValidCivil(d) && 0 <= d.year < 10000
    ensures ParseDate(FormatDate(d)) == Some(d)
  {
    assert DaysIn(d.month, d.year) <= 31;
  }

  /** The three fields of a "dd/mm/yyyy" text sit at fixed positions. */
  lemma SplitDateText(dd: string, mm: string, yy: string)
    requires |dd| == 2 && |mm| == 2 && |yy| == 4
    ensures var s := dd + "/" + mm + "/" + yy;
      && |s| == 10 && s[2] == '/' && s[5] == '/'
      && s[0..2] == dd && s[3..5] == mm && s[6..10] == yy
  {
  }

  /** A real calendar date whose text parses lies in years 0..9999:
      outside them the year field is longer than four characters. */
  lemma FormattedYearInRange(c: CivilDate)
    requires ValidCivil(c)
    ensures ValidDateString(FormatDate(c)) ==> 0 <= c.year < 10000
  {
    assert Pow10(2) == 100 && Pow10(4) == 10000;
    PaddedWidth(c.day, 2);
    PaddedWidth(c.month, 2);
    if c.year >= 10000 {
      DigitsLengthAtLeast(c.year, 4);
    }
  }

  /** For a real calendar date `c` and a valid date string `s`, the text
      comparison the search performs is the comparison of dates. */
  lemma SameDateIffSameText(c: CivilDate, s: string)
    requires ValidCivil(c) && ValidDateString(s)
    ensures FormatDate(c) == s <==> c == ParseDate(s).value
  {
    FormattedYearInRange(c);
    if FormatDate(c) == s {
      FormatThenParse(c);
    }
  }
}
