/** `datetime.strptime(text, '%d-%m-%Y')` as CPython's `_strptime` performs
    it: a regular-expression match in which `%d` is `3[01]|[12]\d|0[1-9]|[1-9]| [1-9]`,
    `%m` is `1[0-2]|0[1-9]|[1-9]` and `%Y` is four digits; text left over
    after the year is an error; then the calendar check of
    `datetime(year, month, day)`. Every failure is a `ValueError` in Python. */
module Dates {
  import opened Wrappers

  /** A calendar date (the date part of the `datetime` that is produced). */
  datatype Date = Date(year: int, month: int, day: int)

  /** Why the text was refused. */
  datatype DateError =
    | FormatMismatch   // "time data ... does not match format"
    | UnconvertedData  // "unconverted data remains"
    | YearOutOfRange   // year 0000: "year 0 is out of range"
    | DayOutOfRange    // "day is out of range for month"

  predicate IsLeapYear(y: int) {
    y % 4 == 0 && (y % 100 != 0 || y % 400 == 0)
  }

  function DaysInMonth(y: int, m: int): (n: int)
    requires 1 <= m <= 12
    ensures 28 <= n <= 31
    ensures n == 29 <==> m == 2 && IsLeapYear(y)
  {
    if m == 2 then (if IsLeapYear(y) then 29 else 28)
    else if m == 4 || m == 6 || m == 9 || m == 11 then 30
    else 31
  }

  /** A date `datetime` can represent (years 1..9999, proleptic Gregorian). */
  predicate ValidDate(d: Date) {
    && 1 <= d.year <= 9999
    && 1 <= d.month <= 12
    && 1 <= d.day <= DaysInMonth(d.year, d.month)
  }

  predicate IsDigit(c: char) {
    '0' <= c <= '9'
  }

  function DigitValue(c: char): (v: nat)
    requires IsDigit(c)
    ensures v < 10
  {
    c as int - '0' as int
  }

  /** The number written by two ASCII digits. */
  function TwoDigits(t: string): (v: nat)
    requires |t| == 2 && IsDigit(t[0]) && IsDigit(t[1])
    ensures v < 100
  {
    10 * DigitValue(t[0]) + DigitValue(t[1])
  }

  /** What `%d` accepts: one non-zero digit, a space and a non-zero digit, or
      two digits making 01..31. */
  function DayField(t: string): Option<int> {
    if |t| == 1 && IsDigit(t[0]) && t[0] != '0' then Some(DigitValue(t[0]))
    else if |t| == 2 && t[0] == ' ' && IsDigit(t[1]) && t[1] != '0' then Some(DigitValue(t[1]))
    else if |t| == 2 && IsDigit(t[0]) && IsDigit(t[1]) && 1 <= TwoDigits(t) <= 31 then Some(TwoDigits(t))
    else None
  }

  /** What `%m` accepts: one non-zero digit, or two digits making 01..12. */
  function MonthField(t: string): Option<int> {
    if |t| == 1 && IsDigit(t[0]) && t[0] != '0' then Some(DigitValue(t[0]))
    else if |t| == 2 && IsDigit(t[0]) && IsDigit(t[1]) && 1 <= TwoDigits(t) <= 12 then Some(TwoDigits(t))
    else None
  }

  predicate AllDigits(t: string) {
    forall i :: 0 <= i < |t| ==> IsDigit(t[i])
  }

  /** The number written by four ASCII digits (`%Y`). */
  function FourDigits(t: string): (v: nat)
    requires |t| == 4 && AllDigits(t)
    ensures v < 10000
  {
    1000 * DigitValue(t[0]) + 100 * DigitValue(t[1]) + 10 * DigitValue(t[2]) + DigitValue(t[3])
  }

  /** The position of the first '-' in `s`, or `|s|` when there is none. */
  function FirstDash(s: string): (p: nat)
    ensures p <= |s|
    ensures forall i :: 0 <= i < p ==> s[i] != '-'
    ensures p < |s| ==> s[p] == '-'
  {
    if s == [] || s[0] == '-' then 0 else 1 + FirstDash(s[1..])
  }

  /** `datetime.strptime(s, '%d-%m-%Y')`. Neither field pattern can match a
      '-', so the day is the text before the first dash and the month the text
      between the first two. */
  function ParseDate(s: string): (r: Result<Date, DateError>)
    ensures r.Ok? ==> ValidDate(r.value)
  {
    var p := FirstDash(s);
    if p == |s| then Err(FormatMismatch)
    else
      var rest := s[p + 1..];
      var q := FirstDash(rest);
      if q == |rest| then Err(FormatMismatch)
      else
        var yearText := rest[q + 1..];
        match (DayField(s[..p]), MonthField(rest[..q]))
        case (Some(day), Some(month)) =>
          if |yearText| < 4 || !AllDigits(yearText[..4]) then Err(FormatMismatch)
          else if |yearText| > 4 then Err(UnconvertedData)
          else
            var year := FourDigits(yearText);
            if year < 1 then Err(YearOutOfRange)
            else if day > DaysInMonth(year, month) then Err(DayOutOfRange)
            else Ok(Date(year, month, day))
        case _ => Err(FormatMismatch)
  }

  function DigitChar(n: nat): (c: char)
    requires n < 10
    ensures IsDigit(c) && DigitValue(c) == n
  {
    ('0' as int + n) as char
  }

  /** `n` written with `width` digits, zero-padded (`width` counts down). */
  function Padded(n: nat, width: nat): (t: string)
    ensures |t| == width && AllDigits(t)
  {
    if width == 0 then [] else Padded(n / 10, width - 1) + [DigitChar(n % 10)]
  }

  /** The canonical `DD-MM-YYYY` text of a date. */
  function FormatDate(d: Date): (s: string)
    requires ValidDate(d)
    ensures |s| == 10 && s[2] == '-' && s[5] == '-'
  {
    Padded(d.day, 2) + "-" + Padded(d.month, 2) + "-" + Padded(d.year, 4)
  }

  lemma PaddedTwo(n: nat)
    requires n < 100
    ensures TwoDigits(Padded(n, 2)) == n
  {
    var q := n / 10;
    assert Padded(n, 2) == Padded(q, 1) + [DigitChar(n % 10)];
    assert Padded(q, 1) == [DigitChar(q % 10)];
  }

  lemma PaddedFour(n: nat)
    requires n < 10000
    ensures FourDigits(Padded(n, 4)) == n
  {
    var q1 := n / 10;
    var q2 := q1 / 10;
    var q3 := q2 / 10;
    assert Padded(n, 4) == Padded(q1, 3) + [DigitChar(n % 10)];
    assert Padded(q1, 3) == Padded(q2, 2) + [DigitChar(q1 % 10)];
    assert Padded(q2, 2) == Padded(q3, 1) + [DigitChar(q2 % 10)];
    assert Padded(q3, 1) == [DigitChar(q3 % 10)];
    assert Padded(n, 4) == [DigitChar(q3 % 10), DigitChar(q2 % 10), DigitChar(q1 % 10), DigitChar(n % 10)];
  }

  /** A date written as `DD-MM-YYYY` parses back to itself. */
  lemma ParseFormatRoundTrip(d: Date)
    requires ValidDate(d)
    ensures ParseDate(FormatDate(d)) == Ok(d)
  {
    var s := FormatDate(d);
    var dd, mm, yyyy := Padded(d.day, 2), Padded(d.month, 2), Padded(d.year, 4);
    assert s == dd + "-" + mm + "-" + yyyy;
    PaddedTwo(d.day);
    PaddedTwo(d.month);
    PaddedFour(d.year);
    assert FirstDash(s) == 2;
    var rest := s[3..];
    assert rest == mm + "-" + yyyy;
    assert FirstDash(rest) == 2;
    assert s[..2] == dd;
    assert rest[..2] == mm;
    assert rest[3..] == yyyy;
  }

  /** For text of the documented shape `DD-MM-YYYY` (ten characters, digits
      around two dashes), parsing succeeds exactly when the written numbers
      form a real date, and then yields that date; otherwise the error says
      which check refused it. */
  lemma ParseCanonical(s: string)
    requires |s| == 10 && s[2] == '-' && s[5] == '-'
    requires AllDigits(s[..2]) && AllDigits(s[3..5]) && AllDigits(s[6..])
    ensures var day, month, year := TwoDigits(s[..2]), TwoDigits(s[3..5]), FourDigits(s[6..]);
      && (ParseDate(s).Ok? <==> ValidDate(Date(year, month, day)))
      && (ParseDate(s).Ok? ==> ParseDate(s).value == Date(year, month, day))
      && (!(1 <= day <= 31 && 1 <= month <= 12) ==> ParseDate(s) == Err(FormatMismatch))
      && (1 <= day <= 31 && 1 <= month <= 12 && year == 0 ==> ParseDate(s) == Err(YearOutOfRange))
      && (1 <= day <= 31 && 1 <= month <= 12 && year != 0 && day > DaysInMonth(year, month) ==>
            ParseDate(s) == Err(DayOutOfRange))
  {
    assert IsDigit(s[..2][0]) && IsDigit(s[..2][1]);
    assert FirstDash(s) == 2;
    var rest := s[3..];
    assert IsDigit(s[3..5][0]) && IsDigit(s[3..5][1]);
    assert FirstDash(rest) == 2;
    assert rest[..2] == s[3..5];
    assert rest[3..] == s[6..];
  }

  /** Month 13 does not match `%m`: the text is refused, not read as a date. */
  lemma MonthThirteenRefused()
    ensures ParseDate("31-13-2022") == Err(FormatMismatch)
  {
    var s := "31-13-2022";
    assert s[..2] == "31" && s[3..5] == "13" && s[6..] == "2022";
    ParseCanonical(s);
  }

  /** 29 February exists only in leap years. */
  lemma LeapDayAccepted()
    ensures ParseDate("29-02-2024") == Ok(Date(2024, 2, 29))
  {
    var s := "29-02-2024";
    assert s[..2] == "29" && s[3..5] == "02" && s[6..] == "2024";
    assert TwoDigits(s[..2]) == 29 && TwoDigits(s[3..5]) == 2 && FourDigits(s[6..]) == 2024;
    assert DaysInMonth(2024, 2) == 29;
    ParseCanonical(s);
  }

  lemma LeapDayRefused()
    ensures ParseDate("29-02-2023") == Err(DayOutOfRange)
  {
    var s := "29-02-2023";
    assert s[..2] == "29" && s[3..5] == "02" && s[6..] == "2023";
    assert TwoDigits(s[..2]) == 29 && TwoDigits(s[3..5]) == 2 && FourDigits(s[6..]) == 2023;
    assert DaysInMonth(2023, 2) == 28;
    ParseCanonical(s);
  }
}
