/** Calendar dates and their text forms: `strftime('%Y-%m-%d')` when an entry
    is stored (app.py line 62), `strftime('%H:%M')` for its times (lines
    63-64), and `get_month_year` (lines 19-22), which parses a stored date
    with `strptime` and prints its `%Y-%m` month key. */
module Dates {
  import opened Seqs
  import opened Lex
  import opened Hours

  datatype Date = Date(year: int, month: int, day: int)

  predicate IsLeapYear(year: int)
  {
    year % 4 == 0 && (year % 100 != 0 || year % 400 == 0)
  }

  function DaysInMonth(year: int, month: int): (n: int)
    requires 1 <= month <= 12
    ensures 28 <= n <= 31
  {
    if month == 2 then (if IsLeapYear(year) then 29 else 28)
    else if month == 4 || month == 6 || month == 9 || month == 11 then 30
    else 31
  }

  /** The dates a `datetime.date` can hold. */
  predicate ValidDate(d: Date)
  {
    1 <= d.year <= 9999 && 1 <= d.month <= 12 && 1 <= d.day <= DaysInMonth(d.year, d.month)
  }

  type CalendarDate = d: Date | ValidDate(d) witness Date(2000, 1, 1)

  /** Chronological order. */
  predicate DateLe(a: Date, b: Date)
  {
    a.year < b.year || (a.year == b.year && (a.month < b.month || (a.month == b.month && a.day <= b.day)))
  }

  predicate IsDigit(c: char)
  {
    '0' <= c <= '9'
  }

  predicate AllDigits(s: string)
  {
    forall i :: 0 <= i < |s| ==> IsDigit(s[i])
  }

  function Digit(n: int): (c: char)
    requires 0 <= n < 10
    ensures IsDigit(c)
  {
    ('0' as int + n) as char
  }

  function DigitValue(c: char): (n: int)
    requires IsDigit(c)
    ensures 0 <= n < 10
  {
    c as int - '0' as int
  }

  /** Two digits with a leading zero, as `%m`, `%d`, `%H` and `%M` print. */
  function Pad2(n: int): (s: string)
    requires 0 <= n < 100
    ensures |s| == 2 && AllDigits(s)
  {
    [Digit(n / 10), Digit(n % 10)]
  }

  /** Four digits with leading zeros, as `%Y` prints a year. */
  function Pad4(n: int): (s: string)
    requires 0 <= n < 10000
    ensures |s| == 4 && AllDigits(s)
  {
    Pad2(n / 100) + Pad2(n % 100)
  }

  function Number2(s: string): (n: int)
    requires |s| == 2 && AllDigits(s)
    ensures 0 <= n < 100
  {
    10 * DigitValue(s[0]) + DigitValue(s[1])
  }

  function Number4(s: string): (n: int)
    requires |s| == 4 && AllDigits(s)
    ensures 0 <= n < 10000
  {
    100 * Number2(s[..2]) + Number2(s[2..])
  }

  /** A date as the page stores it: four-digit year, two-digit month and
      two-digit day, joined by dashes (app.py line 62). */
  function FormatDate(d: CalendarDate): (s: string)
    ensures |s| == 10
  {
    Pad4(d.year) + ("-" + (Pad2(d.month) + ("-" + Pad2(d.day))))
  }

  /** The month key of a date: four-digit year, a dash, two-digit month. */
  function FormatYearMonth(d: CalendarDate): (s: string)
    ensures |s| == 7
  {
    Pad4(d.year) + ("-" + Pad2(d.month))
  }

  /** A time as the page stores it: two-digit hour, a colon, two-digit
      minute (app.py lines 63-64). */
  function FormatTime(t: TimeOfDay): (s: string)
    ensures |s| == 5 && s[2] == ':'
    ensures AllDigits(s[..2]) && Number2(s[..2]) == t.hour
    ensures AllDigits(s[3..]) && Number2(s[3..]) == t.minute
  {
    NumberPad2(t.hour);
    NumberPad2(t.minute);
    var s := Pad2(t.hour) + (":" + Pad2(t.minute));
    assert s[..2] == Pad2(t.hour) && s[3..] == Pad2(t.minute);
    s
  }

  /** `datetime.strptime(s, '%Y-%m-%d')` on the zero-padded ten-character
      form; `None` where Python raises `ValueError` (wrong shape, month out
      of range, day past the end of the month, year 0). */
  function ParseDate(s: string): (r: Option<Date>)
    ensures r.Some? ==> ValidDate(r.value)
  {
    if |s| == 10 && s[4] == '-' && s[7] == '-'
       && AllDigits(s[..4]) && AllDigits(s[5..7]) && AllDigits(s[8..])
    then
      var d := Date(Number4(s[..4]), Number2(s[5..7]), Number2(s[8..]));
      if ValidDate(d) then Some(d) else None
    else None
  }

  /** A date string `strptime` accepts. */
  predicate WellFormedDate(s: string)
  {
    ParseDate(s).Some?
  }

  lemma NumberPad2(n: int)
    requires 0 <= n < 100
    ensures Number2(Pad2(n)) == n
  {
  }

  lemma Pad2Number(s: string)
    requires |s| == 2 && AllDigits(s)
    ensures Pad2(Number2(s)) == s
  {
    var a, b := DigitValue(s[0]), DigitValue(s[1]);
    assert (10 * a + b) / 10 == a && (10 * a + b) % 10 == b;
    assert Digit(a) == s[0] && Digit(b) == s[1];
  }

  lemma NumberPad4(n: int)
    requires 0 <= n < 10000
    ensures Number4(Pad4(n)) == n
  {
    var s := Pad4(n);
    assert s[..2] == Pad2(n / 100) && s[2..] == Pad2(n % 100);
    NumberPad2(n / 100);
    NumberPad2(n % 100);
  }

  lemma Pad4Number(s: string)
    requires |s| == 4 && AllDigits(s)
    ensures Pad4(Number4(s)) == s
  {
    var hi, lo := Number2(s[..2]), Number2(s[2..]);
    assert (100 * hi + lo) / 100 == hi && (100 * hi + lo) % 100 == lo;
    Pad2Number(s[..2]);
    Pad2Number(s[2..]);
    assert s == s[..2] + s[2..];
  }

  /** The pieces of a formatted date, by position. */
  lemma FormatDateParts(d: CalendarDate)
    ensures FormatDate(d)[..4] == Pad4(d.year)
    ensures FormatDate(d)[4] == '-' && FormatDate(d)[7] == '-'
    ensures FormatDate(d)[5..7] == Pad2(d.month)
    ensures FormatDate(d)[8..] == Pad2(d.day)
    ensures FormatDate(d)[..7] == FormatYearMonth(d)
  {
    var s := FormatDate(d);
    assert s == Pad4(d.year) + "-" + Pad2(d.month) + "-" + Pad2(d.day);
  }

  /** Parsing what `strftime` printed gives the date back. */
  lemma ParseFormatDate(d: CalendarDate)
    ensures ParseDate(FormatDate(d)) == Some(d)
  {
    FormatDateParts(d);
    NumberPad4(d.year);
    NumberPad2(d.month);
    NumberPad2(d.day);
  }

  /** Printing a parsed date gives the text back. */
  lemma FormatParseDate(s: string)
    requires WellFormedDate(s)
    ensures FormatDate(ParseDate(s).value) == s
  {
    var d: CalendarDate := ParseDate(s).value;
    Pad4Number(s[..4]);
    Pad2Number(s[5..7]);
    Pad2Number(s[8..]);
    FormatDateParts(d);
    assert s == s[..4] + [s[4]] + s[5..7] + [s[7]] + s[8..];
  }

  /** `get_month_year`: the `YYYY-MM` key of a stored date; `None` where
      `strptime` raises. */
  function GetMonthYear(s: string): (r: Option<string>)
    ensures r.Some? <==> WellFormedDate(s)
    ensures r.Some? ==> r.value == s[..7]
  {
    match ParseDate(s)
    case None => None
    case Some(d) =>
      FormatParseDate(s);
      FormatDateParts(d);
      Some(FormatYearMonth(d))
  }

  /** The month key of a date printed at storage time is its `%Y-%m` form. */
  lemma MonthKeyOfFormattedDate(d: CalendarDate)
    ensures GetMonthYear(FormatDate(d)) == Some(FormatYearMonth(d))
  {
    ParseFormatDate(d);
  }

  lemma Pad2Order(a: int, b: int)
    requires 0 <= a < 100 && 0 <= b < 100
    ensures LexLe(Pad2(a), Pad2(b)) <==> a <= b
    ensures Pad2(a) == Pad2(b) <==> a == b
  {
    var x, y := Pad2(a), Pad2(b);
    assert x == [x[0]] + [x[1]] && y == [y[0]] + [y[1]];
    LexLeConcat([x[0]], [x[1]], [y[0]], [y[1]]);
    assert a == 10 * (a / 10) + a % 10 && b == 10 * (b / 10) + b % 10;
    NumberPad2(a);
    NumberPad2(b);
  }

  lemma Pad4Order(a: int, b: int)
    requires 0 <= a < 10000 && 0 <= b < 10000
    ensures LexLe(Pad4(a), Pad4(b)) <==> a <= b
    ensures Pad4(a) == Pad4(b) <==> a == b
  {
    LexLeConcat(Pad2(a / 100), Pad2(a % 100), Pad2(b / 100), Pad2(b % 100));
    Pad2Order(a / 100, b / 100);
    Pad2Order(a % 100, b % 100);
    assert a == 100 * (a / 100) + a % 100 && b == 100 * (b / 100) + b % 100;
    NumberPad4(a);
    NumberPad4(b);
  }

  /** Comparing stored date strings as text is comparing the dates
      chronologically, so sorting by the text sorts by date. */
  lemma FormattedDateOrder(a: CalendarDate, b: CalendarDate)
    ensures LexLe(FormatDate(a), FormatDate(b)) <==> DateLe(a, b)
  {
    var ra := "-" + (Pad2(a.month) + ("-" + Pad2(a.day)));
    var rb := "-" + (Pad2(b.month) + ("-" + Pad2(b.day)));
    LexLeConcat(Pad4(a.year), ra, Pad4(b.year), rb);
    Pad4Order(a.year, b.year);
    LexLeConcat("-", Pad2(a.month) + ("-" + Pad2(a.day)), "-", Pad2(b.month) + ("-" + Pad2(b.day)));
    LexLeConcat(Pad2(a.month), "-" + Pad2(a.day), Pad2(b.month), "-" + Pad2(b.day));
    Pad2Order(a.month, b.month);
    LexLeConcat("-", Pad2(a.day), "-", Pad2(b.day));
    Pad2Order(a.day, b.day);
  }
}
