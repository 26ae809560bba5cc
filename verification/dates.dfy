/**
 Calendar dates as Python's `datetime` handles them for the format
 `%Y-%m-%d`: the grammar `strptime` accepts, the calendar check it applies,
 the day ordinal used to count days between dates, and the zero-padded
 renderings `%Y-%m-%d` and `%d/%m/%Y`.
 */
module Dates {
  import opened Strings

  datatype Date = Date(year: int, month: int, day: int)

  predicate IsLeap(y: int) {
    y % 4 == 0 && (y % 100 != 0 || y % 400 == 0)
  }

  function DaysInMonth(y: int, m: int): (n: int)
    requires 1 <= m <= 12
    ensures 28 <= n <= 31
  {
    if m == 2 then (if IsLeap(y) then 29 else 28)
    else if m == 4 || m == 6 || m == 9 || m == 11 then 30
    else 31
  }

  /** A date `datetime.date` accepts; `%Y` limits years to four digits. */
  predicate ValidDate(d: Date) {
    && 1 <= d.year <= 9999
    && 1 <= d.month <= 12
    && 1 <= d.day <= DaysInMonth(d.year, d.month)
  }

  predicate IsDigit(c: char) {
    '0' <= c <= '9'
  }

  function DigitValue(c: char): (n: nat)
    requires IsDigit(c)
    ensures n <= 9
  {
    c as int - '0' as int
  }

  function Digit(n: nat): (c: char)
    requires n <= 9
    ensures IsDigit(c) && DigitValue(c) == n
  {
    (n + '0' as int) as char
  }

  predicate AllDigits(s: string) {
    forall k :: 0 <= k < |s| ==> IsDigit(s[k])
  }

  /** Decimal value of a digit string. */
  function Number(s: string): nat
    requires AllDigits(s)
  {
    if |s| == 0 then 0 else 10 * Number(s[..|s| - 1]) + DigitValue(s[|s| - 1])
  }

  /** The `%m` directive, `1[0-2]|0[1-9]|[1-9]`, matched against a whole token. */
  function MonthToken(t: string): (r: Option<int>)
    ensures r.Some? ==> 1 <= r.value <= 12 && 1 <= |t| <= 2 && AllDigits(t)
  {
    if |t| == 1 && '1' <= t[0] <= '9' then Some(DigitValue(t[0]))
    else if |t| == 2 && t[0] == '1' && '0' <= t[1] <= '2' then Some(10 + DigitValue(t[1]))
    else if |t| == 2 && t[0] == '0' && '1' <= t[1] <= '9' then Some(DigitValue(t[1]))
    else None
  }

  /** The `%d` directive, `3[01]|[12]\d|0[1-9]|[1-9]| [1-9]`, matched against a whole token. */
  function DayToken(t: string): (r: Option<int>)
    ensures r.Some? ==> 1 <= r.value <= 31 && 1 <= |t| <= 2
  {
    if |t| == 1 && '1' <= t[0] <= '9' then Some(DigitValue(t[0]))
    else if |t| == 2 && t[0] == '3' && '0' <= t[1] <= '1' then Some(30 + DigitValue(t[1]))
    else if |t| == 2 && '1' <= t[0] <= '2' && IsDigit(t[1]) then Some(10 * DigitValue(t[0]) + DigitValue(t[1]))
    else if |t| == 2 && t[0] == '0' && '1' <= t[1] <= '9' then Some(DigitValue(t[1]))
    else if |t| == 2 && t[0] == ' ' && '1' <= t[1] <= '9' then Some(DigitValue(t[1]))
    else None
  }

  /**
   `datetime.strptime(s, '%Y-%m-%d')`: four digits, a dash, a month token up
   to the next dash, a day token that must end the string, and a day that
   exists in that month. The month token consists of digits, so the dash that
   ends it is the first dash after the year; the day directive is the last one,
   so trailing text makes the parse fail ("unconverted data remains").
   */
  function ParseDate(s: string): (r: Option<Date>)
    ensures r.Some? ==> ValidDate(r.value) && ReadsAs(s, r.value)
    ensures r.Some? ==> 8 <= |s| <= 10
  {
    if |s| < 5 || !AllDigits(s[..4]) || s[4] != '-' then None
    else
      var rest := s[5..];
      match IndexOf(rest, '-')
      case None => None
      case Some(j) =>
        match (MonthToken(rest[..j]), DayToken(rest[j + 1..]))
        case (Some(m), Some(d)) =>
          assert rest[..j] == s[5..5 + j] && rest[j + 1..] == s[5 + j + 1..];
          var date := Date(Number(s[..4]), m, d);
          if ValidDate(date) then Some(date) else None
        case _ => None
  }

  /**
   The text spells `date` in the `%Y-%m-%d` format: four digits giving the
   year, a dash, a month token of one or two characters, a dash, and a day
   token that ends the text.
   */
  predicate ReadsAs(s: string, date: Date) {
    && |s| >= 5 && AllDigits(s[..4]) && s[4] == '-' && date.year == Number(s[..4])
    && (MonthDayFrom(s, 6, date) || MonthDayFrom(s, 7, date))
  }

  /** The month token runs from index 5 to the dash at `k`, and the day token from there to the end. */
  predicate MonthDayFrom(s: string, k: nat, date: Date) {
    5 <= k < |s| && s[k] == '-' && MonthToken(s[5..k]) == Some(date.month) && DayToken(s[k + 1..]) == Some(date.day)
  }

  /** A month token holds no dash, so the dash after it is the first one after the year. */
  lemma ReadsAsFirstDash(s: string, date: Date)
    requires ReadsAs(s, date)
    ensures IndexOf(s[5..], '-').Some?
    ensures MonthToken(s[5..5 + IndexOf(s[5..], '-').value]) == Some(date.month)
    ensures DayToken(s[5 + IndexOf(s[5..], '-').value + 1..]) == Some(date.day)
  {
    var k := if MonthDayFrom(s, 6, date) then 6 else 7;
    var rest, month := s[5..], s[5..k];
    assert rest[k - 5] == '-' && rest[..k - 5] == month;
    assert '-' !in month by { assert !IsDigit('-'); }
    var j := IndexOf(rest, '-').value;
    assert rest[..j] == month && rest[j + 1..] == s[k + 1..];
  }

  /**
   `strptime` accepts a text exactly when it spells a real calendar date,
   and then returns that date: month and day come from the text, and an
   impossible date such as 30 February or month 13 is refused.
   */
  lemma ParseDateIff(s: string, date: Date)
    ensures ParseDate(s) == Some(date) <==> ReadsAs(s, date) && ValidDate(date)
  {
    if ReadsAs(s, date) && ValidDate(date) {
      ReadsAsFirstDash(s, date);
      var j := IndexOf(s[5..], '-').value;
      assert s[5..][..j] == s[5..5 + j] && s[5..][j + 1..] == s[5 + j + 1..];
    }
  }

  /**
   A text assembled from a four-digit year, a month token and a day token
   parses to the date they spell when it exists, and is refused otherwise.
   */
  lemma ParseParts(y: string, m: string, d: string)
    requires |y| == 4 && AllDigits(y) && MonthToken(m).Some? && DayToken(d).Some?
    ensures var date := Date(Number(y), MonthToken(m).value, DayToken(d).value);
            ParseDate(y + "-" + m + "-" + d) == (if ValidDate(date) then Some(date) else None)
  {
    var s := y + "-" + m + "-" + d;
    var date := Date(Number(y), MonthToken(m).value, DayToken(d).value);
    var k := 5 + |m|;
    assert s[..4] == y && s[4] == '-' && s[5..k] == m && s[k] == '-' && s[k + 1..] == d;
    assert MonthDayFrom(s, k, date);
    ParseDateIff(s, date);
    if ParseDate(s).Some? {
      var e := ParseDate(s).value;
      ReadsAsFirstDash(s, e);
      ReadsAsFirstDash(s, date);
    }
  }

  /** Days before each month's first day in a common year. */
  const CommonDaysBefore: seq<nat> := [0, 31, 59, 90, 120, 151, 181, 212, 243, 273, 304, 334]

  /** Days in the months before `m` of year `y`: the common-year table plus the leap day after February. */
  function DaysBeforeMonth(y: int, m: int): nat
    requires 1 <= m <= 12
  {
    CommonDaysBefore[m - 1] + (if m > 2 && IsLeap(y) then 1 else 0)
  }

  /** The table is the running sum of the month lengths. */
  lemma DaysBeforeMonthSums(y: int, m: int)
    requires 1 <= m < 12
    ensures DaysBeforeMonth(y, m + 1) == DaysBeforeMonth(y, m) + DaysInMonth(y, m)
  {
  }

  /**
   `date.toordinal()`: day number in the proleptic Gregorian calendar,
   1 January of year 1 being day 1.
   */
  function DayNumber(d: Date): (n: int)
    requires ValidDate(d)
    ensures n >= 1
  {
    var y := d.year - 1;
    y * 365 + y / 4 - y / 100 + y / 400 + DaysBeforeMonth(d.year, d.month) + d.day
  }

  /** The day after a date inside the same month has the next day number. */
  lemma NextDayInMonth(d: Date)
    requires ValidDate(d) && d.day < DaysInMonth(d.year, d.month)
    ensures ValidDate(d.(day := d.day + 1))
    ensures DayNumber(d.(day := d.day + 1)) == DayNumber(d) + 1
  {
  }

  /** The first of the next month follows the last day of a month (within a year). */
  lemma NextMonth(d: Date)
    requires ValidDate(d) && d.day == DaysInMonth(d.year, d.month) && d.month < 12
    ensures ValidDate(Date(d.year, d.month + 1, 1))
    ensures DayNumber(Date(d.year, d.month + 1, 1)) == DayNumber(d) + 1
  {
    DaysBeforeMonthSums(d.year, d.month);
  }

  /** 1 January follows 31 December. */
  lemma NextYear(d: Date)
    requires ValidDate(d) && d.month == 12 && d.day == 31 && d.year < 9999
    ensures ValidDate(Date(d.year + 1, 1, 1))
    ensures DayNumber(Date(d.year + 1, 1, 1)) == DayNumber(d) + 1
  {
    var y := d.year;
    LeapStep(y);
    DivisorChain(y);
    var step := (y / 4 - (y - 1) / 4) - (y / 100 - (y - 1) / 100) + (y / 400 - (y - 1) / 400);
    assert step == if IsLeap(y) then 1 else 0;
  }

  /** A multiple of 400 is a multiple of 100, and a multiple of 100 a multiple of 4. */
  lemma DivisorChain(y: int)
    ensures y % 400 == 0 ==> y % 100 == 0
    ensures y % 100 == 0 ==> y % 4 == 0
  {
    if y % 400 == 0 {
      var q := y / 400;
      assert y == 400 * q;
      assert y / 100 == 4 * q;
    }
    if y % 100 == 0 {
      var q := y / 100;
      assert y == 100 * q;
      assert y / 4 == 25 * q;
    }
  }

  /** Stepping from y - 1 to y crosses a multiple of 4, 100 or 400 exactly when it divides y. */
  lemma LeapStep(y: int)
    requires y >= 1
    ensures y / 4 - (y - 1) / 4 == if y % 4 == 0 then 1 else 0
    ensures y / 100 - (y - 1) / 100 == if y % 100 == 0 then 1 else 0
    ensures y / 400 - (y - 1) / 400 == if y % 400 == 0 then 1 else 0
  {
  }

  /** Zero-padded two-digit rendering (`%m`, `%d` in `strftime`). */
  function Pad2(n: int): (s: string)
    requires 0 <= n <= 99
    ensures |s| == 2 && AllDigits(s)
  {
    [Digit(n / 10), Digit(n % 10)]
  }

  /** Zero-padded four-digit rendering of a year (`%Y`). */
  function Pad4(n: int): (s: string)
    requires 0 <= n <= 9999
    ensures |s| == 4 && AllDigits(s)
  {
    [Digit(n / 1000), Digit(n / 100 % 10), Digit(n / 10 % 10), Digit(n % 10)]
  }

  /** `date.strftime('%Y-%m-%d')`. */
  function IsoString(d: Date): (s: string)
    requires ValidDate(d)
    ensures |s| == 10 && s[4] == '-' && s[7] == '-'
  {
    Pad4(d.year) + "-" + Pad2(d.month) + "-" + Pad2(d.day)
  }

  /** `date.strftime('%d/%m/%Y')`. */
  function DayFirst(d: Date): (s: string)
    requires ValidDate(d)
    ensures |s| == 10 && s[2] == '/' && s[5] == '/'
  {
    Pad2(d.day) + "/" + Pad2(d.month) + "/" + Pad4(d.year)
  }

  lemma Pad4Number(n: int)
    requires 0 <= n <= 9999
    ensures Number(Pad4(n)) == n
  {
    var s := Pad4(n);
    assert s[..3][..2][..1][..0] == [];
    assert s[..3][..2] == s[..2] && s[..2][..1] == s[..1] && s[..4] == s;
    DivTen(n / 10);
    DivTen(n / 100);
    DivTen(n);
    assert n / 10 / 10 == n / 100 && n / 100 / 10 == n / 1000;
    assert Number(s[..1]) == n / 1000;
    assert Number(s[..2]) == n / 100;
    assert Number(s[..3]) == n / 10;
  }

  lemma DivTen(n: int)
    requires n >= 0
    ensures n == 10 * (n / 10) + n % 10
  {
  }

  /** Rendering a valid date as `%Y-%m-%d` and parsing it back gives the same date. */
  lemma ParseIsoRoundTrip(d: Date)
    requires ValidDate(d)
    ensures ParseDate(IsoString(d)) == Some(d)
  {
    var s := IsoString(d);
    var rest := s[5..];
    assert s[..4] == Pad4(d.year);
    Pad4Number(d.year);
    assert rest == Pad2(d.month) + "-" + Pad2(d.day);
    IndexAfterPad2(Pad2(d.month), Pad2(d.day));
    MonthTokenPad2(d.month);
    DayTokenPad2(d.day);
  }

  /** In `mm-dd` the first dash is at position 2, with the month before it and the day after it. */
  lemma IndexAfterPad2(a: string, b: string)
    requires |a| == 2 && AllDigits(a)
    ensures IndexOf(a + "-" + b, '-') == Some(2)
    ensures (a + "-" + b)[..2] == a && (a + "-" + b)[3..] == b
  {
    var t := a + "-" + b;
    assert '-' !in a by { assert !IsDigit('-'); }
    assert t[..2] == a && t[2] == '-';
  }

  /** `%m` reads back a zero-padded month. */
  lemma MonthTokenPad2(m: int)
    requires 1 <= m <= 12
    ensures MonthToken(Pad2(m)) == Some(m)
  {
  }

  /** `%d` reads back a zero-padded day. */
  lemma DayTokenPad2(d: int)
    requires 1 <= d <= 31
    ensures DayToken(Pad2(d)) == Some(d)
  {
  }

  /** `%d/%m/%Y` of a date is the rearrangement of the day, month and year fields of its `%Y-%m-%d` text. */
  lemma DayFirstRearrangesIso(d: Date)
    requires ValidDate(d)
    ensures var s := IsoString(d); DayFirst(d) == s[8..10] + "/" + s[5..7] + "/" + s[..4]
  {
  }
}
