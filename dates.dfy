/**
 * Calendar dates as the GUI to-do manager reads and writes them:
 * `datetime.strptime(s, "%Y-%m-%d")` decides whether a due date is accepted,
 * and `strftime('%Y-%m-%d')` writes the default due date into the date field.
 */
module Dates {
  import opened Wrappers
  import Text

  datatype Date = Date(year: int, month: int, day: int)

  predicate IsDigit(c: char) {
    '0' <= c <= '9'
  }

  function DigitValue(c: char): (n: int)
    requires IsDigit(c)
    ensures 0 <= n <= 9
  {
    c as int - '0' as int
  }

  function DigitChar(n: int): (c: char)
    requires 0 <= n <= 9
    ensures IsDigit(c) && DigitValue(c) == n
  {
    ('0' as int + n) as char
  }

  /** The Gregorian leap-year rule that `datetime` applies. */
  predicate IsLeapYear(y: int) {
    y % 4 == 0 && (y % 100 != 0 || y % 400 == 0)
  }

  function DaysInMonth(y: int, m: int): (n: int)
    requires 1 <= m <= 12
    ensures 28 <= n <= 31
    ensures n == 29 <==> m == 2 && IsLeapYear(y)
  {
    if m == 2 then (if IsLeapYear(y) then 29 else 28)
    else if m == 4 || m == 6 || m == 9 || m == 11 then 30
    else 31
  }

  /** A date `datetime.date` can represent (years 1 to 9999). */
  predicate IsCalendarDate(d: Date) {
    1 <= d.year <= 9999 && 1 <= d.month <= 12 && 1 <= d.day <= DaysInMonth(d.year, d.month)
  }

  /** Chronological order of dates. */
  predicate Before(a: Date, b: Date) {
    || a.year < b.year
    || (a.year == b.year && a.month < b.month)
    || (a.year == b.year && a.month == b.month && a.day < b.day)
  }

  /** The `%Y` directive: exactly four digits. */
  function YearField(t: string): (r: Option<int>)
    ensures r.Some? ==> 0 <= r.value <= 9999
  {
    if |t| == 4 && IsDigit(t[0]) && IsDigit(t[1]) && IsDigit(t[2]) && IsDigit(t[3])
    then Some(1000 * DigitValue(t[0]) + 100 * DigitValue(t[1]) + 10 * DigitValue(t[2]) + DigitValue(t[3]))
    else None
  }

  /** The `%m` directive: "1" to "9", "01" to "09", or "10" to "12". */
  function MonthField(t: string): (r: Option<int>)
    ensures r.Some? ==> 1 <= r.value <= 12
  {
    if |t| == 1 && '1' <= t[0] <= '9' then Some(DigitValue(t[0]))
    else if |t| == 2 && t[0] == '0' && '1' <= t[1] <= '9' then Some(DigitValue(t[1]))
    else if |t| == 2 && t[0] == '1' && '0' <= t[1] <= '2' then Some(10 + DigitValue(t[1]))
    else None
  }

  /**
   * The `%d` directive, which must take all that is left of the string:
   * "1" to "9", " 1" to " 9", "01" to "09", "10" to "29", "30" or "31".
   */
  function DayField(t: string): (r: Option<int>)
    ensures r.Some? ==> 1 <= r.value <= 31
  {
    if |t| == 1 && '1' <= t[0] <= '9' then Some(DigitValue(t[0]))
    else if |t| == 2 && (t[0] == '0' || t[0] == ' ') && '1' <= t[1] <= '9' then Some(DigitValue(t[1]))
    else if |t| == 2 && (t[0] == '1' || t[0] == '2') && IsDigit(t[1]) then Some(10 * DigitValue(t[0]) + DigitValue(t[1]))
    else if |t| == 2 && t[0] == '3' && (t[1] == '0' || t[1] == '1') then Some(30 + DigitValue(t[1]))
    else None
  }

  /**
   * `datetime.strptime(s, "%Y-%m-%d")`: the date `s` denotes, or `None` where
   * Python raises `ValueError`. The month runs up to the second '-', the day
   * to the end of the string, and the fields must name a day of the calendar.
   */
  function ParseDate(s: string): (r: Option<Date>)
    ensures r.Some? ==> IsCalendarDate(r.value)
    ensures r.Some? ==> 8 <= |s| <= 10 && s[4] == '-'
  {
    if |s| < 7 || s[4] != '-' then None
    else
      var rest := s[5..];
      var m := if rest[1] == '-' then 1 else 2;
      if |rest| <= m || rest[m] != '-' then None
      else
        match (YearField(s[..4]), MonthField(rest[..m]), DayField(rest[m + 1..]))
        case (Some(y), Some(mo), Some(d)) =>
          if 1 <= y && d <= DaysInMonth(y, mo) then Some(Date(y, mo, d)) else None
        case _ => None
  }

  predicate IsValidDate(s: string) {
    ParseDate(s).Some?
  }

  /** Two zero-padded digits. */
  function Pad2(n: int): (r: string)
    requires 0 <= n <= 99
    ensures |r| == 2 && IsDigit(r[0]) && IsDigit(r[1])
  {
    [DigitChar(n / 10), DigitChar(n % 10)]
  }

  /**
   * `strftime('%Y-%m-%d')` for a date whose year has four digits: every field
   * zero-padded to its full width.
   */
  function FormatDate(d: Date): (r: string)
    requires IsCalendarDate(d) && 1000 <= d.year
    ensures |r| == 10 && r[4] == '-' && r[7] == '-'
    ensures forall k :: 0 <= k < 10 && k != 4 && k != 7 ==> IsDigit(r[k])
  {
    Pad2(d.year / 100) + Pad2(d.year % 100) + "-" + Pad2(d.month) + "-" + Pad2(d.day)
  }

  /** What `strftime` writes, `strptime` reads back. */
  lemma ParseFormatted(d: Date)
    requires IsCalendarDate(d) && 1000 <= d.year
    ensures ParseDate(FormatDate(d)) == Some(d)
  {
    var s := FormatDate(d);
    assert s[..4] == Pad2(d.year / 100) + Pad2(d.year % 100);
    assert s[5..][..2] == Pad2(d.month);
    assert s[5..][3..] == Pad2(d.day);
    PaddedYear(d.year);
    PaddedMonth(d.month);
    PaddedDay(d.day);
  }

  lemma PaddedYear(y: int)
    requires 1000 <= y <= 9999
    ensures YearField(Pad2(y / 100) + Pad2(y % 100)) == Some(y)
  {
  }

  lemma PaddedMonth(m: int)
    requires 1 <= m <= 12
    ensures MonthField(Pad2(m)) == Some(m)
  {
  }

  lemma PaddedDay(d: int)
    requires 1 <= d <= 31
    ensures DayField(Pad2(d)) == Some(d)
  {
  }

  lemma Pad2Order(x: int, y: int)
    requires 0 <= x <= 99 && 0 <= y <= 99
    ensures Text.Less(Pad2(x), Pad2(y)) <==> x < y
    ensures Pad2(x) == Pad2(y) <==> x == y
  {
    var a, b := Pad2(x), Pad2(y);
    assert a[1..] == [a[1]] && b[1..] == [b[1]];
    assert [a[1]][1..] == [] && [b[1]][1..] == [];
    assert !Text.Less([a[1]][1..], [b[1]][1..]);
    assert Text.Less(a[1..], b[1..]) <==> a[1] < b[1];
    assert Text.Less(a, b) <==> a[0] < b[0] || (a[0] == b[0] && a[1] < b[1]);
    if a == b {
      assert DigitValue(a[0]) == DigitValue(b[0]) && DigitValue(a[1]) == DigitValue(b[1]);
    }
  }

  lemma Pad4Order(x: int, y: int)
    requires 0 <= x <= 9999 && 0 <= y <= 9999
    ensures Text.Less(Pad2(x / 100) + Pad2(x % 100), Pad2(y / 100) + Pad2(y % 100)) <==> x < y
    ensures Pad2(x / 100) + Pad2(x % 100) == Pad2(y / 100) + Pad2(y % 100) <==> x == y
  {
    Text.LessConcat(Pad2(x / 100), Pad2(x % 100), Pad2(y / 100), Pad2(y % 100));
    Pad2Order(x / 100, y / 100);
    Pad2Order(x % 100, y % 100);
    var a, b := Pad2(x / 100) + Pad2(x % 100), Pad2(y / 100) + Pad2(y % 100);
    if a == b {
      assert a[..2] == Pad2(x / 100) && b[..2] == Pad2(y / 100);
      assert a[2..] == Pad2(x % 100) && b[2..] == Pad2(y % 100);
    }
  }

  /** The month between its two separators orders as the month does. */
  lemma SeparatedMonthOrder(x: int, y: int)
    requires 0 <= x <= 99 && 0 <= y <= 99
    ensures Text.Less("-" + Pad2(x) + "-", "-" + Pad2(y) + "-") <==> x < y
  {
    var ma, mb := Pad2(x), Pad2(y);
    Pad2Order(x, y);
    Text.LessIrreflexive("-");
    Text.LessConcat(ma, "-", mb, "-");
    assert Text.Less(ma + "-", mb + "-") <==> x < y;
    Text.LessConcat("-", ma + "-", "-", mb + "-");
    assert "-" + ma + "-" == "-" + (ma + "-") && "-" + mb + "-" == "-" + (mb + "-");
  }

  /** The year and month with their separators order as the pair (year, month) does. */
  lemma YearMonthOrder(a: Date, b: Date)
    requires IsCalendarDate(a) && 1000 <= a.year
    requires IsCalendarDate(b) && 1000 <= b.year
    ensures var pa := Pad2(a.year / 100) + Pad2(a.year % 100) + "-" + Pad2(a.month) + "-";
      var pb := Pad2(b.year / 100) + Pad2(b.year % 100) + "-" + Pad2(b.month) + "-";
      && |pa| == |pb| == 8
      && (Text.Less(pa, pb) <==> a.year < b.year || (a.year == b.year && a.month < b.month))
      && (pa == pb <==> a.year == b.year && a.month == b.month)
  {
    var ya, yb := Pad2(a.year / 100) + Pad2(a.year % 100), Pad2(b.year / 100) + Pad2(b.year % 100);
    var ma, mb := Pad2(a.month), Pad2(b.month);
    Pad4Order(a.year, b.year);
    Pad2Order(a.month, b.month);
    SeparatedMonthOrder(a.month, b.month);
    var pa, pb := ya + "-" + ma + "-", yb + "-" + mb + "-";
    assert pa == ya + ("-" + ma + "-") && pb == yb + ("-" + mb + "-");
    Text.LessConcat(ya, "-" + ma + "-", yb, "-" + mb + "-");
    if pa == pb {
      assert pa[..4] == ya && pb[..4] == yb;
      assert pa[5..7] == ma && pb[5..7] == mb;
    }
  }

  /**
   * On the zero-padded form `strftime` writes, comparing the strings as
   * Python does orders the dates chronologically.
   */
  lemma FormattedOrderIsChronological(a: Date, b: Date)
    requires IsCalendarDate(a) && 1000 <= a.year
    requires IsCalendarDate(b) && 1000 <= b.year
    ensures Text.Less(FormatDate(a), FormatDate(b)) <==> Before(a, b)
  {
    var pa := Pad2(a.year / 100) + Pad2(a.year % 100) + "-" + Pad2(a.month) + "-";
    var pb := Pad2(b.year / 100) + Pad2(b.year % 100) + "-" + Pad2(b.month) + "-";
    YearMonthOrder(a, b);
    Pad2Order(a.day, b.day);
    assert FormatDate(a) == pa + Pad2(a.day) && FormatDate(b) == pb + Pad2(b.day);
    Text.LessConcat(pa, Pad2(a.day), pb, Pad2(b.day));
  }
}
