/** Calendar dates, timestamps and the one-month window both report pages
    filter by (app/teacher/reports/page.tsx:93-94, app/admin/reports/page.tsx:73-74). */
module Calendar {
  import opened Text

  datatype Date = Date(year: nat, month: nat, day: nat)

  /** A stored timestamp, to the microsecond as the database keeps it. */
  datatype DateTime = DateTime(date: Date, hour: nat, minute: nat, second: nat, micro: nat)

  /** Gregorian leap years. */
  predicate IsLeapYear(y: nat)
  {
    y % 4 == 0 && (y % 100 != 0 || y % 400 == 0)
  }

  /** Days in month `m` (1-12) of year `y`. */
  function DaysInMonth(y: nat, m: nat): nat
    requires 1 <= m <= 12
  {
    if m == 2 then (if IsLeapYear(y) then 29 else 28)
    else if m == 4 || m == 6 || m == 9 || m == 11 then 30
    else 31
  }

  predicate ValidDate(d: Date)
  {
    1 <= d.month <= 12 && 1 <= d.day <= DaysInMonth(d.year, d.month)
  }

  predicate ValidDateTime(t: DateTime)
  {
    ValidDate(t.date) && t.hour < 24 && t.minute < 60 && t.second < 60 && t.micro < 1000000
  }

  /** The calendar day before the first of a month. */
  function DayBeforeFirst(y: nat, m: nat): Date
    requires 1 <= m <= 12
    requires m == 1 ==> y >= 1
  {
    if m == 1 then Date(y - 1, 12, 31) else Date(y, m - 1, DaysInMonth(y, m - 1))
  }

  /** JavaScript's `new Date(y, monthIndex, 0)`: day 0 of the zero-based
      month `monthIndex`, which JavaScript reads as the day before the first
      of that month; month index 12 rolls over into January of `y + 1`. The
      pages pass the one-based month they show, so this is the last day of
      that month. Only the local calendar date is kept. */
  function JsDayZero(y: nat, monthIndex: nat): (d: Date)
    requires 1 <= monthIndex <= 12
    ensures ValidDate(d)
    ensures d == Date(y, monthIndex, DaysInMonth(y, monthIndex))
  {
    if monthIndex == 12 then DayBeforeFirst(y + 1, 1) else DayBeforeFirst(y, monthIndex + 1)
  }

  /** February has a 29th exactly in leap years. */
  lemma FebruaryEnd(y: nat)
    ensures JsDayZero(y, 2).day == (if IsLeapYear(y) then 29 else 28)
    ensures y == 2024 ==> JsDayZero(y, 2).day == 29
    ensures y == 2023 || y == 2100 ==> JsDayZero(y, 2).day == 28
    ensures y == 2000 ==> JsDayZero(y, 2).day == 29
  {
  }

  /** `${year}-${String(month).padStart(2, "0")}-01`: the window's lower bound. */
  function StartText(y: nat, m: nat): string
  {
    NatText(y) + "-" + PadStart(NatText(m), 2, '0') + "-01"
  }

  /** The `YYYY-MM-DD` part of `toISOString()`. */
  function IsoDateText(d: Date): string
  {
    PadStart(NatText(d.year), 4, '0') + "-" + PadStart(NatText(d.month), 2, '0') + "-"
      + PadStart(NatText(d.day), 2, '0')
  }

  /** `new Date(y, m, 0).toISOString().split("T")[0] + "T23:59:59"`: the
      window's upper bound. */
  function EndText(y: nat, m: nat): string
    requires 1 <= m <= 12
  {
    IsoDateText(JsDayZero(y, m)) + "T23:59:59"
  }

  lemma {:induction false} NatTextFourDigits(n: nat)
    requires 1000 <= n <= 9999
    ensures |NatText(n)| == 4
  {
    var n1 := n / 10;
    var n2 := n1 / 10;
    var n3 := n2 / 10;
    assert 1 <= n3 < 10 && 10 <= n2 && 100 <= n1;
    assert |NatText(n2)| == |NatText(n3)| + 1;
    assert |NatText(n1)| == |NatText(n2)| + 1;
    assert |NatText(n)| == |NatText(n1)| + 1;
  }

  /** Both bounds are ISO dates of the same month: the first and the last
      day, with the month zero-padded to two digits. */
  lemma WindowBounds(y: nat, m: nat)
    requires 1000 <= y <= 9999 && 1 <= m <= 12
    ensures StartText(y, m) == IsoDateText(Date(y, m, 1))
    ensures EndText(y, m) == IsoDateText(Date(y, m, DaysInMonth(y, m))) + "T23:59:59"
  {
    NatTextFourDigits(y);
    assert PadStart(NatText(y), 4, '0') == NatText(y);
    FirstDayPadded();
    assert JsDayZero(y, m) == Date(y, m, DaysInMonth(y, m));
  }

  /** Day 1 prints as "01". */
  lemma FirstDayPadded()
    ensures PadStart(NatText(1), 2, '0') == "01"
  {
    assert NatText(1) == "1";
  }

  /** Calendar order on dates. */
  predicate DateLe(a: Date, b: Date)
  {
    a.year < b.year
    || (a.year == b.year && (a.month < b.month || (a.month == b.month && a.day <= b.day)))
  }

  /** Order on timestamps. */
  predicate DateTimeLe(a: DateTime, b: DateTime)
  {
    if a.date != b.date then DateLe(a.date, b.date)
    else if a.hour != b.hour then a.hour < b.hour
    else if a.minute != b.minute then a.minute < b.minute
    else if a.second != b.second then a.second < b.second
    else a.micro <= b.micro
  }

  /** `updated_at >= StartText(y, m) AND updated_at <= EndText(y, m)`: the
      lower bound is read as midnight, the upper as 23:59:59.000000. */
  predicate StampInWindow(t: DateTime, y: nat, m: nat)
    requires 1 <= m <= 12
  {
    DateTimeLe(DateTime(Date(y, m, 1), 0, 0, 0, 0), t)
    && DateTimeLe(t, DateTime(JsDayZero(y, m), 23, 59, 59, 0))
  }

  /** `attendance_date >= StartText(y, m) AND attendance_date <= EndText(y, m)`:
      against a date column the upper bound is read as its date. */
  predicate DateInWindow(d: Date, y: nat, m: nat)
    requires 1 <= m <= 12
  {
    DateLe(Date(y, m, 1), d) && DateLe(d, JsDayZero(y, m))
  }

  /** A date is in the window exactly when it lies in that calendar month. */
  lemma DateWindowIsMonth(d: Date, y: nat, m: nat)
    requires ValidDate(d) && 1 <= m <= 12
    ensures DateInWindow(d, y, m) <==> d.year == y && d.month == m
  {
  }

  /** A timestamp is in the window exactly when it lies in that calendar
      month, except the fraction of a second after 23:59:59 on the last day. */
  lemma StampWindowIsMonth(t: DateTime, y: nat, m: nat)
    requires ValidDateTime(t) && 1 <= m <= 12
    ensures StampInWindow(t, y, m)
        <==> t.date.year == y && t.date.month == m
             && !(t.date.day == DaysInMonth(y, m) && t.hour == 23 && t.minute == 59
                  && t.second == 59 && t.micro > 0)
  {
  }
}
