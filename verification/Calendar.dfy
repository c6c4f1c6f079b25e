/** The calendar of the real-time clock, `update_date` in pxbee/drivers/rtc/rtc.c, against a
    count of days that is built up year by year and month by month. */
module Calendar {
  import opened Arithmetic
  import opened Words

  /** The fields are 8 bits wide, the year 16. */
  datatype Date = Date(sec: nat, min: nat, hour: nat, mday: nat, month: nat, year: nat)

  predicate Leap(y: nat) { y % 4 == 0 && (y % 100 != 0 || y % 400 == 0) }

  predicate Has30Days(m: nat) { m == 4 || m == 6 || m == 9 || m == 11 }

  function MonthLength(y: nat, m: nat): nat {
    if m == 2 then (if Leap(y) then 29 else 28) else if Has30Days(m) then 30 else 31
  }

  function YearLength(y: nat): nat { if Leap(y) then 366 else 365 }

  predicate ValidDate(d: Date) {
    && d.sec < 60 && d.min < 60 && d.hour < 24
    && 1 <= d.month <= 12 && 1 <= d.mday <= MonthLength(d.year, d.month)
    && d.year < WORD16
  }

  /** One call of `update_date`, on fields of the widths the structure has. */
  function NextSecond(d: Date): Date {
    var d1 := d.(sec := (d.sec + 1) % 256);
    if d1.sec <= 59 then d1
    else
      var d2 := d1.(sec := d1.sec - 60, min := (d1.min + 1) % 256);
      if d2.min <= 59 then d2
      else
        var d3 := d2.(min := 0, hour := (d2.hour + 1) % 256);
        if d3.hour <= 23 then d3 else NextDay(d3.(hour := 0))
  }

  function NextDay(d: Date): Date {
    var d1 := d.(mday := (d.mday + 1) % 256);
    var over :=
      || d1.mday > 31
      || (d1.mday == 31 && Has30Days(d1.month))
      || (d1.mday == 30 && d1.month == 2)
      || (d1.mday == 29 && d1.month == 2 && !Leap(d1.year));
    var d2 := if over then d1.(month := (d1.month + 1) % 256, mday := 1) else d1;
    if d2.month > 12 then d2.(month := 1, year := (d2.year + 1) % WORD16) else d2
  }

  // Counting days

  function DaysBeforeYear(y: nat): nat {
    if y == 0 then 0 else DaysBeforeYear(y - 1) + YearLength(y - 1)
  }

  function DaysBeforeMonth(y: nat, m: nat): nat {
    if m <= 1 then 0 else DaysBeforeMonth(y, m - 1) + MonthLength(y, m - 1)
  }

  /** Days since the first day of the year 0. */
  function Days(d: Date): int {
    DaysBeforeYear(d.year) + DaysBeforeMonth(d.year, d.month) + d.mday - 1
  }

  /** Seconds since the start of the year 0. */
  function Seconds(d: Date): int {
    ((Days(d) * 24 + d.hour) * 60 + d.min) * 60 + d.sec
  }

  predicate LastSecond(d: Date) {
    d == Date(59, 59, 23, 31, 12, 0xFFFF)
  }

  /** The days before a year in closed form: 365 for each year, one more for every fourth, less one
      for every hundredth, and one more for every four hundredth. */
  lemma {:induction false} DaysBeforeYearCount(y: nat)
    ensures DaysBeforeYear(y) == 365 * y + (y + 3) / 4 - (y + 99) / 100 + (y + 399) / 400
  {
    if y > 0 {
      DaysBeforeYearCount(y - 1);
      EveryNth(y - 1, 4);
      EveryNth(y - 1, 100);
      EveryNth(y - 1, 400);
      HundredsDivide(y - 1);
    }
  }

  /** Of the numbers up to `y`, one more is a multiple of `n` exactly if `y` is. */
  lemma EveryNth(y: nat, n: nat)
    requires n > 0
    ensures (y + 1 + (n - 1)) / n == (y + (n - 1)) / n + (if y % n == 0 then 1 else 0)
  {
    var q, r := y / n, y % n;
    assert y == n * q + r;
    if r == 0 {
      DivisionIsUnique(y + n - 1, n, q, n - 1);
      assert n * (q + 1) == n * q + n;
      DivisionIsUnique(y + n, n, q + 1, 0);
    } else {
      assert n * (q + 1) == n * q + n;
      DivisionIsUnique(y + n - 1, n, q + 1, r - 1);
      DivisionIsUnique(y + n, n, q + 1, r);
    }
  }

  lemma HundredsDivide(y: nat)
    ensures (y % 400 == 0 ==> y % 100 == 0) && (y % 100 == 0 ==> y % 4 == 0)
  {
    NestedRemainder(y, 400, 100);
    NestedRemainder(y, 100, 4);
  }

  /** The days from the year 0 to the start of 1970. */
  lemma EpochStart()
    ensures DaysBeforeYear(1970) == 719528
  {
    hide DaysBeforeYear;
    DaysBeforeYearCount(1970);
  }

  /** The lengths of the months in a century that is a leap year and in one that is not. */
  lemma MonthsInFull()
    ensures MonthLengths(2000) == [31, 29, 31, 30, 31, 30, 31, 31, 30, 31, 30, 31]
    ensures MonthLengths(1900) == [31, 28, 31, 30, 31, 30, 31, 31, 30, 31, 30, 31]
  {
  }

  /** What follows the 28th of February in such centuries. */
  lemma FebruaryEnds()
    ensures NextSecond(Date(59, 59, 23, 28, 2, 2000)) == Date(0, 0, 0, 29, 2, 2000)
    ensures NextSecond(Date(59, 59, 23, 28, 2, 2100)) == Date(0, 0, 0, 1, 3, 2100)
  {
  }

  function MonthLengths(y: nat): seq<nat> {
    [MonthLength(y, 1), MonthLength(y, 2), MonthLength(y, 3), MonthLength(y, 4),
     MonthLength(y, 5), MonthLength(y, 6), MonthLength(y, 7), MonthLength(y, 8),
     MonthLength(y, 9), MonthLength(y, 10), MonthLength(y, 11), MonthLength(y, 12)]
  }

  lemma MonthsOfYear(y: nat)
    ensures DaysBeforeMonth(y, 1) == 0
    ensures DaysBeforeMonth(y, 2) == 31
    ensures DaysBeforeMonth(y, 3) == 31 + MonthLength(y, 2)
    ensures DaysBeforeMonth(y, 4) == 62 + MonthLength(y, 2)
    ensures DaysBeforeMonth(y, 5) == 92 + MonthLength(y, 2)
    ensures DaysBeforeMonth(y, 6) == 123 + MonthLength(y, 2)
    ensures DaysBeforeMonth(y, 7) == 153 + MonthLength(y, 2)
    ensures DaysBeforeMonth(y, 8) == 184 + MonthLength(y, 2)
    ensures DaysBeforeMonth(y, 9) == 215 + MonthLength(y, 2)
    ensures DaysBeforeMonth(y, 10) == 245 + MonthLength(y, 2)
    ensures DaysBeforeMonth(y, 11) == 276 + MonthLength(y, 2)
    ensures DaysBeforeMonth(y, 12) == 306 + MonthLength(y, 2)
    ensures DaysBeforeMonth(y, 13) == YearLength(y)
  {
    hide Leap;
    assert DaysBeforeMonth(y, 3) == DaysBeforeMonth(y, 2) + MonthLength(y, 2);
    assert DaysBeforeMonth(y, 5) == DaysBeforeMonth(y, 4) + MonthLength(y, 4);
    assert DaysBeforeMonth(y, 7) == DaysBeforeMonth(y, 6) + MonthLength(y, 6);
    assert DaysBeforeMonth(y, 9) == DaysBeforeMonth(y, 8) + MonthLength(y, 8);
    assert DaysBeforeMonth(y, 11) == DaysBeforeMonth(y, 10) + MonthLength(y, 10);
    assert DaysBeforeMonth(y, 13) == DaysBeforeMonth(y, 12) + MonthLength(y, 12);
  }

  /** Stepping to the next day adds one day and keeps the date valid. */
  lemma NextDayCounts(d: Date)
    requires ValidDate(d) && !(d.mday == 31 && d.month == 12 && d.year == 0xFFFF)
    ensures ValidDate(NextDay(d)) && Days(NextDay(d)) == Days(d) + 1
    ensures var n := NextDay(d); n.hour == d.hour && n.min == d.min && n.sec == d.sec
  {
    hide Leap, DaysBeforeYear;
    var n := NextDay(d);
    if d.mday < MonthLength(d.year, d.month) {
      assert n == d.(mday := d.mday + 1);
    } else if d.month < 12 {
      assert n == d.(mday := 1, month := d.month + 1);
      assert DaysBeforeMonth(d.year, d.month + 1) == DaysBeforeMonth(d.year, d.month) + MonthLength(d.year, d.month);
    } else {
      assert n == d.(mday := 1, month := 1, year := d.year + 1);
      NextYear(d.year);
      MonthsOfYear(d.year);
      assert DaysBeforeMonth(d.year + 1, 1) == 0;
    }
  }

  lemma NextYear(y: nat)
    ensures DaysBeforeYear(y + 1) == DaysBeforeYear(y) + YearLength(y)
  {
    hide Leap;
  }

  /** `update_date` keeps dates valid and adds exactly one second, except that the calendar
      ends with the year 65535. */
  lemma NextSecondCounts(d: Date)
    requires ValidDate(d) && !LastSecond(d)
    ensures ValidDate(NextSecond(d)) && Seconds(NextSecond(d)) == Seconds(d) + 1
  {
    hide Days, NextDay, MonthLength, Leap;
    if d.sec == 59 && d.min == 59 && d.hour == 23 {
      var e := d.(sec := 0, min := 0, hour := 0);
      NextDayCounts(e);
      DaysIgnoreTime(d, e);
      assert NextSecond(d) == NextDay(e);
    } else {
      DaysIgnoreTime(d, NextSecond(d));
    }
  }

  lemma DaysIgnoreTime(d: Date, e: Date)
    requires d.mday == e.mday && d.month == e.month && d.year == e.year
    ensures Days(d) == Days(e)
  {
  }

  // Order

  predicate SameDay(d: Date, e: Date) { d.year == e.year && d.month == e.month && d.mday == e.mday }

  predicate DayBefore(d: Date, e: Date) {
    || d.year < e.year
    || (d.year == e.year && (d.month < e.month || (d.month == e.month && d.mday < e.mday)))
  }

  /** Lexicographic order, from the year down to the second. */
  predicate Before(d: Date, e: Date) {
    || DayBefore(d, e)
    || (SameDay(d, e)
        && (d.hour < e.hour
            || (d.hour == e.hour && (d.min < e.min || (d.min == e.min && d.sec < e.sec)))))
  }

  lemma {:induction false} YearsGrow(y: nat, z: nat)
    requires y <= z
    ensures DaysBeforeYear(y) + 365 * (z - y) <= DaysBeforeYear(z)
    decreases z - y
  {
    hide Leap;
    if y < z {
      YearsGrow(y, z - 1);
      NextYear(z - 1);
    }
  }

  lemma {:induction false} MonthsGrow(y: nat, m: nat, n: nat)
    requires 1 <= m < n
    ensures DaysBeforeMonth(y, m) + MonthLength(y, m) <= DaysBeforeMonth(y, n)
    decreases n - m
  {
    hide MonthLength;
    if m + 1 < n {
      MonthsGrow(y, m, n - 1);
    }
    assert DaysBeforeMonth(y, n) == DaysBeforeMonth(y, n - 1) + MonthLength(y, n - 1);
  }

  lemma DayOfYearBound(d: Date)
    requires ValidDate(d)
    ensures 0 <= DaysBeforeMonth(d.year, d.month) + d.mday - 1 < YearLength(d.year)
  {
    hide Leap;
    MonthsGrow(d.year, d.month, 13);
    MonthsOfYear(d.year);
  }

  lemma DayBeforeCounts(d: Date, e: Date)
    requires ValidDate(d) && ValidDate(e) && DayBefore(d, e)
    ensures Days(d) < Days(e)
  {
    hide Leap, MonthLength, YearLength;
    if d.year < e.year {
      DayOfYearBound(d);
      DayOfYearBound(e);
      NextYear(d.year);
      YearsGrow(d.year + 1, e.year);
    } else if d.month < e.month {
      MonthsGrow(d.year, d.month, e.month);
    }
  }

  /** Valid dates are in the order of their seconds. */
  lemma BeforeCounts(d: Date, e: Date)
    requires ValidDate(d) && ValidDate(e)
    ensures Before(d, e) <==> Seconds(d) < Seconds(e)
    ensures d == e <==> Seconds(d) == Seconds(e)
  {
    hide Days, MonthLength;
    if DayBefore(d, e) {
      DayBeforeCounts(d, e);
    } else if DayBefore(e, d) {
      DayBeforeCounts(e, d);
    } else {
      DaysIgnoreTime(d, e);
    }
  }

  // Runs

  /** The date after `n` calls of `update_date`. */
  function After(d: Date, n: nat): Date {
    if n == 0 then d else NextSecond(After(d, n - 1))
  }

  function EndOfCalendar(): Date { Date(59, 59, 23, 31, 12, 0xFFFF) }

  /** A run of `n` seconds within the calendar stays valid and adds `n` seconds. */
  lemma {:induction false} AfterCounts(d: Date, n: nat)
    requires ValidDate(d) && Seconds(d) + n <= Seconds(EndOfCalendar())
    ensures ValidDate(After(d, n)) && Seconds(After(d, n)) == Seconds(d) + n
  {
    hide Seconds, ValidDate, NextSecond;
    if n > 0 {
      AfterCounts(d, n - 1);
      assert !LastSecond(After(d, n - 1));
      NextSecondCounts(After(d, n - 1));
    }
  }
}
