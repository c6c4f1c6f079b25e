/** The date arithmetic of the DS1904 driver (pxbee/drivers/1-wire/ds1904.c): a date to
    seconds since 1970 and back. The date structure is the one of module Calendar; the seconds
    are an unsigned 32-bit number. */
module Ds1904 {
  import opened Arithmetic
  import opened Calendar
  import opened Words

  /** Leap years from `from` up to, but not including, `to`. */
  function LeapsBetween(from: nat, to: nat): nat {
    if to <= from then 0 else LeapsBetween(from, to - 1) + (if Leap(to - 1) then 1 else 0)
  }

  /** Seconds since the start of 1970. */
  function Epoch(d: Date): int {
    Seconds(d) - 86400 * DaysBeforeYear(1970)
  }

  /** The days of the years since 1970, less one, as computed in 16 unsigned bits. */
  function YearDays(year: nat): nat
    requires year >= 1970
  {
    ((year - 1970) * 365 - 1) % WORD16
  }

  /** What `ds1904_date_convert` returns; an error code comes back as an unsigned number. */
  function Converted(d: Date): nat {
    if d.year < 1970 || !(1 <= d.month <= 12) then WORD32 - EINVAL
    else
      var days := DaysBeforeMonth(d.year, d.month) + d.mday + LeapsBetween(1970, d.year) + YearDays(d.year);
      (d.sec + d.min * 60 + (d.hour + days * 24) * 3600) % WORD32
  }

  method DateConvert(date: Date) returns (time: nat)
    requires date.sec < 256 && date.min < 256 && date.hour < 256 && date.mday < 256 && date.month < 256
    requires date.year < WORD16
    ensures time == Converted(date)
  {
    hide Leap, LeapsBetween, DaysBeforeMonth;
    var isLeap := if Leap(date.year) then 1 else 0;
    if date.year < 1970 {
      return WORD32 - EINVAL;
    }
    MonthsOfYear(date.year);
    var days := 0;
    match date.month {
      case 1 => days := date.mday;
      case 2 => days := 31 + date.mday;
      case 3 => days := 59 + isLeap + date.mday;
      case 4 => days := 90 + isLeap + date.mday;
      case 5 => days := 120 + isLeap + date.mday;
      case 6 => days := 151 + isLeap + date.mday;
      case 7 => days := 181 + isLeap + date.mday;
      case 8 => days := 212 + isLeap + date.mday;
      case 9 => days := 243 + isLeap + date.mday;
      case 10 => days := 273 + isLeap + date.mday;
      case 11 => days := 304 + isLeap + date.mday;
      case 12 => days := 334 + isLeap + date.mday;
      case _ => return WORD32 - EINVAL;
    }
    ghost var inYear := days;
    LeapsStart();
    for i := 1970 to date.year
      invariant days == inYear + LeapsBetween(1970, i)
    {
      LeapsStep(i);
      if Leap(i) {
        days := days + 1;
      }
    }
    days := days + ((date.year - 1970) * 365 - 1) % WORD16;
    time := (date.sec + date.min * 60 + (date.hour + days * 24) * 3600) % WORD32;
  }

  lemma LeapsStart()
    ensures LeapsBetween(1970, 1970) == 0
  {
  }

  lemma LeapsStep(i: nat)
    requires 1970 <= i
    ensures LeapsBetween(1970, i + 1) == LeapsBetween(1970, i) + (if Leap(i) then 1 else 0)
  {
  }

  lemma {:induction false} YearsSince1970(y: nat)
    requires 1970 <= y
    ensures DaysBeforeYear(y) == DaysBeforeYear(1970) + 365 * (y - 1970) + LeapsBetween(1970, y)
  {
    hide Leap;
    if y > 1970 {
      YearsSince1970(y - 1);
      NextYear(y - 1);
      LeapsStep(y - 1);
    } else {
      LeapsStart();
    }
  }

  /** How far the converted value is off, in days. */
  function LostDays(year: nat): int
    requires year >= 1970
  {
    YearDays(year) - ((year - 1970) * 365 - 1)
  }

  lemma ConvertedIsShiftedEpoch(d: Date)
    requires ValidDate(d) && d.year >= 1970
    ensures Converted(d) == (Epoch(d) + 86400 * LostDays(d.year)) % WORD32
  {
    hide Leap, LeapsBetween, DaysBeforeMonth, DaysBeforeYear, MonthLength, YearDays;
    YearsSince1970(d.year);
  }

  /** 16 bits are lost a number of times between 1 and 354 after 2149, and once, the other way
      round, in 1970 itself; no such number of whole 65536-day spans is a multiple of 2^32
      seconds. */
  lemma LostDaysCount(year: nat) returns (k: int)
    requires 1970 <= year < WORD16
    ensures LostDays(year) == -(WORD16 * k) && -1 <= k <= 354
    ensures k == 0 <==> 1971 <= year <= 2149
  {
    var n := (year - 1970) * 365 - 1;
    k := n / WORD16;
  }

  lemma SpansAreNotWords(k: int)
    requires -1 <= k <= 354 && k != 0
    ensures (86400 * WORD16 * k) % WORD32 != 0
  {
    // 86400 * WORD16 is 675 * 2^23, and 267 * 675 is 512 * 352 + 1
    var n := 86400 * WORD16 * k;
    var q := n / WORD32;
    var r := 675 * k - 512 * q;
    assert n % WORD32 == 0x80_0000 * r;
    assert k == 512 * (267 * q - 352 * k) + 267 * r;
  }

  /** The conversion is right, modulo 2^32, exactly for the years 1971 to 2149. In 1970 the
      subtraction of one day wraps in 16 bits and every date comes out 65536 days late. */
  lemma ConvertIsEpochExactlyFrom1971To2149(d: Date)
    requires ValidDate(d) && d.year >= 1970
    ensures Converted(d) == Epoch(d) % WORD32 <==> 1971 <= d.year <= 2149
  {
    hide Epoch, Converted, LostDays, MonthLength;
    ConvertedIsShiftedEpoch(d);
    var k := LostDaysCount(d.year);
    if k != 0 {
      SpansAreNotWords(k);
      ShiftShows(Epoch(d), 86400 * WORD16 * k);
    }
  }

  lemma ShiftShows(a: int, b: int)
    requires b % WORD32 != 0
    ensures (a - b) % WORD32 != a % WORD32
  {
  }

  /** The seconds fit 32 bits up to the end of 2105. */
  lemma EpochFits(d: Date)
    requires ValidDate(d) && 1970 <= d.year <= 2105
    ensures 0 <= Epoch(d) < WORD32
  {
    hide Leap;
    YearsSince1970(d.year);
    DayOfYearBound(d);
    LeapsBound(d.year);
  }

  lemma {:induction false} LeapsBound(y: nat)
    requires 1970 <= y
    ensures 0 <= LeapsBetween(1970, y) <= (y - 1969) / 4
  {
    if y > 1970 {
      LeapsBound(y - 1);
      LeapsStep(y - 1);
    } else {
      LeapsStart();
    }
  }

  /** From 1971 to 2105 the conversion gives the seconds themselves: it follows the calendar,
      one more for every call of `update_date`, and later dates give larger numbers. */
  lemma ConvertFollowsTheCalendar(d: Date, e: Date)
    requires ValidDate(d) && ValidDate(e) && 1971 <= d.year <= 2105 && 1971 <= e.year <= 2105
    ensures Converted(d) == Epoch(d)
    ensures NextSecond(d).year <= 2105 ==> Converted(NextSecond(d)) == Converted(d) + 1
    ensures Before(d, e) <==> Converted(d) < Converted(e)
  {
    hide ValidDate, Converted, NextSecond, Before, Seconds, DaysBeforeYear;
    NextSecondCounts(d);
    ConvertedIsEpoch(d);
    ConvertedIsEpoch(e);
    BeforeCounts(d, e);
    var n := NextSecond(d);
    if n.year <= 2105 {
      LaterYear(d, n);
      ConvertedIsEpoch(n);
    }
  }

  lemma ConvertedIsEpoch(d: Date)
    requires ValidDate(d) && 1971 <= d.year <= 2105
    ensures Converted(d) == Epoch(d)
  {
    hide ValidDate, Converted, Epoch;
    EpochFits(d);
    ConvertIsEpochExactlyFrom1971To2149(d);
  }

  lemma LaterYear(d: Date, n: Date)
    requires ValidDate(d) && ValidDate(n) && Seconds(d) < Seconds(n)
    ensures d.year <= n.year
  {
    BeforeCounts(d, n);
  }

  // Seconds to date

  /** The date that `ds1904_date_update` computes from the seconds read. When the day number
      underflows no month matches, and month and day keep what they held before. */
  function Updated(time: nat, old': Date): Date {
    var year := (1970 + time / 3600 / 24 / 365) % WORD16;
    var days := (time / 3600 / 24 % 365 - LeapsBetween(1970, year) + 1) % WORD32;
    var d := Date(time % 60, time / 60 % 60, time / 3600 % 24, old'.mday, old'.month, year);
    MonthAndDay(d, days)
  }

  /** The first month from `m` on by whose end `days` days of the year have passed; 0 if there is
      none. */
  function MonthOf(year: nat, days: nat, m: nat): (r: nat)
    requires 1 <= m <= 13
    ensures r == 0 || (m <= r <= 12 && days <= DaysBeforeMonth(year, r + 1))
    ensures r > m ==> DaysBeforeMonth(year, r) < days
    decreases 13 - m
  {
    if m == 13 then 0 else if days <= DaysBeforeMonth(year, m + 1) then m else MonthOf(year, days, m + 1)
  }

  /** The date with the month and the day of the month that the day of the year falls on. */
  function MonthAndDay(d: Date, days: nat): Date {
    var m := MonthOf(d.year, days, 1);
    if m == 0 then d else d.(month := m, mday := days - DaysBeforeMonth(d.year, m))
  }

  lemma {:induction false} MonthIs(year: nat, days: nat, m: nat, from: nat)
    requires 1 <= from <= m <= 13 && (m <= 12 ==> days <= DaysBeforeMonth(year, m + 1))
    requires m > from ==> DaysBeforeMonth(year, m) < days
    ensures MonthOf(year, days, from) == if m == 13 then 0 else m
    decreases m - from
  {
    hide DaysBeforeMonth;
    if from < m {
      if from + 1 < m {
        MonthsGrow(year, from + 1, m);
      }
      MonthIs(year, days, m, from + 1);
    }
  }

  class Clock {
    var now: Date

    constructor ()
      ensures now == Date(0, 0, 0, 0, 0, 0)
    {
      now := Date(0, 0, 0, 0, 0, 0);
    }

    /** `ds1904_date_update`, given the error code and the value that reading the device gives. */
    method DateUpdate(error: int, time: nat) returns (ret: int)
      requires time < WORD32
      modifies this
      ensures if error < 0 then ret == error && now == old(now) else ret == 0 && now == Updated(time, old(now))
    {
      hide Leap, LeapsBetween, MonthAndDay;
      if error < 0 {
        return error;
      }
      now := now.(sec := time % 60, min := time / 60 % 60, hour := time / 3600 % 24,
                  year := (1970 + time / 3600 / 24 / 365) % WORD16);
      var leapCount := 0;
      LeapsStart();
      for i := 1970 to now.year
        invariant now == old(now).(sec := time % 60, min := time / 60 % 60, hour := time / 3600 % 24,
                                   year := (1970 + time / 3600 / 24 / 365) % WORD16)
        invariant leapCount == LeapsBetween(1970, i)
      {
        LeapsStep(i);
        if Leap(i) {
          leapCount := leapCount + 1;
        }
      }
      var days := (time / 3600 / 24 % 365 - leapCount + 1) % WORD32;
      SetMonthAndDay(days);
      ret := 0;
    }

    /** The chain of comparisons at its end. */
    method SetMonthAndDay(days: nat)
      modifies this
      ensures now == MonthAndDay(old(now), days)
    {
      hide Leap, MonthOf, DaysBeforeMonth;
      var feb := if Leap(now.year) then 60 else 59;
      ghost var year := now.year;
      MonthsOfYear(year);
      if days <= 31 {
        MonthIs(year, days, 1, 1);
        now := now.(month := 1, mday := days);
      } else if days <= feb {
        MonthIs(year, days, 2, 1);
        now := now.(month := 2, mday := days - 31);
      } else if days <= feb + 31 {
        MonthIs(year, days, 3, 1);
        now := now.(month := 3, mday := days - feb);
      } else if days <= feb + 61 {
        MonthIs(year, days, 4, 1);
        now := now.(month := 4, mday := days - (feb + 31));
      } else if days <= feb + 92 {
        MonthIs(year, days, 5, 1);
        now := now.(month := 5, mday := days - (feb + 61));
      } else if days <= feb + 122 {
        MonthIs(year, days, 6, 1);
        now := now.(month := 6, mday := days - (feb + 92));
      } else if days <= feb + 153 {
        MonthIs(year, days, 7, 1);
        now := now.(month := 7, mday := days - (feb + 122));
      } else if days <= feb + 184 {
        MonthIs(year, days, 8, 1);
        now := now.(month := 8, mday := days - (feb + 153));
      } else if days <= feb + 214 {
        MonthIs(year, days, 9, 1);
        now := now.(month := 9, mday := days - (feb + 184));
      } else if days <= feb + 245 {
        MonthIs(year, days, 10, 1);
        now := now.(month := 10, mday := days - (feb + 214));
      } else if days <= feb + 275 {
        MonthIs(year, days, 11, 1);
        now := now.(month := 11, mday := days - (feb + 245));
      } else if days <= feb + 306 {
        MonthIs(year, days, 12, 1);
        now := now.(month := 12, mday := days - (feb + 275));
      } else {
        MonthIs(year, days, 13, 1);
      }
    }
  }

  /** Zero-based day of the year plus the leap days since 1970. */
  function Drift(d: Date): int
    requires d.year >= 1970
  {
    DaysBeforeMonth(d.year, d.month) + d.mday - 1 + LeapsBetween(1970, d.year)
  }

  lemma SplitTime(d: Date, days: nat)
    requires d.sec < 60 && d.min < 60 && d.hour < 24
    ensures var time := ((days * 24 + d.hour) * 60 + d.min) * 60 + d.sec;
            time % 60 == d.sec && time / 60 % 60 == d.min && time / 3600 % 24 == d.hour && time / 3600 / 24 == days
  {
    var time := ((days * 24 + d.hour) * 60 + d.min) * 60 + d.sec;
    assert time / 60 == (days * 24 + d.hour) * 60 + d.min;
    assert time / 3600 == days * 24 + d.hour;
  }

  /** Month and day are recovered from the day of the year. */
  lemma MonthAndDayInverts(d: Date, e: Date)
    requires ValidDate(d) && e.year == d.year
    ensures var m := MonthAndDay(e, DaysBeforeMonth(d.year, d.month) + d.mday);
            m == e.(month := d.month, mday := d.mday)
  {
    hide Leap, MonthOf;
    var days := DaysBeforeMonth(d.year, d.month) + d.mday;
    assert DaysBeforeMonth(d.year, d.month + 1) == DaysBeforeMonth(d.year, d.month) + MonthLength(d.year, d.month);
    MonthIs(d.year, days, d.month, 1);
  }

  /** The date comes back exactly when day of the year and leap days together stay below 365;
      otherwise the division by 365 already counts the next year. */
  lemma UpdateInvertsEpochExactlyWithoutDrift(d: Date, time: nat, old': Date)
    requires ValidDate(d) && 1970 <= d.year <= 2105 && time == Epoch(d)
    ensures Updated(time, old') == d <==> Drift(d) < 365
  {
    hide Leap, LeapsBetween, DaysBeforeMonth, DaysBeforeYear, MonthLength, MonthAndDay, Epoch;
    var y, drift := d.year - 1970, Drift(d);
    EpochParts(d);
    SplitTime(d, 365 * y + drift);
    DivideYear(y, drift);
    if drift < 365 {
      MonthAndDayInverts(d, Date(d.sec, d.min, d.hour, old'.mday, old'.month, d.year));
    } else {
      MonthAndDayKeepsYear(Date(d.sec, d.min, d.hour, old'.mday, old'.month, d.year + 1),
                           (drift - 365 - LeapsBetween(1970, d.year + 1) + 1) % WORD32);
    }
  }

  /** The epoch in days of 365-day years and the time of day. */
  lemma EpochParts(d: Date)
    requires ValidDate(d) && 1970 <= d.year <= 2105
    ensures 0 <= Drift(d) < 730
    ensures Epoch(d) == (((365 * (d.year - 1970) + Drift(d)) * 24 + d.hour) * 60 + d.min) * 60 + d.sec
  {
    hide Leap, LeapsBetween, DaysBeforeMonth, DaysBeforeYear, MonthLength;
    YearsSince1970(d.year);
    DayOfYearBound(d);
    LeapsBound(d.year);
  }

  lemma DivideYear(y: nat, drift: nat)
    requires drift < 730
    ensures (365 * y + drift) / 365 == (if drift < 365 then y else y + 1)
    ensures (365 * y + drift) % 365 == (if drift < 365 then drift else drift - 365)
  {
  }

  lemma MonthAndDayKeepsYear(d: Date, days: nat)
    ensures MonthAndDay(d, days).year == d.year
  {
  }

  /** The round trip through the device's seconds. */
  lemma RoundTripExactly(d: Date, old': Date)
    requires ValidDate(d) && 1970 <= d.year <= 2105
    ensures Updated(Converted(d), old') == d <==> d.year >= 1971 && Drift(d) < 365
  {
    hide ValidDate, Converted, Updated, Drift, Epoch;
    EpochFits(d);
    if d.year >= 1971 {
      ConvertIsEpochExactlyFrom1971To2149(d);
      UpdateInvertsEpochExactlyWithoutDrift(d, Converted(d), old');
    } else {
      NoRoundTripIn1970(d, old');
    }
  }

  lemma NoRoundTripIn1970(d: Date, old': Date)
    requires ValidDate(d) && d.year == 1970
    ensures Updated(Converted(d), old').year != 1970
  {
    hide Leap, LeapsBetween, DaysBeforeMonth, DaysBeforeYear, MonthAndDay;
    ConvertedIsShiftedEpoch(d);
    DayOfYearBound(d);
    assert LostDays(1970) == WORD16;
    var time := Converted(d);
    assert 0 <= Epoch(d) < 366 * 86400;
    assert time == Epoch(d) + 86400 * WORD16 - WORD32;
    assert time / 3600 / 24 / 365 >= 43;
    var year := (1970 + time / 3600 / 24 / 365) % WORD16;
    MonthAndDayKeepsYear(Date(time % 60, time / 60 % 60, time / 3600 % 24, old'.mday, old'.month, year),
                         (time / 3600 / 24 % 365 - LeapsBetween(1970, year) + 1) % WORD32);
  }

  /** A day beyond the end of the year is in no month; month and day stay as they were. */
  lemma NoMonthChangesNothing(d: Date, days: nat)
    requires days > YearLength(d.year)
    ensures MonthAndDay(d, days) == d
  {
    MonthsOfYear(d.year);
    MonthIs(d.year, days, 13, 1);
  }

  /** Years before 1970 and months that do not exist give the error -22, as an unsigned number. */
  lemma ConvertRejects(d: Date)
    ensures d.year < 1970 || d.month == 0 || d.month > 12 ==> Converted(d) == 4294967274
  {
  }

  /** 1 January 2010, as a number of seconds and back. */
  lemma KnownDate(old': Date)
    ensures Converted(Date(0, 0, 0, 1, 1, 2010)) == 1262304000
    ensures Updated(1262304000, old') == Date(0, 0, 0, 1, 1, 2010)
  {
    hide Converted, Updated, DaysBeforeYear, LeapsBetween, Leap;
    var d := Date(0, 0, 0, 1, 1, 2010);
    DaysBeforeYearCount(2010);
    DaysBeforeYearCount(1970);
    YearsSince1970(2010);
    ConvertedIsEpoch(d);
    UpdateInvertsEpochExactlyWithoutDrift(d, 1262304000, old');
  }

  /** What becomes of the last two days of 1980: they are taken for 1981, the one as day 0 of January,
      the other with the month and day that were there before. */
  lemma DriftInDays(old': Date)
    ensures Updated(4017 * 86400, old') == Date(0, 0, 0, 0, 1, 1981)
    ensures Updated(4016 * 86400, old') == Date(0, 0, 0, old'.mday, old'.month, 1981)
  {
    hide MonthAndDay, LeapsBetween, Leap, YearLength;
    var d := Date(0, 0, 0, old'.mday, old'.month, 1981);
    LeapsTo1981();
    FirstOfMonths(d);
    BeyondTheYear(d);
  }

  lemma LeapsTo1981()
    ensures LeapsBetween(1970, 1981) == 3
  {
    hide LeapsBetween, DaysBeforeYear, Leap;
    YearsSince1970(1981);
    DaysBeforeYearCount(1981);
    DaysBeforeYearCount(1970);
  }

  lemma BeyondTheYear(d: Date)
    ensures MonthAndDay(d, WORD32 - 1) == d
  {
    hide MonthAndDay;
    NoMonthChangesNothing(d, WORD32 - 1);
  }

  lemma FirstOfMonths(d: Date)
    ensures MonthAndDay(d, 0) == d.(month := 1, mday := 0)
  {
    MonthsOfYear(d.year);
  }
}
