/** Calendar arithmetic of lib/time.c: gmtime_r, localtime_r, mktime and the
    ISO 8601 week computation. */
module Calendar {
  import CInt

  const YEAR0 := 1900
  const EPOCH_YR := 1970
  // SECS_DAY (24L * 60L * 60L) is written 86400 throughout.
  const TIME_MAX := 2147483647

  // ----- The calendar, independently of the code --------------------------

  predicate Leap(year: int) {
    year % 4 == 0 && (year % 100 != 0 || year % 400 == 0)
  }

  function YearSize(year: int): int {
    if Leap(year) then 366 else 365
  }

  /** Length of month `mon` (0 is January). */
  function MonthLength(leap: bool, mon: int): int
    requires 0 <= mon < 12
  {
    if mon == 1 then (if leap then 29 else 28)
    else if mon == 3 || mon == 5 || mon == 8 || mon == 10 then 30
    else 31
  }

  /** Days from 1 January to the first of month `mon`; month 12 is the year's end. */
  function MonthStart(leap: bool, mon: int): int
    requires 0 <= mon <= 12
  {
    if mon == 0 then 0 else MonthStart(leap, mon - 1) + MonthLength(leap, mon - 1)
  }

  /** Days from 1 January 1970 to 1 January of `year`, summed one year at a time. */
  function DaysToYear(year: int): int
    decreases if year >= EPOCH_YR then year - EPOCH_YR else EPOCH_YR - year
  {
    if year == EPOCH_YR then 0
    else if year > EPOCH_YR then DaysToYear(year - 1) + YearSize(year - 1)
    else DaysToYear(year + 1) - YearSize(year)
  }

  datatype Civil = Civil(sec: int, min: int, hour: int, mday: int, mon: int, year: int)

  /** The day number that `day` days after the first of month `mon` denotes. */
  function DayNumber(year: int, mon: int, day: int): int
    requires 0 <= mon <= 12
  {
    DaysToYear(year) + MonthStart(Leap(year), mon) + day
  }

  /** Day number of the first of a month; a month number outside 0..11 runs
      over into the neighbouring years. */
  function FirstOfMonth(year: int, mon: int): int
    decreases if mon < 0 then 12 - mon else mon
  {
    if mon < 0 then FirstOfMonth(year - 1, mon + 12)
    else if mon >= 12 then FirstOfMonth(year + 1, mon - 12)
    else DayNumber(year, mon, 0)
  }

  function ClockOf(c: Civil): int {
    (c.hour * 60 + c.min) * 60 + c.sec
  }

  /** The second an arbitrary civil tuple denotes, whatever its fields. */
  function Instant(c: Civil): int {
    (FirstOfMonth(YEAR0 + c.year, c.mon) + c.mday - 1) * 86400 + ClockOf(c)
  }

  predicate Canonical(c: Civil) {
    && 0 <= c.sec < 60 && 0 <= c.min < 60 && 0 <= c.hour < 24
    && 0 <= c.mon < 12
    && 1 <= c.mday <= MonthLength(Leap(YEAR0 + c.year), c.mon)
  }

  /** Day of the year and day of the week belonging to a canonical tuple. */
  function YearDay(c: Civil): int
    requires 0 <= c.mon < 12
  {
    MonthStart(Leap(YEAR0 + c.year), c.mon) + c.mday - 1
  }

  function WeekDay(dayNumber: int): int {
    (dayNumber + 4) % 7
  }

  // ----- Facts about the calendar -----------------------------------------

  lemma NextYear(year: int)
    ensures DaysToYear(year + 1) == DaysToYear(year) + YearSize(year)
    ensures YearSize(year) == 365 || YearSize(year) == 366
  {}

  lemma {:induction false} DaysMonotone(y1: int, y2: int)
    requires y1 <= y2
    ensures DaysToYear(y1) + 365 * (y2 - y1) <= DaysToYear(y2)
    decreases y2 - y1
  {
    if y1 < y2 {
      DaysMonotone(y1, y2 - 1);
      NextYear(y2 - 1);
    }
  }

  lemma {:induction false} MonthStartMonotone(leap: bool, m1: int, m2: int)
    requires 0 <= m1 <= m2 <= 12
    ensures MonthStart(leap, m1) + 28 * (m2 - m1) <= MonthStart(leap, m2)
    decreases m2 - m1
  {
    if m1 < m2 {
      MonthStartMonotone(leap, m1, m2 - 1);
    }
  }

  lemma YearEnd(leap: bool)
    ensures MonthStart(leap, 12) == if leap then 366 else 365
  {
    var extra := if leap then 1 else 0;
    assert MonthStart(leap, 1) == 31;
    assert MonthStart(leap, 3) == 90 + extra;
    assert MonthStart(leap, 5) == 151 + extra;
    assert MonthStart(leap, 7) == 212 + extra;
    assert MonthStart(leap, 9) == 273 + extra;
    assert MonthStart(leap, 11) == 334 + extra;
  }

  lemma YearDayInYear(c: Civil)
    requires Canonical(c)
    ensures 0 <= YearDay(c) < YearSize(YEAR0 + c.year)
  {
    var leap := Leap(YEAR0 + c.year);
    YearEnd(leap);
    MonthStartMonotone(leap, 0, c.mon);
    MonthStartMonotone(leap, c.mon + 1, 12);
  }

  /** A day number lies in exactly one year. */
  lemma YearOfDayUnique(day: int, y1: int, y2: int)
    requires DaysToYear(y1) <= day < DaysToYear(y1 + 1)
    requires DaysToYear(y2) <= day < DaysToYear(y2 + 1)
    ensures y1 == y2
  {
    if y1 < y2 {
      DaysMonotone(y1 + 1, y2);
    } else if y2 < y1 {
      DaysMonotone(y2 + 1, y1);
    }
  }

  lemma MonthUnique(leap: bool, yday: int, m1: int, d1: int, m2: int, d2: int)
    requires 0 <= m1 < 12 && 0 <= m2 < 12
    requires 1 <= d1 <= MonthLength(leap, m1) && 1 <= d2 <= MonthLength(leap, m2)
    requires MonthStart(leap, m1) + d1 - 1 == yday == MonthStart(leap, m2) + d2 - 1
    ensures m1 == m2 && d1 == d2
  {
    if m1 < m2 {
      MonthStartMonotone(leap, m1 + 1, m2);
    } else if m2 < m1 {
      MonthStartMonotone(leap, m2 + 1, m1);
    }
  }

  lemma InstantOfCanonical(c: Civil)
    requires Canonical(c)
    ensures Instant(c) == (DaysToYear(YEAR0 + c.year) + YearDay(c)) * 86400 + ClockOf(c)
    ensures 0 <= ClockOf(c) < 86400
  {}

  lemma DayAndClockUnique(day1: int, clock1: int, day2: int, clock2: int)
    requires 0 <= clock1 < 86400 && 0 <= clock2 < 86400
    requires day1 * 86400 + clock1 == day2 * 86400 + clock2
    ensures day1 == day2 && clock1 == clock2
  {}

  lemma ClockUnique(h1: int, m1: int, s1: int, h2: int, m2: int, s2: int)
    requires 0 <= m1 < 60 && 0 <= s1 < 60 && 0 <= m2 < 60 && 0 <= s2 < 60
    requires (h1 * 60 + m1) * 60 + s1 == (h2 * 60 + m2) * 60 + s2
    ensures h1 == h2 && m1 == m2 && s1 == s2
  {}

  lemma DateUnique(c: Civil, d: Civil)
    requires Canonical(c) && Canonical(d)
    requires DaysToYear(YEAR0 + c.year) + YearDay(c) == DaysToYear(YEAR0 + d.year) + YearDay(d)
    ensures c.year == d.year && c.mon == d.mon && c.mday == d.mday
  {
    YearDayInYear(c);
    YearDayInYear(d);
    NextYear(YEAR0 + c.year);
    NextYear(YEAR0 + d.year);
    YearOfDayUnique(DaysToYear(YEAR0 + c.year) + YearDay(c), YEAR0 + c.year, YEAR0 + d.year);
    MonthUnique(Leap(YEAR0 + c.year), YearDay(c), c.mon, c.mday, d.mon, d.mday);
  }

  /** A canonical tuple is determined by the second it denotes. */
  lemma CivilUnique(c: Civil, d: Civil)
    requires Canonical(c) && Canonical(d) && Instant(c) == Instant(d)
    ensures c == d
  {
    InstantOfCanonical(c);
    InstantOfCanonical(d);
    DayAndClockUnique(DaysToYear(YEAR0 + c.year) + YearDay(c), ClockOf(c),
                      DaysToYear(YEAR0 + d.year) + YearDay(d), ClockOf(d));
    ClockUnique(c.hour, c.min, c.sec, d.hour, d.min, d.sec);
    DateUnique(c, d);
  }

  /** mktime refuses exactly the years before 1970: those are the negative instants. */
  lemma NegativeIffBeforeEpoch(c: Civil)
    requires Canonical(c)
    ensures Instant(c) < 0 <==> YEAR0 + c.year < EPOCH_YR
  {
    InstantOfCanonical(c);
    YearDayInYear(c);
    var y := YEAR0 + c.year;
    NextYear(y);
    if y < EPOCH_YR {
      DaysMonotone(y + 1, EPOCH_YR);
    } else {
      DaysMonotone(EPOCH_YR, y);
    }
  }

  // ----- Closed form of the leap count -------------------------------------

  function Bit(b: bool): int { if b then 1 else 0 }

  /** The quotients and remainder corrections mktime adds up. */
  function ClosedFormDays(year: int): int
    requires year >= EPOCH_YR
  {
    var n := year - EPOCH_YR;
    n * 365
    + (n / 4 + Bit(year % 4 != 0 && year % 4 < EPOCH_YR % 4))
    - (n / 100 + Bit(year % 100 != 0 && year % 100 < EPOCH_YR % 100))
    + (n / 400 + Bit(year % 400 != 0 && year % 400 < EPOCH_YR % 400))
  }

  /** Leap years up to and including `year`, counted from year 1. */
  function LeapsUpTo(year: int): int {
    year / 4 - year / 100 + year / 400
  }

  lemma LeapStep(year: int)
    ensures LeapsUpTo(year) == LeapsUpTo(year - 1) + Bit(Leap(year))
  {
    QuotientStep(year, 4);
    QuotientStep(year, 100);
    QuotientStep(year, 400);
    LeapBits(year);
  }

  lemma LeapBits(year: int)
    ensures Bit(Leap(year)) == Bit(year % 4 == 0) - Bit(year % 100 == 0) + Bit(year % 400 == 0)
  {
    if year % 100 == 0 {
      MultipleOf4(25 * (year / 100));
    }
    if year % 400 == 0 {
      MultipleOf100(4 * (year / 400));
    }
  }

  lemma MultipleOf4(q: int)
    ensures 4 * q % 4 == 0
  {}

  lemma MultipleOf100(q: int)
    ensures 100 * q % 100 == 0
  {}

  lemma QuotientStep(year: int, d: nat)
    requires d == 4 || d == 100 || d == 400
    ensures year / d == (year - 1) / d + Bit(year % d == 0)
  {}

  /** Each quotient with its correction counts the multiples of the divisor
      from 1970 up to the year before. */
  lemma Corrected4(year: int)
    requires year >= EPOCH_YR
    ensures (year - EPOCH_YR) / 4 + Bit(year % 4 != 0 && year % 4 < 2) == (year - 1) / 4 - 492
  {}

  lemma Corrected100(year: int)
    requires year >= EPOCH_YR
    ensures (year - EPOCH_YR) / 100 + Bit(year % 100 != 0 && year % 100 < 70) == (year - 1) / 100 - 19
  {}

  lemma Corrected400(year: int)
    requires year >= EPOCH_YR
    ensures (year - EPOCH_YR) / 400 + Bit(year % 400 != 0 && year % 400 < 370) == (year - 1) / 400 - 4
  {}

  lemma {:induction false} SumCountsLeaps(year: int)
    requires year >= EPOCH_YR
    ensures DaysToYear(year) == (year - EPOCH_YR) * 365 + LeapsUpTo(year - 1) - 477
  {
    if year > EPOCH_YR {
      SumCountsLeaps(year - 1);
      LeapStep(year - 1);
    }
  }

  /** mktime's closed form equals the year-by-year sum that gmtime_r undoes. */
  lemma ClosedFormIsSum(year: int)
    requires year >= EPOCH_YR
    ensures ClosedFormDays(year) == DaysToYear(year)
  {
    Corrected4(year);
    Corrected100(year);
    Corrected400(year);
    SumCountsLeaps(year);
  }

  // ----- Dates that are known ------------------------------------------------

  /** The days before each month, in closed form: from March on the months
      follow a pattern of five with 153 days. */
  lemma MonthStartClosed(leap: bool, mon: int)
    requires 0 <= mon <= 12
    ensures MonthStart(leap, mon) ==
      if mon == 0 then 0 else if mon == 1 then 31 else 59 + Bit(leap) + (153 * (mon - 2) + 2) / 5
  {
    var extra := Bit(leap);
    assert MonthStart(leap, 1) == 31 && MonthStart(leap, 2) == 59 + extra;
    assert MonthStart(leap, 3) == 90 + extra && MonthStart(leap, 4) == 120 + extra;
    assert MonthStart(leap, 5) == 151 + extra && MonthStart(leap, 6) == 181 + extra;
    assert MonthStart(leap, 7) == 212 + extra && MonthStart(leap, 8) == 243 + extra;
    assert MonthStart(leap, 9) == 273 + extra && MonthStart(leap, 10) == 304 + extra;
    assert MonthStart(leap, 11) == 334 + extra && MonthStart(leap, 12) == 365 + extra;
  }

  /** The length of a month is the distance to the next. */
  lemma MonthLengthClosed(leap: bool, mon: int)
    requires 0 <= mon < 12
    ensures MonthLength(leap, mon) ==
      if mon == 0 then 31 else if mon == 1 then 28 + Bit(leap) else (153 * (mon - 1) + 2) / 5 - (153 * (mon - 2) + 2) / 5
  {
    MonthStartClosed(leap, mon);
    MonthStartClosed(leap, mon + 1);
    assert MonthStart(leap, mon + 1) == MonthStart(leap, mon) + MonthLength(leap, mon);
    hide MonthStart, MonthLength;
  }

  /** What one more second, minute, hour, day or year of months is worth. */
  lemma InstantSteps(c: Civil)
    ensures Instant(c.(sec := c.sec + 1)) == Instant(c) + 1
    ensures Instant(c.(min := c.min + 1)) == Instant(c) + 60
    ensures Instant(c.(hour := c.hour + 1)) == Instant(c) + 3600
    ensures Instant(c.(mday := c.mday + 1)) == Instant(c) + 86400
    ensures Instant(c.(mon := c.mon + 12)) == Instant(c.(year := c.year + 1))
  {
    MonthCarry(YEAR0 + c.year, c.mon + 12);
    MonthCarry(YEAR0 + c.year + 1, c.mon);
    TwelveMonths(c.mon);
    hide FirstOfMonth, DayNumber;
  }

  lemma YearStart(year: int, days: int)
    requires year >= EPOCH_YR
    requires days == (year - EPOCH_YR) * 365 + (year - 1) / 4 - (year - 1) / 100 + (year - 1) / 400 - 477
    ensures DaysToYear(year) == days
  {
    SumCountsLeaps(year);
    hide DaysToYear;
  }

  /** The second of a date, when its year and month begin on known days. */
  lemma Dated(c: Civil, leap: bool, yearDays: int, monthDays: int)
    requires 0 <= c.mon < 12 && c.year >= 70 && leap == Leap(YEAR0 + c.year)
    requires var y := YEAR0 + c.year; yearDays == (y - EPOCH_YR) * 365 + (y - 1) / 4 - (y - 1) / 100 + (y - 1) / 400 - 477
    requires monthDays ==
      if c.mon == 0 then 0 else if c.mon == 1 then 31 else 59 + Bit(leap) + (153 * (c.mon - 2) + 2) / 5
    ensures Instant(c) == (yearDays + monthDays + c.mday - 1) * 86400 + (c.hour * 60 + c.min) * 60 + c.sec
  {
    MonthStartClosed(leap, c.mon);
    YearStart(YEAR0 + c.year, yearDays);
    hide DaysToYear, MonthStart, Leap;
  }

  /** Some dates and the seconds they denote. */
  lemma KnownDates()
    ensures Instant(Civil(0, 0, 0, 1, 0, 70)) == 0
    ensures Instant(Civil(0, 0, 0, 1, 6, 70)) == 15638400
    ensures Instant(Civil(58, 59, 23, 1, 2, 72)) == 68342398
    ensures Instant(Civil(56, 34, 12, 29, 1, 100)) == 951827696
    ensures Instant(Civil(40, 46, 1, 9, 8, 101)) == 1000000000
    ensures Instant(Civil(7, 14, 3, 19, 0, 138)) == 2147483647
    ensures Instant(Civil(0, 0, 0, 1, 2, 200)) == 4107542400
  {
    hide Instant;
    Dated(Civil(0, 0, 0, 1, 0, 70), false, 0, 0);
    Dated(Civil(0, 0, 0, 1, 6, 70), false, 0, 181);
    Dated(Civil(58, 59, 23, 1, 2, 72), true, 730, 60);
    Dated(Civil(56, 34, 12, 29, 1, 100), true, 10957, 31);
    Dated(Civil(40, 46, 1, 9, 8, 101), false, 11323, 243);
    Dated(Civil(7, 14, 3, 19, 0, 138), false, 24837, 0);
    Dated(Civil(0, 0, 0, 1, 2, 200), false, 47482, 59);
  }

  /** The fifteenth of each month at 01:02:03, in a common and in a leap year. */
  lemma KnownMonths()
    ensures Instant(Civil(3, 2, 1, 15, 0, 123)) == 1673744523
    ensures Instant(Civil(3, 2, 1, 15, 1, 123)) == 1676422923
    ensures Instant(Civil(3, 2, 1, 15, 2, 123)) == 1678842123
    ensures Instant(Civil(3, 2, 1, 15, 3, 123)) == 1681520523
    ensures Instant(Civil(3, 2, 1, 15, 4, 123)) == 1684112523
    ensures Instant(Civil(3, 2, 1, 15, 5, 123)) == 1686790923
    ensures Instant(Civil(3, 2, 1, 15, 6, 123)) == 1689382923
    ensures Instant(Civil(3, 2, 1, 15, 7, 123)) == 1692061323
    ensures Instant(Civil(3, 2, 1, 15, 8, 123)) == 1694739723
    ensures Instant(Civil(3, 2, 1, 15, 9, 123)) == 1697331723
    ensures Instant(Civil(3, 2, 1, 15, 10, 123)) == 1700010123
    ensures Instant(Civil(3, 2, 1, 15, 11, 123)) == 1702602123
    ensures Instant(Civil(3, 2, 1, 15, 0, 124)) == 1705280523
    ensures Instant(Civil(3, 2, 1, 15, 1, 124)) == 1707958923
    ensures Instant(Civil(3, 2, 1, 15, 2, 124)) == 1710464523
    ensures Instant(Civil(3, 2, 1, 15, 3, 124)) == 1713142923
    ensures Instant(Civil(3, 2, 1, 15, 4, 124)) == 1715734923
    ensures Instant(Civil(3, 2, 1, 15, 5, 124)) == 1718413323
    ensures Instant(Civil(3, 2, 1, 15, 6, 124)) == 1721005323
    ensures Instant(Civil(3, 2, 1, 15, 7, 124)) == 1723683723
    ensures Instant(Civil(3, 2, 1, 15, 8, 124)) == 1726362123
    ensures Instant(Civil(3, 2, 1, 15, 9, 124)) == 1728954123
    ensures Instant(Civil(3, 2, 1, 15, 10, 124)) == 1731632523
    ensures Instant(Civil(3, 2, 1, 15, 11, 124)) == 1734224523
  {
    hide Instant;
    Dated(Civil(3, 2, 1, 15, 0, 123), false, 19358, 0);
    Dated(Civil(3, 2, 1, 15, 1, 123), false, 19358, 31);
    Dated(Civil(3, 2, 1, 15, 2, 123), false, 19358, 59);
    Dated(Civil(3, 2, 1, 15, 3, 123), false, 19358, 90);
    Dated(Civil(3, 2, 1, 15, 4, 123), false, 19358, 120);
    Dated(Civil(3, 2, 1, 15, 5, 123), false, 19358, 151);
    Dated(Civil(3, 2, 1, 15, 6, 123), false, 19358, 181);
    Dated(Civil(3, 2, 1, 15, 7, 123), false, 19358, 212);
    Dated(Civil(3, 2, 1, 15, 8, 123), false, 19358, 243);
    Dated(Civil(3, 2, 1, 15, 9, 123), false, 19358, 273);
    Dated(Civil(3, 2, 1, 15, 10, 123), false, 19358, 304);
    Dated(Civil(3, 2, 1, 15, 11, 123), false, 19358, 334);
    Dated(Civil(3, 2, 1, 15, 0, 124), true, 19723, 0);
    Dated(Civil(3, 2, 1, 15, 1, 124), true, 19723, 31);
    Dated(Civil(3, 2, 1, 15, 2, 124), true, 19723, 60);
    Dated(Civil(3, 2, 1, 15, 3, 124), true, 19723, 91);
    Dated(Civil(3, 2, 1, 15, 4, 124), true, 19723, 121);
    Dated(Civil(3, 2, 1, 15, 5, 124), true, 19723, 152);
    Dated(Civil(3, 2, 1, 15, 6, 124), true, 19723, 182);
    Dated(Civil(3, 2, 1, 15, 7, 124), true, 19723, 213);
    Dated(Civil(3, 2, 1, 15, 8, 124), true, 19723, 244);
    Dated(Civil(3, 2, 1, 15, 9, 124), true, 19723, 274);
    Dated(Civil(3, 2, 1, 15, 10, 124), true, 19723, 305);
    Dated(Civil(3, 2, 1, 15, 11, 124), true, 19723, 335);
  }

  /** The week runs from Sunday, 0, to Saturday, 6; the first day was a
      Thursday, and 9 September 2001 a Sunday. */
  lemma KnownWeekdays(dayNumber: int)
    ensures WeekDay(dayNumber + 1) == if WeekDay(dayNumber) == 6 then 0 else WeekDay(dayNumber) + 1
    ensures WeekDay(0) == 4 && WeekDay(1000000000 / 86400) == 0
  {}

  // ----- struct tm and the conversions --------------------------------------

  class Tm {
    var sec: int
    var min: int
    var hour: int
    var mday: int
    var mon: int
    var year: int
    var wday: int
    var yday: int
    var isdst: int

    constructor ()
      ensures Fields() == Civil(0, 0, 0, 0, 0, 0) && wday == 0 && yday == 0 && isdst == 0
    {
      sec, min, hour, mday, mon, year, wday, yday, isdst := 0, 0, 0, 0, 0, 0, 0, 0, 0;
    }

    function Fields(): Civil
      reads this
    {
      Civil(sec, min, hour, mday, mon, year)
    }

    /** yday and wday agree with the date. */
    predicate DayFieldsAgree()
      reads this
    {
      && 0 <= mon < 12
      && yday == YearDay(Fields())
      && wday == WeekDay(DaysToYear(YEAR0 + year) + yday)
    }
  }

  /** gmtime_r: splits the clock off, then hands the day number on. The time is
      read as an unsigned word, so a negative one lies beyond TIME_MAX. */
  method GmTime(timer: int, tm: Tm)
    requires CInt.IsInt32(timer)
    modifies tm
    ensures Canonical(tm.Fields()) && Instant(tm.Fields()) == CInt.Unsigned(timer)
    ensures tm.DayFieldsAgree() && tm.isdst == 0
  {
    hide FirstOfMonth, DaysToYear, MonthStart, MonthLength, Leap;
    var time := CInt.Unsigned(timer);
    var dayclock := time % 86400;
    var dayno := time / 86400;
    tm.sec := dayclock % 60;
    tm.min := (dayclock % 3600) / 60;
    tm.hour := dayclock / 3600;
    tm.wday := (dayno + 4) % 7;
    BreakDay(dayno, tm);
    tm.isdst := 0;
    assert Instant(tm.Fields()) == time by {
      ClockParts(dayclock);
      InstantOfCanonical(tm.Fields());
      DayAndClock(time);
    }
  }

  lemma DayAndClock(time: int)
    ensures time / 86400 * 86400 + time % 86400 == time && 0 <= time % 86400 < 86400
  {}

  /** The two loops of gmtime_r (lines 114-127): peel whole years, then whole
      months, off the day number. */
  method BreakDay(day: int, tm: Tm)
    requires day >= 0
    modifies tm`year, tm`yday, tm`mon, tm`mday
    ensures 0 <= tm.mon < 12 && 1 <= tm.mday <= MonthLength(Leap(YEAR0 + tm.year), tm.mon)
    ensures tm.yday == YearDay(tm.Fields()) && DaysToYear(YEAR0 + tm.year) + tm.yday == day
  {
    var dayno := day;
    var year := EPOCH_YR;
    while dayno >= YearSize(year)
      invariant dayno >= 0 && year >= EPOCH_YR
      invariant DaysToYear(year) + dayno == day
      decreases dayno
      modifies {}
    {
      NextYear(year);
      dayno := dayno - YearSize(year);
      year := year + 1;
    }
    tm.year := year - YEAR0;
    tm.yday := dayno;
    tm.mon := 0;
    ghost var leap := Leap(year);
    YearEnd(leap);
    while dayno >= MonthLength(Leap(year), tm.mon)
      invariant 0 <= tm.mon < 12 && dayno >= 0
      invariant MonthStart(leap, tm.mon) + dayno == tm.yday < MonthStart(leap, 12)
      decreases dayno
      modifies tm`mon
    {
      MonthStartMonotone(leap, tm.mon + 1, 12);
      dayno := dayno - MonthLength(Leap(year), tm.mon);
      tm.mon := tm.mon + 1;
    }
    tm.mday := dayno + 1;
  }

  lemma ClockParts(dayclock: int)
    requires 0 <= dayclock < 86400
    ensures 0 <= dayclock / 3600 < 24 && 0 <= (dayclock % 3600) / 60 < 60 && 0 <= dayclock % 60 < 60
    ensures (dayclock / 3600 * 60 + (dayclock % 3600) / 60) * 60 + dayclock % 60 == dayclock
  {}

  /** localtime_r: the UTC conversion of the shifted time. */
  method LocalTime(time: int, timezone: int, tm: Tm)
    requires CInt.IsInt32(time) && CInt.IsInt32(timezone)
    modifies tm
    ensures Canonical(tm.Fields()) && Instant(tm.Fields()) == CInt.Minus(time, timezone)
    ensures tm.DayFieldsAgree() && tm.isdst == 0
  {
    GmTime(CInt.Signed(CInt.Minus(time, timezone)), tm);
  }

  /** mktime's carry step: a truncated division whose negative remainder is
      lifted by one unit, which is a floored division. */
  method Carry(value: int, unit: int) returns (carried: int, rest: int)
    requires unit == 60 || unit == 24 || unit == 12
    ensures carried == value / unit && rest == value % unit
  {
    hide CInt.Div, CInt.Rem;
    carried := CInt.Div(value, unit);
    rest := CInt.Rem(value, unit);
    if rest < 0 {
      rest := rest + unit;
      carried := carried - 1;
    }
    // One unit at a time, so that every divisor is a constant.
    if unit == 60 {
      Floored60(value);
    } else if unit == 24 {
      Floored24(value);
    } else {
      Floored12(value);
    }
  }

  lemma Floored60(v: int)
    ensures CInt.Rem(v, 60) == (if v >= 0 || v % 60 == 0 then v % 60 else v % 60 - 60)
    ensures CInt.Div(v, 60) == (if v >= 0 || v % 60 == 0 then v / 60 else v / 60 + 1)
  {}

  lemma Floored24(v: int)
    ensures CInt.Rem(v, 24) == (if v >= 0 || v % 24 == 0 then v % 24 else v % 24 - 24)
    ensures CInt.Div(v, 24) == (if v >= 0 || v % 24 == 0 then v / 24 else v / 24 + 1)
  {}

  lemma Floored12(v: int)
    ensures CInt.Rem(v, 12) == (if v >= 0 || v % 12 == 0 then v % 12 else v % 12 - 12)
    ensures CInt.Div(v, 12) == (if v >= 0 || v % 12 == 0 then v / 12 else v / 12 + 1)
  {}

  /** The end of a month is the start of the next. */
  lemma NextMonth(year: int, mon: int, day: int)
    requires 0 <= mon < 12
    ensures DayNumber(year, mon + 1, day) == DayNumber(year, mon, day + MonthLength(Leap(year), mon))
    ensures 28 <= MonthLength(Leap(year), mon)
  {}

  /** The end of December is the start of the next year. */
  lemma YearRollover(year: int, day: int)
    ensures DayNumber(year, 12, day) == DayNumber(year + 1, 0, day)
  {
    YearEnd(Leap(year));
    NextYear(year);
  }

  /** Carrying whole years out of a month number leaves the month it names. */
  lemma {:induction false} MonthCarry(year: int, mon: int)
    ensures FirstOfMonth(year, mon) == DayNumber(year + mon / 12, mon % 12, 0)
    decreases if mon < 0 then 12 - mon else mon
  {
    hide DayNumber;
    if mon < 0 {
      MonthCarry(year - 1, mon + 12);
      TwelveMonths(mon);
    } else if mon >= 12 {
      MonthCarry(year + 1, mon - 12);
      TwelveMonths(mon - 12);
    } else {
      WithinYear(mon);
    }
  }

  lemma TwelveMonths(mon: int)
    ensures (mon + 12) / 12 == mon / 12 + 1 && (mon + 12) % 12 == mon % 12
  {}

  lemma WithinYear(mon: int)
    requires 0 <= mon < 12
    ensures mon / 12 == 0 && mon % 12 == mon
  {}

  /** Lines 160-180 of mktime: bring the clock fields in range, handing back
      the whole days they carry. */
  method NormaliseClock(tm: Tm) returns (day: int)
    modifies tm`sec, tm`min, tm`hour
    ensures 0 <= tm.sec < 60 && 0 <= tm.min < 60 && 0 <= tm.hour < 24
    ensures day * 86400 + (tm.hour * 60 + tm.min) * 60 + tm.sec == old((tm.hour * 60 + tm.min) * 60 + tm.sec)
  {
    var carried, rest := Carry(tm.sec, 60);
    tm.min, tm.sec := tm.min + carried, rest;
    carried, rest := Carry(tm.min, 60);
    tm.hour, tm.min := tm.hour + carried, rest;
    day, rest := Carry(tm.hour, 24);
    tm.hour := rest;
  }

  /** The normalising half of mktime (lines 160-207): truncating carries, then
      two loops that move the date by month-sized steps in either direction. */
  method Normalise(tm: Tm)
    modifies tm
    ensures Canonical(tm.Fields()) && Instant(tm.Fields()) == old(Instant(tm.Fields()))
    ensures tm.isdst == old(tm.isdst) && tm.yday == old(tm.yday) && tm.wday == old(tm.wday)
  {
    hide FirstOfMonth, DaysToYear, MonthStart, MonthLength, Leap;
    ghost var before := tm.Fields();
    var carry := NormaliseClock(tm);
    var years, mon := Carry(tm.mon, 12);
    MonthCarry(YEAR0 + tm.year, tm.mon);
    tm.year, tm.mon := tm.year + years, mon;
    var day := WalkMonths(tm, carry + (tm.mday - 1));
    tm.mday := day + 1;
    MonthCarry(YEAR0 + tm.year, tm.mon);
    NormalisedInstant(before, tm.Fields(), carry);
  }

  /** Two tuples denote the same second when their clocks differ by carried
      days that their day numbers make up for. */
  lemma NormalisedInstant(c: Civil, d: Civil, carry: int)
    requires carry * 86400 + ClockOf(d) == ClockOf(c)
    requires FirstOfMonth(YEAR0 + d.year, d.mon) + d.mday - 1 == FirstOfMonth(YEAR0 + c.year, c.mon) + carry + c.mday - 1
    ensures Instant(c) == Instant(d)
  {
    hide FirstOfMonth, DayNumber, DaysToYear, MonthStart, Leap;
  }

  /** The two day loops of mktime (lines 189-206), which leave `day` inside its month. */
  method WalkMonths(tm: Tm, start: int) returns (day: int)
    requires 0 <= tm.mon < 12
    modifies tm`mon, tm`year
    ensures 0 <= tm.mon < 12 && 0 <= day < MonthLength(Leap(YEAR0 + tm.year), tm.mon)
    ensures DayNumber(YEAR0 + tm.year, tm.mon, day) == old(DayNumber(YEAR0 + tm.year, tm.mon, start))
  {
    day := start;
    ghost var number := DayNumber(YEAR0 + tm.year, tm.mon, day);
    hide DayNumber, MonthLength, Leap;
    while day < 0
      invariant 0 <= tm.mon < 12
      invariant DayNumber(YEAR0 + tm.year, tm.mon, day) == number
      decreases -day
    {
      tm.mon := tm.mon - 1;
      if tm.mon < 0 {
        tm.year := tm.year - 1;
        tm.mon := 11;
        YearRollover(YEAR0 + tm.year, day);
      }
      NextMonth(YEAR0 + tm.year, tm.mon, day);
      day := day + MonthLength(Leap(YEAR0 + tm.year), tm.mon);
    }
    while day >= MonthLength(Leap(YEAR0 + tm.year), tm.mon)
      invariant 0 <= tm.mon < 12 && day >= 0
      invariant DayNumber(YEAR0 + tm.year, tm.mon, day) == number
      decreases day
    {
      NextMonth(YEAR0 + tm.year, tm.mon, day - MonthLength(Leap(YEAR0 + tm.year), tm.mon));
      day := day - MonthLength(Leap(YEAR0 + tm.year), tm.mon);
      tm.mon := tm.mon + 1;
      if tm.mon == 12 {
        YearRollover(YEAR0 + tm.year, day);
        tm.mon := 0;
        tm.year := tm.year + 1;
      }
    }
  }

  /** What mktime is to return: the UTC second, or -1 when any of the local
      instant, the UTC instant or the daylight-corrected instant leaves the
      range of time_t. */
  function MkTimeResult(instant: int, timezone: int, dst: int): int {
    if 0 <= instant <= TIME_MAX && 0 <= instant + timezone <= TIME_MAX && dst <= instant + timezone
    then instant + timezone - dst
    else -1
  }

  method MkTime(tm: Tm, timezone: int, dstbias: int) returns (r: int)
    requires dstbias >= 0
    modifies tm
    ensures Canonical(tm.Fields()) && Instant(tm.Fields()) == old(Instant(tm.Fields()))
    ensures tm.isdst == old(tm.isdst)
    ensures Instant(tm.Fields()) >= 0 ==> tm.DayFieldsAgree()
    ensures r == MkTimeResult(Instant(tm.Fields()), timezone, if tm.isdst != 0 then dstbias else 0)
  {
    hide Instant, MonthStart, MonthLength, Leap;
    Normalise(tm);
    InstantOfCanonical(tm.Fields());
    NegativeIffBeforeEpoch(tm.Fields());
    if tm.year < EPOCH_YR - YEAR0 { return -1; }
    var day, overflow := DaysSinceEpoch(tm.year + YEAR0);
    var yday := DayOfYear(tm.year + YEAR0, tm.mon, tm.mday);
    YearDayInYear(tm.Fields());
    if day + yday < 0 { overflow := overflow + 1; }
    day := day + yday;
    tm.yday := yday;
    tm.wday := (day + 4) % 7;
    var clock := (tm.hour * 60 + tm.min) * 60 + tm.sec;
    r := ToTimeT(day, clock, overflow, timezone, if tm.isdst != 0 then dstbias else 0);
  }

  /** The month loop of mktime (lines 228-234). */
  method DayOfYear(year: int, mon: int, mday: int) returns (yday: int)
    requires 0 <= mon < 12
    ensures yday == MonthStart(Leap(year), mon) + mday - 1
  {
    var month := 0;
    yday := 0;
    while month < mon
      invariant 0 <= month <= mon && yday == MonthStart(Leap(year), month)
    {
      yday := yday + MonthLength(Leap(year), month);
      month := month + 1;
    }
    yday := yday + (mday - 1);
  }

  /** The closed-form day count of mktime (lines 219-226) with its two early
      overflow guards; a guard only fires for years far outside time_t. */
  method DaysSinceEpoch(year: int) returns (day: int, overflow: int)
    requires year >= EPOCH_YR
    ensures day == DaysToYear(year) && day >= 0 && overflow >= 0
    ensures overflow > 0 ==> day * 86400 > TIME_MAX
  {
    overflow := 0;
    var n := year - EPOCH_YR;
    if TIME_MAX / 365 < n { overflow := overflow + 1; }
    day := n * 365;
    if TIME_MAX - day < n / 4 + 1 { overflow := overflow + 1; }
    day := day + n / 4 + Bit(year % 4 != 0 && year % 4 < EPOCH_YR % 4);
    day := day - (n / 100 + Bit(year % 100 != 0 && year % 100 < EPOCH_YR % 100));
    day := day + n / 400 + Bit(year % 400 != 0 && year % 400 < EPOCH_YR % 400);
    assert day == ClosedFormDays(year);
    ClosedFormIsSum(year);
    GuardsFireLate(year);
  }

  /** Either early guard firing means the year starts past the end of time_t. */
  lemma {:induction false} GuardsFireLate(year: int)
    requires year >= EPOCH_YR
    ensures 365 * (year - EPOCH_YR) <= DaysToYear(year)
    ensures TIME_MAX / 365 < year - EPOCH_YR || TIME_MAX - (year - EPOCH_YR) * 365 < (year - EPOCH_YR) / 4 + 1
      ==> year - EPOCH_YR >= 100000 && DaysToYear(year) * 86400 > TIME_MAX
  {
    DaysMonotone(EPOCH_YR, year);
  }

  /** The closing arithmetic of mktime (lines 241-263). */
  method ToTimeT(day: int, clock: int, overflow0: int, timezone: int, dst: int) returns (r: int)
    requires day >= 0 && 0 <= clock < 86400 && dst >= 0 && overflow0 >= 0
    requires overflow0 > 0 ==> day * 86400 > TIME_MAX
    ensures r == MkTimeResult(day * 86400 + clock, timezone, dst)
  {
    var overflow := overflow0;
    var seconds := clock;
    if (TIME_MAX - seconds) / 86400 < day { overflow := overflow + 1; }
    seconds := seconds + day * 86400;
    assert overflow > 0 <==> seconds > TIME_MAX;
    if (timezone > 0 && TIME_MAX - timezone < seconds) || (timezone < 0 && seconds < -timezone) {
      overflow := overflow + 1;
    }
    seconds := seconds + timezone;
    if dst > seconds { overflow := overflow + 1; }
    seconds := seconds - dst;
    if overflow != 0 { return -1; }
    return seconds;
  }

  // ----- Round trips -----------------------------------------------------------

  /** For which times mktime undoes localtime_r (and gmtime_r, with a zero zone):
      those that neither the time nor the shifted time is negative for. The
      time -1 is among the results as well, as the error code. Every field left
      behind, weekday and day of the year included, is always the one given. */
  method BreakAndRemake(time: int, timezone: int, dstbias: int)
    returns (r: int, broken: (Civil, int, int), remade: (Civil, int, int))
    requires CInt.IsInt32(time) && CInt.IsInt32(timezone) && dstbias >= 0
    ensures r == time <==> time == -1 || (time >= 0 && 0 <= time - timezone <= TIME_MAX)
    ensures broken == remade && Instant(broken.0) == CInt.Minus(time, timezone)
  {
    hide Instant, DaysToYear, MonthStart, MonthLength, Leap;
    var tm := new Tm();
    LocalTime(time, timezone, tm);
    broken := (tm.Fields(), tm.yday, tm.wday);
    r := MkTime(tm, timezone, dstbias);
    remade := (tm.Fields(), tm.yday, tm.wday);
    assert broken.0 == remade.0 by { CivilUnique(broken.0, remade.0); }
  }

  /** In the other direction: whatever fields mktime accepts, gmtime_r of its
      result rebuilds the normalised fields. */
  method RemakeAndBreak(tm: Tm) returns (r: int, again: Tm)
    requires tm.isdst == 0
    modifies tm
    ensures r == if 0 <= old(Instant(tm.Fields())) <= TIME_MAX then old(Instant(tm.Fields())) else -1
    ensures r >= 0 ==> again.Fields() == tm.Fields() && again.yday == tm.yday && again.wday == tm.wday
  {
    hide Instant, DaysToYear, MonthStart, MonthLength, Leap;
    r := MkTime(tm, 0, 0);
    again := new Tm();
    if r >= 0 {
      GmTime(r, again);
      assert tm.Fields() == again.Fields() by { CivilUnique(tm.Fields(), again.Fields()); }
    }
  }

  /** With the daylight flag set, mktime takes the bias off what localtime_r was
      given, and refuses what that makes negative. */
  method RemakeSummerTime(time: int, timezone: int, dstbias: int) returns (r: int)
    requires CInt.IsInt32(time) && CInt.IsInt32(timezone) && dstbias >= 0
    ensures r == if time >= dstbias && 0 <= time - timezone <= 0x7fff_ffff then time - dstbias else -1
  {
    hide Instant, DaysToYear, MonthStart, MonthLength, Leap;
    var tm := new Tm();
    LocalTime(time, timezone, tm);
    tm.isdst := 1;
    r := MkTime(tm, timezone, dstbias);
  }

  // ----- ISO 8601 weeks ----------------------------------------------------------

  /** The Thursday of the Monday-based week that holds the day. */
  function ThursdayOf(dayNumber: int): int {
    dayNumber - (WeekDay(dayNumber) + 6) % 7 + 3
  }

  /** Section 2.2.10 of ISO 8601:2004: a week belongs to the year of its
      Thursday, and the week of the year's first Thursday is week 1. */
  predicate IsIsoWeek(dayNumber: int, year: int, week: int) {
    var thursday := ThursdayOf(dayNumber);
    && DaysToYear(year) <= thursday < DaysToYear(year + 1)
    && week == 1 + (thursday - DaysToYear(year)) / 7
  }

  /** The ISO year and week of a day are unique, and weeks run from 1 to 53. */
  lemma IsoWeekUnique(dayNumber: int, y1: int, w1: int, y2: int, w2: int)
    requires IsIsoWeek(dayNumber, y1, w1) && IsIsoWeek(dayNumber, y2, w2)
    ensures y1 == y2 && w1 == w2 && 1 <= w1 <= 53
  {
    YearOfDayUnique(ThursdayOf(dayNumber), y1, y2);
    NextYear(y1);
  }

  /** A day in a week whose Thursday falls in a year with known bounds. */
  lemma WeekOf(dayNumber: int, year: int, from: int, to: int)
    requires DaysToYear(year) == from && DaysToYear(year + 1) == to
    ensures var thursday := dayNumber - (dayNumber + 3) % 7 + 3;
      from <= thursday < to ==> IsIsoWeek(dayNumber, year, 1 + (thursday - from) / 7)
  {
    hide DaysToYear;
  }

  /** 1 January 2005 is in the last week of 2004, 29 December 2008 in the first of
      2009; 3 January 2010 ends a week 53, and 4 January 2021 begins week 1. */
  lemma KnownWeeks()
    ensures IsIsoWeek(12784, 2004, 53) && DayNumber(2005, 0, 0) == 12784
    ensures IsIsoWeek(14242, 2009, 1) && DayNumber(2009, 0, -3) == 14242
    ensures IsIsoWeek(14612, 2009, 53) && DayNumber(2010, 0, 2) == 14612
    ensures IsIsoWeek(18631, 2021, 1) && DayNumber(2021, 0, 3) == 18631
    ensures IsIsoWeek(0, 1970, 1) && DayNumber(1970, 0, 0) == 0
  {
    hide DaysToYear, IsIsoWeek, Leap;
    YearStart(1970, 0);
    YearStart(1971, 365);
    YearStart(2004, 12418);
    YearStart(2005, 12784);
    YearStart(2009, 14245);
    YearStart(2010, 14610);
    YearStart(2021, 18628);
    YearStart(2022, 18993);
    WeekOf(12784, 2004, 12418, 12784);
    WeekOf(14242, 2009, 14245, 14610);
    WeekOf(14612, 2009, 14245, 14610);
    WeekOf(18631, 2021, 18628, 18993);
    WeekOf(0, 1970, 0, 365);
  }

  /** Position of the current week's Monday, counted in weeks from the Monday
      `bot` that opens week 1: the two tests of the loop decide on which side
      of the year the Thursday falls. */
  lemma WeekTests(yday: int, wday: int, len: int, bot: int, top: int)
    requires yday >= 0 && 0 <= wday < 7 && (len == 365 || len == 366)
    requires bot == (yday + 11 - wday) % 7 - 3
    requires top == len + (if bot - len % 7 < -3 then bot - len % 7 + 7 else bot - len % 7)
    ensures
      var thursday := yday - (wday + 6) % 7 + 3;
      && (yday >= top <==> thursday >= len)
      && (yday >= bot <==> thursday >= 0)
      && (thursday >= 0 ==> (yday - bot) / 7 == thursday / 7)
  {
    var back := (wday + 6) % 7;
    assert back == if wday == 0 then 6 else wday - 1;
    var monday := yday - back;
    var k := (monday + 3) / 7;
    assert monday == bot + 7 * k by {
      assert yday + 11 - wday == monday + 10 || yday + 11 - wday == monday + 17;
    }
    var j := if top == bot - len % 7 + len then len / 7 else len / 7 + 1;
    assert top == bot + 7 * j;
    assert yday >= top <==> k >= j;
    assert monday + 3 >= len <==> k >= j;
  }

  /** The loop behind %V, %G and %g. */
  method IsoWeek(year0: int, yday0: int, wday: int) returns (year: int, week: int)
    requires 0 <= yday0 < YearSize(year0) && wday == WeekDay(DaysToYear(year0) + yday0)
    ensures IsIsoWeek(DaysToYear(year0) + yday0, year, week) && 1 <= week <= 53
  {
    hide DaysToYear, YearSize;
    year := year0;
    var yday := yday0;
    ghost var today := DaysToYear(year0) + yday0;
    ghost var rounds := 0;
    while true
      invariant DaysToYear(year) + yday == today && yday >= 0
      invariant rounds == 0 ==> year == year0 && yday == yday0
      invariant rounds == 1 ==> ThursdayOf(today) < DaysToYear(year + 1) && yday >= YearSize(year)
      invariant 0 <= rounds <= 1
      decreases 2 - rounds
    {
      NextYear(year);
      NextYear(year + 1);
      NextYear(year - 1);
      var len := YearSize(year);
      var bot := (yday + 11 - wday) % 7 - 3;
      var top := bot - len % 7;
      if top < -3 { top := top + 7; }
      top := top + len;
      WeekTests(yday, wday, len, bot, top);
      if yday >= top {
        year := year + 1;
        week := 1;
        return;
      }
      if yday >= bot {
        week := 1 + (yday - bot) / 7;
        return;
      }
      year := year - 1;
      yday := yday + YearSize(year);
      rounds := rounds + 1;
    }
  }
}
