/** The proleptic Gregorian calendar by its year and month lengths, and the two
    conversions of the time bindings: a day number to a date, a date to minutes. */
module Calendar {

  // ----- the calendar -----

  /** A date with the month counted from 1. */
  datatype Date = Date(year: int, month: int, day: int)

  predicate Leap(year: int) {
    year % 4 == 0 && (year % 100 != 0 || year % 400 == 0)
  }

  function YearLength(year: int): int {
    if Leap(year) then 366 else 365
  }

  function MonthLength(year: int, month: int): int
    requires 1 <= month <= 12
  {
    if month == 2 then if Leap(year) then 29 else 28
    else if month == 4 || month == 6 || month == 9 || month == 11 then 30
    else 31
  }

  predicate Valid(date: Date) {
    1 <= date.month <= 12 && 1 <= date.day <= MonthLength(date.year, date.month)
  }

  /** Days from 1 January 1904 to 1 January of the year, year by year. */
  function DaysToYear(year: int): int
    decreases if year >= 1904 then year - 1904 else 1904 - year
  {
    if year == 1904 then 0
    else if year > 1904 then DaysToYear(year - 1) + YearLength(year - 1)
    else DaysToYear(year + 1) - YearLength(year)
  }

  /** Days from 1 January to the first of the month, month by month. */
  function DaysToMonth(year: int, month: int): int
    requires 1 <= month <= 12
    decreases month
  {
    if month == 1 then 0 else DaysToMonth(year, month - 1) + MonthLength(year, month - 1)
  }

  /** Days from 1 January 1904. */
  function DayCount(date: Date): int
    requires Valid(date)
  {
    DaysToYear(date.year) + DaysToMonth(date.year, date.month) + date.day - 1
  }

  predicate Before(a: Date, b: Date) {
    a.year < b.year || (a.year == b.year && (a.month < b.month || (a.month == b.month && a.day < b.day)))
  }

  /** Days from 1 January 1904 to 1 January 1970. */
  const EPOCH := 24107

  // ----- C arithmetic -----

  /** C's division, which truncates toward zero. */
  function CDiv(x: int, y: int): int
    requires y > 0
  {
    if x >= 0 then x / y else -((-x) / y)
  }

  /** C's remainder. */
  function CMod(x: int, y: int): int
    requires y > 0
  {
    if x >= 0 then x % y else -((-x) % y)
  }

  function Unsigned(x: int): int {
    x % 0x1_0000_0000
  }

  /** The conversion of an unsigned value to a 32-bit int or long. */
  function Int32(x: int): int {
    var u := Unsigned(x);
    if u < 0x8000_0000 then u else u - 0x1_0000_0000
  }

  // ----- the date block of mbedtls_platform_gmtime_r -----

  /** The era, the day within it, the year of the era and the day of that year, which
      begins on 1 March. */
  function Era(shift: int): int {
    CDiv(if shift >= 0 then shift else shift - 146096, 146097)
  }

  function DayOfEra(shift: int): int {
    shift - Era(shift) * 146097
  }

  function YearOfEra(doe: int): int {
    (doe - doe / 1460 + doe / 36524 - doe / 146096) / 365
  }

  /** The first day of a year within its era. */
  function YearStart(yoe: int): int {
    365 * yoe + yoe / 4 - yoe / 100
  }

  function DayOfYear(doe: int): int {
    doe - YearStart(YearOfEra(doe))
  }

  function MarchMonth(doy: int): int {
    (5 * doy + 2) / 153
  }

  /** The month from 0 to 11, through an unsigned addition that wraps. */
  function Month0(mp: int): int {
    Unsigned(mp + Unsigned(if mp < 10 then 2 else -10))
  }

  /** The date of a day of a year that begins on 1 March, with the month from 1. */
  function MarchDate(year: int, doy: int): Date {
    var mp := MarchMonth(doy);
    var m := Month0(mp);
    Date(year + (if m <= 1 then 1 else 0), m + 1, doy - (153 * mp + 2) / 5 + 1)
  }

  /** The date of a day number counted from 1 January 1970. */
  function Civil(day: int): Date {
    var doe := DayOfEra(day + 719468);
    MarchDate(YearOfEra(doe) + Era(day + 719468) * 400, DayOfYear(doe))
  }

  // ----- TimeToLocal1904Minutes -----

  /** The day count of the date-to-minutes block, before it is scaled. */
  function DaysSince1904(time: Date): int {
    var m := time.month;
    var y := time.year - (if m <= 2 then 1 else 0);
    var era := CDiv(if y >= 0 then y else y - 399, 400);
    var yoe := y - era * 400;
    var doy := CDiv(153 * (m + (if m > 2 then -3 else 9)) + 2, 5) + time.day - 1;
    var doe := yoe * 365 + yoe / 4 - yoe / 100 + doy;
    era * 146097 + doe - 695361
  }

  /** `TimeToLocal1904Minutes`, in a 32-bit long. */
  function TimeToLocal1904Minutes(time: Date): int {
    Int32(DaysSince1904(time) * 1440)
  }

  // ----- proofs -----

  /** The leap years up to and including a year, counted from year 0. */
  function LeapsTo(year: int): int {
    year / 4 - year / 100 + year / 400
  }

  lemma FloorSteps(x: int)
    ensures x / 4 == (x - 1) / 4 + (if x % 4 == 0 then 1 else 0)
    ensures x / 100 == (x - 1) / 100 + (if x % 100 == 0 then 1 else 0)
    ensures x / 400 == (x - 1) / 400 + (if x % 400 == 0 then 1 else 0)
  {
  }

  lemma DivisibleByParts(x: int)
    ensures x % 100 == 0 ==> x % 4 == 0
    ensures x % 400 == 0 ==> x % 100 == 0
  {
  }

  lemma LeapStep(year: int)
    ensures LeapsTo(year) == LeapsTo(year - 1) + (if Leap(year) then 1 else 0)
  {
    FloorSteps(year);
    DivisibleByParts(year);
  }

  lemma {:induction false} DaysToYearClosed(year: int)
    ensures DaysToYear(year) == 365 * (year - 1) + LeapsTo(year - 1) - 695055
    decreases if year >= 1904 then year - 1904 else 1904 - year
  {
    if year > 1904 {
      DaysToYearClosed(year - 1);
      LeapStep(year - 1);
    } else if year < 1904 {
      DaysToYearClosed(year + 1);
      LeapStep(year);
    }
  }

  lemma DaysToMonthClosed(year: int, month: int)
    requires 1 <= month <= 12
    ensures DaysToMonth(year, month) ==
      if month <= 2 then (153 * (month + 9) + 2) / 5 - 306
      else (153 * (month - 3) + 2) / 5 + (if Leap(year) then 60 else 59)
  {
    assert DaysToMonth(year, 3) == if Leap(year) then 60 else 59;
    assert DaysToMonth(year, 5) == DaysToMonth(year, 3) + 61;
    assert DaysToMonth(year, 7) == DaysToMonth(year, 5) + 61;
    assert DaysToMonth(year, 9) == DaysToMonth(year, 7) + 62;
    assert DaysToMonth(year, 11) == DaysToMonth(year, 9) + 61;
  }

  // Day counts as the code sees them: `year` begins on 1 March, `mp` months after March.
  function MarchCount(year: int, mp: int, day: int): int {
    365 * year + LeapsTo(year) + (153 * mp + 2) / 5 + day - 1 - 695361
  }

  lemma DayCountFromMarch(date: Date)
    requires Valid(date)
    ensures DayCount(date) ==
      if date.month <= 2 then MarchCount(date.year - 1, date.month + 9, date.day)
      else MarchCount(date.year, date.month - 3, date.day)
  {
    DaysToYearClosed(date.year);
    DaysToMonthClosed(date.year, date.month);
    LeapStep(date.year);
  }

  /** Splitting off whole eras of 400 years. */
  lemma LeapsInEra(era: int, yoe: int)
    requires 0 <= yoe < 400
    ensures LeapsTo(400 * era + yoe) == 97 * era + yoe / 4 - yoe / 100
  {
    assert (400 * era + yoe) / 400 == era;
    assert (400 * era + yoe) / 100 == 4 * era + yoe / 100;
    assert (400 * era + yoe) / 4 == 100 * era + yoe / 4;
  }

  lemma EraBounds(shift: int)
    ensures 0 <= DayOfEra(shift) < 146097
  {
  }

  /** A day of an era in centuries, four-year cycles and a rest. */
  lemma YearOfEraInCycles(c: int, g: int, t: int) returns (x: int)
    requires 0 <= c <= 3 && 0 <= g <= 24 && 0 <= t <= 1460 && (g == 24 ==> t < 1460)
    ensures 0 <= x <= 3 && 0 <= t - 365 * x <= 365 && (t - 365 * x == 365 ==> x == 3 && g < 24)
    ensures var doe := 36524 * c + 1461 * g + t;
      YearOfEra(doe) == 100 * c + 4 * g + x && DayOfYear(doe) == t - 365 * x
  {
    var e := if 24 * c + g + t >= 1460 then 1 else 0;
    x := (t - e) / 365;
    CycleQuotients(c, g, t, e);
    CycleYears(c, g, x);
    assert 36500 * c + 1460 * g + t - e == 365 * (100 * c + 4 * g) + (t - e);
  }

  lemma CycleQuotients(c: int, g: int, t: int, e: int)
    requires 0 <= c <= 3 && 0 <= g <= 24 && 0 <= t <= 1460 && (g == 24 ==> t < 1460)
    requires e == if 24 * c + g + t >= 1460 then 1 else 0
    ensures var doe := 36524 * c + 1461 * g + t;
      doe / 36524 == c && doe / 1460 == 25 * c + g + e && doe / 146096 == 0
  {
  }

  lemma CycleYears(c: int, g: int, x: int)
    requires 0 <= c <= 3 && 0 <= g <= 24 && 0 <= x <= 3
    ensures YearStart(100 * c + 4 * g + x) == 36524 * c + 1461 * g + 365 * x
  {
  }

  lemma LeapAtCycleEnd(c: int, g: int)
    requires 0 <= c <= 3 && 0 <= g < 24
    ensures Leap(100 * c + 4 * g + 4)
  {
  }

  lemma Cycles(doe: int) returns (c: int, g: int, t: int)
    requires 0 <= doe < 146096
    ensures doe == 36524 * c + 1461 * g + t
    ensures 0 <= c <= 3 && 0 <= g <= 24 && 0 <= t <= 1460 && (g == 24 ==> t < 1460)
  {
    c := doe / 36524;
    var r := doe % 36524;
    g, t := r / 1461, r % 1461;
  }

  /** The year of the era is the one whose days contain the given day. */
  lemma YearOfEraCorrect(doe: int)
    requires 0 <= doe < 146097
    ensures 0 <= YearOfEra(doe) < 400
    ensures 0 <= DayOfYear(doe) <= 365
    ensures DayOfYear(doe) == 365 ==> Leap(YearOfEra(doe) + 1)
  {
    if doe < 146096 {
      var c, g, t := Cycles(doe);
      var x := YearOfEraInCycles(c, g, t);
      if x == 3 && g < 24 { LeapAtCycleEnd(c, g); }
    } else {
      LastDayOfEra();
    }
  }

  lemma LastDayOfEra()
    ensures YearOfEra(146096) == 399 && DayOfYear(146096) == 365 && Leap(400)
  {
  }

  /** The months of a year that begins in March. */
  lemma MonthFromMarch(doy: int)
    requires 0 <= doy <= 365
    ensures var mp := MarchMonth(doy); var d := doy - (153 * mp + 2) / 5 + 1;
      && 0 <= mp <= 11 && Month0(mp) == (if mp < 10 then mp + 2 else mp - 10)
      && 1 <= d <= (if mp == 11 then 29 else if mp == 1 || mp == 3 || mp == 6 || mp == 8 then 30 else 31)
      && (mp == 11 && d == 29 <==> doy == 365)
  {
  }

  lemma LeapInEra(era: int, year: int)
    ensures Leap(400 * era + year) == Leap(year)
  {
    var y := 400 * era + year;
    assert y / 400 == era + year / 400 && y / 100 == 4 * era + year / 100 && y / 4 == 100 * era + year / 4;
    assert y % 400 == y - 400 * (y / 400) && y % 100 == y - 100 * (y / 100) && y % 4 == y - 4 * (y / 4);
  }

  /** The months and days of a year that begins in March are those of the calendar. */
  lemma MarchDateCorrect(year: int, doy: int)
    requires 0 <= doy <= 365 && (doy == 365 ==> Leap(year + 1))
    ensures Valid(MarchDate(year, doy))
    ensures DayCount(MarchDate(year, doy)) == 365 * year + LeapsTo(year) + doy - 695361
  {
    MonthFromMarch(doy);
    DayCountFromMarch(MarchDate(year, doy));
  }

  lemma MarchDateInEra(era: int, yoe: int, doy: int)
    requires 0 <= yoe < 400 && 0 <= doy <= 365 && (doy == 365 ==> Leap(yoe + 1))
    ensures Valid(MarchDate(yoe + era * 400, doy))
    ensures DayCount(MarchDate(yoe + era * 400, doy)) == era * 146097 + YearStart(yoe) + doy - 695361
  {
    LeapInEra(era, yoe + 1);
    LeapsInEra(era, yoe);
    MarchDateCorrect(yoe + era * 400, doy);
  }

  /** The parts that the date block computes, and what is known about them. */
  lemma CivilParts(day: int) returns (era: int, yoe: int, doy: int)
    ensures Civil(day) == MarchDate(yoe + era * 400, doy)
    ensures day + 719468 == era * 146097 + YearStart(yoe) + doy
    ensures 0 <= yoe < 400 && 0 <= doy <= 365 && (doy == 365 ==> Leap(yoe + 1))
    ensures doy == DayOfYear(DayOfEra(day + 719468))
  {
    var doe := DayOfEra(day + 719468);
    EraBounds(day + 719468);
    YearOfEraCorrect(doe);
    era, yoe, doy := Era(day + 719468), YearOfEra(doe), DayOfYear(doe);
  }

  /** Every day number becomes a valid date, and the date of that very day. */
  lemma CivilCorrect(day: int)
    ensures Valid(Civil(day)) && DayCount(Civil(day)) == day + EPOCH
  {
    var era, yoe, doy := CivilParts(day);
    MarchDateInEra(era, yoe, doy);
  }

  /** The truncating division with its adjustment is the floor. */
  lemma EraOfYear(y: int)
    ensures CDiv(if y >= 0 then y else y - 399, 400) == y / 400
  {
  }

  /** The date-to-minutes block counts days from 1 January 1904. */
  lemma DaysSince1904Correct(date: Date)
    requires Valid(date)
    ensures DaysSince1904(date) == DayCount(date)
  {
    var y := date.year - (if date.month <= 2 then 1 else 0);
    EraOfYear(y);
    LeapsInEra(y / 400, y % 400);
    DayCountFromMarch(date);
  }

  // ----- order and round trips -----

  lemma {:induction false} MonthsWithinYear(year: int, month: int)
    requires 1 <= month <= 12
    ensures 0 <= DaysToMonth(year, month) && DaysToMonth(year, month) + MonthLength(year, month) <= YearLength(year)
  {
    DaysToMonthClosed(year, month);
  }

  lemma {:induction false} YearsIncrease(a: int, b: int)
    requires a < b
    ensures DaysToYear(a) + YearLength(a) <= DaysToYear(b)
    decreases b - a
  {
    if a + 1 < b { YearsIncrease(a + 1, b); }
  }

  lemma {:induction false} MonthsIncrease(year: int, a: int, b: int)
    requires 1 <= a < b <= 12
    ensures DaysToMonth(year, a) + MonthLength(year, a) <= DaysToMonth(year, b)
    decreases b - a
  {
    if a + 1 < b { MonthsIncrease(year, a, b - 1); }
  }

  lemma DayCountIncreases(a: Date, b: Date)
    requires Valid(a) && Valid(b) && Before(a, b)
    ensures DayCount(a) < DayCount(b)
  {
    MonthsWithinYear(a.year, a.month);
    MonthsWithinYear(b.year, b.month);
    if a.year < b.year {
      YearsIncrease(a.year, b.year);
    } else if a.month < b.month {
      MonthsIncrease(a.year, a.month, b.month);
    }
  }

  /** A day count belongs to one date. */
  lemma SameDate(a: Date, b: Date)
    requires Valid(a) && Valid(b) && DayCount(a) == DayCount(b)
    ensures a == b
  {
    if Before(a, b) { DayCountIncreases(a, b); }
    if Before(b, a) { DayCountIncreases(b, a); }
  }

  /** A valid date survives the conversion to a day number and back. */
  lemma DateRoundTrip(date: Date)
    requires Valid(date)
    ensures Civil(DaysSince1904(date) - EPOCH) == date
  {
    DaysSince1904Correct(date);
    var day := DaysSince1904(date) - EPOCH;
    CivilCorrect(day);
    SameDate(Civil(day), date);
  }

  /** A day number survives the conversion to a date and back. */
  lemma DayRoundTrip(day: int)
    ensures DaysSince1904(Civil(day)) == day + EPOCH
  {
    CivilCorrect(day);
    DaysSince1904Correct(Civil(day));
  }

  /** Order of dates is order of day counts. */
  lemma NotBefore(a: Date, b: Date)
    requires Valid(a) && Valid(b)
    ensures Before(a, b) <==> DayCount(a) < DayCount(b)
  {
    if Before(a, b) {
      DayCountIncreases(a, b);
    } else if a != b {
      DayCountIncreases(b, a);
    }
  }

  const FIRST := Date(-2180, 12, 8)
  const LAST := Date(5987, 1, 23)

  lemma Boundaries()
    ensures DayCount(FIRST) == -1491308 && DayCount(LAST) == 1491308
  {
    DayCountFromMarch(FIRST);
    DayCountFromMarch(LAST);
  }

  lemma MinutesFit(days: int)
    ensures Int32(days * 1440) == days * 1440 <==> -1491308 <= days <= 1491308
  {
  }

  /** The minutes fit a 32-bit long exactly for the dates from FIRST to LAST. */
  lemma MinutesFitLong(date: Date)
    requires Valid(date)
    ensures TimeToLocal1904Minutes(date) == DayCount(date) * 1440
       <==> !Before(date, FIRST) && !Before(LAST, date)
  {
    DaysSince1904Correct(date);
    MinutesFit(DayCount(date));
    Boundaries();
    NotBefore(date, FIRST);
    NotBefore(LAST, date);
  }

  /** For every date the result is the minutes, modulo 2^32, in the range of a signed long. */
  lemma MinutesWrap(date: Date)
    requires Valid(date)
    ensures var minutes := TimeToLocal1904Minutes(date);
      -0x8000_0000 <= minutes < 0x8000_0000 && (minutes - DayCount(date) * 1440) % 0x1_0000_0000 == 0
  {
    DaysSince1904Correct(date);
    WrapsToLong(DayCount(date) * 1440);
  }

  lemma WrapsToLong(x: int)
    ensures -0x8000_0000 <= Int32(x) < 0x8000_0000 && (Int32(x) - x) % 0x1_0000_0000 == 0
  {
  }

  /** Between those dates a later date has more minutes. */
  lemma MinutesIncrease(a: Date, b: Date)
    requires Valid(a) && Valid(b) && Before(a, b) && !Before(a, FIRST) && !Before(LAST, b)
    ensures TimeToLocal1904Minutes(a) < TimeToLocal1904Minutes(b)
  {
    DayCountIncreases(a, b);
    Boundaries();
    NotBefore(LAST, a);
    NotBefore(LAST, b);
    MinutesFitLong(a);
    NotBefore(b, FIRST);
    NotBefore(a, FIRST);
    MinutesFitLong(b);
  }

  // ----- mbedtls_platform_gmtime_r -----

  const NEWTON_EPOCH_DELTA := 2082841761

  function Weekday(day: int): int {
    if day >= -4 then CMod(day + 4, 7) else CMod(day + 5, 7) + 6
  }

  /** The adjusted truncating remainder is the residue modulo 7. */
  lemma WeekdayIsResidue(day: int)
    ensures Weekday(day) == (day + 4) % 7
  {
  }

  lemma NextResidue(x: int)
    ensures 0 <= x % 7 < 7 && (x + 1) % 7 == (x % 7 + 1) % 7
  {
  }

  /** Day 0 is a Thursday, and the weekdays follow one another for every day number. */
  lemma WeekdayCycles(day: int)
    ensures Weekday(0) == 4 && 0 <= Weekday(day) < 7
    ensures Weekday(day + 1) == (Weekday(day) + 1) % 7
  {
    WeekdayIsResidue(0);
    WeekdayIsResidue(day);
    WeekdayIsResidue(day + 1);
    NextResidue(day + 4);
  }

  /** The field tm_yday is the day of the year that begins on 1 March: it is C's, which
      counts from 1 January, for no day at all. */
  lemma YdayIsNeverFromJanuary(day: int)
    ensures var date := Civil(day);
      Valid(date) && DayOfYear(DayOfEra(day + 719468)) != DaysToMonth(date.year, date.month) + date.day - 1
  {
    CivilCorrect(day);
    var era, yoe, doy := CivilParts(day);
    MonthFromMarch(doy);
    DaysToMonthClosed(Civil(day).year, Civil(day).month);
  }

  /** It is the number of days since the first of March. */
  lemma YdayIsFromMarch(day: int)
    ensures var date := Civil(day);
      var march := Date(if date.month <= 2 then date.year - 1 else date.year, 3, 1);
      Valid(date) && Valid(march) && DayOfYear(DayOfEra(day + 719468)) == DayCount(date) - DayCount(march)
  {
    var era, yoe, doy := CivilParts(day);
    MonthFromMarch(doy);
    MonthFromMarch(0);
    MarchDateInEra(era, yoe, doy);
    MarchDateInEra(era, yoe, 0);
  }

  /** C's broken-down time. */
  class Tm {
    var tm_sec: int
    var tm_min: int
    var tm_hour: int
    var tm_mday: int
    var tm_mon: int
    var tm_year: int
    var tm_wday: int
    var tm_yday: int
    var tm_isdst: bool

    constructor () {
    }

    /** The date fields, with the month and the year counted as the calendar does. */
    function CivilDate(): Date
      reads this
    {
      Date(tm_year + 1900, tm_mon + 1, tm_mday)
    }
  }

  /** Fills `tm` from the Newton clock `tt` and the offset from Greenwich: the seconds since
      1970 that the 32-bit clock gives are the time of day and the days of the date. */
  method GmtimeR(tt: int, gmtdelta: int, tm: Tm)
    modifies tm
    ensures 0 <= tm.tm_sec < 60 && 0 <= tm.tm_min < 60 && 0 <= tm.tm_hour < 24
    ensures Valid(tm.CivilDate()) && !tm.tm_isdst
    ensures var day := DayCount(tm.CivilDate()) - EPOCH;
      && Unsigned(tt - gmtdelta - 2082841761) == day * 86400 + tm.tm_hour * 3600 + tm.tm_min * 60 + tm.tm_sec
      && tm.tm_wday == Weekday(day) && tm.tm_yday == DayOfYear(DayOfEra(day + 719468))
  {
    var gmtSec := Unsigned(tt - gmtdelta - NEWTON_EPOCH_DELTA);
    var sec, min, hour, gmtDay := ClockTime(gmtSec);
    var date, year, wday, doy := DateBlock(gmtDay);
    tm.tm_sec := sec;
    tm.tm_min := min;
    tm.tm_hour := hour;
    tm.tm_mday := date.day;
    tm.tm_mon := date.month - 1;
    tm.tm_year := year;
    tm.tm_wday := wday;
    tm.tm_yday := doy;
    tm.tm_isdst := false;
    assert tm.CivilDate() == date;
  }

  /** The time of day and the day number. */
  method ClockTime(gmtSec: int) returns (sec: int, min: int, hour: int, gmtDay: int)
    requires 0 <= gmtSec < 0x1_0000_0000
    ensures 0 <= sec < 60 && 0 <= min < 60 && 0 <= hour < 24 && 0 <= gmtDay <= 49710
    ensures gmtSec == gmtDay * 86400 + hour * 3600 + min * 60 + sec
  {
    sec := gmtSec % 60;
    var gmtMin := gmtSec / 60;
    min := gmtMin % 60;
    var gmtHour := gmtMin / 60;
    hour := gmtHour % 24;
    gmtDay := gmtHour / 24;
  }

  /** The date, with its year as it is stored, and the days of the week and the year. */
  method DateBlock(day: int) returns (date: Date, year: int, wday: int, doy: int)
    requires 0 <= day <= 49710
    ensures Valid(date) && DayCount(date) == day + EPOCH && year == date.year - 1900
    ensures wday == Weekday(day) && doy == DayOfYear(DayOfEra(day + 719468))
  {
    CivilCorrect(day);
    ClockYears(Civil(day));
    date, wday, doy := Civil(day), Weekday(day), DayOfYear(DayOfEra(day + 719468));
    year := YearField(date.year);
  }

  /** The conversions of the year to unsigned and back to int. */
  method YearField(year: int) returns (tm_year: int)
    requires 0 <= year < 0x1_0000
    ensures tm_year == year - 1900
  {
    tm_year := Int32(Unsigned(year) - 1900);
  }

  /** The clock's days stay in years that survive the conversions of tm_year. */
  lemma ClockYears(date: Date)
    requires Valid(date) && EPOCH <= DayCount(date) <= EPOCH + 49710
    ensures 0 <= date.year < 0x1_0000
  {
    DaysToYearClosed(date.year);
    MonthsWithinYear(date.year, date.month);
  }
}
