/**
  The RTC driver's conversions between a u32 count of seconds since 1970 and a
  Gregorian date and time, against a day-by-day calendar and against the
  expression of section 4.16, "Seconds Since the Epoch", of POSIX.1-2017.
*/
module Rtc {
  const TWO32: int := 0x1_0000_0000
  const DAY: int := 86400

  // ----- the calendar -----

  datatype Date = Date(year: int, month: int, day: int)
  datatype Time = Time(date: Date, hour: int, min: int, sec: int)

  predicate Leap(y: int) {
    y % 4 == 0 && (y % 100 != 0 || y % 400 == 0)
  }

  function DaysInMonth(y: int, m: int): int {
    if m == 2 then (if Leap(y) then 29 else 28)
    else if m == 4 || m == 6 || m == 9 || m == 11 then 30
    else 31
  }

  predicate ValidDate(x: Date) {
    1 <= x.month <= 12 && 1 <= x.day <= DaysInMonth(x.year, x.month)
  }

  predicate ValidTime(t: Time) {
    ValidDate(t.date) && 0 <= t.hour < 24 && 0 <= t.min < 60 && 0 <= t.sec < 60
  }

  function NextDay(x: Date): Date {
    if x.day < DaysInMonth(x.year, x.month) then x.(day := x.day + 1)
    else if x.month < 12 then Date(x.year, x.month + 1, 1)
    else Date(x.year + 1, 1, 1)
  }

  // The n-th day after 1 January 1970, one day at a time.
  function DateOfDay(n: nat): Date {
    if n == 0 then Date(1970, 1, 1) else NextDay(DateOfDay(n - 1))
  }

  // tm_yday: the days of the year before this date.
  function DaysBeforeMonth(y: int, m: int): int
    requires 1 <= m <= 12
  {
    if m == 1 then 0 else DaysBeforeMonth(y, m - 1) + DaysInMonth(y, m - 1)
  }

  function Posix(t: Time): int
    requires ValidDate(t.date)
  {
    var tm_year := t.date.year - 1900;
    var tm_yday := DaysBeforeMonth(t.date.year, t.date.month) + t.date.day - 1;
    t.sec + t.min * 60 + t.hour * 3600 + tm_yday * 86400 + (tm_year - 70) * 31536000
    + ((tm_year - 69) / 4) * 86400 - ((tm_year - 1) / 100) * 86400 + ((tm_year + 299) / 400) * 86400
  }

  // ----- the driver, in u32 arithmetic -----

  function U32(x: int): int { x % TWO32 }

  // max77620_rtc_epoch_to_date
  function EpochToDate(epoch: int): Time {
    var sec := epoch % 60;
    var minutes := epoch / 60;
    var min := minutes % 60;
    var hours := minutes / 60;
    var hour := hours % 24;
    var days := hours / 24;
    Time(DaysToDate(days), hour, min, sec)
  }

  function DaysToDate(days: int): Date {
    var century := U32((4 * days + 102032) / 146097 + 15);
    var tmp := U32(days + 2442113 + century - century / 4);
    var year := U32(U32(20 * tmp) - 2442) / 7305;
    var edays := U32(U32(tmp - U32(365 * year)) - year / 4);
    var month := U32(edays * 1000) / 30601;
    var day := U32(U32(edays - U32(month * 30)) - U32(month * 601) / 1000);
    if month < 14 then Date(U32(year - 4716), U32(month - 1), day) else Date(U32(year - 4715), U32(month - 13), day)
  }

  // The day count of max77620_rtc_date_to_epoch.
  function DayCount(x: Date): int {
    var month := if x.month < 3 then x.month + 12 else x.month;
    var year := if x.month < 3 then U32(x.year - 1) else x.year;
    var d1 := U32(U32(U32(U32(365 * year) + year / 4) - year / 100) + year / 400);
    var d2 := U32(d1 + U32(U32(30 * month + 3 * (month + 1) / 5) + x.day));
    U32(d2 - 719561)
  }

  // max77620_rtc_date_to_epoch
  function DateToEpoch(t: Time): int {
    U32(U32(DayCount(t.date) * 86400) + U32(3600 * t.hour + 60 * t.min + t.sec))
  }

  // ----- the same formulas over the integers -----

  // The day number, corrected for the century years that are not leap.
  function Corrected(days: int): int {
    var century := (4 * days + 102032) / 146097 + 15;
    days + 2442113 + century - century / 4
  }

  // The years run from March to February, 4716 ahead.
  function RunningYear(days: int): int { (20 * Corrected(days) - 2442) / 7305 }

  function DayOfYear(days: int): int { Corrected(days) - 365 * RunningYear(days) - RunningYear(days) / 4 }

  function RunningMonth(edays: int): int { edays * 1000 / 30601 }

  function OfRunning(year: int, edays: int): Date {
    var month := RunningMonth(edays);
    var day := edays - month * 30 - month * 601 / 1000;
    if month < 14 then Date(year - 4716, month - 1, day) else Date(year - 4715, month - 13, day)
  }

  function DayToDate(days: int): Date { OfRunning(RunningYear(days), DayOfYear(days)) }

  // Days before 1 March of year y, up to a constant.
  function YearStart(y: int): int {
    365 * y + y / 4 - y / 100 + y / 400
  }

  function DateToDay(x: Date): int {
    var month := if x.month < 3 then x.month + 12 else x.month;
    var year := if x.month < 3 then x.year - 1 else x.year;
    YearStart(year) + 30 * month + 3 * (month + 1) / 5 + x.day - 719561
  }

  const LAST_DAY: int := 49710   // (2^32 - 1) / 86400

  lemma CorrectedIs(d: int)
    requires 0 <= d <= LAST_DAY
    ensures Corrected(d) == d + (if d <= 47540 then 2442125 else 2442126)
  {
  }

  // The running year goes from 1 March, day 123, to the end of February.
  lemma RunningYearIs(d: int)
    requires 0 <= d <= LAST_DAY
    ensures var y, e := RunningYear(d) - 4716, DayOfYear(d);
            && 1969 <= y <= 2106
            && (d <= 47540 <==> y < 2100)
            && 123 <= e <= (if Leap(y + 1) then 488 else 487)
  {
    CorrectedIs(d);
    var t := Corrected(d);
    var y := RunningYear(d);
    assert 7305 * y <= 20 * t - 2442 < 7305 * (y + 1);
    var a, b := y / 4, y % 4;
    assert y == 4 * a + b;
    var r := t - 1461 * a;
    assert DayOfYear(d) == r - 365 * b;
    assert 4 * 123 <= 4 * (r - 365 * b) + 3;
    assert b != 3 ==> r - 365 * b <= 487;
    assert r - 365 * b <= 488;
  }

  // The first day of each running month.
  function MonthStart(m: int): int { m * 30 + m * 601 / 1000 }

  lemma RunningMonthIs(e: int)
    requires 123 <= e <= 488
    ensures 4 <= RunningMonth(e) <= 15
    ensures MonthStart(RunningMonth(e)) < e <= MonthStart(RunningMonth(e) + 1)
  {
  }

  // Running months 4 to 15 are March to February.
  lemma MonthLengths(m: int)
    requires 4 <= m <= 15
    ensures 3 * m / 5 == m * 601 / 1000
    ensures m < 15 ==> MonthStart(m + 1) - MonthStart(m) == DaysInMonth(1970, if m < 14 then m - 1 else m - 13)
    ensures m == 15 ==> MonthStart(m) == 459
  {
    assert m == 4 || m == 5 || m == 6 || m == 7 || m == 8 || m == 9 || m == 10 || m == 11 || m == 12 || m == 13 || m == 14 || m == 15;
  }

  lemma OfRunningIs(y: int, e: int)
    requires 123 <= e <= (if Leap(y + 1) then 488 else 487)
    ensures ValidDate(OfRunning(y + 4716, e))
    ensures DateToDay(OfRunning(y + 4716, e)) == YearStart(y) + e - 719591
  {
    RunningMonthIs(e);
    MonthLengths(RunningMonth(e));
  }

  lemma CenturyCount(y: int)
    requires 1969 <= y <= 2106
    ensures y / 100 - y / 400 == (if y < 2100 then 15 else 16)
  {
  }

  // Day by day, the conversion yields a valid date, and the reverse one finds the day again.
  lemma DayRoundTrip(d: int)
    requires 0 <= d <= LAST_DAY
    ensures ValidDate(DayToDate(d)) && DateToDay(DayToDate(d)) == d
  {
    hide OfRunning, DateToDay, ValidDate, RunningYear, Corrected, Leap;
    var y := RunningYear(d) - 4716;
    RunningYearIs(d);
    OfRunningIs(y, DayOfYear(d));
    CorrectedIs(d);
    CenturyCount(y);
    assert (y + 4716) / 4 == y / 4 + 1179;
  }

  // ----- distinct dates have distinct day numbers -----

  predicate Before(x: Date, y: Date) {
    x.year < y.year || (x.year == y.year && (x.month < y.month || (x.month == y.month && x.day < y.day)))
  }

  lemma DivStep(y: int)
    ensures (y + 1) / 4 - y / 4 == (if (y + 1) % 4 == 0 then 1 else 0)
    ensures (y + 1) / 100 - y / 100 == (if (y + 1) % 100 == 0 then 1 else 0)
    ensures (y + 1) / 400 - y / 400 == (if (y + 1) % 400 == 0 then 1 else 0)
  {
  }

  lemma Multiples(z: int)
    ensures z % 100 == 0 ==> z % 4 == 0
    ensures z % 400 == 0 ==> z % 100 == 0
  {
    if z % 100 == 0 { TimesFour(z / 100); }
    if z % 400 == 0 { TimesHundred(z / 400); }
  }

  lemma TimesFour(q: int)
    ensures (100 * q) % 4 == 0
  {
  }

  lemma TimesHundred(q: int)
    ensures (400 * q) % 100 == 0
  {
  }

  // Each running year ends where the next one starts.
  lemma YearStartStep(y: int)
    ensures YearStart(y + 1) - YearStart(y) == (if Leap(y + 1) then 366 else 365)
  {
    DivStep(y);
    Multiples(y + 1);
  }

  lemma {:induction false} YearStartMonotone(y: int, z: int)
    requires y <= z
    ensures YearStart(y) <= YearStart(z)
    decreases z - y
  {
  }

  // The running year a date belongs to, and its place in it.
  function MarchYear(x: Date): int { if x.month < 3 then x.year - 1 else x.year }

  lemma Placement(x: Date)
    requires ValidDate(x)
    ensures YearStart(MarchYear(x)) + 93 <= DateToDay(x) + 719561 < YearStart(MarchYear(x) + 1) + 93
  {
    YearStartStep(MarchYear(x));
  }

  lemma DateToDayMonotone(x: Date, y: Date)
    requires ValidDate(x) && ValidDate(y) && Before(x, y)
    ensures DateToDay(x) < DateToDay(y)
  {
    if MarchYear(x) < MarchYear(y) {
      Placement(x);
      Placement(y);
      YearStartMonotone(MarchYear(x) + 1, MarchYear(y));
    } else {
      assert MarchYear(x) == MarchYear(y);
    }
  }

  lemma DateToDayInjective(x: Date, y: Date)
    requires ValidDate(x) && ValidDate(y) && DateToDay(x) == DateToDay(y)
    ensures x == y
  {
    if Before(x, y) { DateToDayMonotone(x, y); }
    if Before(y, x) { DateToDayMonotone(y, x); }
  }

  lemma NextDayIs(x: Date)
    requires ValidDate(x)
    ensures ValidDate(NextDay(x)) && DateToDay(NextDay(x)) == DateToDay(x) + 1
  {
    hide Leap, YearStart;
    if x.day == DaysInMonth(x.year, x.month) {
      if x.month == 2 {
        YearStartStep(x.year - 1);
      } else {
        MonthLengths(if x.month < 2 then x.month + 13 else x.month + 1);
      }
    }
  }

  lemma FirstDay()
    ensures ValidDate(Date(1970, 1, 1)) && DateToDay(Date(1970, 1, 1)) == 0
  {
  }

  // The closed formulas agree with counting days on a calendar.
  lemma {:induction false} CalendarAgrees(n: nat)
    requires n <= LAST_DAY
    ensures DayToDate(n) == DateOfDay(n)
    decreases n
  {
    hide DayToDate, DateToDay, ValidDate, NextDay;
    DayRoundTrip(n);
    if n == 0 {
      FirstDay();
      DateToDayInjective(DayToDate(0), Date(1970, 1, 1));
    } else {
      CalendarAgrees(n - 1);
      DayRoundTrip(n - 1);
      NextDayIs(DayToDate(n - 1));
      DateToDayInjective(DayToDate(n), NextDay(DayToDate(n - 1)));
    }
  }

  // ----- seconds -----

  function DayNumber(e: int): int { e / DAY }

  lemma ClockSplit(e: int)
    requires 0 <= e < TWO32
    ensures e / 60 / 60 / 24 == DayNumber(e) && 0 <= DayNumber(e) <= LAST_DAY
    ensures e == DayNumber(e) * DAY + 3600 * (e / 60 / 60 % 24) + 60 * (e / 60 % 60) + e % 60
  {
  }

  lemma Fits(x: int)
    requires 0 <= x < TWO32
    ensures U32(x) == x
  {
  }

  // Every sum, difference and product that epoch_to_date forms for day d, over the integers.
  function Intermediates(d: int): seq<int> {
    var century := (4 * d + 102032) / 146097 + 15;
    var tmp, year, edays := Corrected(d), RunningYear(d), DayOfYear(d);
    var month := RunningMonth(edays);
    [century, tmp, 20 * tmp, 20 * tmp - 2442, 365 * year, tmp - 365 * year, edays, edays * 1000,
     month * 30, edays - month * 30, month * 601, edays - month * 30 - month * 601 / 1000]
    + (if month < 14 then [year - 4716, month - 1] else [year - 4715, month - 13])
  }

  // None of them leaves the u32 range, so epoch_to_date computes the integer formulas.
  lemma EpochToDateExact(e: int)
    requires 0 <= e < TWO32
    ensures forall i :: 0 <= i < |Intermediates(DayNumber(e))| ==> 0 <= Intermediates(DayNumber(e))[i] < TWO32
    ensures EpochToDate(e) == Time(DayToDate(DayNumber(e)), e / 60 / 60 % 24, e / 60 % 60, e % 60)
  {
    hide DaysToDate, DayToDate, Intermediates;
    ClockSplit(e);
    NoneWraps(DayNumber(e));
    DaysToDateExact(DayNumber(e));
  }

  lemma NoneWraps(d: int)
    requires 0 <= d <= LAST_DAY
    ensures forall i :: 0 <= i < |Intermediates(d)| ==> 0 <= Intermediates(d)[i] < TWO32
  {
    hide RunningYear, RunningMonth, Leap;
    RangesOf(d);
  }

  lemma DaysToDateExact(d: int)
    requires 0 <= d <= LAST_DAY
    ensures DaysToDate(d) == DayToDate(d)
  {
    hide U32, Leap;
    var century := (4 * d + 102032) / 146097 + 15;
    var tmp, year, edays := Corrected(d), RunningYear(d), DayOfYear(d);
    var month := RunningMonth(edays);
    RangesOf(d);
    Fits(century); Fits(d + 2442113 + century - century / 4);
    Fits(20 * tmp); Fits(20 * tmp - 2442);
    Fits(365 * year); Fits(tmp - 365 * year); Fits(edays); Fits(edays * 1000);
    Fits(month * 30); Fits(month * 601); Fits(edays - month * 30); Fits(edays - month * 30 - month * 601 / 1000);
    if month < 14 { Fits(year - 4716); Fits(month - 1); } else { Fits(year - 4715); Fits(month - 13); }
  }

  lemma RangesOf(d: int)
    requires 0 <= d <= LAST_DAY
    ensures 0 <= (4 * d + 102032) / 146097 <= 2
    ensures 2442125 <= Corrected(d) <= 2491836
    ensures 6685 <= RunningYear(d) <= 6822
    ensures 123 <= DayOfYear(d) <= 488
    ensures 4 <= RunningMonth(DayOfYear(d)) <= 15
    ensures MonthStart(RunningMonth(DayOfYear(d))) <= DayOfYear(d)
  {
  }

  lemma EpochToDateValid(e: int)
    requires 0 <= e < TWO32
    ensures ValidTime(EpochToDate(e)) && EpochToDate(e).date == DateOfDay(DayNumber(e))
  {
    hide DayToDate, ValidDate, EpochToDate;
    ClockSplit(e);
    EpochToDateExact(e);
    DayRoundTrip(DayNumber(e));
    CalendarAgrees(DayNumber(e));
  }

  function Seconds(t: Time): int { DateToDay(t.date) * DAY + 3600 * t.hour + 60 * t.min + t.sec }

  // Counting from 1 January or from 1 March places a date the same.
  lemma YearDay(x: Date)
    requires ValidDate(x)
    ensures DateToDay(x) == YearStart(x.year - 1) + DaysBeforeMonth(x.year, x.month) + x.day - 719163
  {
    YearStartStep(x.year - 1);
    MonthsBefore(x.year, x.month);
  }

  lemma MonthsBefore(y: int, m: int)
    requires 1 <= m <= 12
    ensures DaysBeforeMonth(y, m) == (if m == 1 then 0 else if m == 2 then 31 else 30 * m + 3 * (m + 1) / 5 - 33 + (if Leap(y) then 1 else 0))
  {
    if m > 1 { MonthsBefore(y, m - 1); }
  }

  lemma SecondsPosix(t: Time)
    requires ValidTime(t)
    ensures Seconds(t) == Posix(t)
  {
    hide DateToDay, Leap, DaysInMonth;
    YearDay(t.date);
    var y := t.date.year - 1;
    assert (y + 1 - 1900 - 69) / 4 == y / 4 - 492;
    assert (y + 1 - 1900 - 1) / 100 == y / 100 - 19;
    assert (y + 1 - 1900 + 299) / 400 == y / 400 - 4;
  }

  lemma SinceEpoch(x: Date)
    requires ValidDate(x)
    ensures x.year < 1970 <==> DateToDay(x) < 0
  {
    hide DateToDay;
    FirstDay();
    var first := Date(1970, 1, 1);
    if Before(x, first) { DateToDayMonotone(x, first); }
    if Before(first, x) { DateToDayMonotone(first, x); }
  }

  lemma WrapSum(d: int, s: int)
    ensures U32(U32(d * DAY) + U32(s)) == (d * DAY + s) % TWO32
  {
  }

  lemma DayCountExact(x: Date)
    requires 1 <= x.month <= 12 && 1 <= x.day <= 31 && 1970 <= x.year < 0x10000 && 0 <= DateToDay(x)
    ensures DayCount(x) == DateToDay(x)
  {
    hide U32;
    var month := if x.month < 3 then x.month + 12 else x.month;
    var year := MarchYear(x);
    Fits(year);
    Fits(365 * year); Fits(365 * year + year / 4); Fits(365 * year + year / 4 - year / 100); Fits(YearStart(year));
    var s := 30 * month + 3 * (month + 1) / 5;
    Fits(s); Fits(s + x.day); Fits(YearStart(year) + s + x.day); Fits(DateToDay(x));
  }

  // date_to_epoch is the POSIX expression modulo 2^32.
  lemma DateToEpochPosix(t: Time)
    requires ValidTime(t) && 1970 <= t.date.year < 0x10000
    ensures DateToEpoch(t) == Posix(t) % TWO32
  {
    hide Posix, U32, DayCount, DateToDay, DaysInMonth;
    SecondsPosix(t);
    SinceEpoch(t.date);
    MonthBound(t.date.year, t.date.month);
    DayCountExact(t.date);
    WrapSum(DateToDay(t.date), 3600 * t.hour + 60 * t.min + t.sec);
  }

  lemma MonthBound(y: int, m: int)
    ensures DaysInMonth(y, m) <= 31
  {
  }

  // Every u32 instant survives the trip to a date and back.
  lemma EpochRoundTrip(e: int)
    requires 0 <= e < TWO32
    ensures DateToEpoch(EpochToDate(e)) == e
  {
    hide DateToEpoch, EpochToDate, Posix, ValidDate, DayToDate, DateToDay;
    var t := EpochToDate(e);
    EpochToDateSeconds(e);
    DateToEpochPosix(t);
  }

  lemma EpochToDateSeconds(e: int)
    requires 0 <= e < TWO32
    ensures ValidTime(EpochToDate(e)) && Posix(EpochToDate(e)) == e
    ensures 1970 <= EpochToDate(e).date.year <= 2106
  {
    hide EpochToDate, Posix, ValidDate, DayToDate, DateToDay;
    var t := EpochToDate(e);
    EpochToDateValid(e);
    EpochToDateExact(e);
    ClockSplit(e);
    DayRoundTrip(DayNumber(e));
    SecondsPosix(t);
    SinceEpoch(t.date);
    LastDay();
    if Before(Date(2106, 2, 7), t.date) {
      DateToDayMonotone(Date(2106, 2, 7), t.date);
    }
  }

  lemma LastDay()
    ensures ValidDate(Date(2106, 2, 7)) && DateToDay(Date(2106, 2, 7)) == LAST_DAY
  {
  }

  // A valid date-time from 1970 on survives the reverse trip exactly when the
  // number of seconds fits in a u32, that is up to 06:28:15 on 7 February 2106.
  lemma DateRoundTrip(t: Time)
    requires ValidTime(t) && 1970 <= t.date.year < 0x10000
    ensures EpochToDate(DateToEpoch(t)) == t <==> Posix(t) < TWO32
  {
    hide DateToEpoch, EpochToDate, Posix, ValidDate;
    var e := DateToEpoch(t);
    DateToEpochPosix(t);
    EpochToDateSeconds(e);
    if Posix(t) < TWO32 {
      PosixNonNegative(t);
      PosixInjective(t, EpochToDate(e));
    }
  }

  lemma PosixNonNegative(t: Time)
    requires ValidTime(t) && 1970 <= t.date.year
    ensures Posix(t) >= 0
  {
    hide DateToDay, Posix;
    SecondsPosix(t);
    SinceEpoch(t.date);
  }

  lemma PosixInjective(t: Time, u: Time)
    requires ValidTime(t) && ValidTime(u) && Posix(t) == Posix(u)
    ensures t == u
  {
    hide DateToDay, Posix;
    SecondsPosix(t);
    SecondsPosix(u);
    DateToDayInjective(t.date, u.date);
  }
}
