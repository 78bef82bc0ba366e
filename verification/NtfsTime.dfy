/** Conversion between NTFS time stamps (100 ns ticks since 1601-01-01) and the firmware's
    calendar record (src/ntfs_time.c).  The driver splits a tick count with a year loop and a
    month loop, and joins it again with a closed form.  Both are compared here with a third
    thing, the plain calendar: add up the lengths of the years and months that went by. */
module NtfsTime {
  import opened Arith

  const TWO_TO_THE_64 := 0x1_0000_0000_0000_0000
  const EPOCH_DELTA := 116444736000000000
  const TICKS_PER_SECOND := 10000000
  const UNSPECIFIED_TIMEZONE := 0x07FF

  datatype EfiTime = EfiTime(
    year: nat, month: nat, day: nat, hour: nat, minute: nat, second: nat,
    nanosecond: nat, timeZone: int, daylight: nat)

  const ZERO_TIME := EfiTime(0, 0, 0, 0, 0, 0, 0, 0, 0)

  // ---------------------------------------------------------------- the calendar

  predicate IsLeap(year: nat) {
    (year % 4 == 0 && year % 100 != 0) || year % 400 == 0
  }

  function YearLength(year: nat): nat {
    if IsLeap(year) then 366 else 365
  }

  function MonthLength(year: nat, month: nat): nat
    requires 1 <= month <= 12
  {
    if month == 2 then (if IsLeap(year) then 29 else 28)
    else if month == 4 || month == 6 || month == 9 || month == 11 then 30
    else 31
  }

  function DaysBeforeYear(year: nat): nat
    requires 1970 <= year
  {
    if year == 1970 then 0 else DaysBeforeYear(year - 1) + YearLength(year - 1)
  }

  function DaysBeforeMonth(year: nat, month: nat): nat
    requires 1 <= month <= 13
  {
    if month == 1 then 0 else DaysBeforeMonth(year, month - 1) + MonthLength(year, month - 1)
  }

  /** Days since 1970-01-01, by adding up whole years and whole months. */
  function DayNumber(year: nat, month: nat, day: nat): nat
    requires 1970 <= year && 1 <= month <= 12 && 1 <= day
  {
    DaysBeforeYear(year) + DaysBeforeMonth(year, month) + day - 1
  }

  predicate IsDate(e: EfiTime) {
    && 1970 <= e.year < 0x1_0000
    && 1 <= e.month <= 12
    && 1 <= e.day <= MonthLength(e.year, e.month)
    && e.hour < 24 && e.minute < 60 && e.second < 60
    && e.nanosecond < 1000000000
  }

  /** The unbounded number of ticks a date stands for. */
  function CalendarTicks(e: EfiTime): nat
    requires IsDate(e)
  {
    (DayNumber(e.year, e.month, e.day) * 86400 + e.hour * 3600 + e.minute * 60 + e.second)
      * 10_000_000 + e.nanosecond / 100 + EPOCH_DELTA
  }

  // ------------------------------------------------- splitting: the two loops

  function SplitYear(year: nat, days: nat): (r: (nat, nat))
    decreases days
  {
    if days < YearLength(year) then (year, days)
    else SplitYear(year + 1, days - YearLength(year))
  }

  function SplitMonth(year: nat, month: nat, days: nat): (r: (nat, nat))
    requires 1 <= month <= 12
    decreases 12 - month
  {
    if days < MonthLength(year, month) || month == 12 then (month, days)
    else SplitMonth(year, month + 1, days - MonthLength(year, month))
  }

  function DayOf(sec: nat): nat { sec / 60 / 60 / 24 }
  function HourOf(sec: nat): nat { sec / 60 / 60 % 24 }
  function MinuteOf(sec: nat): nat { sec / 60 % 60 }
  function SecondOf(sec: nat): nat { sec % 60 }

  /** Year, month and day of a day number. */
  function SplitDays(days: nat): (nat, nat, nat) {
    var (year, dayOfYear) := SplitYear(1970, days);
    var (month, dayOfMonth) := SplitMonth(year, 1, dayOfYear);
    (year, month, dayOfMonth + 1)
  }

  function SecondsSince1970(ticks: nat): nat
    requires ticks >= EPOCH_DELTA
  {
    (ticks - EPOCH_DELTA) / TICKS_PER_SECOND
  }

  function TicksIntoSecond(ticks: nat): nat
    requires ticks >= EPOCH_DELTA
  {
    (ticks - EPOCH_DELTA) % TICKS_PER_SECOND
  }

  function SplitTime(ticks: nat): EfiTime {
    if ticks < EPOCH_DELTA then ZERO_TIME
    else
      var sec := SecondsSince1970(ticks);
      var date := SplitDays(DayOf(sec));
      EfiTime(date.0, date.1, date.2, HourOf(sec), MinuteOf(sec), SecondOf(sec),
              TicksIntoSecond(ticks) * 100, UNSPECIFIED_TIMEZONE, 0)
  }

  lemma {:induction false} SplitYearIsCalendar(year: nat, days: nat)
    requires 1970 <= year
    ensures var (y, d) := SplitYear(year, days);
            year <= y <= year + days / 365 && d < YearLength(y)
            && DaysBeforeYear(y) + d == DaysBeforeYear(year) + days
    decreases days
  {
    if days >= YearLength(year) {
      SplitYearIsCalendar(year + 1, days - YearLength(year));
    }
  }

  lemma DayOfYearFits(days: nat)
    ensures var (y, d) := SplitYear(1970, days); d < YearLength(y)
  {
    SplitYearIsCalendar(1970, days);
  }

  lemma SplitMonthStep(year: nat, month: nat, days: nat)
    requires 1 <= month <= 12
    ensures days < MonthLength(year, month) || month == 12 ==> SplitMonth(year, month, days) == (month, days)
    ensures days >= MonthLength(year, month) && month < 12 ==>
              && SplitMonth(year, month, days) == SplitMonth(year, month + 1, days - MonthLength(year, month))
              && DaysBeforeMonth(year, month + 1) == DaysBeforeMonth(year, month) + MonthLength(year, month)
  {
    hide MonthLength;
  }

  lemma {:induction false} SplitMonthIsCalendar(year: nat, month: nat, days: nat)
    requires 1 <= month <= 12
    requires DaysBeforeMonth(year, month) + days < YearLength(year)
    ensures var (m, d) := SplitMonth(year, month, days);
            month <= m <= 12 && d < MonthLength(year, m)
            && DaysBeforeMonth(year, m) + d == DaysBeforeMonth(year, month) + days
    decreases 12 - month
  {
    hide *;
    DecemberEndsYear(year);
    SplitMonthStep(year, month, days);
    if days >= MonthLength(year, month) && month < 12 {
      SplitMonthIsCalendar(year, month + 1, days - MonthLength(year, month));
    }
  }

  /** The days before each month; twelve months make exactly one year. */
  lemma MonthTable(year: nat)
    ensures var feb := MonthLength(year, 2);
      && DaysBeforeMonth(year, 1) == 0 && DaysBeforeMonth(year, 2) == 31
      && DaysBeforeMonth(year, 3) == 31 + feb && DaysBeforeMonth(year, 4) == 62 + feb
      && DaysBeforeMonth(year, 5) == 92 + feb && DaysBeforeMonth(year, 6) == 123 + feb
      && DaysBeforeMonth(year, 7) == 153 + feb && DaysBeforeMonth(year, 8) == 184 + feb
      && DaysBeforeMonth(year, 9) == 215 + feb && DaysBeforeMonth(year, 10) == 245 + feb
      && DaysBeforeMonth(year, 11) == 276 + feb && DaysBeforeMonth(year, 12) == 306 + feb
      && DaysBeforeMonth(year, 13) == YearLength(year)
  {
    assert DaysBeforeMonth(year, 3) == DaysBeforeMonth(year, 2) + MonthLength(year, 2);
    assert DaysBeforeMonth(year, 5) == DaysBeforeMonth(year, 3) + 61;
    assert DaysBeforeMonth(year, 7) == DaysBeforeMonth(year, 5) + 61;
    assert DaysBeforeMonth(year, 9) == DaysBeforeMonth(year, 7) + 62;
    assert DaysBeforeMonth(year, 11) == DaysBeforeMonth(year, 9) + 61;
  }

  lemma DecemberEndsYear(year: nat)
    ensures DaysBeforeMonth(year, 12) + MonthLength(year, 12) == YearLength(year)
  {
    MonthTable(year);
  }

  lemma ClockFields(sec: nat)
    ensures sec == DayOf(sec) * 86400 + HourOf(sec) * 3600 + MinuteOf(sec) * 60 + SecondOf(sec)
    ensures HourOf(sec) < 24 && MinuteOf(sec) < 60 && SecondOf(sec) < 60
  {
  }

  /** A day number splits into the one date that has it. */
  lemma SplitDaysIsDate(days: nat)
    ensures var (year, month, day) := SplitDays(days);
            && 1970 <= year <= 1970 + days / 365 && 1 <= month <= 12
            && 1 <= day <= MonthLength(year, month) && DayNumber(year, month, day) == days
  {
    hide IsLeap, YearLength, MonthLength;
    SplitYearIsCalendar(1970, days);
    var (year, dayOfYear) := SplitYear(1970, days);
    SplitMonthIsCalendar(year, 1, dayOfYear);
  }

  lemma TicksOfFields(year: nat, month: nat, day: nat, hour: nat, minute: nat, second: nat, sub: nat)
    requires 1970 <= year < 0x1_0000 && 1 <= month <= 12 && 1 <= day <= MonthLength(year, month)
    requires hour < 24 && minute < 60 && second < 60 && sub < TICKS_PER_SECOND
    ensures var e := EfiTime(year, month, day, hour, minute, second, sub * 100, UNSPECIFIED_TIMEZONE, 0);
            && IsDate(e) && e.nanosecond % 100 == 0
            && CalendarTicks(e) ==
               (DayNumber(year, month, day) * 86400 + hour * 3600 + minute * 60 + second) * 10_000_000
               + sub + EPOCH_DELTA
  {
  }

  /** Splitting any 64-bit tick count from 1970 on gives a real date that stands for exactly
      that many ticks, and the year fits the 16-bit field. */
  lemma SplitIsDate(ticks: nat)
    requires EPOCH_DELTA <= ticks < TWO_TO_THE_64
    ensures var e := SplitTime(ticks);
            IsDate(e) && e.nanosecond % 100 == 0 && CalendarTicks(e) == ticks
  {
    hide DayNumber, SplitDays, MonthLength;
    var sec := SecondsSince1970(ticks);
    var days := DayOf(sec);
    SplitDaysIsDate(days);
    ClockFields(sec);
    var (year, month, day) := SplitDays(days);
    TicksOfFields(year, month, day, HourOf(sec), MinuteOf(sec), SecondOf(sec), TicksIntoSecond(ticks));
  }

  method SubtractEpoch(ticks: nat) returns (nanosecond: nat, unixSec: nat)
    requires ticks >= EPOCH_DELTA
    ensures nanosecond == TicksIntoSecond(ticks) * 100 && unixSec == SecondsSince1970(ticks)
  {
    var rem := ticks - EPOCH_DELTA;
    nanosecond := rem % TICKS_PER_SECOND * 100;
    unixSec := rem / TICKS_PER_SECOND;
  }

  method SplitClock(sec: nat) returns (days: nat, hour: nat, minute: nat, second: nat)
    ensures days == DayOf(sec) && hour == HourOf(sec) && minute == MinuteOf(sec) && second == SecondOf(sec)
  {
    var rest := sec;
    second := rest % 60;
    rest := rest / 60;
    minute := rest % 60;
    rest := rest / 60;
    hour := rest % 24;
    days := rest / 24;
  }

  /** The year loop. */
  method YearLoop(allDays: nat) returns (year: nat, days: nat)
    ensures (year, days) == SplitYear(1970, allDays)
  {
    days, year := allDays, 1970;
    while days >= YearLength(year)
      invariant SplitYear(year, days) == SplitYear(1970, allDays)
      decreases days
    {
      days := days - YearLength(year);
      year := year + 1;
    }
  }

  /** The month loop over the table of month lengths, February's entry set from the leap rule. */
  method MonthLoop(year: nat, dayOfYear: nat) returns (month: nat, days: nat)
    requires dayOfYear < YearLength(year)
    ensures month < 12 && (month + 1, days) == SplitMonth(year, 1, dayOfYear)
  {
    var table := new nat[12](i requires 0 <= i < 12 =>
      if i == 1 then 28 else if i == 3 || i == 5 || i == 8 || i == 10 then 30 else 31);
    table[1] := if IsLeap(year) then 29 else 28;
    month, days := 0, dayOfYear;
    DecemberEndsYear(year);
    assert DaysBeforeMonth(year, 1) == 0;
    while days >= table[month]
      invariant 0 <= month < 12
      invariant forall i :: 0 <= i < 12 ==> table[i] == MonthLength(year, i + 1)
      invariant DaysBeforeMonth(year, month + 1) + days == dayOfYear < YearLength(year)
      invariant SplitMonth(year, month + 1, days) == SplitMonth(year, 1, dayOfYear)
      decreases days
    {
      days := days - table[month];
      month := month + 1;
    }
  }

  method CalendarLoops(days: nat) returns (year: nat, month: nat, day: nat)
    ensures (year, month, day) == SplitDays(days)
  {
    var dayOfYear, dayOfMonth;
    year, dayOfYear := YearLoop(days);
    DayOfYearFits(days);
    month, dayOfMonth := MonthLoop(year, dayOfYear);
    month, day := month + 1, dayOfMonth + 1;
  }

  method ConvertTime(ticks: nat) returns (e: EfiTime)
    requires ticks < TWO_TO_THE_64
    ensures e == SplitTime(ticks)
  {
    if ticks < EPOCH_DELTA {
      return ZERO_TIME;
    }
    hide SplitDays, DayOf, HourOf, MinuteOf, SecondOf, SecondsSince1970, TicksIntoSecond;
    var nanosecond, unixSec := SubtractEpoch(ticks);
    var days, hour, minute, second := SplitClock(unixSec);
    var year, month, day := CalendarLoops(days);
    e := EfiTime(year, month, day, hour, minute, second, nanosecond, UNSPECIFIED_TIMEZONE, 0);
  }

  // ------------------------------------------------- joining: the closed form

  /** The closed-form day count.  The driver's `/` truncates; the one operand that can be
      negative is corrected first, so Dafny's `/` computes the same quotient. */
  function DaysFromCivil(year: int, month: int, day: int): int {
    var y := if month <= 2 then year - 1 else year;
    var era := if y >= 0 then y / 400 else -((399 - y) / 400);
    var yoe := y - era * 400;
    var doy := (153 * (month + (if month > 2 then -3 else 9)) + 2) / 5 + day - 1;
    var doe := yoe * 365 + yoe / 4 - yoe / 100 + doy;
    era * 146097 + doe - 719468
  }

  /** 64-bit arithmetic throughout: a day count before 1970 wraps, and so does a late date. */
  function JoinTime(e: EfiTime): (ticks: nat)
    ensures ticks < TWO_TO_THE_64
  {
    var days := DaysFromCivil(e.year, e.month, e.day) % TWO_TO_THE_64;
    var sec := (days * 86400 + e.hour * 3600 + e.minute * 60 + e.second) % TWO_TO_THE_64;
    (sec * TICKS_PER_SECOND + e.nanosecond / 100 + EPOCH_DELTA) % TWO_TO_THE_64
  }

  /** Multiples of k among 1, ..., n. */
  function Multiples(n: nat, k: nat): nat
    requires 1 <= k
  {
    n / k
  }

  function Divides(k: nat, year: nat): nat
    requires 1 <= k
  {
    if year % k == 0 then 1 else 0
  }

  function LeapYearsBefore(year: nat): int
    requires 1 <= year
  {
    Multiples(year - 1, 4) - Multiples(year - 1, 100) + Multiples(year - 1, 400)
  }

  lemma MultiplesStep(year: nat, k: nat)
    requires 1 <= year && 1 <= k
    ensures Multiples(year, k) == Multiples(year - 1, k) + Divides(k, year)
  {
    var q, r := (year - 1) / k, (year - 1) % k;
    assert year == k * q + (r + 1);
    if r + 1 == k {
      assert year == k * (q + 1);
      DivisionIsUnique(year, k, q + 1, 0);
    } else {
      DivisionIsUnique(year, k, q, r + 1);
    }
  }

  /** A multiple of a multiple of k is one of k. */
  lemma DividesOn(year: nat, k: nat, m: nat)
    requires 1 <= k && 1 <= m && Divides(k * m, year) == 1
    ensures Divides(k, year) == 1
  {
    var q := year / (k * m);
    assert year == k * m * q == k * (m * q);
    DivisionIsUnique(year, k, m * q, 0);
  }

  lemma LeapRule(year: nat)
    ensures Divides(4, year) - Divides(100, year) + Divides(400, year) == if IsLeap(year) then 1 else 0
  {
    if Divides(100, year) == 1 {
      DividesOn(year, 4, 25);
    }
    if Divides(400, year) == 1 {
      DividesOn(year, 100, 4);
    }
  }

  lemma LeapYearsStep(year: nat)
    requires 1 <= year
    ensures LeapYearsBefore(year + 1) == LeapYearsBefore(year) + if IsLeap(year) then 1 else 0
  {
    hide IsLeap, Multiples, Divides;
    MultiplesStep(year, 4);
    MultiplesStep(year, 100);
    MultiplesStep(year, 400);
    LeapRule(year);
  }

  lemma {:induction false} ClosedFormOfYear(year: nat)
    requires 1970 <= year
    ensures DaysBeforeYear(year) + 719527 == 365 * year + LeapYearsBefore(year)
  {
    if year > 1970 {
      ClosedFormOfYear(year - 1);
      LeapYearsStep(year - 1);
    }
  }

  /** Days from the first of January 1601, from which the stamps count, by adding up whole years. */
  function DaysFrom1601(year: nat): nat
    requires 1601 <= year
  {
    if year == 1601 then 0 else DaysFrom1601(year - 1) + YearLength(year - 1)
  }

  lemma {:induction false} ClosedFormFrom1601(year: nat)
    requires 1601 <= year
    ensures DaysFrom1601(year) + 584753 == 365 * year + LeapYearsBefore(year)
  {
    if year > 1601 {
      ClosedFormFrom1601(year - 1);
      LeapYearsStep(year - 1);
    }
  }

  /** The epoch of the firmware's clock, counted in ticks of 100 ns from that of the stamps. */
  lemma EpochIsCounted()
    ensures EPOCH_DELTA == DaysFrom1601(1970) * 24 * 60 * 60 * 10_000_000
  {
    ClosedFormFrom1601(1970);
  }

  lemma EraArithmetic(y: nat)
    ensures var era := y / 400;
            var yoe := y - era * 400;
            era * 146097 + yoe * 365 + yoe / 4 - yoe / 100 == 365 * y + LeapYearsBefore(y + 1)
  {
    var era := y / 400;
    var yoe := y - era * 400;
    DivisionIsUnique(y, 4, 100 * era + yoe / 4, yoe % 4);
    DivisionIsUnique(y, 100, 4 * era + yoe / 100, yoe % 100);
  }

  lemma ClosedFormOfMonth(year: nat, month: nat)
    requires 1 <= month <= 12
    ensures DaysBeforeMonth(year, month) ==
            if month <= 2 then (153 * (month + 9) + 2) / 5 - 306
            else (153 * (month - 3) + 2) / 5 + 59 + if IsLeap(year) then 1 else 0
  {
    MonthTable(year);
  }

  lemma CivilIs(year: nat, month: nat, day: nat)
    requires 1970 <= year && 1 <= month <= 12 && 1 <= day
    ensures var y := if month <= 2 then year - 1 else year;
            var doy := (153 * (month + (if month > 2 then -3 else 9)) + 2) / 5 + day - 1;
            DaysFromCivil(year, month, day) == 365 * y + LeapYearsBefore(y + 1) + doy - 719468
  {
    hide LeapYearsBefore;
    EraArithmetic(if month <= 2 then year - 1 else year);
  }

  /** The closed form inverts the loops: it equals the plain day count on every date. */
  lemma ClosedFormIsDayNumber(year: nat, month: nat, day: nat)
    requires 1970 <= year && 1 <= month <= 12 && 1 <= day
    ensures DaysFromCivil(year, month, day) == DayNumber(year, month, day)
  {
    hide DaysFromCivil, LeapYearsBefore, IsLeap, DaysBeforeYear, DaysBeforeMonth;
    CivilIs(year, month, day);
    ClosedFormOfYear(year);
    ClosedFormOfMonth(year, month);
    LeapYearsStep(year);
  }

  /** No date of the 16-bit year range overflows the day count. */
  lemma DayNumberBound(e: EfiTime)
    requires IsDate(e)
    ensures DayNumber(e.year, e.month, e.day) < 366 * (e.year - 1969)
  {
    YearsAreShort(e.year);
    MonthTable(e.year);
  }

  lemma {:induction false} YearsAreShort(year: nat)
    requires 1970 <= year
    ensures DaysBeforeYear(year) <= 366 * (year - 1970)
  {
    if year > 1970 {
      YearsAreShort(year - 1);
    }
  }

  lemma JoinIsCalendar(e: EfiTime)
    requires IsDate(e)
    ensures JoinTime(e) == CalendarTicks(e) % TWO_TO_THE_64
    ensures CalendarTicks(e) < 2 * TWO_TO_THE_64
  {
    hide DaysFromCivil, DayNumber, IsLeap;
    ClosedFormIsDayNumber(e.year, e.month, e.day);
    DayNumberBound(e);
    var days := DayNumber(e.year, e.month, e.day);
    assert days % TWO_TO_THE_64 == days;
    var sec := days * 86400 + e.hour * 3600 + e.minute * 60 + e.second;
    assert sec % TWO_TO_THE_64 == sec;
  }

  // ------------------------------------------------- dates and ticks are one to one

  lemma {:induction false} YearsIncrease(a: nat, b: nat)
    requires 1970 <= a < b
    ensures DaysBeforeYear(a) + YearLength(a) <= DaysBeforeYear(b)
    decreases b
  {
    if a + 1 < b {
      YearsIncrease(a, b - 1);
    }
  }

  lemma {:induction false} MonthsIncrease(year: nat, a: nat, b: nat)
    requires 1 <= a < b <= 13
    ensures DaysBeforeMonth(year, a) + MonthLength(year, a) <= DaysBeforeMonth(year, b)
    decreases b
  {
    if a + 1 < b {
      MonthsIncrease(year, a, b - 1);
    }
  }

  lemma DayNumberOrdersDates(a: EfiTime, b: EfiTime)
    requires IsDate(a) && IsDate(b)
    requires a.year < b.year || (a.year == b.year && a.month < b.month)
    ensures DayNumber(a.year, a.month, a.day) < DayNumber(b.year, b.month, b.day)
  {
    if a.year < b.year {
      YearsIncrease(a.year, b.year);
      MonthTable(a.year);
      MonthsIncrease(a.year, a.month, 13);
    } else {
      MonthsIncrease(a.year, a.month, b.month);
    }
  }

  lemma CalendarTicksInjective(a: EfiTime, b: EfiTime)
    requires IsDate(a) && IsDate(b) && CalendarTicks(a) == CalendarTicks(b)
    requires a.nanosecond % 100 == 0 && b.nanosecond % 100 == 0
    ensures a.(timeZone := b.timeZone, daylight := b.daylight) == b
  {
    var da, db := DayNumber(a.year, a.month, a.day), DayNumber(b.year, b.month, b.day);
    var sa := a.hour * 3600 + a.minute * 60 + a.second;
    var sb := b.hour * 3600 + b.minute * 60 + b.second;
    assert (da * 86400 + sa) == (db * 86400 + sb);
    assert da == db;
    if a.year != b.year || a.month != b.month {
      if a.year < b.year || (a.year == b.year && a.month < b.month) {
        DayNumberOrdersDates(a, b);
      } else {
        DayNumberOrdersDates(b, a);
      }
    }
  }

  // ------------------------------------------------- the two round trips

  lemma EarlyStampLost(ticks: nat)
    requires ticks < EPOCH_DELTA
    ensures JoinTime(SplitTime(ticks)) >= EPOCH_DELTA
  {
    assert DaysFromCivil(0, 0, 0) == -719560;
    assert -719560 % TWO_TO_THE_64 == 18446744073708832056;
    assert 18446744073708832056 * 86400 % TWO_TO_THE_64 == 18446744011539567616;
    assert (18446744011539567616 * TICKS_PER_SECOND + EPOCH_DELTA) % TWO_TO_THE_64 == 17941488969709551616;
  }

  /** Ticks to date to ticks is the identity exactly from 1970 on: an earlier stamp becomes the
      all-zero record, which joins to some other count. */
  lemma TicksRoundTrip(ticks: nat)
    requires ticks < TWO_TO_THE_64
    ensures JoinTime(SplitTime(ticks)) == ticks <==> ticks >= EPOCH_DELTA
  {
    hide *;
    if ticks >= EPOCH_DELTA {
      SplitIsDate(ticks);
      JoinIsCalendar(SplitTime(ticks));
      assert ticks % TWO_TO_THE_64 == ticks;
    } else {
      EarlyStampLost(ticks);
    }
  }

  lemma SameTicks(a: EfiTime, b: EfiTime)
    requires IsDate(a) && IsDate(b)
    ensures a == b.(timeZone := a.timeZone, daylight := a.daylight) ==> CalendarTicks(a) == CalendarTicks(b)
  {
  }

  lemma WholeTicksRoundTrip(e: EfiTime)
    requires IsDate(e) && e.nanosecond % 100 == 0
    ensures SplitTime(JoinTime(e)) == e.(timeZone := UNSPECIFIED_TIMEZONE, daylight := 0)
            <==> CalendarTicks(e) < TWO_TO_THE_64
  {
    hide *;
    JoinIsCalendar(e);
    var all, ticks := CalendarTicks(e), JoinTime(e);
    var back := SplitTime(ticks);
    AtLeastEpoch(e);
    if all < TWO_TO_THE_64 {
      assert ticks == all;
      SplitIsDate(ticks);
      CalendarTicksInjective(back, e);
      SplitZone(ticks);
    } else {
      assert ticks == all - TWO_TO_THE_64;
      if ticks >= EPOCH_DELTA {
        SplitIsDate(ticks);
        SameTicks(back, e);
      } else {
        EarlyIsNoDate(ticks, e);
      }
    }
  }

  lemma AtLeastEpoch(e: EfiTime)
    requires IsDate(e)
    ensures CalendarTicks(e) >= EPOCH_DELTA
  {
  }

  lemma SplitZone(ticks: nat)
    requires ticks >= EPOCH_DELTA
    ensures SplitTime(ticks).timeZone == UNSPECIFIED_TIMEZONE == 0x07FF && SplitTime(ticks).daylight == 0
  {
  }

  lemma EarlyIsNoDate(ticks: nat, e: EfiTime)
    requires ticks < EPOCH_DELTA && IsDate(e)
    ensures SplitTime(ticks) != e.(timeZone := UNSPECIFIED_TIMEZONE, daylight := 0)
  {
  }

  /** What a tick count keeps of a date: the calendar, nanoseconds down to a hundred, and no zone. */
  function Kept(e: EfiTime): EfiTime {
    e.(nanosecond := e.nanosecond - e.nanosecond % 100, timeZone := UNSPECIFIED_TIMEZONE, daylight := 0)
  }

  lemma HundredsRemain(e: EfiTime)
    ensures JoinTime(Kept(e)) == JoinTime(e) && Kept(e).nanosecond % 100 == 0
    ensures IsDate(e) ==> IsDate(Kept(e)) && CalendarTicks(Kept(e)) == CalendarTicks(e)
  {
    hide DaysFromCivil, DayNumber;
    var n := e.nanosecond;
    assert (n - n % 100) / 100 == n / 100;
  }

  lemma KeptIsKept(e: EfiTime)
    ensures Kept(e).(timeZone := UNSPECIFIED_TIMEZONE, daylight := 0) == Kept(e)
    ensures Kept(e) == e <==> e.nanosecond % 100 == 0 && e.timeZone == UNSPECIFIED_TIMEZONE && e.daylight == 0
  {
  }

  /** Date to ticks to date returns the calendar fields, and the nanoseconds in whole hundreds, exactly
      for the dates whose tick count fits 64 bits (through the year 60055). */
  lemma DateRoundTrip(e: EfiTime)
    requires IsDate(e)
    ensures SplitTime(JoinTime(e)) == Kept(e) <==> CalendarTicks(e) < TWO_TO_THE_64
  {
    hide *;
    HundredsRemain(e);
    KeptIsKept(e);
    WholeTicksRoundTrip(Kept(e));
  }

  /** The whole record comes back exactly if it is a date from 1970 on whose ticks fit 64 bits, its
      nanoseconds are whole hundreds, its zone is unspecified and its daylight flag is clear. */
  lemma RecordRoundTrip(e: EfiTime)
    ensures SplitTime(JoinTime(e)) == e <==>
            && IsDate(e) && CalendarTicks(e) < TWO_TO_THE_64
            && e.nanosecond % 100 == 0 && e.timeZone == UNSPECIFIED_TIMEZONE && e.daylight == 0
  {
    hide *;
    KeptIsKept(e);
    if IsDate(e) {
      DateRoundTrip(e);
    }
    var ticks := JoinTime(e);
    if ticks >= EPOCH_DELTA {
      SplitIsDate(ticks);
      SplitZone(ticks);
    } else {
      EarlySplit(ticks);
      if SplitTime(ticks) == e {
        EarlyStampLost(ticks);
      }
    }
  }

  lemma EarlySplit(ticks: nat)
    requires ticks < EPOCH_DELTA
    ensures SplitTime(ticks) == EfiTime(0, 0, 0, 0, 0, 0, 0, 0, 0) && !IsDate(SplitTime(ticks))
  {
  }

  /** Every date from 1970 on that the firmware's record documents, up to 9999, is inside that range. */
  lemma FirmwareDatesRoundTrip(e: EfiTime)
    requires IsDate(e) && e.year <= 9999
    ensures SplitTime(JoinTime(e)) == Kept(e)
  {
    DayNumberBound(e);
    DateRoundTrip(e);
  }
}
