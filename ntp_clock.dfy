/** NTPClock.h: the calendar arithmetic behind the summer-time adjustment
    (`isLeapYear`, `getDayOfWeek`, `getLastSundayOfMonth`,
    `add_daylight_saving_time`), the NTP request packet and the decoding of
    the server's transmit timestamp. `gmtime` is a parameter: the fields it
    would return for a timestamp are passed in as a `CivilTime`. */
module NtpTime {
  import opened Wrappers
  import opened CInt
  import Calendar

  /** `isLeapYear`: the Gregorian rule. */
  predicate IsLeapYear(year: int) {
    (CRem(year, 4) == 0 && CRem(year, 100) != 0) || CRem(year, 400) == 0
  }

  /** For every year the rule is the Gregorian one, and from 1970 on it
      agrees with the leap years the time reader's calendar counts. */
  lemma LeapYearAgrees(year: int)
    ensures IsLeapYear(year) <==> year % 4 == 0 && (year % 100 != 0 || year % 400 == 0)
    ensures year >= 1970 ==> (IsLeapYear(year) <==> Calendar.IsLeapYear(year - 1970))
  {
    CRemZero(year, 4);
    CRemZero(year, 100);
    CRemZero(year, 400);
    if year % 400 == 0 {
      CenturyDivisible(year);
    }
  }

  /** The C remainder is zero exactly when the divisor divides the dividend,
      whatever its sign. */
  lemma CRemZero(a: int, b: int)
    requires b > 0
    ensures CRem(a, b) == 0 <==> a % b == 0
  {
    if a < 0 {
      var n := -a;
      var q := n / b;
      var r := n % b;
      assert CRem(a, b) == -r by {
        assert CDiv(a, b) == -q;
        assert n == b * q + r;
      }
      if r == 0 {
        assert a == b * (-q) + 0;
        QuotientUnique(a, b, -q, 0);
      }
      if a % b == 0 {
        var k := a / b;
        assert n == b * (-k) + 0;
        QuotientUnique(n, b, -k, 0);
      }
    }
  }

  /** A multiple of 400 is a multiple of 100 and of 4. */
  lemma CenturyDivisible(n: int)
    requires n % 400 == 0
    ensures n % 100 == 0 && n % 4 == 0
  {
    var q := n / 400;
    assert n == 100 * (4 * q);
    assert n == 4 * (100 * q);
  }

  /** A multiple of 100 is a multiple of 4. */
  lemma HundredDivisible(n: int)
    requires n % 100 == 0
    ensures n % 4 == 0
  {
    var q := n / 100;
    assert n == 4 * (25 * q);
  }

  /** Going from `n - 1` to `n` raises the quotient by one exactly when `d` divides `n`. */
  lemma QuotientStep(n: int, d: int)
    requires d > 0
    ensures n / d - (n - 1) / d == if n % d == 0 then 1 else 0
  {
    var q := n / d;
    var r := n % d;
    if r == 0 {
      QuotientUnique(n - 1, d, q - 1, d - 1);
    } else {
      QuotientUnique(n - 1, d, q, r - 1);
    }
  }

  lemma QuotientUnique(a: int, d: int, q: int, r: int)
    requires d > 0 && 0 <= r < d && a == d * q + r
    ensures a / d == q && a % d == r
  {
    var x := a / d - q;
    assert d * x == r - a % d by {
      assert a == d * (a / d) + a % d;
      assert d * (a / d) - d * q == d * x;
    }
    MultipleBounds(d, x);
  }

  /** A non-zero multiple of `d` is at least `d` in magnitude. */
  lemma MultipleBounds(d: int, x: int)
    requires d > 0
    ensures x >= 1 ==> d * x >= d
    ensures x <= -1 ==> d * x <= -d
  {
    if x >= 1 {
      assert d * x == d + d * (x - 1);
      assert d * (x - 1) >= 0;
    } else if x <= -1 {
      assert d * x == -d - d * (-x - 1);
      assert d * (-x - 1) >= 0;
    }
  }

  /** `daysInMonth` of `getLastSundayOfMonth`, with February patched to 29
      days in a leap year. */
  function DaysInMonth(year: int, month: int): (n: int)
    requires 1 <= month <= 12
    ensures 28 <= n <= 31
  {
    var daysInMonth := [31, 28, 31, 30, 31, 30, 31, 31, 30, 31, 30, 31];
    if month == 2 && IsLeapYear(year) then 29 else daysInMonth[month - 1]
  }

  lemma DaysInMonthAgrees(year: int, month: int)
    requires year >= 1970 && 1 <= month <= 12
    ensures DaysInMonth(year, month) == Calendar.MonthLength(year - 1970, month - 1)
  {
    LeapYearAgrees(year);
  }

  /** Zeller's congruence counts January and February as months 13 and 14
      of the previous year. */
  function AdjustedMonth(month: int): int {
    if month < 3 then month + 12 else month
  }

  function AdjustedYear(year: int, month: int): int {
    if month < 3 then year - 1 else year
  }

  /** The sum inside `getDayOfWeek` before its first `% 7`, with C division. */
  function ZellerSum(year: int, month: int, day: int): int {
    var m := AdjustedMonth(month);
    var y := AdjustedYear(year, month);
    var k := CRem(y, 100);
    var j := CDiv(y, 100);
    day + CDiv(13 * (m + 1), 5) + k + CDiv(k, 4) + CDiv(j, 4) - 2 * j
  }

  /** `getDayOfWeek` as written: `h = sum % 7`, then `(h + 5) % 7`, both with
      C's remainder. Zeller's `h` is 0 for Saturday, so this gives 0 for
      Monday and 6 for Sunday, and a negative value when the sum is negative. */
  function DayOfWeekAsWritten(year: int, month: int, day: int): int {
    CRem(CRem(ZellerSum(year, month, day), 7) + 5, 7)
  }

  /** The day of the week with Sunday = 0, Monday = 1 …, as the source's
      comment announces: Zeller's `h` shifted by six, with a non-negative
      remainder. */
  function Weekday(year: int, month: int, day: int): (w: int)
    ensures 0 <= w <= 6
  {
    (ZellerSum(year, month, day) + 6) % 7
  }

  /** Days from 1970-01-01 to a date, counted with the time reader's calendar. */
  function DaysFromEpoch(year: int, month: int, day: int): int
    requires year >= 1970 && 1 <= month <= 12
  {
    Calendar.DaysBeforeYear(year - 1970) + Calendar.DaysBeforeMonth(year - 1970, month - 1) + day - 1
  }

  /** Leap years among the years 1..n. */
  function LeapCount(n: nat): int {
    n / 4 - n / 100 + n / 400
  }

  lemma LeapCountStep(n: nat)
    requires n >= 1
    ensures LeapCount(n) - LeapCount(n - 1) == if n % 4 == 0 && (n % 100 != 0 || n % 400 == 0) then 1 else 0
  {
    QuotientStep(n, 4);
    QuotientStep(n, 100);
    QuotientStep(n, 400);
    if n % 400 == 0 {
      CenturyDivisible(n);
    } else if n % 100 == 0 {
      HundredDivisible(n);
    }
  }

  /** The calendar's day count in closed form: 365 days a year plus one per
      leap year passed. */
  lemma {:induction false} DaysBeforeYearCount(offset: nat)
    ensures Calendar.DaysBeforeYear(offset) == 365 * offset + LeapCount(1969 + offset) - LeapCount(1969)
    decreases offset
  {
    if offset > 0 {
      DaysBeforeYearCount(offset - 1);
      LeapCountStep(1969 + offset);
    }
  }

  /** Zeller's sum for a date whose adjusted year is not negative: every C
      division and remainder in it is the Euclidean one. */
  lemma ZellerSumNonNegative(year: int, month: int, day: int)
    requires 1 <= month <= 12 && AdjustedYear(year, month) >= 0
    ensures var y := AdjustedYear(year, month);
            ZellerSum(year, month, day) ==
              day + 13 * (AdjustedMonth(month) + 1) / 5 + y % 100 + y % 100 / 4 + y / 100 / 4 - 2 * (y / 100)
  {
    var y := AdjustedYear(year, month);
    CRemBounds(y, 100);
    CRemBounds(y % 100, 4);
    CRemBounds(y / 100, 4);
    CRemBounds(13 * (AdjustedMonth(month) + 1), 5);
  }

  /** The year part of Zeller's sum is the year plus its leap years, less a
      multiple of seven. */
  lemma YearTerm(y: nat)
    ensures y % 100 + y % 100 / 4 + y / 100 / 4 - 2 * (y / 100) == y + LeapCount(y) - 126 * (y / 100)
  {
    var k := y % 100;
    var j := y / 100;
    assert y == 100 * j + k;
    assert y == 4 * (25 * j + k / 4) + k % 4;
    assert y / 4 == 25 * j + k / 4;
    assert y == 400 * (j / 4) + (100 * (j % 4) + k);
    assert y / 400 == j / 4;
  }

  /** Days before each month, non-leap year first. */
  lemma MonthStart(offset: nat, month: int)
    requires 1 <= month <= 12
    ensures var leap := if month >= 3 && Calendar.IsLeapYear(offset) then 1 else 0;
            Calendar.DaysBeforeMonth(offset, month - 1) ==
              [0, 31, 59, 90, 120, 151, 181, 212, 243, 273, 304, 334][month - 1] + leap
  {
    var feb := if Calendar.IsLeapYear(offset) then 29 else 28;
    assert Calendar.DaysBeforeMonth(offset, 1) == 31;
    assert Calendar.DaysBeforeMonth(offset, 2) == 31 + feb;
    assert Calendar.DaysBeforeMonth(offset, 3) == 62 + feb;
    assert Calendar.DaysBeforeMonth(offset, 4) == 92 + feb;
    assert Calendar.DaysBeforeMonth(offset, 5) == 123 + feb;
    assert Calendar.DaysBeforeMonth(offset, 6) == 153 + feb;
    assert Calendar.DaysBeforeMonth(offset, 7) == 184 + feb;
    assert Calendar.DaysBeforeMonth(offset, 8) == 215 + feb;
    assert Calendar.DaysBeforeMonth(offset, 9) == 245 + feb;
    assert Calendar.DaysBeforeMonth(offset, 10) == 276 + feb;
    assert Calendar.DaysBeforeMonth(offset, 11) == 306 + feb;
  }

  /** The month part of Zeller's sum: from March on it is the days before the
      month in a common year less a multiple of seven; January and February
      (months 13 and 14 of the year before) add one more. */
  lemma MonthTerm(month: int)
    requires 1 <= month <= 12
    ensures var before := [0, 31, 59, 90, 120, 151, 181, 212, 243, 273, 304, 334][month - 1];
            var early := if month < 3 then 1 else 0;
            (13 * (AdjustedMonth(month) + 1) / 5 - before - early) % 7 == 0
  {
  }

  /** The arithmetic that closes `WeekdayCountsDays`, on plain numbers:
      Zeller's sum and the day count differ by a multiple of seven plus a
      constant. */
  lemma WeekdayAlgebra(year: int, z: int, days: int, day: int, mt: int, y: int, ly: int, lym1: int,
                       j: int, before: int, early: int, leap: int, q: int)
    requires early == 0 || early == 1
    requires y == year - early
    requires z == day + mt + y + ly - 126 * j
    requires mt == before + early + 7 * q
    requires days == 365 * (year - 1970) + lym1 - 477 + before + leap + day - 1
    requires early == 1 ==> ly == lym1 && leap == 0
    requires early == 0 ==> ly == lym1 + leap
    ensures (z + 6) % 7 == (days + 4) % 7
  {
    assert z + 6 == days + 4 + 7 * (q - 52 * year - 18 * j + 102790);
  }

  /** Zeller's congruence counts days: from 1970 on, the weekday of a date is
      the weekday of 1970-01-01 (a Thursday, 4) advanced by the days since. */
  lemma WeekdayCountsDays(year: int, month: int, day: int)
    requires year >= 1970 && 1 <= month <= 12
    ensures Weekday(year, month, day) == (DaysFromEpoch(year, month, day) + 4) % 7
  {
    var offset := year - 1970;
    var y := AdjustedYear(year, month);
    var before := [0, 31, 59, 90, 120, 151, 181, 212, 243, 273, 304, 334][month - 1];
    var early := if month < 3 then 1 else 0;
    var leap := if month >= 3 && Calendar.IsLeapYear(offset) then 1 else 0;
    var mt := 13 * (AdjustedMonth(month) + 1) / 5;
    MonthTerm(month);
    var q := (mt - before - early) / 7;
    ZellerSumNonNegative(year, month, day);
    YearTerm(y);
    MonthStart(offset, month);
    DaysBeforeYearCount(offset);
    assert LeapCount(1969) == 477;
    LeapCountStep(year);
    WeekdayAlgebra(year, ZellerSum(year, month, day), DaysFromEpoch(year, month, day), day, mt, y,
                   LeapCount(y), LeapCount(year - 1), y / 100, before, early, leap, q);
  }

  /** A date and weekday related as `breakTime` relates them (1 = Monday …
      7 = Sunday, counted on from Thursday 1970-01-01) have the same weekday
      under Zeller's congruence. */
  lemma WeekdayOfDayNumber(days: int, offset: nat, month: int, day: int, wday: int)
    requires 1 <= month <= 12
    requires Calendar.DaysBeforeYear(offset) + Calendar.DaysBeforeMonth(offset, month - 1) + day - 1 == days
    requires wday == (days + 3) % 7 + 1
    ensures Weekday(offset + 1970, month, day) == wday % 7
  {
    assert DaysFromEpoch(offset + 1970, month, day) == days;
    WeekdayCountsDays(offset + 1970, month, day);
    NextWeekday(days);
  }

  lemma NextWeekday(days: int)
    ensures ((days + 3) % 7 + 1) % 7 == (days + 4) % 7
  {
  }

  /** The weekday agrees with the one `breakTime` gives for a reading on
      that date. */
  lemma WeekdayMatchesTimeReader(t: int)
    ensures var tm := Calendar.BrokenDown(t);
            Weekday(tm.year + 1970, tm.month, tm.day) == tm.wday % 7
  {
    var tm := Calendar.BrokenDown(t);
    Calendar.DateFields(t);
    Calendar.ClockFields(t);
    WeekdayOfDayNumber(Calendar.DayNumber(t), tm.year, tm.month, tm.day, tm.wday);
  }

  /** The day entering linearly: a date `n` days earlier in the same month is
      `n` weekdays earlier. */
  lemma WeekdayEarlier(year: int, month: int, day: int, n: int)
    ensures Weekday(year, month, day - n) == (Weekday(year, month, day) - n) % 7
  {
    assert ZellerSum(year, month, day - n) == ZellerSum(year, month, day) - n;
  }

  /** `getDayOfWeek` as written is one behind the weekday modulo seven, and
      when Zeller's sum is non-negative it is exactly the weekday counted from
      Monday = 0: Sunday comes out as 6, not 0. */
  lemma DayOfWeekAsWrittenIsMondayBased(year: int, month: int, day: int)
    ensures -6 <= DayOfWeekAsWritten(year, month, day) <= 6
    ensures (DayOfWeekAsWritten(year, month, day) - Weekday(year, month, day) + 1) % 7 == 0
    ensures ZellerSum(year, month, day) >= 0 ==>
              DayOfWeekAsWritten(year, month, day) == (Weekday(year, month, day) + 6) % 7
  {
    ShiftedRemainder(ZellerSum(year, month, day));
  }

  /** The two C remainders of `getDayOfWeek` on a sum `s`, against `(s + 6) % 7`. */
  lemma ShiftedRemainder(s: int)
    ensures -6 <= CRem(CRem(s, 7) + 5, 7) <= 6
    ensures (CRem(CRem(s, 7) + 5, 7) - (s + 6) % 7 + 1) % 7 == 0
    ensures s >= 0 ==> CRem(CRem(s, 7) + 5, 7) == ((s + 6) % 7 + 6) % 7
  {
    CRemBounds(s, 7);
    var h := CRem(s, 7);
    CRemBounds(h + 5, 7);
    var r := CRem(h + 5, 7);
    RemainderAlgebra(s, h, CDiv(s, 7), r, CDiv(h + 5, 7));
  }

  lemma RemainderAlgebra(s: int, h: int, qs: int, r: int, qr: int)
    requires s == qs * 7 + h && h + 5 == qr * 7 + r
    requires s >= 0 ==> 0 <= h < 7 && 0 <= r < 7
    ensures (r - (s + 6) % 7 + 1) % 7 == 0
    ensures s >= 0 ==> r == ((s + 6) % 7 + 6) % 7
  {
    var w := (s + 6) % 7;
    assert s + 6 == 7 * ((s + 6) / 7) + w;
    assert r - w + 1 == 7 * ((s + 6) / 7 - qr - qs);
  }

  /** `getLastSundayOfMonth` as written: the last day less `getDayOfWeek`.
      It lies within six days of the month's end and always one day after the
      last Sunday in the weekly cycle, so it is a Monday. */
  function LastSundayOfMonthAsWritten(year: int, month: int): (r: int)
    requires 1 <= month <= 12
    ensures DaysInMonth(year, month) - 6 <= r <= DaysInMonth(year, month) + 6
    ensures (r - LastSundayOfMonth(year, month)) % 7 == 1
  {
    var lastDay := DaysInMonth(year, month);
    var n := DayOfWeekAsWritten(year, month, lastDay);
    DayOfWeekAsWrittenIsMondayBased(year, month, lastDay);
    DayAfter(n, Weekday(year, month, lastDay));
    lastDay - n
  }

  /** A day one behind the weekday `w` modulo seven lies one day after it. */
  lemma DayAfter(n: int, w: int)
    requires (n - w + 1) % 7 == 0
    ensures (w - n) % 7 == 1
  {
    var k := (n - w + 1) / 7;
    assert w - n == 1 + 7 * -k;
  }

  /** The last Sunday of a month: the last day less its weekday (Sunday = 0). */
  function LastSundayOfMonth(year: int, month: int): int
    requires 1 <= month <= 12
  {
    var lastDay := DaysInMonth(year, month);
    lastDay - Weekday(year, month, lastDay)
  }

  /** The day found is a Sunday among the month's last seven days, and the
      only one: it is the last Sunday of the month. */
  lemma LastSundayIsLastSunday(year: int, month: int, day: int)
    requires 1 <= month <= 12
    ensures var r := LastSundayOfMonth(year, month);
            DaysInMonth(year, month) - 6 <= r <= DaysInMonth(year, month) && Weekday(year, month, r) == 0
    ensures DaysInMonth(year, month) - 6 <= day <= DaysInMonth(year, month) && Weekday(year, month, day) == 0 ==>
              day == LastSundayOfMonth(year, month)
  {
    LastSundayInLastWeek(year, month);
    var lastDay := DaysInMonth(year, month);
    if lastDay - 6 <= day <= lastDay && Weekday(year, month, day) == 0 {
      OnlySundayInLastWeek(year, month, day);
    }
  }

  lemma LastSundayInLastWeek(year: int, month: int)
    requires 1 <= month <= 12
    ensures var r := LastSundayOfMonth(year, month);
            DaysInMonth(year, month) - 6 <= r <= DaysInMonth(year, month) && Weekday(year, month, r) == 0
  {
    var lastDay := DaysInMonth(year, month);
    var w := Weekday(year, month, lastDay);
    WeekdayEarlier(year, month, lastDay, w);
    assert (w - w) % 7 == 0;
  }

  lemma OnlySundayInLastWeek(year: int, month: int, day: int)
    requires 1 <= month <= 12
    requires DaysInMonth(year, month) - 6 <= day <= DaysInMonth(year, month) && Weekday(year, month, day) == 0
    ensures day == LastSundayOfMonth(year, month)
  {
    var lastDay := DaysInMonth(year, month);
    var w := Weekday(year, month, lastDay);
    var n := lastDay - day;
    WeekdayEarlier(year, month, lastDay, n);
    assert lastDay - n == day;
    SmallMultipleOfSeven(w - n);
  }

  lemma SmallMultipleOfSeven(x: int)
    requires -6 <= x <= 6 && x % 7 == 0
    ensures x == 0
  {
  }

  /** In every year before 2200, the day `getLastSundayOfMonth` returns for any
      month is the last Monday of the month instead. */
  lemma LastSundayAsWrittenIsLastMonday(year: int, month: int)
    requires 1 <= year <= 2199 && 1 <= month <= 12
    ensures var r := LastSundayOfMonthAsWritten(year, month);
            DaysInMonth(year, month) - 6 <= r <= DaysInMonth(year, month) && Weekday(year, month, r) == 1
  {
    var lastDay := DaysInMonth(year, month);
    var w := Weekday(year, month, lastDay);
    var n := DayOfWeekAsWritten(year, month, lastDay);
    assert n == (w + 6) % 7 by {
      SumAtMonthEnd(year, month, lastDay);
      DayOfWeekAsWrittenIsMondayBased(year, month, lastDay);
    }
    assert LastSundayOfMonthAsWritten(year, month) == lastDay - n;
    assert Weekday(year, month, lastDay - n) == 1 by {
      WeekdayEarlier(year, month, lastDay, n);
      MondayBefore(w);
    }
  }

  lemma MondayBefore(w: int)
    requires 0 <= w <= 6
    ensures (w - (w + 6) % 7) % 7 == 1
  {
  }

  /** Before 2200, Zeller's sum for the end of any month is not negative. */
  lemma SumAtMonthEnd(year: int, month: int, day: int)
    requires 1 <= year <= 2199 && 1 <= month <= 12 && day >= 28
    ensures ZellerSum(year, month, day) >= 0
  {
    ZellerSumNonNegative(year, month, day);
    var j := AdjustedYear(year, month) / 100;
    assert 0 <= j <= 21 && 4 * (j / 4) >= j - 3;
    assert 13 * (AdjustedMonth(month) + 1) / 5 >= 10;
  }

  /** The discrepancy on a concrete month: in March 2024 the code switches on
      Monday the 25th, while the last Sunday is the 31st. */
  lemma March2024()
    ensures LastSundayOfMonthAsWritten(2024, 3) == 25
    ensures Weekday(2024, 3, 25) == 1
    ensures LastSundayOfMonth(2024, 3) == 31
    ensures Weekday(2024, 3, 31) == 0
  {
    CRemBounds(2024, 100);
    CRemBounds(24, 4);
    CRemBounds(20, 4);
    assert ZellerSum(2024, 3, 31) == 36;
    assert ZellerSum(2024, 3, 25) == 30;
  }

  /** The fields `gmtime` returns, already converted by the source: full
      year, month 1..12, day of month, hour and minute. */
  datatype CivilTime = CivilTime(year: int, month: int, day: int, hour: int, minute: int)

  const SecondsPerHour: ULong := 3600

  /** The summer-time rule of `add_daylight_saving_time` for a given switch
      day in March and in October: no shift from November to February, one
      hour from April to September, and on the switch days from 02:00 on
      (March) or before 02:00 (October). */
  function SummerTimeShift(timeStamp: ULong, c: CivilTime, marchDay: int, octoberDay: int): ULong {
    if c.month < 3 || c.month > 10 then timeStamp
    else if c.month > 3 && c.month < 10 then AddU(timeStamp, SecondsPerHour)
    else if c.month == 3 then
      if c.day < marchDay then timeStamp
      else if c.day > marchDay then AddU(timeStamp, SecondsPerHour)
      else AddU(timeStamp, (if c.hour >= 2 then 1 else 0) * SecondsPerHour)
    else
      if c.day < octoberDay then AddU(timeStamp, SecondsPerHour)
      else if c.day > octoberDay then timeStamp
      else AddU(timeStamp, (if c.hour < 2 then 1 else 0) * SecondsPerHour)
  }

  /** Whatever the switch days, the rule adds nothing or exactly one hour
      (modulo 2^32): nothing from November to February, one hour from April
      to September. */
  lemma SummerTimeShiftByMonth(timeStamp: ULong, c: CivilTime, marchDay: int, octoberDay: int)
    ensures var r := SummerTimeShift(timeStamp, c, marchDay, octoberDay);
            r == timeStamp || r == AddU(timeStamp, SecondsPerHour)
    ensures c.month < 3 || c.month > 10 ==> SummerTimeShift(timeStamp, c, marchDay, octoberDay) == timeStamp
    ensures 3 < c.month < 10 ==> SummerTimeShift(timeStamp, c, marchDay, octoberDay) == AddU(timeStamp, SecondsPerHour)
  {
    assert AddU(timeStamp, 0 * SecondsPerHour) == timeStamp;
  }

  /** `add_daylight_saving_time` as written, switching on the days the
      as-written `getLastSundayOfMonth` returns. */
  function AddDaylightSavingTimeAsWritten(timeStamp: ULong, c: CivilTime): (r: ULong)
    ensures r == timeStamp || r == AddU(timeStamp, SecondsPerHour)
  {
    SummerTimeShiftByMonth(timeStamp, c, LastSundayOfMonthAsWritten(c.year, 3), LastSundayOfMonthAsWritten(c.year, 10));
    SummerTimeShift(timeStamp, c, LastSundayOfMonthAsWritten(c.year, 3), LastSundayOfMonthAsWritten(c.year, 10))
  }

  /** `add_daylight_saving_time` switching on the last Sundays. */
  function AddDaylightSavingTime(timeStamp: ULong, c: CivilTime): ULong {
    SummerTimeShift(timeStamp, c, LastSundayOfMonth(c.year, 3), LastSundayOfMonth(c.year, 10))
  }

  /** Summer time (Central European Summer Time): from the last Sunday of
      March, 02:00 standard time, to the last Sunday of October, 02:00
      standard time. */
  predicate InSummerTime(c: CivilTime) {
    var march := LastSundayOfMonth(c.year, 3);
    var october := LastSundayOfMonth(c.year, 10);
    (3 < c.month < 10)
    || (c.month == 3 && (c.day > march || (c.day == march && c.hour >= 2)))
    || (c.month == 10 && (c.day < october || (c.day == october && c.hour < 2)))
  }

  /** The adjustment adds exactly one hour (modulo 2^32) in summer time and
      nothing otherwise; outside March and October it depends on the month
      alone. */
  lemma SummerTimeRule(timeStamp: ULong, c: CivilTime)
    ensures InSummerTime(c) ==> AddDaylightSavingTime(timeStamp, c) == AddU(timeStamp, SecondsPerHour)
    ensures !InSummerTime(c) ==> AddDaylightSavingTime(timeStamp, c) == timeStamp
    ensures c.month < 3 || c.month > 10 ==> AddDaylightSavingTime(timeStamp, c) == timeStamp
    ensures 3 < c.month < 10 ==> AddDaylightSavingTime(timeStamp, c) == AddU(timeStamp, SecondsPerHour)
  {
  }

  /** The rule as written keeps the month-level promises: it adds nothing or
      one hour, nothing from November to February and one hour from April to
      September; outside March and October it agrees with the last-Sunday rule. */
  lemma AsWrittenSummerTimeByMonth(timeStamp: ULong, c: CivilTime)
    ensures var r := AddDaylightSavingTimeAsWritten(timeStamp, c);
            r == timeStamp || r == AddU(timeStamp, SecondsPerHour)
    ensures c.month < 3 || c.month > 10 ==> AddDaylightSavingTimeAsWritten(timeStamp, c) == timeStamp
    ensures 3 < c.month < 10 ==> AddDaylightSavingTimeAsWritten(timeStamp, c) == AddU(timeStamp, SecondsPerHour)
    ensures c.month != 3 && c.month != 10 ==> AddDaylightSavingTimeAsWritten(timeStamp, c) == AddDaylightSavingTime(timeStamp, c)
  {
    SummerTimeShiftByMonth(timeStamp, c, LastSundayOfMonthAsWritten(c.year, 3), LastSundayOfMonthAsWritten(c.year, 10));
    SummerTimeShiftByMonth(timeStamp, c, LastSundayOfMonth(c.year, 3), LastSundayOfMonth(c.year, 10));
  }

  /** The two switch days are Sundays: the one in March is the last Sunday
      of March, the one in October the last Sunday of October. */
  lemma SwitchDaysAreSundays(year: int)
    ensures Weekday(year, 3, LastSundayOfMonth(year, 3)) == 0 && 25 <= LastSundayOfMonth(year, 3) <= 31
    ensures Weekday(year, 10, LastSundayOfMonth(year, 10)) == 0 && 25 <= LastSundayOfMonth(year, 10) <= 31
  {
    LastSundayIsLastSunday(year, 3, 31);
    LastSundayIsLastSunday(year, 10, 31);
  }

  /** In March 2024 the code as written starts summer time six days early:
      on Tuesday the 26th it adds an hour, which the last-Sunday rule does not. */
  lemma EarlySummerTime2024(timeStamp: ULong)
    ensures var c := CivilTime(2024, 3, 26, 12, 0);
            AddDaylightSavingTimeAsWritten(timeStamp, c) == AddU(timeStamp, SecondsPerHour)
            && AddDaylightSavingTime(timeStamp, c) == timeStamp
  {
    March2024();
  }

  /** `byte` (`uint8_t`). */
  type Byte = x: int | 0 <= x < 256

  /** NTP's 48-byte message. */
  const PacketSize: nat := 48

  /** The client request `sendNTPpacket` builds: all zero except the first
      four bytes and the reference identifier at bytes 12..15. */
  function RequestPacket(): (p: seq<Byte>)
    ensures |p| == PacketSize
  {
    [0xE3, 0, 6, 0xEC] + seq(8, _ => 0) + [49, 0x4E, 49, 52] + seq(32, _ => 0)
  }

  /** The request's header as NTP version 4 reads it: leap indicator 3
      (clock unsynchronised) in the top two bits, version 4 in the next
      three, mode 3 (client) in the low three; stratum 0, poll interval
      2^6 s, precision 0xEC (2^-20 s); the identifier is "1N14" and the
      transmit timestamp is zero. */
  lemma RequestHeader()
    ensures var p := RequestPacket();
            && p[0] / 64 == 3 && p[0] / 8 % 8 == 4 && p[0] % 8 == 3
            && p[1] == 0 && p[2] == 6 && p[3] == 0xEC
            && (forall i :: 4 <= i < 12 ==> p[i] == 0)
            && p[12] == '1' as int && p[13] == 'N' as int && p[14] == '1' as int && p[15] == '4' as int
            && (forall i :: 16 <= i < PacketSize ==> p[i] == 0)
  {
  }

  /** The request byte by byte: zero outside the header and the identifier. */
  lemma RequestPacketBytes()
    ensures var p := RequestPacket();
            && p[0] == 0xE3 && p[1] == 0 && p[2] == 6 && p[3] == 0xEC
            && p[12] == 49 && p[13] == 0x4E && p[14] == 49 && p[15] == 52
            && forall k :: 0 <= k < PacketSize && !(k < 4 || 12 <= k < 16) ==> p[k] == 0
  {
  }

  /** The four bytes from `at`, most significant first, as a number. */
  function BigEndian(p: seq<Byte>, at: nat): (n: ULong)
    requires at + 4 <= |p|
  {
    p[at] as int * 0x100_0000 + p[at + 1] as int * 0x1_0000 + p[at + 2] as int * 0x100 + p[at + 3] as int
  }

  /** The four bytes of a 32-bit number, most significant first. */
  function Bytes(n: ULong): (b: seq<Byte>)
    ensures |b| == 4
  {
    [n / 0x100_0000, n / 0x1_0000 % 0x100, n / 0x100 % 0x100, n % 0x100]
  }

  /** Reading four bytes back recovers the number, and encoding a read
      number recovers the bytes. */
  lemma BigEndianRoundTrip(n: ULong, p: seq<Byte>, at: nat)
    requires at + 4 <= |p|
    ensures BigEndian(Bytes(n), 0) == n
    ensures Bytes(BigEndian(p, at)) == p[at..at + 4]
  {
    BytesReadBack(n);
    BigEndianBytes(p[at], p[at + 1], p[at + 2], p[at + 3]);
  }

  lemma BytesReadBack(n: ULong)
    ensures BigEndian(Bytes(n), 0) == n
  {
    var a := n / 0x100;
    var b := a / 0x100;
    var c := b / 0x100;
    QuotientUnique(n, 0x1_0000, b, 0x100 * (a % 0x100) + n % 0x100);
    QuotientUnique(n, 0x100_0000, c, 0x1_0000 * (b % 0x100) + 0x100 * (a % 0x100) + n % 0x100);
    assert Bytes(n) == [c, b % 0x100, a % 0x100, n % 0x100];
  }

  lemma BigEndianBytes(b0: Byte, b1: Byte, b2: Byte, b3: Byte)
    ensures Bytes(BigEndian([b0, b1, b2, b3], 0)) == [b0, b1, b2, b3]
  {
    var v := BigEndian([b0, b1, b2, b3], 0);
    QuotientUnique(v, 0x100, b0 * 0x1_0000 + b1 * 0x100 + b2, b3);
    QuotientUnique(v, 0x1_0000, b0 * 0x100 + b1, b2 * 0x100 + b3);
    QuotientUnique(v, 0x100_0000, b0, b1 * 0x1_0000 + b2 * 0x100 + b3);
    QuotientUnique(b0 * 0x1_0000 + b1 * 0x100 + b2, 0x100, b0 * 0x100 + b1, b2);
    QuotientUnique(b0 * 0x100 + b1, 0x100, b0, b1);
  }

  /** One OR step of `getNtpTime`: a byte shifted into the `p`-th place
      (`p` = 2^k) below bits that are all above it adds to them. */
  lemma OrShiftedByte(high: nat, x: Byte, k: nat, p: nat)
    requires p == Pow2(k)
    ensures BitOr(high * 0x100 * p, x * p) == (high * 0x100 + x) * p
  {
    var h := high * 0x100;
    assert BitOr(h, x) == h + x by {
      assert Pow2(8) == 0x100;
      BitOrDisjoint(high, x, 8);
    }
    BitOrScaled(h, x, k);
  }

  /** The shift-and-OR assembly of `getNtpTime` on `unsigned long`: each byte
      lands in its own eight bits, so the ORs add up to the big-endian value. */
  method Assemble(b0: Byte, b1: Byte, b2: Byte, b3: Byte) returns (secs: ULong)
    ensures secs == BigEndian([b0, b1, b2, b3], 0)
  {
    var top := b0 * 0x100 + b1;
    var upper := top * 0x100 + b2;
    assert Pow2(8) == 0x100 && Pow2(16) == 0x1_0000 && Pow2(24) == 0x100_0000;
    secs := Shl(b0, 24);
    assert secs == b0 * 0x100 * 0x1_0000;
    assert Shl(b1, 16) == b1 * 0x1_0000;
    OrShiftedByte(b0, b1, 16, 0x1_0000);
    secs := BitOr(secs, Shl(b1, 16));
    assert secs == top * 0x100 * 0x100;
    assert Shl(b2, 8) == b2 * 0x100;
    OrShiftedByte(top, b2, 8, 0x100);
    secs := BitOr(secs, Shl(b2, 8));
    assert secs == upper * 0x100 * 1 && b3 == b3 * 1;
    OrShiftedByte(upper, b3, 0, 1);
    secs := BitOr(secs, b3);
  }

  /** Seconds from 1900-01-01 (NTP's era 0) to 1970-01-01. */
  const SeventyYears: ULong := 2208988800

  /** `timeZone` of Central European Time, in hours. */
  const TimeZone: int := 1

  /** The local standard time of a transmit timestamp: Unix seconds plus one
      hour, in 32-bit unsigned arithmetic. */
  function LocalSeconds(secsSince1900: ULong): ULong {
    AddU(SubU(secsSince1900, SeventyYears), TimeZone * SecondsPerHour)
  }

  /** From 1970 until the 32-bit era ends, the local time is the Unix time
      plus an hour; before 1970 the subtraction wraps around 2^32. */
  lemma LocalSecondsInRange(secs: ULong)
    ensures SeventyYears <= secs < ULongModulus - SecondsPerHour ==> LocalSeconds(secs) == secs as int - SeventyYears + 3600
    ensures secs < SeventyYears - SecondsPerHour ==> LocalSeconds(secs) == secs as int - SeventyYears + 3600 + ULongModulus
  {
  }

  /** What `getNtpTime` returns: nothing received (no packet of 48 bytes
      within the waiting time) gives 0; otherwise the transmit timestamp of
      bytes 40..43, moved to local time and adjusted for summer time by the
      rule as written. */
  function NtpResult(response: Option<seq<Byte>>, gmtime: ULong -> CivilTime): ULong {
    match response
    case None => 0
    case Some(p) =>
      if |p| < PacketSize then 0
      else
        var local := LocalSeconds(BigEndian(p, 40));
        AddDaylightSavingTimeAsWritten(local, gmtime(local))
  }

  /** A response carrying transmit time `secs` yields that time moved to
      local time, summer time included: the local time itself or one hour
      later, and outside March and October exactly as the last-Sunday rule says. */
  lemma ResponseDecodes(p: seq<Byte>, secs: ULong, gmtime: ULong -> CivilTime)
    requires |p| >= PacketSize && p[40..44] == Bytes(secs)
    ensures var local := LocalSeconds(secs);
            NtpResult(Some(p), gmtime) == AddDaylightSavingTimeAsWritten(local, gmtime(local))
    ensures var local := LocalSeconds(secs); var r := NtpResult(Some(p), gmtime);
            r == local || r == AddU(local, SecondsPerHour)
    ensures var local := LocalSeconds(secs); var c := gmtime(local);
            c.month != 3 && c.month != 10 ==> NtpResult(Some(p), gmtime) == AddDaylightSavingTime(local, c)
  {
    BigEndianRoundTrip(secs, p, 40);
    assert BigEndian(p, 40) == BigEndian(p[40..44], 0);
    var local := LocalSeconds(secs);
    AsWrittenSummerTimeByMonth(local, gmtime(local));
  }

  /** The globals of NTPClock.h: the shared `packetBuffer`, and the packets
      handed to the UDP socket, oldest first. */
  class NtpClock {
    const packetBuffer: array<Byte>
    var sent: seq<seq<Byte>>

    constructor ()
      ensures packetBuffer.Length == PacketSize && fresh(packetBuffer) && sent == []
    {
      packetBuffer := new Byte[PacketSize](_ => 0);
      sent := [];
    }

    /** `sendNTPpacket`: clears the buffer, fills in the request and sends
        all 48 bytes. */
    method SendNtpPacket()
      requires packetBuffer.Length == PacketSize
      modifies packetBuffer, this`sent
      ensures packetBuffer[..] == RequestPacket()
      ensures sent == old(sent) + [RequestPacket()]
    {
      for i := 0 to PacketSize
        invariant forall k :: 0 <= k < i ==> packetBuffer[k] == 0
        invariant sent == old(sent)
      {
        packetBuffer[i] := 0;
      }
      packetBuffer[0] := 0xE3;
      packetBuffer[1] := 0;
      packetBuffer[2] := 6;
      packetBuffer[3] := 0xEC;
      packetBuffer[12] := 49;
      packetBuffer[13] := 0x4E;
      packetBuffer[14] := 49;
      packetBuffer[15] := 52;
      RequestPacketBytes();
      assert packetBuffer[..] == RequestPacket() by {
        assert forall k :: 0 <= k < PacketSize ==> packetBuffer[k] == RequestPacket()[k];
      }
      sent := sent + [packetBuffer[..]];
    }

    /** `getNtpTime`: sends the request, then reads the first response of at
        least 48 bytes (`None` when none arrives in time) into the buffer and
        decodes its transmit timestamp. */
    method GetNtpTime(response: Option<seq<Byte>>, gmtime: ULong -> CivilTime) returns (t: ULong)
      requires packetBuffer.Length == PacketSize
      modifies packetBuffer, this`sent
      ensures t == NtpResult(response, gmtime)
      ensures sent == old(sent) + [RequestPacket()]
      ensures response.Some? && |response.value| >= PacketSize ==> packetBuffer[..] == response.value[..PacketSize]
      ensures response.None? || |response.value| < PacketSize ==> packetBuffer[..] == RequestPacket()
    {
      SendNtpPacket();
      if response.None? || |response.value| < PacketSize {
        return 0;
      }
      var p := response.value;
      for i := 0 to PacketSize
        invariant forall k :: 0 <= k < i ==> packetBuffer[k] == p[k]
        invariant sent == old(sent) + [RequestPacket()]
      {
        packetBuffer[i] := p[i];
      }
      assert packetBuffer[..] == p[..PacketSize];
      var secsSince1900 := Assemble(packetBuffer[40], packetBuffer[41], packetBuffer[42], packetBuffer[43]);
      assert secsSince1900 == BigEndian(p, 40) by {
        assert packetBuffer[40] == p[40] && packetBuffer[41] == p[41];
        assert packetBuffer[42] == p[42] && packetBuffer[43] == p[43];
      }
      var local := AddU(SubU(secsSince1900, SeventyYears), TimeZone * SecondsPerHour);
      t := AddDaylightSavingTimeAsWritten(local, gmtime(local));
    }
  }
}
