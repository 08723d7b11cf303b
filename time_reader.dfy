/** TimeReader.h/.cpp: keeps the last clock reading (seconds since 1970,
    already in local time) and breaks it into calendar fields the way a
    compact `localtime` does, with a year loop and a month loop. The NTP
    clock behind `update` is a parameter: `Update(reading)` stores the value
    `clock->read()` would return. */
module Calendar {
  import opened CInt
  import opened Text

  const SecondsPerDay := 86400

  /** `isLeapYear(yearOffsetFrom1970)`. */
  predicate IsLeapYear(offset: nat) {
    var year := 1970 + offset;
    year > 0 && year % 4 == 0 && (year % 100 != 0 || year % 400 == 0)
  }

  /** `monthDays`, January first. */
  const MonthDays: seq<int> := [31, 28, 31, 30, 31, 30, 31, 31, 30, 31, 30, 31]

  function YearLength(offset: nat): int {
    if IsLeapYear(offset) then 366 else 365
  }

  /** The month length `breakTime` uses: February has 29 days in a leap year. */
  function MonthLength(offset: nat, month: nat): int
    requires month < 12
  {
    if month == 1 then (if IsLeapYear(offset) then 29 else 28) else MonthDays[month]
  }

  /** Days from 1970-01-01 to the first day of year offset `y`. */
  function DaysBeforeYear(y: nat): nat {
    if y == 0 then 0 else DaysBeforeYear(y - 1) + YearLength(y - 1)
  }

  /** Days from the first of the year to the first day of month `m` (0 = January). */
  function DaysBeforeMonth(offset: nat, m: nat): int
    requires m <= 12
  {
    if m == 0 then 0 else DaysBeforeMonth(offset, m - 1) + MonthLength(offset, m - 1)
  }

  /** 1972 and 2000 are leap years, 2100 is not. */
  lemma LeapYearExamples()
    ensures IsLeapYear(2) && IsLeapYear(30) && !IsLeapYear(130) && !IsLeapYear(0) && !IsLeapYear(31)
  {
  }

  /** From 1970 to 2099 the years divisible by 4 are exactly the leap years
      (2000 is divisible by 400); the first century year outside, 2100, is not one. */
  lemma LeapIffFourth(offset: nat)
    requires offset <= 129
    ensures IsLeapYear(offset) <==> offset % 4 == 2
  {
    var y := 1970 + offset;
    var k := offset / 4;
    var r := offset % 4;
    assert offset == 4 * k + r;
    assert y == 4 * (k + 492) + r + 2;
    if r == 2 {
      assert y % 4 == 0;
      if y < 2000 {
        assert y == 100 * 19 + (y - 1900);
        assert y % 100 == y - 1900;
      } else if y > 2000 {
        assert y == 100 * 20 + (y - 2000);
        assert y % 100 == y - 2000;
      }
    } else if r < 2 {
      assert y == 4 * (k + 492) + (r + 2);
      assert y % 4 == r + 2;
    } else {
      assert y == 4 * (k + 493) + 1;
      assert y % 4 == 1;
    }
  }

  /** The twelve months make up the year, and each is 28..31 days long. */
  lemma MonthsMakeYear(offset: nat)
    ensures DaysBeforeMonth(offset, 12) == YearLength(offset)
    ensures forall m :: 0 <= m < 12 ==> 28 <= MonthLength(offset, m) <= 31
  {
    var feb := if IsLeapYear(offset) then 29 else 28;
    assert DaysBeforeMonth(offset, 1) == 31;
    assert DaysBeforeMonth(offset, 2) == 31 + feb;
    assert DaysBeforeMonth(offset, 3) == 62 + feb;
    assert DaysBeforeMonth(offset, 4) == 92 + feb;
    assert DaysBeforeMonth(offset, 5) == 123 + feb;
    assert DaysBeforeMonth(offset, 6) == 153 + feb;
    assert DaysBeforeMonth(offset, 7) == 184 + feb;
    assert DaysBeforeMonth(offset, 8) == 215 + feb;
    assert DaysBeforeMonth(offset, 9) == 245 + feb;
    assert DaysBeforeMonth(offset, 10) == 276 + feb;
    assert DaysBeforeMonth(offset, 11) == 306 + feb;
  }

  /** Between 1970 and 2099 every fourth year is a leap year, starting with 1972. */
  lemma {:induction false} DaysBeforeYearClosedForm(y: nat)
    requires y <= 130
    ensures DaysBeforeYear(y) == 365 * y + (y + 1) / 4
    decreases y
  {
    if y > 0 {
      DaysBeforeYearClosedForm(y - 1);
      LeapIffFourth(y - 1);
    }
  }

  /** A year has at least 365 days. */
  lemma {:induction false} DaysBeforeYearAtLeast(y: nat)
    ensures DaysBeforeYear(y) >= 365 * y
    decreases y
  {
    if y > 0 {
      DaysBeforeYearAtLeast(y - 1);
    }
  }

  lemma {:induction false} DaysBeforeYearMonotone(a: nat, b: nat)
    requires a <= b
    ensures DaysBeforeYear(a) <= DaysBeforeYear(b)
    decreases b - a
  {
    if a < b {
      DaysBeforeYearMonotone(a, b - 1);
    }
  }

  /** The year loop: starting at year offset `y` with `rest` days left, the
      year reached and the day within it. */
  function SplitYears(rest: nat, y: nat): (nat, nat)
    decreases rest
  {
    if rest < YearLength(y) then (y, rest) else SplitYears(rest - YearLength(y), y + 1)
  }

  /** The month loop: from month `m` with `rest` days left, the month reached
      and the day within it (month 12 only if the days outrun the year). */
  function SplitMonths(rest: nat, offset: nat, m: nat): (nat, nat)
    requires m <= 12
    decreases 12 - m
  {
    if m == 12 || rest < MonthLength(offset, m) then (m, rest)
    else SplitMonths(rest - MonthLength(offset, m), offset, m + 1)
  }

  /** `TimeElements`: Year is the offset from 1970, Wday runs 1 = Monday .. 7 = Sunday. */
  datatype TimeElements = TimeElements(second: nat, minute: nat, hour: nat, wday: nat, day: nat, month: nat, year: nat)

  /** Whole days in the reading after the cast to a 32-bit unsigned value. */
  function DayNumber(t: int): nat {
    t % ULongModulus / 60 / 60 / 24
  }

  /** `breakTime(t)`: the reading is first cast to a 32-bit unsigned value. */
  function BrokenDown(t: int): TimeElements {
    var u := t % ULongModulus;
    var minutes := u / 60;
    var hours := minutes / 60;
    var days := DayNumber(t);
    var (y, dayOfYear) := SplitYears(days, 0);
    var (m, dayOfMonth) := SplitMonths(dayOfYear, y, 0);
    TimeElements(u % 60, minutes % 60, hours % 24, (days + 3) % 7 + 1, dayOfMonth + 1, m + 1, y)
  }

  lemma {:induction false} SplitYearsSpec(rest: nat, y: nat)
    ensures var (y', r) := SplitYears(rest, y);
            y <= y' && DaysBeforeYear(y') - DaysBeforeYear(y) + r == rest && r < YearLength(y')
    decreases rest
  {
    if rest >= YearLength(y) {
      SplitYearsSpec(rest - YearLength(y), y + 1);
    }
  }

  lemma {:induction false} SplitMonthsSpec(rest: nat, offset: nat, m: nat)
    requires m <= 12 && DaysBeforeMonth(offset, m) + rest < YearLength(offset)
    ensures var (m', r) := SplitMonths(rest, offset, m);
            m <= m' < 12 && DaysBeforeMonth(offset, m') - DaysBeforeMonth(offset, m) + r == rest && r < MonthLength(offset, m')
    decreases 12 - m
  {
    MonthsMakeYear(offset);
    if m < 12 && rest >= MonthLength(offset, m) {
      SplitMonthsSpec(rest - MonthLength(offset, m), offset, m + 1);
    }
  }

  /** The clock fields of `breakTime` are in range and reassemble the
      32-bit reading with the day number; the weekday counts on from Thursday,
      1970-01-01; a 32-bit reading spans at most 49710 days. */
  lemma ClockFields(t: int)
    ensures var tm := BrokenDown(t);
            var u := t % ULongModulus;
            && tm.second <= 59 && tm.minute <= 59 && tm.hour <= 23
            && 1 <= tm.wday <= 7 && tm.wday == (DayNumber(t) + 3) % 7 + 1
            && u == DayNumber(t) * SecondsPerDay + tm.hour * 3600 + tm.minute * 60 + tm.second
            && DayNumber(t) == u / SecondsPerDay <= 49710
  {
    var u := t % ULongModulus;
    var minutes := u / 60;
    var hours := minutes / 60;
    var days := hours / 24;
    assert u == minutes * 60 + u % 60;
    assert minutes == hours * 60 + minutes % 60;
    assert hours == days * 24 + hours % 24;
    var rest := (hours % 24) * 3600 + (minutes % 60) * 60 + u % 60;
    assert u == days * SecondsPerDay + rest;
    assert 0 <= rest < SecondsPerDay;
    assert u / SecondsPerDay == days;
  }

  /** The date fields of `breakTime`: the year is the number of whole years
      since 1970 (at most 136, so the `uint8_t` offset never wraps), and month
      and day name the day within that year, never beyond the month's length. */
  lemma DateFields(t: int)
    ensures var tm := BrokenDown(t);
            var days := DayNumber(t);
            && tm.year <= 136
            && DaysBeforeYear(tm.year) <= days < DaysBeforeYear(tm.year + 1)
            && 1 <= tm.month <= 12 && 1 <= tm.day <= MonthLength(tm.year, tm.month - 1) <= 31
            && DaysBeforeYear(tm.year) + DaysBeforeMonth(tm.year, tm.month - 1) + tm.day - 1 == days
  {
    var days := DayNumber(t);
    DayNumberBound(t);
    var ys := SplitYears(days, 0);
    var y, dayOfYear := ys.0, ys.1;
    SplitYearsSpec(days, 0);
    assert DaysBeforeYear(y) + dayOfYear == days && dayOfYear < YearLength(y);
    DaysBeforeYearAtLeast(y);
    MonthsMakeYear(y);
    SplitMonthsSpec(dayOfYear, y, 0);
    var ms := SplitMonths(dayOfYear, y, 0);
    assert ms.0 < 12 && DaysBeforeMonth(y, ms.0) + ms.1 == dayOfYear && ms.1 < MonthLength(y, ms.0);
    assert MonthLength(y, ms.0) <= 31;
    var tm := BrokenDown(t);
    assert tm.year == y && tm.month == ms.0 + 1 && tm.day == ms.1 + 1;
  }

  /** A 32-bit reading spans at most 49710 days. */
  lemma DayNumberBound(t: int)
    ensures DayNumber(t) <= 49710
  {
    var u := t % ULongModulus;
    assert u / 60 <= 71582788;
    assert u / 60 / 60 <= 1193046;
  }

  /** Reverse direction: a year, month and day satisfying the calendar
      relation are the ones `breakTime` finds. */
  lemma CalendarUnique(days: nat, y: nat, m: nat, d: nat)
    requires DaysBeforeYear(y) <= days < DaysBeforeYear(y + 1)
    requires m < 12 && d < MonthLength(y, m) && DaysBeforeYear(y) + DaysBeforeMonth(y, m) + d == days
    ensures SplitMonths(SplitYears(days, 0).1, SplitYears(days, 0).0, 0) == (m, d)
    ensures SplitYears(days, 0).0 == y
  {
    var (y', r) := SplitYears(days, 0);
    SplitYearsSpec(days, 0);
    if y' < y {
      DaysBeforeYearMonotone(y' + 1, y);
    } else if y' > y {
      DaysBeforeYearMonotone(y + 1, y');
    }
    assert y' == y;
    MonthsUnique(r, y, 0, m, d);
  }

  lemma {:induction false} MonthsUnique(rest: nat, offset: nat, from: nat, m: nat, d: nat)
    requires from <= m < 12 && d < MonthLength(offset, m)
    requires DaysBeforeMonth(offset, m) - DaysBeforeMonth(offset, from) + d == rest
    ensures SplitMonths(rest, offset, from) == (m, d)
    decreases 12 - from
  {
    if from < m {
      MonthsAfter(offset, from + 1, m);
      MonthsUnique(rest - MonthLength(offset, from), offset, from + 1, m, d);
    }
  }

  lemma {:induction false} MonthsAfter(offset: nat, a: nat, b: nat)
    requires a <= b <= 12
    ensures DaysBeforeMonth(offset, a) <= DaysBeforeMonth(offset, b)
    decreases b - a
  {
    if a < b {
      MonthsAfter(offset, a, b - 1);
      MonthsMakeYear(offset);
    }
  }

  /** `snprintf(buf, 18, "%02d:%02d %02d.%02d.%04d", hour, minute, day, month, year)`. */
  function FormatLine(hour: nat, minute: nat, day: nat, month: nat, year: nat): string {
    Truncate(ZeroPad(hour, 2) + ":" + ZeroPad(minute, 2) + " " +
             ZeroPad(day, 2) + "." + ZeroPad(month, 2) + "." +
             ZeroPad(year, 4), 18)
  }

  /** The line `getDisplayString` formats from the broken-down fields. */
  function DisplayText(tm: TimeElements): string {
    FormatLine(tm.hour, tm.minute, tm.day, tm.month, tm.year + 1970)
  }

  /** Where the five fields and the separators of the display line sit. */
  lemma LayoutSlices(h: string, mi: string, d: string, mo: string, y: string)
    requires |h| == 2 && |mi| == 2 && |d| == 2 && |mo| == 2 && |y| == 4
    ensures var s := h + ":" + mi + " " + d + "." + mo + "." + y;
            && |s| == 16 && s[2] == ':' && s[5] == ' ' && s[8] == '.' && s[11] == '.'
            && s[0..2] == h && s[3..5] == mi && s[6..8] == d && s[9..11] == mo && s[12..16] == y
  {
  }

  /** The display line is always "hh:mm dd.mm.yyyy", sixteen characters that
      fit the buffer untruncated, and each field reads back to its value. */
  lemma DisplayTextReadsBack(t: int)
    ensures var tm := BrokenDown(t);
            var s := DisplayText(tm);
            && |s| == 16
            && s[2] == ':' && s[5] == ' ' && s[8] == '.' && s[11] == '.'
            && DecimalValue(s[0..2]) == tm.hour && DecimalValue(s[3..5]) == tm.minute
            && DecimalValue(s[6..8]) == tm.day && DecimalValue(s[9..11]) == tm.month
            && DecimalValue(s[12..16]) == tm.year + 1970
  {
    var tm := BrokenDown(t);
    ClockFields(t);
    DateFields(t);
    FormatReadsBack(tm.hour, tm.minute, tm.day, tm.month, tm.year + 1970);
  }

  /** The formatted line of fields that fit their widths. */
  lemma FormatReadsBack(hour: nat, minute: nat, day: nat, month: nat, year: nat)
    requires hour < 100 && minute < 100 && day < 100 && month < 100 && 1000 <= year < 10000
    ensures var s := FormatLine(hour, minute, day, month, year);
            && |s| == 16
            && s[2] == ':' && s[5] == ' ' && s[8] == '.' && s[11] == '.'
            && DecimalValue(s[0..2]) == hour && DecimalValue(s[3..5]) == minute
            && DecimalValue(s[6..8]) == day && DecimalValue(s[9..11]) == month
            && DecimalValue(s[12..16]) == year
  {
    PadsToWidth(hour, 2);
    PadsToWidth(minute, 2);
    PadsToWidth(day, 2);
    PadsToWidth(month, 2);
    PadsToWidth(year, 4);
    var h, mi, d, mo, y := ZeroPad(hour, 2), ZeroPad(minute, 2), ZeroPad(day, 2), ZeroPad(month, 2), ZeroPad(year, 4);
    LayoutSlices(h, mi, d, mo, y);
    FieldsFit(hour, minute, day, month, year, h, mi, d, mo, y);
  }

  /** A zero-padded field of a value that fits. */
  lemma PadsToWidth(n: nat, width: nat)
    requires width == 2 || width == 4
    requires if width == 2 then n < 100 else 1000 <= n < 10000
    ensures |ZeroPad(n, width)| == width && DecimalValue(ZeroPad(n, width)) == n
  {
    DigitCountBounds(n);
    ZeroPadReadsBack(n, width);
  }

  /** `getTimeOfDayInMinutes`: `(lastValue / 60) % 1440` with C's operators on a signed `time_t`. */
  function TimeOfDayInMinutes(t: int): int {
    CRem(CDiv(t, 60), 1440)
  }

  /** The minutes of the day lie in 0..1439 for readings from 1970 on (and in
      -1439..0 before), and for any 32-bit reading they are exactly the hours
      and minutes `breakTime` shows. */
  lemma TimeOfDayAgreesWithClock(t: int)
    ensures t >= 0 ==> 0 <= TimeOfDayInMinutes(t) <= 1439
    ensures t < 0 ==> -1439 <= TimeOfDayInMinutes(t) <= 0
    ensures 0 <= t < ULongModulus ==> TimeOfDayInMinutes(t) == BrokenDown(t).hour * 60 + BrokenDown(t).minute
  {
    if t >= 0 {
      MinutesFromEpoch(t);
    } else {
      MinutesBeforeEpoch(t);
    }
    if 0 <= t < ULongModulus {
      MinutesOfClock(t);
    }
  }

  /** From 1970 on both C operators are the Euclidean ones. */
  lemma MinutesFromEpoch(t: int)
    requires t >= 0
    ensures TimeOfDayInMinutes(t) == t / 60 % 1440
  {
    assert CDiv(t, 60) == t / 60;
    CRemBounds(t / 60, 1440);
  }

  /** Before 1970 the minute count is not positive, and so is its C remainder. */
  lemma MinutesBeforeEpoch(t: int)
    requires t < 0
    ensures -1439 <= TimeOfDayInMinutes(t) <= 0
  {
    assert CDiv(t, 60) == -(-t / 60);
    CRemBounds(CDiv(t, 60), 1440);
  }

  lemma MinutesOfClock(t: int)
    requires 0 <= t < ULongModulus
    ensures TimeOfDayInMinutes(t) == BrokenDown(t).hour * 60 + BrokenDown(t).minute
  {
    MinutesFromEpoch(t);
    assert t % ULongModulus == t;
    BrokenDownClock(t);
    MinutesOfDay(t / 60);
  }

  /** The clock fields of `breakTime`, read off the 32-bit reading. */
  lemma BrokenDownClock(t: int)
    ensures var u := t % ULongModulus;
            BrokenDown(t).second == u % 60 && BrokenDown(t).minute == u / 60 % 60 && BrokenDown(t).hour == u / 60 / 60 % 24
  {
  }

  /** Splitting a minute count into days, hours and minutes. */
  lemma MinutesOfDay(a: nat)
    ensures a % 1440 == (a / 60 % 24) * 60 + a % 60
  {
    var q := a / 1440;
    var r := a % 1440;
    assert a == 60 * (24 * q + r / 60) + r % 60;
    assert a / 60 == 24 * q + r / 60;
    assert a % 60 == r % 60;
    assert (a / 60) % 24 == r / 60;
  }

  /** A year, month and day that satisfy the calendar relation for a day
      number are the ones the year and month loops reach. */
  lemma DateOfDay(days: nat, y: nat, m: nat, d: nat)
    requires m < 12 && d < MonthLength(y, m)
    requires DaysBeforeYear(y) + DaysBeforeMonth(y, m) + d == days
    ensures SplitYears(days, 0).0 == y
    ensures SplitMonths(SplitYears(days, 0).1, y, 0) == (m, d)
  {
    assert DaysBeforeYear(y + 1) == DaysBeforeYear(y) + YearLength(y);
    MonthsAfter(y, 0, m);
    MonthsAfter(y, m + 1, 12);
    MonthsMakeYear(y);
    assert DaysBeforeMonth(y, m + 1) == DaysBeforeMonth(y, m) + MonthLength(y, m);
    CalendarUnique(days, y, m, d);
  }

  /** The dates the controller's documentation gives, each stated for a
      reading `t` equal to the documented value: first the clock fields and
      the day number, then the date the loops reach, then the whole record. */
  lemma EpochClock(t: int)
    requires t == 0
    ensures var u := t % ULongModulus;
            DayNumber(t) == 0 && u % 60 == 0 && u / 60 % 60 == 0 && u / 60 / 60 % 24 == 0 && (DayNumber(t) + 3) % 7 + 1 == 4
  {
  }

  lemma Epoch(t: int)
    requires t == 0
    ensures BrokenDown(t) == TimeElements(0, 0, 0, 4, 1, 1, 0)
  {
    EpochClock(t);
    DateOfDay(0, 0, 0, 0);
  }

  lemma LeapDay2000Clock(t: int)
    requires t == 951827696
    ensures var u := t % ULongModulus;
            DayNumber(t) == 11016 && u % 60 == 56 && u / 60 % 60 == 34 && u / 60 / 60 % 24 == 12 && (DayNumber(t) + 3) % 7 + 1 == 2
  {
  }

  lemma LeapDay2000Date(t: int)
    requires t == 951827696
    ensures SplitYears(DayNumber(t), 0).0 == 30 && SplitMonths(SplitYears(DayNumber(t), 0).1, 30, 0) == (1, 28)
  {
    LeapDay2000Clock(t);
    Year2000();
    DateOfDay(DayNumber(t), 30, 1, 28);
  }

  lemma LeapDay2000(t: int)
    requires t == 951827696
    ensures BrokenDown(t) == TimeElements(56, 34, 12, 2, 29, 2, 30)
  {
    LeapDay2000Clock(t);
    LeapDay2000Date(t);
  }

  lemma NewYearsEve2020Clock(t: int)
    requires t == 1609459199
    ensures var u := t % ULongModulus;
            DayNumber(t) == 18627 && u % 60 == 59 && u / 60 % 60 == 59 && u / 60 / 60 % 24 == 23 && (DayNumber(t) + 3) % 7 + 1 == 4
  {
  }

  lemma NewYearsEve2020Date(t: int)
    requires t == 1609459199
    ensures SplitYears(DayNumber(t), 0).0 == 50 && SplitMonths(SplitYears(DayNumber(t), 0).1, 50, 0) == (11, 30)
  {
    NewYearsEve2020Clock(t);
    Year2020();
    DateOfDay(DayNumber(t), 50, 11, 30);
  }

  lemma NewYearsEve2020(t: int)
    requires t == 1609459199
    ensures BrokenDown(t) == TimeElements(59, 59, 23, 4, 31, 12, 50)
  {
    NewYearsEve2020Clock(t);
    NewYearsEve2020Date(t);
  }

  /** 2000 is a leap year starting on day 10957. */
  lemma Year2000()
    ensures DaysBeforeYear(30) == 10957 && DaysBeforeMonth(30, 1) == 31 && MonthLength(30, 1) == 29
  {
    DaysBeforeYearClosedForm(30);
    LeapYearExamples();
  }

  /** 2020 starts on day 18262 and its December on day 335 of the year. */
  lemma Year2020()
    ensures DaysBeforeYear(50) == 18262 && DaysBeforeMonth(50, 11) == 335
  {
    DaysBeforeYearClosedForm(50);
    LeapIffFourth(50);
    MonthsMakeYear(50);
    assert DaysBeforeMonth(50, 12) == DaysBeforeMonth(50, 11) + 31;
  }

  /** A two-digit field, zero first when the value is below ten. */
  lemma TwoDigits(n: nat)
    requires n < 100
    ensures ZeroPad(n, 2) == [DigitChar(n / 10), DigitChar(n % 10)]
  {
    SmallNatToString(n);
  }

  /** A four-digit year. */
  lemma FourDigits(n: nat)
    requires 1000 <= n < 10000
    ensures ZeroPad(n, 4) == [DigitChar(n / 1000), DigitChar(n / 100 % 10), DigitChar(n / 10 % 10), DigitChar(n % 10)]
  {
    SmallNatToString(n / 100);
    assert NatToString(n / 10) == NatToString(n / 100) + [DigitChar(n / 10 % 10)];
    assert n / 100 / 10 == n / 1000 && n / 100 % 10 == n / 100 % 10;
  }

  /** The formatted line of five padded fields of the right widths, untruncated. */
  lemma FieldsFit(hour: nat, minute: nat, day: nat, month: nat, year: nat,
                  h: string, mi: string, d: string, mo: string, y: string)
    requires ZeroPad(hour, 2) == h && ZeroPad(minute, 2) == mi && ZeroPad(day, 2) == d
    requires ZeroPad(month, 2) == mo && ZeroPad(year, 4) == y
    requires |h| == 2 && |mi| == 2 && |d| == 2 && |mo| == 2 && |y| == 4
    ensures FormatLine(hour, minute, day, month, year) == h + ":" + mi + " " + d + "." + mo + "." + y
  {
  }

  /** The display lines of the documented dates, first as formatted fields,
      then for the broken-down records. */
  lemma EpochFormat(hour: nat, minute: nat, day: nat, month: nat, year: nat)
    requires hour == 0 && minute == 0 && day == 1 && month == 1 && year == 1970
    ensures FormatLine(hour, minute, day, month, year) == "00:00 01.01.1970"
  {
    assert ZeroPad(hour, 2) == "00" by {
      TwoDigits(hour);
    }
    assert ZeroPad(minute, 2) == "00" by {
      TwoDigits(minute);
    }
    assert ZeroPad(day, 2) == "01" by {
      TwoDigits(day);
    }
    assert ZeroPad(month, 2) == "01" by {
      TwoDigits(month);
    }
    assert ZeroPad(year, 4) == "1970" by {
      FourDigits(year);
    }
    FieldsFit(hour, minute, day, month, year, "00", "00", "01", "01", "1970");
  }

  lemma LeapDay2000Format(hour: nat, minute: nat, day: nat, month: nat, year: nat)
    requires hour == 12 && minute == 34 && day == 29 && month == 2 && year == 2000
    ensures FormatLine(hour, minute, day, month, year) == "12:34 29.02.2000"
  {
    assert ZeroPad(hour, 2) == "12" by {
      TwoDigits(hour);
    }
    assert ZeroPad(minute, 2) == "34" by {
      TwoDigits(minute);
    }
    assert ZeroPad(day, 2) == "29" by {
      TwoDigits(day);
    }
    assert ZeroPad(month, 2) == "02" by {
      TwoDigits(month);
    }
    assert ZeroPad(year, 4) == "2000" by {
      FourDigits(year);
    }
    FieldsFit(hour, minute, day, month, year, "12", "34", "29", "02", "2000");
  }

  lemma NewYearsEve2020Format(hour: nat, minute: nat, day: nat, month: nat, year: nat)
    requires hour == 23 && minute == 59 && day == 31 && month == 12 && year == 2020
    ensures FormatLine(hour, minute, day, month, year) == "23:59 31.12.2020"
  {
    assert ZeroPad(hour, 2) == "23" by {
      TwoDigits(hour);
    }
    assert ZeroPad(minute, 2) == "59" by {
      TwoDigits(minute);
    }
    assert ZeroPad(day, 2) == "31" by {
      TwoDigits(day);
    }
    assert ZeroPad(month, 2) == "12" by {
      TwoDigits(month);
    }
    assert ZeroPad(year, 4) == "2020" by {
      FourDigits(year);
    }
    FieldsFit(hour, minute, day, month, year, "23", "59", "31", "12", "2020");
  }

  lemma EpochLine(tm: TimeElements)
    requires tm == TimeElements(0, 0, 0, 4, 1, 1, 0)
    ensures DisplayText(tm) == "00:00 01.01.1970"
  {
    EpochFormat(tm.hour, tm.minute, tm.day, tm.month, tm.year + 1970);
  }

  lemma LeapDay2000Line(tm: TimeElements)
    requires tm == TimeElements(56, 34, 12, 2, 29, 2, 30)
    ensures DisplayText(tm) == "12:34 29.02.2000"
  {
    LeapDay2000Format(tm.hour, tm.minute, tm.day, tm.month, tm.year + 1970);
  }

  lemma NewYearsEve2020Line(tm: TimeElements)
    requires tm == TimeElements(59, 59, 23, 4, 31, 12, 50)
    ensures DisplayText(tm) == "23:59 31.12.2020"
  {
    NewYearsEve2020Format(tm.hour, tm.minute, tm.day, tm.month, tm.year + 1970);
  }

  /** `getDisplayString` for the documented readings. */
  lemma KnownDisplays(t: int)
    requires t == 0 || t == 951827696 || t == 1609459199
    ensures t == 0 ==> DisplayText(BrokenDown(t)) == "00:00 01.01.1970"
    ensures t == 951827696 ==> DisplayText(BrokenDown(t)) == "12:34 29.02.2000"
    ensures t == 1609459199 ==> DisplayText(BrokenDown(t)) == "23:59 31.12.2020"
  {
    if t == 0 {
      Epoch(t);
      EpochLine(BrokenDown(t));
    } else if t == 951827696 {
      LeapDay2000(t);
      LeapDay2000Line(BrokenDown(t));
    } else {
      NewYearsEve2020(t);
      NewYearsEve2020Line(BrokenDown(t));
    }
  }

  class TimeReader {
    /** Seconds since 1970-01-01 00:00:00, already converted to local time (`time_t`). */
    var lastValue: int

    constructor ()
      ensures lastValue == 0
    {
      lastValue := 0;
    }

    /** `update`: stores the clock's `read()`, passed in as `reading`. */
    method Update(reading: int)
      modifies this`lastValue
      ensures lastValue == reading
    {
      lastValue := reading;
    }

    function GetTimeOfDayInMinutes(): (minutes: int)
      reads this
      ensures lastValue >= 0 ==> 0 <= minutes <= 1439
      ensures 0 <= lastValue < ULongModulus ==> minutes == BrokenDown(lastValue).hour * 60 + BrokenDown(lastValue).minute
    {
      TimeOfDayAgreesWithClock(lastValue);
      TimeOfDayInMinutes(lastValue)
    }

    method GetDisplayString() returns (s: string)
      ensures s == DisplayText(BrokenDown(lastValue))
      ensures |s| == 16
    {
      var tm := BreakTime(lastValue);
      DisplayTextReadsBack(lastValue);
      s := DisplayText(tm);
    }

    /** The year loop of `breakTime`: the year offset holding day `days` and the days before it. */
    static method FindYear(days: nat) returns (year: nat, before: nat)
      requires days <= 49710
      ensures (year, days - before) == SplitYears(days, 0)
      ensures before == DaysBeforeYear(year) <= days
    {
      year := 0;
      var total := YearLength(year);
      while total <= days
        invariant total == DaysBeforeYear(year + 1) && DaysBeforeYear(year) <= days
        invariant total < ULongModulus && year <= 136
        invariant SplitYears(days - DaysBeforeYear(year), year) == SplitYears(days, 0)
        decreases days - total
      {
        year := year + 1;
        DaysBeforeYearAtLeast(year);
        total := total + YearLength(year);
      }
      before := total - YearLength(year);
    }

    /** The month loop of `breakTime`: the month index (0 = January) and the day within it. */
    static method FindMonth(dayOfYear: nat, year: nat) returns (month: nat, dayOfMonth: nat)
      ensures (month, dayOfMonth) == SplitMonths(dayOfYear, year, 0)
    {
      var time: nat := dayOfYear;
      month := 0;
      var monthLength := 0;
      while month < 12
        invariant month <= 12
        invariant SplitMonths(time, year, month) == SplitMonths(dayOfYear, year, 0)
        decreases 12 - month
      {
        if month == 1 {
          if IsLeapYear(year) {
            monthLength := 29;
          } else {
            monthLength := 28;
          }
        } else {
          monthLength := MonthDays[month];
        }
        if time >= monthLength {
          time := time - monthLength;
        } else {
          break;
        }
        month := month + 1;
      }
      dayOfMonth := time;
    }

    static method BreakTime(timeInput: int) returns (tm: TimeElements)
      ensures tm == BrokenDown(timeInput)
    {
      var time := timeInput % ULongModulus;
      var second := time % 60;
      time := time / 60;
      var minute := time % 60;
      time := time / 60;
      var hour := time % 24;
      time := time / 24;
      var wday := (time + 3) % 7 + 1;
      ClockFields(timeInput);
      var year, days := FindYear(time);
      time := time - days;
      var month, dayOfMonth := FindMonth(time, year);
      tm := TimeElements(second, minute, hour, wday, dayOfMonth + 1, month + 1, year);
    }
  }
}
