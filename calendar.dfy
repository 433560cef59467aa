/** Time values the way a JavaScript Date reads them: an integer count of
    milliseconds since 1970-01-01T00:00:00Z, split into a day number and the
    hour, minute, second and millisecond of that day (section 21.4.1 of
    ECMA-262), plus the proleptic Gregorian date of a day number. */
module Calendar {

  const MsPerSecond: int := 1000
  const MsPerMinute: int := 60000
  const MsPerHour: int := 3600000
  const MsPerDay: int := 86400000

  /** Day(t): the number of whole days since the epoch (floor division). */
  function Day(t: int): int
  {
    t / MsPerDay
  }

  function HourFromTime(t: int): (h: int)
    ensures 0 <= h < 24
  {
    (t / MsPerHour) % 24
  }

  function MinFromTime(t: int): (m: int)
    ensures 0 <= m < 60
  {
    (t / MsPerMinute) % 60
  }

  function SecFromTime(t: int): (s: int)
    ensures 0 <= s < 60
  {
    (t / MsPerSecond) % 60
  }

  function MsFromTime(t: int): (ms: int)
    ensures 0 <= ms < 1000
  {
    t % MsPerSecond
  }

  function MakeTime(h: int, m: int, s: int, ms: int): int
  {
    h * MsPerHour + m * MsPerMinute + s * MsPerSecond + ms
  }

  function MakeDate(day: int, time: int): int
  {
    day * MsPerDay + time
  }

  lemma MulAtLeast(k: int, d: int)
    requires 1 <= k && 0 < d
    ensures d <= k * d
  {
    if k > 1 {
      MulAtLeast(k - 1, d);
      assert k * d == (k - 1) * d + d;
    }
  }

  /** Division with a known quotient and remainder. */
  lemma DivModOf(x: int, d: int, q: int, r: int)
    requires 0 < d && 0 <= r < d && x == q * d + r
    ensures x / d == q && x % d == r
  {
    var q', r' := x / d, x % d;
    assert x == q' * d + r' && 0 <= r' < d;
    if q' < q {
      assert (q - q') * d == q * d - q' * d == r' - r;
      MulAtLeast(q - q', d);
    } else if q' > q {
      assert (q' - q) * d == q' * d - q * d == r - r';
      MulAtLeast(q' - q, d);
    }
  }

  /** Reading the fields of a date assembled from in-range fields gives
      those fields back. */
  lemma {:induction false} FieldsOfMakeDate(day: int, h: int, m: int, s: int, ms: int)
    requires 0 <= h < 24 && 0 <= m < 60 && 0 <= s < 60 && 0 <= ms < 1000
    ensures var t := MakeDate(day, MakeTime(h, m, s, ms));
            Day(t) == day && HourFromTime(t) == h && MinFromTime(t) == m &&
            SecFromTime(t) == s && MsFromTime(t) == ms
  {
    var t := MakeDate(day, MakeTime(h, m, s, ms));
    var secs := (day * 24 + h) * 3600 + m * 60 + s;
    DivModOf(t, MsPerSecond, secs, ms);
    var mins := (day * 24 + h) * 60 + m;
    DivModOf(t, MsPerMinute, mins, s * MsPerSecond + ms);
    var hours := day * 24 + h;
    DivModOf(t, MsPerHour, hours, m * MsPerMinute + s * MsPerSecond + ms);
    DivModOf(t, MsPerDay, day, MakeTime(h, m, s, ms));
    DivModOf(secs, 60, mins, s);
    DivModOf(mins, 60, hours, m);
    DivModOf(hours, 24, day, h);
  }

  /** Conversely, every time value is assembled from its own fields. */
  lemma {:induction false} MakeDateOfFields(t: int)
    ensures MakeDate(Day(t), MakeTime(HourFromTime(t), MinFromTime(t), SecFromTime(t), MsFromTime(t))) == t
  {
    var secs := t / MsPerSecond;
    var mins := secs / 60;
    var hours := mins / 60;
    var day := hours / 24;
    assert t == secs * 1000 + t % 1000;
    assert secs == mins * 60 + secs % 60;
    assert mins == hours * 60 + mins % 60;
    assert hours == day * 24 + hours % 24;
    DivModOf(t, MsPerMinute, mins, (secs % 60) * 1000 + t % 1000);
    DivModOf(t, MsPerHour, hours, (mins % 60) * MsPerMinute + (secs % 60) * 1000 + t % 1000);
    DivModOf(t, MsPerDay, day, (hours % 24) * MsPerHour + (mins % 60) * MsPerMinute + (secs % 60) * 1000 + t % 1000);
  }

  /** The host's wall clock. `hostOffset` is what `getTimezoneOffset()`
      returns: UTC minus local time, in minutes (-120 on a host two hours
      east of UTC). The local fields of t are the fields of LocalTime(t). */
  function LocalTime(t: int, hostOffset: int): (w: int)
    ensures Utc(w, hostOffset) == t
  {
    t - hostOffset * MsPerMinute
  }

  /** The instant whose host wall clock reads w. */
  function Utc(w: int, hostOffset: int): (t: int)
  {
    w + hostOffset * MsPerMinute
  }

  datatype Date = Date(year: int, month: int, day: int)

  /** The leap-year rule of the Gregorian calendar. */
  predicate IsLeapYear(y: int)
  {
    y % 4 == 0 && (y % 100 != 0 || y % 400 == 0)
  }

  function DaysInMonth(year: int, month: int): (n: int)
    requires 1 <= month <= 12
    ensures 28 <= n <= 31
    ensures n == 29 <==> month == 2 && IsLeapYear(year)
  {
    if month == 2 then (if IsLeapYear(year) then 29 else 28)
    else if month == 4 || month == 6 || month == 9 || month == 11 then 30
    else 31
  }

  predicate ValidDate(d: Date)
  {
    1 <= d.month <= 12 && 1 <= d.day <= DaysInMonth(d.year, d.month)
  }

  /** The calendar date of the following day. */
  function NextDate(d: Date): (r: Date)
    requires ValidDate(d)
    ensures ValidDate(r)
    ensures r.year == d.year || (r.year == d.year + 1 && r.month == 1 && r.day == 1)
  {
    if d.day < DaysInMonth(d.year, d.month) then d.(day := d.day + 1)
    else if d.month < 12 then Date(d.year, d.month + 1, 1)
    else Date(d.year + 1, 1, 1)
  }

  /** The calendar date of the day before; NextDate undoes it. */
  function PrevDate(d: Date): (r: Date)
    requires ValidDate(d)
    ensures ValidDate(r) && NextDate(r) == d
  {
    if d.day > 1 then d.(day := d.day - 1)
    else if d.month > 1 then Date(d.year, d.month - 1, DaysInMonth(d.year, d.month - 1))
    else Date(d.year - 1, 12, 31)
  }

  /** PrevDate undoes NextDate too. */
  lemma PrevOfNextDate(d: Date)
    requires ValidDate(d)
    ensures PrevDate(NextDate(d)) == d
  {
  }

  /** The calendar counted out day by day from 1 January 1970: the date n
      days after it (before it when n is negative). This is the reference
      that CivilFromDays is proved to agree with. */
  function DateFromEpoch(n: int): (d: Date)
    ensures ValidDate(d)
    decreases if n < 0 then -n else n
  {
    if n == 0 then Date(1970, 1, 1)
    else if n > 0 then NextDate(DateFromEpoch(n - 1))
    else PrevDate(DateFromEpoch(n + 1))
  }

  /* CivilFromDays counts days in years that run from 1 March to the end of
     February, so that the leap day is the last day of its year. Year a
     (from 1 March of a) is the March year whose February is in a + 1. */

  /** The number of days from 1 March of year 0 to 1 March of year a. */
  function DaysBeforeMarchYear(a: int): int
  {
    365 * a + a / 4 - a / 100 + a / 400
  }

  function MarchYearLength(a: int): (n: int)
    ensures n == 365 || n == 366
  {
    if IsLeapYear(a + 1) then 366 else 365
  }

  /** A 400-year era of 146097 days is three centuries of 36524 days and
      one of 36525; a century is four-year blocks of 1461 days (the last
      one a day short in the first three centuries); a block is years of
      365 days with the leap day at the end of the fourth. The result is
      the year within the era and the day within that year. */
  function YearOfEra(doe: int): (int, int)
  {
    var century := if doe / 36524 < 3 then doe / 36524 else 3;
    var inCentury := doe - 36524 * century;
    var block := inCentury / 1461;
    var inBlock := inCentury - 1461 * block;
    var yearInBlock := if inBlock / 365 < 3 then inBlock / 365 else 3;
    (100 * century + 4 * block + yearInBlock, inBlock - 365 * yearInBlock)
  }

  /** The March year of a day number of the time value (day 0 is
      1970-01-01, which is 719468 days after 0000-03-01) and the day
      within it. */
  function MarchYear(days: int): (int, int)
  {
    var z := days + 719468;
    var (yoe, doy) := YearOfEra(z % 146097);
    (400 * (z / 146097) + yoe, doy)
  }

  /** The first day within a March year of its month number mp (0 is
      March, 11 is February). */
  function MonthStart(mp: int): int
  {
    (153 * mp + 2) / 5
  }

  /** The day after the last day of month number mp of March year a. */
  function MonthEnd(a: int, mp: int): int
  {
    if mp < 11 then MonthStart(mp + 1) else MarchYearLength(a)
  }

  /** The calendar date of day doy of March year a. */
  function DateInMarchYear(a: int, doy: int): Date
  {
    var mp := (5 * doy + 2) / 153;
    var month := if mp < 10 then mp + 3 else mp - 9;
    Date(if month <= 2 then a + 1 else a, month, doy - MonthStart(mp) + 1)
  }

  /** The proleptic Gregorian date of a day number of the time value: the
      March year and the day within it (MarchYear), then the month and the
      day of the month (DateInMarchYear). CivilFromDaysValid,
      CivilFromDaysNext and CivilFromDaysIsDateFromEpoch say it is the
      calendar's date for every day. */
  function CivilFromDays(days: int): (d: Date)
    ensures 1 <= d.month <= 12 && 1 <= d.day <= 31
  {
    MarchYearSpec(days);
    var (a, doy) := MarchYear(days);
    MonthOfDay(a, doy);
    DateInMarchYear(a, doy)
  }

  /** Every day number has a real calendar date: the day of the month
      is within its month's length, 29 February only in leap years. */
  lemma CivilFromDaysValid(days: int)
    ensures ValidDate(CivilFromDays(days))
  {
    var (a, doy) := MarchYear(days);
    MarchYearSpec(days);
    DateInMarchYearValid(a, doy);
  }

  /** `getMonth() + 1`: the calendar month of t on the host's wall clock. */
  function LocalMonth(t: int, hostOffset: int): (m: int)
    ensures 1 <= m <= 12
  {
    CivilFromDays(Day(LocalTime(t, hostOffset))).month
  }

  /** Year y's leap-ness depends only on y modulo 400. */
  lemma LeapYearModulo400(era: int, y: int)
    ensures IsLeapYear(400 * era + y) == IsLeapYear(y)
  {
    DivModOf(400 * era + y, 4, 100 * era + y / 4, y % 4);
    DivModOf(400 * era + y, 100, 4 * era + y / 100, y % 100);
    DivModOf(400 * era + y, 400, era + y / 400, y % 400);
  }

  /** Adding one to a crosses a multiple of d exactly when a + 1 is one. */
  lemma DivSucc(a: int, d: int)
    requires 0 < d
    ensures (a + 1) / d == a / d + (if (a + 1) % d == 0 then 1 else 0)
  {
    if a % d == d - 1 {
      DivModOf(a + 1, d, a / d + 1, 0);
    } else {
      DivModOf(a + 1, d, a / d, a % d + 1);
    }
  }

  /** Consecutive March years are a year's length apart. */
  lemma MarchYearStep(a: int)
    ensures DaysBeforeMarchYear(a + 1) == DaysBeforeMarchYear(a) + MarchYearLength(a)
  {
    var y := a + 1;
    DivSucc(a, 4);
    DivSucc(a, 100);
    DivSucc(a, 400);
    if y % 400 == 0 {
      DivModOf(y, 100, 4 * (y / 400), 0);
      DivModOf(y, 4, 100 * (y / 400), 0);
    } else if y % 100 == 0 {
      DivModOf(y, 4, 25 * (y / 100), 0);
    }
  }

  lemma {:induction false} MarchYearsGrow(a: int, b: int)
    requires a < b
    ensures DaysBeforeMarchYear(a) + MarchYearLength(a) <= DaysBeforeMarchYear(b)
    decreases b - a
  {
    MarchYearStep(a);
    if a + 1 < b {
      MarchYearsGrow(a + 1, b);
    }
  }

  /** A day has one March year and one day within it. */
  lemma MarchYearUnique(a: int, x: int, b: int, y: int)
    requires 0 <= x < MarchYearLength(a) && 0 <= y < MarchYearLength(b)
    requires DaysBeforeMarchYear(a) + x == DaysBeforeMarchYear(b) + y
    ensures a == b && x == y
  {
    if a < b {
      MarchYearsGrow(a, b);
    } else if b < a {
      MarchYearsGrow(b, a);
    }
  }

  /** The era arithmetic finds the year of the era and the day within it. */
  lemma YearOfEraSpec(doe: int)
    requires 0 <= doe < 146097
    ensures var (yoe, doy) := YearOfEra(doe);
            0 <= yoe < 400 && 0 <= doy < MarchYearLength(yoe) && doe == DaysBeforeMarchYear(yoe) + doy
  {
    var century := if doe / 36524 < 3 then doe / 36524 else 3;
    var inCentury := doe - 36524 * century;
    var block := inCentury / 1461;
    var inBlock := inCentury - 1461 * block;
    var yearInBlock := if inBlock / 365 < 3 then inBlock / 365 else 3;
    var yoe := 100 * century + 4 * block + yearInBlock;
    var doy := inBlock - 365 * yearInBlock;
    assert 0 <= inCentury <= 36524 && (century < 3 ==> inCentury < 36524);
    assert 0 <= block <= 24 && 0 <= inBlock < 1461;
    assert 0 <= yearInBlock <= 3 && 0 <= doy <= 365 && (doy == 365 ==> inBlock == 1460);
    DivModOf(yoe, 4, 25 * century + block, yearInBlock);
    DivModOf(yoe, 100, century, 4 * block + yearInBlock);
    DivModOf(yoe, 400, 0, yoe);
    if doy == 365 {
      DivModOf(yoe + 1, 4, 25 * century + block + 1, 0);
      if block < 24 {
        DivModOf(yoe + 1, 100, century, 4 * block + 4);
      } else {
        assert yoe + 1 == 400;
      }
    }
  }

  /** MarchYear finds the March year of a day and the day within it. */
  lemma MarchYearSpec(days: int)
    ensures var (a, doy) := MarchYear(days);
            0 <= doy < MarchYearLength(a) && days + 719468 == DaysBeforeMarchYear(a) + doy
  {
    var z := days + 719468;
    var era := z / 146097;
    var (yoe, doy) := YearOfEra(z % 146097);
    YearOfEraSpec(z % 146097);
    var a := 400 * era + yoe;
    DivModOf(a, 4, 100 * era + yoe / 4, yoe % 4);
    DivModOf(a, 100, 4 * era + yoe / 100, yoe % 100);
    DivModOf(a, 400, era + yoe / 400, yoe % 400);
    LeapYearModulo400(era, yoe + 1);
  }

  /** The next day is the next day of the same March year, or the first
      day of the next one. */
  lemma MarchYearNext(days: int)
    ensures var (a, doy) := MarchYear(days);
            MarchYear(days + 1) == if doy + 1 < MarchYearLength(a) then (a, doy + 1) else (a + 1, 0)
  {
    var (a, doy) := MarchYear(days);
    var (b, doy') := MarchYear(days + 1);
    MarchYearSpec(days);
    MarchYearSpec(days + 1);
    MarchYearStep(a);
    if doy + 1 < MarchYearLength(a) {
      MarchYearUnique(a, doy + 1, b, doy');
    } else {
      MarchYearUnique(a + 1, 0, b, doy');
    }
  }

  /** The month number of a day within a March year is the p whose month
      starts on or before it and ends after it. */
  lemma MonthIndexOf(doy: int, p: int)
    requires 0 <= p < 12 && MonthStart(p) <= doy < MonthStart(p + 1)
    ensures (5 * doy + 2) / 153 == p
  {
  }

  /** Every day of a March year falls in one of its twelve months. */
  lemma MonthOfDay(a: int, doy: int)
    requires 0 <= doy < MarchYearLength(a)
    ensures var p := (5 * doy + 2) / 153;
            0 <= p < 12 && MonthStart(p) <= doy < MonthEnd(a, p)
  {
  }

  /** The months of a March year are those of the calendar: month number
      mp is as long as the calendar month it names, in the calendar year
      it falls in. */
  lemma MonthLength(a: int, mp: int)
    requires 0 <= mp < 12
    ensures var month := if mp < 10 then mp + 3 else mp - 9;
            DaysInMonth(if month <= 2 then a + 1 else a, month) == MonthEnd(a, mp) - MonthStart(mp)
  {
    assert MonthStart(11) == 337;
  }

  lemma DateInMarchYearValid(a: int, doy: int)
    requires 0 <= doy < MarchYearLength(a)
    ensures ValidDate(DateInMarchYear(a, doy))
  {
    MonthOfDay(a, doy);
    MonthLength(a, (5 * doy + 2) / 153);
  }

  /** Stepping one day within March years is stepping one calendar day. */
  lemma DateInMarchYearNext(a: int, doy: int)
    requires 0 <= doy < MarchYearLength(a)
    ensures ValidDate(DateInMarchYear(a, doy)) &&
            NextDate(DateInMarchYear(a, doy)) ==
              if doy + 1 < MarchYearLength(a) then DateInMarchYear(a, doy + 1) else DateInMarchYear(a + 1, 0)
  {
    var p := (5 * doy + 2) / 153;
    MonthOfDay(a, doy);
    MonthLength(a, p);
    DateInMarchYearValid(a, doy);
    if doy + 1 < MonthEnd(a, p) {
      MonthIndexOf(doy + 1, p);
    } else if p < 11 {
      MonthLength(a, p + 1);
      MonthIndexOf(doy + 1, p + 1);
    } else {
      assert DateInMarchYear(a + 1, 0) == Date(a + 1, 3, 1);
    }
  }

  /** The day after day n is the calendar date after that of day n. */
  lemma CivilFromDaysNext(days: int)
    ensures ValidDate(CivilFromDays(days))
    ensures CivilFromDays(days + 1) == NextDate(CivilFromDays(days))
  {
    var (a, doy) := MarchYear(days);
    MarchYearSpec(days);
    MarchYearNext(days);
    CivilFromDaysValid(days);
    DateInMarchYearNext(a, doy);
  }

  /** CivilFromDays is the calendar counted out day by day from 1 January
      1970, for every day number, before the epoch as well as after it. */
  lemma {:induction false} CivilFromDaysIsDateFromEpoch(n: int)
    ensures CivilFromDays(n) == DateFromEpoch(n)
    decreases if n < 0 then -n else n
  {
    if n == 0 {
      CivilFromDaysEpoch();
    } else if n > 0 {
      CivilFromDaysIsDateFromEpoch(n - 1);
      CivilFromDaysNext(n - 1);
      assert DateFromEpoch(n) == NextDate(DateFromEpoch(n - 1));
    } else {
      var d := CivilFromDays(n);
      CivilFromDaysIsDateFromEpoch(n + 1);
      CivilFromDaysNext(n);
      PrevOfNextDate(d);
      assert DateFromEpoch(n) == PrevDate(DateFromEpoch(n + 1));
    }
  }

  /** `getMonth() + 1` is the calendar month of the host-local day of t,
      counted from 1 January 1970. */
  lemma LocalMonthIsCalendarMonth(t: int, hostOffset: int)
    ensures LocalMonth(t, hostOffset) == DateFromEpoch(Day(LocalTime(t, hostOffset))).month
  {
    CivilFromDaysIsDateFromEpoch(Day(LocalTime(t, hostOffset)));
  }

  /** Day 0 of the time value is 1 January 1970. */
  lemma CivilFromDaysEpoch()
    ensures CivilFromDays(0) == Date(1970, 1, 1)
  {
    // Day 306 of year 369 of the era that starts on 1600-03-01.
    assert 719468 / 146097 == 4 && 719468 % 146097 == 135080;
    assert 135080 / 36524 == 3 && 25508 / 1461 == 17 && 671 / 365 == 1;
    assert (5 * 306 + 2) / 153 == 10 && (153 * 10 + 2) / 5 == 306;
  }

  /** 2000-02-29, the last day of the era that starts on 1600-03-01. */
  lemma CivilFromDaysLeapDay()
    ensures CivilFromDays(11016) == Date(2000, 2, 29)
  {
    assert 730484 / 146097 == 4 && 730484 % 146097 == 146096;
    assert 146096 / 36524 == 4 && 36524 / 1461 == 24 && 1460 / 365 == 4;
    assert (5 * 365 + 2) / 153 == 11 && (153 * 11 + 2) / 5 == 337;
  }

  /** 14 and 15 June 2024, days 105 and 106 of year 24 of the era that
      starts on 2000-03-01. */
  lemma CivilFromDaysJune14()
    ensures CivilFromDays(19888) == Date(2024, 6, 14)
  {
    assert 739356 / 146097 == 5 && 739356 % 146097 == 8871;
    assert 8871 / 36524 == 0 && 8871 / 1461 == 6 && 105 / 365 == 0;
    assert (5 * 105 + 2) / 153 == 3 && (153 * 3 + 2) / 5 == 92;
  }

  lemma CivilFromDaysJune15()
    ensures CivilFromDays(19889) == Date(2024, 6, 15)
  {
    assert 739357 / 146097 == 5 && 739357 % 146097 == 8872;
    assert 8872 / 36524 == 0 && 8872 / 1461 == 6 && 106 / 365 == 0;
    assert (5 * 106 + 2) / 153 == 3 && (153 * 3 + 2) / 5 == 92;
  }

  /** The turn of October into November 2024. */
  lemma CivilFromDaysOctober31()
    ensures CivilFromDays(20027) == Date(2024, 10, 31)
  {
    assert 739495 / 146097 == 5 && 739495 % 146097 == 9010;
    assert 9010 / 36524 == 0 && 9010 / 1461 == 6 && 244 / 365 == 0;
    assert (5 * 244 + 2) / 153 == 7 && (153 * 7 + 2) / 5 == 214;
  }

  lemma CivilFromDaysNovember1()
    ensures CivilFromDays(20028) == Date(2024, 11, 1)
  {
    assert 739496 / 146097 == 5 && 739496 % 146097 == 9011;
    assert 9011 / 36524 == 0 && 9011 / 1461 == 6 && 245 / 365 == 0;
    assert (5 * 245 + 2) / 153 == 8 && (153 * 8 + 2) / 5 == 245;
  }
}
