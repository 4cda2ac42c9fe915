/**
  The replacement for `timegm`: loops over years and months that turn the
  fields of a UTC instant into milliseconds since the epoch, against the day
  count of section 4.16 of IEEE Std 1003.1-2017.
 */
module Calendar {

  const EPOCH_YEAR := 1970
  const SECONDS_PER_DAY := 86_400
  const MILLISECONDS_PER_DAY := 86_400_000

  datatype Instant = Instant(year: int, month: int, day: int, hour: int, minute: int, second: int, millisecond: int)

  predicate IsLeapYear(year: int) { year % 4 == 0 && (year % 100 != 0 || year % 400 == 0) }

  function DaysInYear(year: int): int { if IsLeapYear(year) then 366 else 365 }

  function DaysInMonth(year: int, month: int): int
    requires 1 <= month <= 12
  {
    if month == 2 then (if IsLeapYear(year) then 29 else 28)
    else if month == 4 || month == 6 || month == 9 || month == 11 then 30
    else 31
  }

  // ----- The closed form --------------------------------------------------

  /** Days from the epoch to the start of a year. */
  function YearStart(year: int): int
  {
    365 * (year - 1970) + (year - 1969) / 4 - (year - 1901) / 100 + (year - 1601) / 400
  }

  /** Days from the start of a year to the start of a month. */
  function MonthStart(year: int, month: int): int
  {
    (367 * month - 362) / 12 - (if month <= 2 then 0 else if IsLeapYear(year) then 1 else 2)
  }

  function DayNumber(year: int, month: int, day: int): int { YearStart(year) + MonthStart(year, month) + (day - 1) }

  function MillisecondOfDay(when: Instant): int
  {
    ((when.hour * 60 + when.minute) * 60 + when.second) * 1000 + when.millisecond
  }

  function ClosedForm(when: Instant): int
  {
    DayNumber(when.year, when.month, when.day) * MILLISECONDS_PER_DAY + MillisecondOfDay(when)
  }

  lemma EveryFourth(year: int)
    ensures (year - 1968) / 4 - (year - 1969) / 4 == if year % 4 == 0 then 1 else 0
  {
  }

  lemma EveryHundredth(year: int)
    ensures (year - 1900) / 100 - (year - 1901) / 100 == if year % 100 == 0 then 1 else 0
  {
  }

  lemma EveryFourHundredth(year: int)
    ensures (year - 1600) / 400 - (year - 1601) / 400 == if year % 400 == 0 then 1 else 0
  {
  }

  lemma CenturiesByFour(year: int)
    requires year % 100 == 0
    ensures year % 4 == 0
  {
    assert year == 4 * (25 * (year / 100));
  }

  lemma FourCenturies(year: int)
    requires year % 400 == 0
    ensures year % 100 == 0
  {
    assert year == 100 * (4 * (year / 400));
  }

  lemma NextYear(year: int)
    ensures YearStart(year + 1) == YearStart(year) + DaysInYear(year)
  {
    EveryFourth(year);
    EveryHundredth(year);
    EveryFourHundredth(year);
    if year % 400 == 0 {
      FourCenturies(year);
    }
    if year % 100 == 0 {
      CenturiesByFour(year);
    }
  }

  lemma NextMonth(year: int, month: int)
    requires 1 <= month <= 12
    ensures MonthStart(year, 1) == 0
    ensures month < 12 ==> MonthStart(year, month + 1) == MonthStart(year, month) + DaysInMonth(year, month)
    ensures MonthStart(year, 12) + 31 == DaysInYear(year)
  {
  }

  // ----- The loops --------------------------------------------------------

  /** What the loops compute: before 1970 the year loop also takes away the epoch year itself. */
  function EpochMilliseconds(when: Instant): int
  {
    ClosedForm(when) - (if when.year < EPOCH_YEAR then DaysInYear(EPOCH_YEAR) * MILLISECONDS_PER_DAY else 0)
  }

  /** `_timegm_instantStructToMilliseconds` */
  method Timegm(when: Instant) returns (result: int)
    requires 1 <= when.month <= 12
    ensures result == EpochMilliseconds(when)
    ensures result == ClosedForm(when) <==> when.year >= 1970
  {
    hide IsLeapYear, YearStart, MonthStart;
    var seconds := 0;
    assert YearStart(1970) == 0 by { EpochStart(); }
    if when.year >= EPOCH_YEAR {
      var year := EPOCH_YEAR;
      while year < when.year
        invariant EPOCH_YEAR <= year <= when.year && seconds == YearStart(year) * SECONDS_PER_DAY
      {
        NextYear(year);
        seconds := seconds + (if IsLeapYear(year) then 366 * SECONDS_PER_DAY else 365 * SECONDS_PER_DAY);
        year := year + 1;
      }
    } else {
      var year := EPOCH_YEAR;
      NextYear(EPOCH_YEAR);
      while year >= when.year
        invariant when.year - 1 <= year <= EPOCH_YEAR
        invariant seconds == (YearStart(year + 1) - DaysInYear(EPOCH_YEAR)) * SECONDS_PER_DAY
      {
        NextYear(year);
        seconds := seconds - (if IsLeapYear(year) then 366 * SECONDS_PER_DAY else 365 * SECONDS_PER_DAY);
        year := year - 1;
      }
    }
    NextMonth(when.year, 1);
    var monthIndex := 0;
    ghost var yearSeconds := seconds;
    while monthIndex < when.month - 1
      invariant 0 <= monthIndex <= when.month - 1
      invariant seconds == yearSeconds + MonthStart(when.year, monthIndex + 1) * SECONDS_PER_DAY
    {
      NextMonth(when.year, monthIndex + 1);
      seconds := seconds + DaysInMonth(when.year, monthIndex + 1) * SECONDS_PER_DAY;
      monthIndex := monthIndex + 1;
    }
    seconds := seconds + (when.day - 1) * SECONDS_PER_DAY;
    seconds := seconds + when.hour * 3600;
    seconds := seconds + when.minute * 60;
    seconds := seconds + when.second;
    result := 1000 * seconds + when.millisecond;
  }

  lemma EpochStart()
    ensures YearStart(1970) == 0
  {
  }

  // ----- Order ------------------------------------------------------------

  predicate ValidInstant(t: Instant)
  {
    && 1 <= t.month <= 12 && 1 <= t.day <= DaysInMonth(t.year, t.month)
    && 0 <= t.hour < 24 && 0 <= t.minute < 60 && 0 <= t.second < 60 && 0 <= t.millisecond < 1000
  }

  /** Order by year, then month, and so on. */
  predicate EarlierDay(a: Instant, b: Instant)
  {
    a.year < b.year || (a.year == b.year && (a.month < b.month || (a.month == b.month && a.day < b.day)))
  }

  predicate SameDay(a: Instant, b: Instant) { a.year == b.year && a.month == b.month && a.day == b.day }

  predicate EarlierTime(a: Instant, b: Instant)
  {
    a.hour < b.hour || (a.hour == b.hour && (a.minute < b.minute || (a.minute == b.minute
      && (a.second < b.second || (a.second == b.second && a.millisecond < b.millisecond)))))
  }

  predicate Earlier(a: Instant, b: Instant) { EarlierDay(a, b) || (SameDay(a, b) && EarlierTime(a, b)) }

  lemma {:induction false} YearsGrow(a: int, b: int)
    requires a < b
    ensures YearStart(a) + DaysInYear(a) <= YearStart(b)
    decreases b - a
  {
    hide YearStart;
    NextYear(b - 1);
    if a < b - 1 {
      YearsGrow(a, b - 1);
    }
  }

  lemma {:induction false} MonthsGrow(year: int, a: int, b: int)
    requires 1 <= a < b <= 12
    ensures MonthStart(year, a) + DaysInMonth(year, a) <= MonthStart(year, b)
    decreases b - a
  {
    hide MonthStart;
    NextMonth(year, b - 1);
    if a < b - 1 {
      MonthsGrow(year, a, b - 1);
    }
  }

  lemma MonthInYear(year: int, month: int)
    requires 1 <= month <= 12
    ensures 0 <= MonthStart(year, month) && MonthStart(year, month) + DaysInMonth(year, month) <= DaysInYear(year)
  {
  }

  lemma DaysGrow(a: Instant, b: Instant)
    requires ValidInstant(a) && ValidInstant(b) && EarlierDay(a, b)
    ensures DayNumber(a.year, a.month, a.day) < DayNumber(b.year, b.month, b.day)
  {
    hide YearStart, MonthStart, DaysInMonth, DaysInYear;
    if a.year < b.year {
      YearsGrow(a.year, b.year);
      MonthInYear(a.year, a.month);
      MonthInYear(b.year, b.month);
    } else if a.month < b.month {
      MonthsGrow(a.year, a.month, b.month);
    }
  }

  lemma TimeInDay(t: Instant)
    requires ValidInstant(t)
    ensures 0 <= MillisecondOfDay(t) < MILLISECONDS_PER_DAY
  {
  }

  /** Later fields give a greater result, across 1970 as well. */
  lemma StrictlyIncreasing(a: Instant, b: Instant)
    requires ValidInstant(a) && ValidInstant(b) && Earlier(a, b)
    ensures EpochMilliseconds(a) < EpochMilliseconds(b)
  {
    hide DayNumber;
    TimeInDay(a);
    TimeInDay(b);
    if EarlierDay(a, b) {
      DaysGrow(a, b);
      hide MillisecondOfDay;
      assert DayNumber(a.year, a.month, a.day) + 1 <= DayNumber(b.year, b.month, b.day);
    }
  }

  // ----- Rolling over -----------------------------------------------------

  /** The first day of the next month at the same time of day. */
  function NextMonthStart(t: Instant): Instant
  {
    if t.month == 12 then t.(year := t.year + 1, month := 1, day := 1) else t.(month := t.month + 1, day := 1)
  }

  /**
    One day past the last of a month is the first of the next month or year,
    except at the end of 1969, where the loops change direction.
   */
  lemma DayOverflow(t: Instant)
    requires 1 <= t.month <= 12 && t.day == DaysInMonth(t.year, t.month) + 1
    ensures EpochMilliseconds(t) == EpochMilliseconds(NextMonthStart(t)) <==> !(t.year == 1969 && t.month == 12)
  {
    hide YearStart, MonthStart;
    NextMonth(t.year, t.month);
    NextMonth(t.year + 1, 1);
    NextYear(t.year);
  }

  /** The 32nd of December 1969 falls a year short of the first of January 1970. */
  lemma December1969()
    ensures var t := Instant(1969, 12, 32, 0, 0, 0, 0);
            EpochMilliseconds(NextMonthStart(t)) == 0 && EpochMilliseconds(t) == -365 * MILLISECONDS_PER_DAY
  {
  }

  // ----- Every millisecond has its fields ---------------------------------

  /** Of two valid instants one is earlier, or they are the same; the order of results is that of the fields. */
  lemma OrderExactly(a: Instant, b: Instant)
    requires ValidInstant(a) && ValidInstant(b)
    ensures EpochMilliseconds(a) < EpochMilliseconds(b) <==> Earlier(a, b)
    ensures EpochMilliseconds(a) == EpochMilliseconds(b) <==> a == b
    ensures Earlier(a, b) || Earlier(b, a) || a == b
  {
    hide EpochMilliseconds, ValidInstant;
    if Earlier(a, b) {
      StrictlyIncreasing(a, b);
    } else if Earlier(b, a) {
      StrictlyIncreasing(b, a);
    }
  }

  lemma {:induction false} DayExists(n: int) returns (year: int, month: int, day: int)
    ensures 1 <= month <= 12 && 1 <= day <= DaysInMonth(year, month) && DayNumber(year, month, day) == n
    decreases if n < 0 then -n else n
  {
    hide YearStart, MonthStart, IsLeapYear;
    EpochStart();
    NextMonth(1970, 1);
    if n == 0 {
      year, month, day := 1970, 1, 1;
    } else if n > 0 {
      var y, m, d := DayExists(n - 1);
      NextMonth(y, m);
      NextMonth(y + 1, 1);
      NextYear(y);
      if d < DaysInMonth(y, m) {
        year, month, day := y, m, d + 1;
      } else if m < 12 {
        year, month, day := y, m + 1, 1;
      } else {
        year, month, day := y + 1, 1, 1;
      }
    } else {
      var y, m, d := DayExists(n + 1);
      NextYear(y - 1);
      NextMonth(y - 1, 12);
      NextMonth(y, 1);
      if m > 1 {
        NextMonth(y, m - 1);
      }
      if d > 1 {
        year, month, day := y, m, d - 1;
      } else if m > 1 {
        year, month, day := y, m - 1, DaysInMonth(y, m - 1);
      } else {
        year, month, day := y - 1, 12, 31;
      }
    }
  }

  lemma TimeExists(n: int) returns (hour: int, minute: int, second: int, millisecond: int)
    requires 0 <= n < MILLISECONDS_PER_DAY
    ensures 0 <= hour <= 23 && 0 <= minute <= 59 && 0 <= second <= 59 && 0 <= millisecond <= 999
    ensures ((hour * 60 + minute) * 60 + second) * 1000 + millisecond == n
  {
    var seconds := n / 1000;
    hour, minute, second, millisecond := seconds / 3600, seconds / 60 % 60, seconds % 60, n % 1000;
    assert seconds == seconds / 60 * 60 + second && seconds / 60 == hour * 60 + minute;
  }

  /**
    Every number of milliseconds is the day count and time of day of a valid
    instant, so that from 1970 on none of them is missed.
   */
  lemma InstantExists(n: int) returns (t: Instant)
    ensures ValidInstant(t) && ClosedForm(t) == n
    ensures n >= 0 ==> t.year >= 1970 && EpochMilliseconds(t) == n
  {
    hide YearStart, MonthStart, DayNumber, DaysInMonth;
    var year, month, day := DayExists(n / MILLISECONDS_PER_DAY);
    var hour, minute, second, millisecond := TimeExists(n % MILLISECONDS_PER_DAY);
    t := Instant(year, month, day, hour, minute, second, millisecond);
    if n >= 0 && year < 1970 {
      BeforeEpoch(t);
    }
  }

  lemma BeforeEpoch(t: Instant)
    requires 1 <= t.month <= 12 && t.day <= DaysInMonth(t.year, t.month) && t.year < 1970
    ensures DayNumber(t.year, t.month, t.day) < 0
  {
    hide YearStart, MonthStart, DaysInMonth, DaysInYear;
    EpochStart();
    YearsGrow(t.year, 1970);
    MonthInYear(t.year, t.month);
  }
}
