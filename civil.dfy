/** Proleptic Gregorian calendar arithmetic as Python's datetime module does
    it: day ordinals counted from 0001-01-01 (ordinal 1), whole seconds since
    1970-01-01 00:00:00, and the conversions between them. */
module Civil {

  datatype Date = Date(year: int, month: int, day: int)

  datatype DateTime = DateTime(date: Date, hour: int, minute: int, second: int, micro: int)

  predicate IsLeap(y: int)
  {
    y % 4 == 0 && (y % 100 != 0 || y % 400 == 0)
  }

  function DaysInYear(y: int): int
  {
    if IsLeap(y) then 366 else 365
  }

  function DaysInMonth(y: int, m: int): (n: int)
    requires 1 <= m <= 12
    ensures 28 <= n <= 31
  {
    if m == 2 then (if IsLeap(y) then 29 else 28)
    else if m == 4 || m == 6 || m == 9 || m == 11 then 30
    else 31
  }

  /** A calendar day of any year; Python's datetime only admits years
      1..9999 (see InRange), but the arithmetic is defined beyond. */
  predicate ValidDate(d: Date)
  {
    1 <= d.month <= 12 && 1 <= d.day <= DaysInMonth(d.year, d.month)
  }

  /** datetime.MINYEAR <= year <= datetime.MAXYEAR */
  predicate InRange(d: Date)
  {
    1 <= d.year <= 9999
  }

  predicate ValidTime(dt: DateTime)
  {
    0 <= dt.hour < 24 && 0 <= dt.minute < 60 && 0 <= dt.second < 60 && 0 <= dt.micro < 1000000
  }

  /** What the datetime constructor accepts. */
  predicate Valid(dt: DateTime)
  {
    ValidDate(dt.date) && InRange(dt.date) && ValidTime(dt)
  }

  // ---------------------------------------------------------------------
  // Ordinals

  /** Days before January 1st of year y, as datetime's _days_before_year. */
  function DaysBeforeYear(y: int): int
  {
    var p := y - 1;
    p * 365 + p / 4 - p / 100 + p / 400
  }

  /** Days before the first of month m in year y. */
  function DaysBeforeMonth(y: int, m: int): int
    requires 1 <= m <= 12
  {
    if m == 1 then 0 else DaysBeforeMonth(y, m - 1) + DaysInMonth(y, m - 1)
  }

  /** date.toordinal() */
  function ToOrdinal(d: Date): int
    requires 1 <= d.month <= 12
  {
    DaysBeforeYear(d.year) + DaysBeforeMonth(d.year, d.month) + d.day
  }

  const Epoch := Date(1970, 1, 1)

  const EpochOrdinal := 719163

  lemma EpochOrdinalValue()
    ensures ToOrdinal(Epoch) == EpochOrdinal
  {
  }

  /** A year contributes 365 or 366 days to the ordinal count. */
  lemma YearStep(y: int)
    ensures DaysBeforeYear(y + 1) == DaysBeforeYear(y) + DaysInYear(y)
  {
    assert y / 4 - (y - 1) / 4 == if y % 4 == 0 then 1 else 0;
    assert y / 100 - (y - 1) / 100 == if y % 100 == 0 then 1 else 0;
    assert y / 400 - (y - 1) / 400 == if y % 400 == 0 then 1 else 0;
  }

  lemma {:induction false} YearsMonotone(a: int, b: int)
    requires a <= b
    ensures DaysBeforeYear(a) <= DaysBeforeYear(b)
    decreases b - a
  {
    if a < b {
      YearStep(b - 1);
      YearsMonotone(a, b - 1);
    }
  }

  lemma DecemberEnd(y: int)
    ensures DaysBeforeMonth(y, 12) + 31 == DaysInYear(y)
  {
    var leap := if IsLeap(y) then 1 else 0;
    assert DaysBeforeMonth(y, 2) == 31;
    assert DaysBeforeMonth(y, 3) == 59 + leap;
    assert DaysBeforeMonth(y, 4) == 90 + leap;
    assert DaysBeforeMonth(y, 5) == 120 + leap;
    assert DaysBeforeMonth(y, 6) == 151 + leap;
    assert DaysBeforeMonth(y, 7) == 181 + leap;
    assert DaysBeforeMonth(y, 8) == 212 + leap;
    assert DaysBeforeMonth(y, 9) == 243 + leap;
    assert DaysBeforeMonth(y, 10) == 273 + leap;
    assert DaysBeforeMonth(y, 11) == 304 + leap;
  }

  lemma {:induction false} MonthsMonotone(y: int, a: int, b: int)
    requires 1 <= a <= b <= 12
    ensures DaysBeforeMonth(y, a) + (if a < b then DaysInMonth(y, a) else 0) <= DaysBeforeMonth(y, b)
    decreases b - a
  {
    if a < b {
      MonthsMonotone(y, a, b - 1);
    }
  }

  /** A valid date's ordinal falls inside its own year. */
  lemma OrdinalWithinYear(d: Date)
    requires ValidDate(d)
    ensures DaysBeforeYear(d.year) < ToOrdinal(d) <= DaysBeforeYear(d.year + 1)
  {
    MonthsMonotone(d.year, 1, d.month);
    MonthsMonotone(d.year, d.month, 12);
    DecemberEnd(d.year);
    YearStep(d.year);
  }

  /** Distinct valid dates have distinct ordinals. */
  lemma OrdinalInjective(d1: Date, d2: Date)
    requires ValidDate(d1) && ValidDate(d2) && ToOrdinal(d1) == ToOrdinal(d2)
    ensures d1 == d2
  {
    OrdinalWithinYear(d1);
    OrdinalWithinYear(d2);
    if d1.year < d2.year {
      YearsMonotone(d1.year + 1, d2.year);
    } else if d2.year < d1.year {
      YearsMonotone(d2.year + 1, d1.year);
    } else if d1.month < d2.month {
      MonthsMonotone(d1.year, d1.month, d2.month);
    } else if d2.month < d1.month {
      MonthsMonotone(d1.year, d2.month, d1.month);
    }
  }

  // ---------------------------------------------------------------------
  // Walking the calendar

  function NextDay(d: Date): (r: Date)
    requires ValidDate(d)
    ensures ValidDate(r) && ToOrdinal(r) == ToOrdinal(d) + 1
  {
    if d.day < DaysInMonth(d.year, d.month) then Date(d.year, d.month, d.day + 1)
    else if d.month < 12 then Date(d.year, d.month + 1, 1)
    else
      YearStep(d.year);
      DecemberEnd(d.year);
      Date(d.year + 1, 1, 1)
  }

  function PrevDay(d: Date): (r: Date)
    requires ValidDate(d)
    ensures ValidDate(r) && ToOrdinal(r) == ToOrdinal(d) - 1
  {
    if d.day > 1 then Date(d.year, d.month, d.day - 1)
    else if d.month > 1 then Date(d.year, d.month - 1, DaysInMonth(d.year, d.month - 1))
    else
      YearStep(d.year - 1);
      DecemberEnd(d.year - 1);
      Date(d.year - 1, 12, 31)
  }

  /** The day n days after d. */
  function DaysAfter(d: Date, n: nat): (r: Date)
    requires ValidDate(d)
    ensures ValidDate(r) && ToOrdinal(r) == ToOrdinal(d) + n
    decreases n
  {
    if n == 0 then d else DaysAfter(NextDay(d), n - 1)
  }

  /** The day n days before d. */
  function DaysBefore(d: Date, n: nat): (r: Date)
    requires ValidDate(d)
    ensures ValidDate(r) && ToOrdinal(r) == ToOrdinal(d) - n
    decreases n
  {
    if n == 0 then d else DaysBefore(PrevDay(d), n - 1)
  }

  /** The date `days` days from 1970-01-01, in either direction. */
  function DateOfDay(days: int): (r: Date)
    ensures ValidDate(r) && ToOrdinal(r) == EpochOrdinal + days
  {
    EpochOrdinalValue();
    if days >= 0 then DaysAfter(Epoch, days) else DaysBefore(Epoch, -days)
  }

  /** Days from 1970-01-01 to d. */
  function DayOfDate(d: Date): int
    requires 1 <= d.month <= 12
  {
    ToOrdinal(d) - EpochOrdinal
  }

  /** The calendar walk and the ordinal count are inverse to each other. */
  lemma DateOfDayInverse(d: Date)
    requires ValidDate(d)
    ensures DateOfDay(DayOfDate(d)) == d
  {
    OrdinalInjective(DateOfDay(DayOfDate(d)), d);
  }

  lemma DayOfDateInverse(days: int)
    ensures DayOfDate(DateOfDay(days)) == days
  {
  }

  // ---------------------------------------------------------------------
  // Seconds since 1970-01-01 00:00:00 of a naive date-time

  /** The whole seconds of dt counted as if it were UTC. */
  function Seconds(dt: DateTime): int
    requires 1 <= dt.date.month <= 12
  {
    DayOfDate(dt.date) * 86400 + dt.hour * 3600 + dt.minute * 60 + dt.second
  }

  /** The date-time (with no microseconds) `secs` seconds after
      1970-01-01 00:00:00; floor division keeps the time of day in range
      for instants before 1970 too. */
  function FromSeconds(secs: int): (dt: DateTime)
    ensures ValidDate(dt.date) && ValidTime(dt) && dt.micro == 0
  {
    var rem := secs % 86400;
    DateTime(DateOfDay(secs / 86400), rem / 3600, rem % 3600 / 60, rem % 60, 0)
  }

  /** Counting the seconds of a date-time built from seconds gives them
      back. */
  lemma SecondsOfFromSeconds(secs: int)
    ensures Seconds(FromSeconds(secs)) == secs
  {
    var rem := secs % 86400;
    assert rem == (rem / 3600) * 3600 + (rem % 3600 / 60) * 60 + rem % 60;
    assert secs == (secs / 86400) * 86400 + rem;
  }

  /** A valid date-time without microseconds is recovered from its seconds. */
  lemma FromSecondsOfSeconds(dt: DateTime)
    requires ValidDate(dt.date) && ValidTime(dt) && dt.micro == 0
    ensures FromSeconds(Seconds(dt)) == dt
  {
    var t := dt.hour * 3600 + dt.minute * 60 + dt.second;
    assert Seconds(dt) / 86400 == DayOfDate(dt.date) && Seconds(dt) % 86400 == t;
    assert t / 3600 == dt.hour && t % 3600 / 60 == dt.minute && t % 60 == dt.second;
    DateOfDayInverse(dt.date);
  }

  /** One more hour of wall-clock time (datetime + timedelta(hours=1)),
      rolling over into the next day when needed. */
  function AddHour(dt: DateTime): (r: DateTime)
    requires ValidDate(dt.date) && ValidTime(dt)
    ensures ValidDate(r.date) && ValidTime(r) && r.micro == dt.micro
    ensures Seconds(r) == Seconds(dt) + 3600
  {
    if dt.hour < 23 then dt.(hour := dt.hour + 1)
    else dt.(date := NextDay(dt.date), hour := 0)
  }
}
