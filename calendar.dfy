/** The date arithmetic behind the monthly savings scheduler and the loan
    reminders: `java.time.LocalDate` over the proleptic Gregorian calendar of
    ISO 8601. Years are unbounded here; the ±999,999,999 range check is not modelled. */
module Calendar {

  datatype Date = Date(year: int, month: int, day: int)

  /** Gregorian leap rule: every fourth year, except centuries not divisible by 400. */
  predicate IsLeapYear(year: int) {
    year % 4 == 0 && (year % 100 != 0 || year % 400 == 0)
  }

  /** `Month.length(leapYear)`. */
  function LengthOfMonth(year: int, month: int): (n: int)
    ensures 28 <= n <= 31
    ensures month == 2 ==> (n == 29 <==> IsLeapYear(year)) && n <= 29
    ensures month in {4, 6, 9, 11} ==> n == 30
    ensures month in {1, 3, 5, 7, 8, 10, 12} ==> n == 31
  {
    if month == 2 then (if IsLeapYear(year) then 29 else 28)
    else if month == 4 || month == 6 || month == 9 || month == 11 then 30
    else 31
  }

  /** A date `LocalDate.of` would accept (within the modelled unbounded years). */
  predicate Valid(d: Date) {
    1 <= d.month <= 12 && 1 <= d.day <= LengthOfMonth(d.year, d.month)
  }

  /** `LocalDate.isBefore`: lexicographic on year, month, day. */
  predicate IsBefore(a: Date, b: Date) {
    a.year < b.year
    || (a.year == b.year && a.month < b.month)
    || (a.year == b.year && a.month == b.month && a.day < b.day)
  }

  /** Leap days in the years from 0 up to `year` (negative below 0), as
      `toEpochDay` computes them, with Java's truncating division written out
      for negative years. */
  function LeapDaysBefore(year: int): int {
    if year >= 0 then (year + 3) / 4 - (year + 99) / 100 + (year + 399) / 400
    else -((-year) / 4 - (-year) / 100 + (-year) / 400)
  }

  /** `LocalDate.toEpochDay`: days since 1970-01-01. */
  function EpochDay(d: Date): int {
    var marchShift := if d.month > 2 then (if IsLeapYear(d.year) then 1 else 2) else 0;
    365 * d.year + LeapDaysBefore(d.year) + (367 * d.month - 362) / 12 + d.day - 1 - marchShift - 719528
  }

  /** `ChronoUnit.DAYS.between(a, b)`. */
  function DaysBetween(a: Date, b: Date): int {
    EpochDay(b) - EpochDay(a)
  }

  /** The calendar day after `d`. */
  function NextDay(d: Date): Date {
    if d.day < LengthOfMonth(d.year, d.month) then Date(d.year, d.month, d.day + 1)
    else if d.month < 12 then Date(d.year, d.month + 1, 1)
    else Date(d.year + 1, 1, 1)
  }

  /** Moving up by one crosses a multiple of 4 exactly when it lands on one;
      `n`, `n - 4` and `-n` are multiples of 4 together. The next two lemmas say
      the same of 100 and 400. */
  lemma StepBy4(x: int)
    ensures (x + 1) / 4 - x / 4 == if (x + 1) % 4 == 0 then 1 else 0
    ensures ((x + 1) % 4 == 0) == ((x - 3) % 4 == 0) == ((-(x + 1)) % 4 == 0)
  {
  }

  lemma StepBy100(x: int)
    ensures (x + 1) / 100 - x / 100 == if (x + 1) % 100 == 0 then 1 else 0
    ensures ((x + 1) % 100 == 0) == ((x - 99) % 100 == 0) == ((-(x + 1)) % 100 == 0)
  {
  }

  lemma StepBy400(x: int)
    ensures (x + 1) / 400 - x / 400 == if (x + 1) % 400 == 0 then 1 else 0
    ensures ((x + 1) % 400 == 0) == ((x - 399) % 400 == 0) == ((-(x + 1)) % 400 == 0)
  {
  }

  /** Each year adds one leap day to the count exactly when it is a leap year. */
  lemma LeapDaysStep(y: int)
    ensures LeapDaysBefore(y + 1) - LeapDaysBefore(y) == if IsLeapYear(y) then 1 else 0
  {
    var four, hundred, fourHundred;
    if y >= 0 {
      four, hundred, fourHundred := CrossingsFromZero(y);
    } else {
      four, hundred, fourHundred := CrossingsBelowZero(y);
    }
    DivisibilityChain(y);
    if y % 400 == 0 {
      assert four == 1 && hundred == 1 && fourHundred == 1;
    } else if y % 100 == 0 {
      assert four == 1 && hundred == 1 && fourHundred == 0;
    } else if y % 4 == 0 {
      assert four == 1 && hundred == 0 && fourHundred == 0;
    } else {
      assert four == 0 && hundred == 0 && fourHundred == 0;
    }
  }

  /** For a year from 0 on, how each of the three terms of the leap-day count
      moves from `y` to `y + 1`. */
  lemma CrossingsFromZero(y: int) returns (four: int, hundred: int, fourHundred: int)
    requires y >= 0
    ensures four == if y % 4 == 0 then 1 else 0
    ensures hundred == if y % 100 == 0 then 1 else 0
    ensures fourHundred == if y % 400 == 0 then 1 else 0
    ensures LeapDaysBefore(y + 1) - LeapDaysBefore(y) == four - hundred + fourHundred
  {
    StepBy4(y + 3);
    StepBy100(y + 99);
    StepBy400(y + 399);
    four := (y + 4) / 4 - (y + 3) / 4;
    hundred := (y + 100) / 100 - (y + 99) / 100;
    fourHundred := (y + 400) / 400 - (y + 399) / 400;
  }

  /** The same below 0, where the count runs on `-y` with truncating division. */
  lemma CrossingsBelowZero(y: int) returns (four: int, hundred: int, fourHundred: int)
    requires y < 0
    ensures four == if y % 4 == 0 then 1 else 0
    ensures hundred == if y % 100 == 0 then 1 else 0
    ensures fourHundred == if y % 400 == 0 then 1 else 0
    ensures LeapDaysBefore(y + 1) - LeapDaysBefore(y) == four - hundred + fourHundred
  {
    if y == -1 {
      four, hundred, fourHundred := 0, 0, 0;
    } else {
      var z := -y - 1;
      StepBy4(z);
      StepBy100(z);
      StepBy400(z);
      four := (z + 1) / 4 - z / 4;
      hundred := (z + 1) / 100 - z / 100;
      fourHundred := (z + 1) / 400 - z / 400;
    }
  }

  lemma DivisibilityChain(y: int)
    ensures y % 400 == 0 ==> y % 100 == 0
    ensures y % 100 == 0 ==> y % 4 == 0
  {
  }

  /** The epoch-day formula counts days: consecutive calendar days are one
      epoch day apart, across month ends, leap Februaries and year ends. */
  lemma EpochDayCountsDays(d: Date)
    requires Valid(d)
    ensures Valid(NextDay(d))
    ensures EpochDay(NextDay(d)) == EpochDay(d) + 1
  {
    if d.day == LengthOfMonth(d.year, d.month) && d.month == 12 {
      LeapDaysStep(d.year);
    }
  }

  /** The reference point of the epoch. */
  lemma EpochStartsIn1970()
    ensures EpochDay(Date(1970, 1, 1)) == 0
    ensures EpochDay(Date(2000, 3, 1)) == 11017
  {
  }

  /** `today.withDayOfMonth(day)`. */
  function WithDayOfMonth(d: Date, day: int): (r: Date)
    requires 1 <= day <= LengthOfMonth(d.year, d.month)
    ensures r.year == d.year && r.month == d.month && r.day == day
  {
    d.(day := day)
  }

  /** `isLastDayOfMonth`: the scheduler's daily tick condition. */
  predicate IsLastDayOfMonth(today: Date) {
    today.day == LengthOfMonth(today.year, today.month)
  }

  /** `calculateDaysUntilMonthEnd`: the scheduler's initial delay, the days from
      `today` to the last day of its month. */
  function DaysUntilMonthEnd(today: Date): (n: int)
    requires Valid(today)
    ensures n == LengthOfMonth(today.year, today.month) - today.day
    ensures n >= 0
    ensures n == 0 <==> IsLastDayOfMonth(today)
  {
    DaysBetween(today, WithDayOfMonth(today, LengthOfMonth(today.year, today.month)))
  }

  /** `ProlepticMonth`: months since January of year 0. */
  function MonthIndex(d: Date): int {
    d.year * 12 + (d.month - 1)
  }

  /** `LocalDate.plusMonths(months)`: move by whole months and clamp the day to
      the length of the target month (`resolvePreviousValid`). */
  function PlusMonths(d: Date, months: int): (r: Date)
    ensures Valid(d) ==> Valid(r)
    ensures 1 <= d.month <= 12 ==> MonthIndex(r) == MonthIndex(d) + months
    ensures r.day <= d.day
    ensures r.day == d.day || r.day == LengthOfMonth(r.year, r.month)
  {
    if months == 0 then d
    else
      var total := MonthIndex(d) + months;
      var year := total / 12;
      var month := total % 12 + 1;
      var length := LengthOfMonth(year, month);
      Date(year, month, if d.day <= length then d.day else length)
  }

  /** Two valid dates in the same month and with the same day are equal. */
  lemma SameMonthIndex(a: Date, b: Date)
    requires 1 <= a.month <= 12 && 1 <= b.month <= 12
    requires MonthIndex(a) == MonthIndex(b)
    ensures a.year == b.year && a.month == b.month
  {
  }

  /** A later month index means a later date, whatever the days. */
  lemma LaterMonthIsAfter(a: Date, b: Date)
    requires 1 <= a.month <= 12 && 1 <= b.month <= 12
    requires MonthIndex(a) < MonthIndex(b)
    ensures IsBefore(a, b) && !IsBefore(b, a)
  {
  }

  /** Adding a non-negative number of months never yields an earlier date. */
  lemma PlusMonthsNotBefore(d: Date, months: int)
    requires Valid(d) && months >= 0
    ensures !IsBefore(PlusMonths(d, months), d)
  {
    if months > 0 {
      LaterMonthIsAfter(d, PlusMonths(d, months));
    }
  }

  /** Clamping is the only thing that stops month addition from composing: a
      day that every month has (the 28th or earlier) survives any number of steps. */
  lemma PlusMonthsCompose(d: Date, a: int, b: int)
    requires Valid(d) && d.day <= 28
    ensures PlusMonths(PlusMonths(d, a), b) == PlusMonths(d, a + b)
  {
    var x := PlusMonths(PlusMonths(d, a), b);
    var y := PlusMonths(d, a + b);
    SameMonthIndex(x, y);
  }

  /** The clamping at work: one month after 31 January is the last day of February. */
  lemma PlusMonthsClampsToFebruary()
    ensures PlusMonths(Date(2024, 1, 31), 1) == Date(2024, 2, 29)
    ensures PlusMonths(Date(2023, 3, 31), -1) == Date(2023, 2, 28)
  {
    assert MonthIndex(Date(2024, 1, 31)) + 1 == 2024 * 12 + 1;
    assert (2024 * 12 + 1) / 12 == 2024 && (2024 * 12 + 1) % 12 == 1;
    assert MonthIndex(Date(2023, 3, 31)) - 1 == 2023 * 12 + 1;
    assert (2023 * 12 + 1) / 12 == 2023 && (2023 * 12 + 1) % 12 == 1;
  }
}
