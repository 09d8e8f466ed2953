/** Python `datetime` values as the scraper produces and compares them. */
module Calendar {
  import opened Wrappers

  const MinYear := 1
  const MaxYear := 9999

  /** A `datetime`. `utcOffsetHours` is None for a naive value and the
      whole-hour offset from UTC for an aware one. */
  datatype DateTime = DateTime(
    year: int, month: int, day: int,
    hour: int, minute: int, second: int,
    utcOffsetHours: Option<int>)

  /** `datetime.min`: naive, 0001-01-01 00:00:00. */
  const NaiveMin := DateTime(1, 1, 1, 0, 0, 0, None)

  predicate IsLeapYear(y: int) {
    y % 4 == 0 && (y % 100 != 0 || y % 400 == 0)
  }

  /** Days in month `m` of year `y`; a month outside 1..12 never occurs in a
      valid value and is given 31. */
  function DaysInMonth(y: int, m: int): int {
    if m == 2 then (if IsLeapYear(y) then 29 else 28)
    else if m == 4 || m == 6 || m == 9 || m == 11 then 30
    else 31
  }

  /** The range checks of the `datetime` constructor (and of `timezone`,
      whose offset lies strictly between -24 and 24 hours). */
  predicate Valid(t: DateTime) {
    && MinYear <= t.year <= MaxYear
    && 1 <= t.month <= 12
    && 1 <= t.day <= DaysInMonth(t.year, t.month)
    && 0 <= t.hour < 24
    && 0 <= t.minute < 60
    && 0 <= t.second < 60
    && (t.utcOffsetHours.Some? ==> -24 < t.utcOffsetHours.value < 24)
  }

  function DaysBeforeMonth(y: int, m: int): int
    decreases m
  {
    if m <= 1 then 0 else DaysBeforeMonth(y, m - 1) + DaysInMonth(y, m - 1)
  }

  function DaysBeforeYear(y: int): int {
    var p := y - 1;
    p * 365 + p / 4 - p / 100 + p / 400
  }

  /** The proleptic Gregorian day number, 1 for 0001-01-01 (`date.toordinal`). */
  function Ordinal(t: DateTime): int {
    DaysBeforeYear(t.year) + DaysBeforeMonth(t.year, t.month) + t.day
  }

  function OffsetHours(t: DateTime): int {
    if t.utcOffsetHours.Some? then t.utcOffsetHours.value else 0
  }

  /** Seconds from 0001-01-01 00:00 UTC to `t`; a naive value is read as if
      it were UTC. Python orders two aware values by this instant and two
      naive values by their fields. */
  function Instant(t: DateTime): int {
    ((Ordinal(t) * 24 + t.hour - OffsetHours(t)) * 60 + t.minute) * 60 + t.second
  }

  /** Field-by-field ordering, the way Python compares two naive values or
      two values with the same offset. */
  predicate FieldsBefore(a: DateTime, b: DateTime) {
    || a.year < b.year
    || (a.year == b.year && a.month < b.month)
    || (a.year == b.year && a.month == b.month && a.day < b.day)
    || (a.year == b.year && a.month == b.month && a.day == b.day && a.hour < b.hour)
    || (a.year == b.year && a.month == b.month && a.day == b.day && a.hour == b.hour && a.minute < b.minute)
    || (a.year == b.year && a.month == b.month && a.day == b.day && a.hour == b.hour && a.minute == b.minute
        && a.second < b.second)
  }

  lemma {:induction false} DaysBeforeMonthGrows(y: int, m: int, n: int)
    requires 1 <= m < n
    ensures DaysBeforeMonth(y, m) + DaysInMonth(y, m) <= DaysBeforeMonth(y, n)
    decreases n - m
  {
    if m + 1 < n {
      DaysBeforeMonthGrows(y, m + 1, n);
    }
  }

  lemma DaysInYear(y: int)
    ensures DaysBeforeMonth(y, 13) == if IsLeapYear(y) then 366 else 365
  {
    assert DaysBeforeMonth(y, 3) == 31 + DaysInMonth(y, 2);
    assert DaysBeforeMonth(y, 7) == 31 + DaysInMonth(y, 2) + 31 + 30 + 31 + 30;
    assert DaysBeforeMonth(y, 10) == 31 + DaysInMonth(y, 2) + 31 + 30 + 31 + 30 + 31 + 31 + 30;
  }

  /** Counting multiples of `d` up to `y`: one more than up to `y - 1`
      exactly when `d` divides `y`. */
  lemma MultiplesStep(y: int, d: int)
    requires d == 4 || d == 100 || d == 400
    ensures y / d == (y - 1) / d + (if y % d == 0 then 1 else 0)
  {
  }

  /** A multiple of 400 is a multiple of 100, and one of 100 a multiple of 4. */
  lemma MultiplesNest(y: int)
    ensures y % 400 == 0 ==> y % 100 == 0
    ensures y % 100 == 0 ==> y % 4 == 0
  {
  }

  lemma NextYear(y: int)
    ensures DaysBeforeYear(y + 1) == DaysBeforeYear(y) + DaysBeforeMonth(y, 13)
  {
    DaysInYear(y);
    MultiplesStep(y, 4);
    MultiplesStep(y, 100);
    MultiplesStep(y, 400);
    MultiplesNest(y);
    var p := y - 1;
    var leap := (if y % 4 == 0 then 1 else 0) - (if y % 100 == 0 then 1 else 0) + (if y % 400 == 0 then 1 else 0);
    assert leap == if IsLeapYear(y) then 1 else 0;
    assert DaysBeforeYear(y + 1) == p * 365 + 365 + p / 4 - p / 100 + p / 400 + leap;
  }

  lemma {:induction false} YearsGrow(y: int, z: int)
    requires y < z
    ensures DaysBeforeYear(y) + DaysBeforeMonth(y, 13) <= DaysBeforeYear(z)
    decreases z - y
  {
    NextYear(y);
    if y + 1 < z {
      YearsGrow(y + 1, z);
      DaysInYear(y + 1);
    }
  }

  lemma OrdinalGrows(a: DateTime, b: DateTime)
    requires Valid(a) && Valid(b)
    requires a.year < b.year || (a.year == b.year && a.month < b.month)
          || (a.year == b.year && a.month == b.month && a.day < b.day)
    ensures Ordinal(a) < Ordinal(b)
  {
    if a.year < b.year {
      DaysBeforeMonthGrows(a.year, a.month, 13);
      YearsGrow(a.year, b.year);
      assert DaysBeforeMonth(b.year, b.month) >= 0 by {
        if b.month > 1 { DaysBeforeMonthGrows(b.year, 1, b.month); }
      }
    } else if a.month < b.month {
      DaysBeforeMonthGrows(a.year, a.month, b.month);
    }
  }

  /** For two valid values with the same offset, the instant order is the
      field order, and equal instants mean equal values: comparing by
      `Instant` is comparing the way Python does. */
  lemma InstantOrdersLikeFields(a: DateTime, b: DateTime)
    requires Valid(a) && Valid(b)
    requires a.utcOffsetHours == b.utcOffsetHours
    ensures Instant(a) < Instant(b) <==> FieldsBefore(a, b)
    ensures Instant(a) == Instant(b) <==> a == b
  {
    if a.year < b.year || (a.year == b.year && a.month < b.month)
      || (a.year == b.year && a.month == b.month && a.day < b.day) {
      OrdinalGrows(a, b);
    } else if b.year < a.year || (a.year == b.year && b.month < a.month)
      || (a.year == b.year && a.month == b.month && b.day < a.day) {
      OrdinalGrows(b, a);
    }
  }
}
