/** Civil instants, calendar levels and Gregorian month lengths. */
module Calendar {

  /** A civil instant as time.Time reports it through Date() and Clock().
      The zone is carried through unchanged by every operation and every
      instant is taken to be a whole second, so neither zone nor nanoseconds
      are represented. */
  datatype Instant = Instant(year: int, month: int, day: int, hour: int, minute: int, second: int)

  /** The calendar levels of the carry chain, coarsest first. */
  datatype Level = Year | Month | Day | Hour | Minute | Second

  /** Position of a level in the chain: Year is 0, Second is 5. */
  function Rank(lv: Level): (r: nat)
    ensures r <= 5
    ensures r == 0 <==> lv == Year
    ensures r == 5 <==> lv == Second
  {
    match lv
    case Year => 0
    case Month => 1
    case Day => 2
    case Hour => 3
    case Minute => 4
    case Second => 5
  }

  /** The Gregorian leap-year rule (proleptic, as Go's time package uses). */
  predicate IsLeapYear(year: int) {
    year % 4 == 0 && (year % 100 != 0 || year % 400 == 0)
  }

  /** The number of days in `month` of `year`: the day before the first of
      the following month. */
  function LastDayOfMonth(year: int, month: int): (r: int)
    requires 1 <= month <= 12
    ensures 28 <= r <= 31
    ensures month == 2 ==> (r == 29 <==> IsLeapYear(year)) && (r == 28 <==> !IsLeapYear(year))
    ensures month in {4, 6, 9, 11} <==> r == 30
    ensures month in {1, 3, 5, 7, 8, 10, 12} <==> r == 31
  {
    if month == 2 then (if IsLeapYear(year) then 29 else 28)
    else if month == 4 || month == 6 || month == 9 || month == 11 then 30
    else 31
  }

  /** The instants time.Time can hold (no leap seconds). */
  predicate ValidInstant(t: Instant) {
    1 <= t.month <= 12 && 1 <= t.day <= LastDayOfMonth(t.year, t.month)
    && 0 <= t.hour <= 23 && 0 <= t.minute <= 59 && 0 <= t.second <= 59
  }

  /** `a` is earlier than `b` once both are truncated to level `lv`:
      the lexicographic order on (year, month, day, hour, minute, second)
      restricted to the levels up to and including `lv`. */
  predicate EarlierAt(lv: Level, a: Instant, b: Instant) {
    a.year < b.year || (a.year == b.year && Rank(lv) > 0 &&
    (a.month < b.month || (a.month == b.month && Rank(lv) > 1 &&
    (a.day < b.day || (a.day == b.day && Rank(lv) > 2 &&
    (a.hour < b.hour || (a.hour == b.hour && Rank(lv) > 3 &&
    (a.minute < b.minute || (a.minute == b.minute && Rank(lv) > 4 &&
    a.second < b.second)))))))))
  }

  /** Strict chronological order of instants. */
  predicate Before(a: Instant, b: Instant) {
    EarlierAt(Second, a, b)
  }

  /** Chronological order is a strict total order. */
  lemma BeforeIsStrictTotalOrder(a: Instant, b: Instant, c: Instant)
    ensures !Before(a, a)
    ensures Before(a, b) && Before(b, c) ==> Before(a, c)
    ensures a == b || Before(a, b) || Before(b, a)
  {
  }

  /** Being earlier at a coarser level implies being earlier at every finer one. */
  lemma EarlierAtRefines(coarse: Level, fine: Level, a: Instant, b: Instant)
    requires Rank(coarse) <= Rank(fine)
    ensures EarlierAt(coarse, a, b) ==> EarlierAt(fine, a, b)
  {
  }
}
