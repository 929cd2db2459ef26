/** The compiled cron expression and its backward and forward carry-chain
    search (cronexpr.go and cronexpr_prev.go). */
module CronExpression {
  import opened Wrappers
  import opened Calendar
  import opened SortedLists

  /** The compiled day-of-month field: explicit days, nearest-workday days,
      the L and LW flags, and whether the field restricts at all. */
  datatype DomSpec = DomSpec(
    daysOfMonth: set<int>,
    workdaysOfMonth: set<int>,
    lastDayOfMonth: bool,
    lastWorkdayOfMonth: bool,
    restricted: bool)

  /** The compiled day-of-week field: explicit weekdays, N#K requests, NL
      requests, and whether the field restricts at all. */
  datatype DowSpec = DowSpec(
    daysOfWeek: set<int>,
    specificWeekDaysOfWeek: set<int>,
    lastWeekDaysOfWeek: set<int>,
    restricted: bool)

  /** calculateActualDaysOfMonth: the valid days of one (year, month) for a
      pair of day specs. Its body is not part of this model; it is a value of
      this type, and what is assumed of it is IsDayResolver. */
  type DayResolver = (DomSpec, DowSpec, int, int) -> seq<int>

  /** The forward carries nextYear ... nextSecond, selected by level. Their
      bodies are not part of this model; what is assumed of them is
      Expression.IsNextCarry. */
  type NextCarry = (Level, Instant, seq<int>) -> Carried

  /** What a forward carry yields: the instant found, if any, and the day
      cache it leaves behind. A carry is handed the current day cache. */
  datatype Carried = Carried(found: Option<Instant>, days: seq<int>)

  /** A non-empty, strictly ascending list within [lo, hi], as every field
      handler produces. */
  predicate IsFieldList(s: seq<int>, lo: int, hi: int) {
    |s| > 0 && StrictlyAscending(s) && forall x :: x in s ==> lo <= x <= hi
  }

  /** A strictly ascending list of days of a month whose last day is `last`. */
  predicate IsDayList(s: seq<int>, last: int) {
    StrictlyAscending(s) && forall d :: d in s ==> 1 <= d <= last
  }

  /** The assumed contract of calculateActualDaysOfMonth. */
  ghost predicate IsDayResolver(resolve: DayResolver) {
    forall dom, dow, year, month ::
      1 <= month <= 12 ==> IsDayList(resolve(dom, dow, year, month), LastDayOfMonth(year, month))
  }

  /** The lists the field handlers produce for each numeric field, and the
      resolvers that keep the assumed contract of calculateActualDaysOfMonth. */
  type SecondList = s: seq<int> | IsFieldList(s, 0, 59) witness [0]
  type MinuteList = s: seq<int> | IsFieldList(s, 0, 59) witness [0]
  type HourList = s: seq<int> | IsFieldList(s, 0, 23) witness [0]
  type MonthList = s: seq<int> | IsFieldList(s, 1, 12) witness [1]
  type YearList = s: seq<int> | |s| > 0 && StrictlyAscending(s) witness [1970]
  type ValidDayResolver = f: DayResolver | IsDayResolver(f)
    ghost witness (dom: DomSpec, dow: DowSpec, year: int, month: int) => []

  class Expression {
    const secondList: SecondList
    const minuteList: MinuteList
    const hourList: HourList
    const daysOfMonth: DomSpec
    const monthList: MonthList
    const daysOfWeek: DowSpec
    const yearList: YearList
    /** The day resolver bound to this expression (calculateActualDaysOfMonth). */
    const resolveDays: ValidDayResolver
    /** The cached day list of the (year, month) the search last moved to. */
    var actualDaysOfMonthList: seq<int>

    constructor (secondList: SecondList, minuteList: MinuteList, hourList: HourList,
                 daysOfMonth: DomSpec, monthList: MonthList, daysOfWeek: DowSpec,
                 yearList: YearList, resolveDays: ValidDayResolver)
      ensures this.secondList == secondList && this.minuteList == minuteList
      ensures this.hourList == hourList && this.daysOfMonth == daysOfMonth
      ensures this.monthList == monthList && this.daysOfWeek == daysOfWeek
      ensures this.yearList == yearList && this.resolveDays == resolveDays
      ensures actualDaysOfMonthList == []
    {
      this.secondList := secondList;
      this.minuteList := minuteList;
      this.hourList := hourList;
      this.daysOfMonth := daysOfMonth;
      this.monthList := monthList;
      this.daysOfWeek := daysOfWeek;
      this.yearList := yearList;
      this.resolveDays := resolveDays;
      actualDaysOfMonthList := [];
    }

    /** The valid days of (year, month) for this expression. */
    function Days(year: int, month: int): seq<int> {
      resolveDays(daysOfMonth, daysOfWeek, year, month)
    }

    /** The day list of a listed month is a day list of that month. */
    lemma DaysAreDayList(year: int, month: int)
      requires 1 <= month <= 12
      ensures IsDayList(Days(year, month), LastDayOfMonth(year, month))
    {
    }

    /** The instants the expression matches: every level is listed, the day
        being listed for its own (year, month). */
    ghost predicate Matches(m: Instant) {
      ValidInstant(m)
      && m.year in yearList && m.month in monthList && m.day in Days(m.year, m.month)
      && m.hour in hourList && m.minute in minuteList && m.second in secondList
    }

    /** Every level of `t` coarser than `lv` is listed: what a carry at
        level `lv` takes for granted of the instant it is handed. */
    ghost predicate Aligned(lv: Level, t: Instant) {
      (Rank(lv) > 0 ==> t.year in yearList)
      && (Rank(lv) > 1 ==> t.month in monthList)
      && (Rank(lv) > 2 ==> t.day in Days(t.year, t.month))
      && (Rank(lv) > 3 ==> t.hour in hourList)
      && (Rank(lv) > 4 ==> t.minute in minuteList)
    }

    /** `r` is the latest matching instant that is earlier than `t` at
        level `lv`, or None when there is none. */
    ghost predicate IsLatestMatch(r: Option<Instant>, lv: Level, t: Instant) {
      match r
      case None => forall m :: Matches(m) ==> !EarlierAt(lv, m, t)
      case Some(p) =>
        Matches(p) && EarlierAt(lv, p, t)
        && forall m :: Matches(m) && EarlierAt(lv, m, t) ==> !Before(p, m)
    }

    /** `r` is the earliest matching instant that is later than `t` at
        level `lv`, or None when there is none. */
    ghost predicate IsEarliestMatch(r: Option<Instant>, lv: Level, t: Instant) {
      match r
      case None => forall m :: Matches(m) ==> !EarlierAt(lv, t, m)
      case Some(p) =>
        Matches(p) && EarlierAt(lv, t, p)
        && forall m :: Matches(m) && EarlierAt(lv, t, m) ==> !Before(m, p)
    }

    /** The assumed contract of nextYear ... nextSecond: handed an instant
        whose coarser levels are listed, the carry at level `lv` yields the
        earliest match later than it at that level. */
    ghost predicate IsNextCarry(next: NextCarry) {
      forall lv, t, days ::
        ValidInstant(t) && Aligned(lv, t) && (Rank(lv) >= 2 ==> days == Days(t.year, t.month) && |days| > 0) ==>
          IsEarliestMatch(next(lv, t, days).found, lv, t)
          && (next(lv, t, days).found.Some? ==>
                next(lv, t, days).days == Days(next(lv, t, days).found.value.year, next(lv, t, days).found.value.month))
    }

    /** Distance of `t`'s year above the smallest listed year; the backward
        carries recurse only into strictly smaller (year, month) pairs. */
    function YearSpan(t: Instant): nat
      requires |yearList| > 0
    {
      if t.year < yearList[0] then 0 else t.year - yearList[0]
    }

    /** prevYear: the last match in the latest listed year before `t`'s year,
        skipping months that have no valid day. */
    method PrevYear(t: Instant) returns (r: Option<Instant>)
      requires ValidInstant(t)
      modifies this`actualDaysOfMonthList
      ensures IsLatestMatch(r, Year, t)
      ensures !HasBelow(yearList, t.year) ==> r.None? && actualDaysOfMonthList == old(actualDaysOfMonthList)
      ensures HasBelow(yearList, t.year) && Days(MaxBelow(yearList, t.year), LastOf(monthList)) != [] ==>
        r == Some(Instant(MaxBelow(yearList, t.year), LastOf(monthList),
                          LastOf(Days(MaxBelow(yearList, t.year), LastOf(monthList))),
                          LastOf(hourList), LastOf(minuteList), LastOf(secondList)))
      ensures r.Some? ==> actualDaysOfMonthList == Days(r.value.year, r.value.month)
      ensures r.None? ==> actualDaysOfMonthList == old(actualDaysOfMonthList) || actualDaysOfMonthList == []
      decreases YearSpan(t), t.month, 0
    {
      FindBelowCases(yearList, t.year);
      var i := FindTargetOrLower(yearList, t.year - 1);
      if i == -1 {
        return None;
      }
      var year, month := yearList[i], LastOf(monthList);
      actualDaysOfMonthList := Days(year, month);
      if |actualDaysOfMonthList| == 0 {
        var skipped := Instant(year, month, LastDayOfMonth(year, month),
                               LastOf(hourList), LastOf(minuteList), LastOf(secondList));
        r := PrevMonth(skipped);
        EmptyYearEndSkipped(r, skipped, t);
        return;
      }
      r := Some(Instant(year, month, LastOf(actualDaysOfMonthList),
                        LastOf(hourList), LastOf(minuteList), LastOf(secondList)));
      LastOfYearIsLatest(t);
    }

    /** Skipping the last listed month of a year when it has no valid day:
        the latest match before that month is the latest match in a year
        before `t`'s. */
    lemma EmptyYearEndSkipped(r: Option<Instant>, skipped: Instant, t: Instant)
      requires HasBelow(yearList, t.year)
      requires skipped.year == MaxBelow(yearList, t.year) && skipped.month == LastOf(monthList)
      requires Days(skipped.year, skipped.month) == []
      requires IsLatestMatch(r, Month, skipped)
      ensures IsLatestMatch(r, Year, t)
    {
      forall m | Matches(m) && EarlierAt(Year, m, t)
        ensures EarlierAt(Month, m, skipped)
      {
        if m.year == skipped.year {
          assert m.month != skipped.month;
        }
      }
    }

    /** The last instant of the last listed month of the latest listed year
        before `t`'s, when that month has a valid day, is the latest match
        in a year before `t`'s. */
    lemma LastOfYearIsLatest(t: Instant)
      requires HasBelow(yearList, t.year) && Days(MaxBelow(yearList, t.year), LastOf(monthList)) != []
      ensures IsLatestMatch(Some(Instant(MaxBelow(yearList, t.year), LastOf(monthList),
                                         LastOf(Days(MaxBelow(yearList, t.year), LastOf(monthList))),
                                         LastOf(hourList), LastOf(minuteList), LastOf(secondList))), Year, t)
    {
      var year, month := MaxBelow(yearList, t.year), LastOf(monthList);
      var days := Days(year, month);
      DaysAreDayList(year, month);
      var p := Instant(year, month, LastOf(days), LastOf(hourList), LastOf(minuteList), LastOf(secondList));
      assert Matches(p);
      forall m | Matches(m) && EarlierAt(Year, m, t)
        ensures !Before(p, m)
      {
        if m.year == year && m.month == month {
          assert m.day <= p.day;
        }
      }
    }

    /** prevMonth: the last match in the latest listed month before `t`'s
        month in `t`'s year, skipping months that have no valid day, and
        carrying into prevYear when there is none. */
    method PrevMonth(t: Instant) returns (r: Option<Instant>)
      requires ValidInstant(t) && Aligned(Month, t)
      modifies this`actualDaysOfMonthList
      ensures IsLatestMatch(r, Month, t)
      ensures HasBelow(monthList, t.month) && Days(t.year, MaxBelow(monthList, t.month)) != [] ==>
        r == Some(Instant(t.year, MaxBelow(monthList, t.month),
                          LastOf(Days(t.year, MaxBelow(monthList, t.month))),
                          LastOf(hourList), LastOf(minuteList), LastOf(secondList)))
      ensures r.Some? ==> actualDaysOfMonthList == Days(r.value.year, r.value.month)
      ensures r.None? ==> actualDaysOfMonthList == old(actualDaysOfMonthList) || actualDaysOfMonthList == []
      decreases YearSpan(t), t.month, 1
    {
      FindBelowCases(monthList, t.month);
      var i := FindTargetOrLower(monthList, t.month - 1);
      if i == -1 {
        r := PrevYear(t);
        return;
      }
      var month := monthList[i];
      actualDaysOfMonthList := Days(t.year, month);
      if |actualDaysOfMonthList| == 0 {
        var skipped := Instant(t.year, month, LastDayOfMonth(t.year, month),
                               LastOf(hourList), LastOf(minuteList), LastOf(secondList));
        r := PrevMonth(skipped);
        EmptyMonthSkipped(r, skipped, t);
        return;
      }
      r := Some(Instant(t.year, month, LastOf(actualDaysOfMonthList),
                        LastOf(hourList), LastOf(minuteList), LastOf(secondList)));
      LastOfMonthIsLatest(t);
    }

    /** Skipping a month without valid days: the latest match before the
        skipped month is the latest match before `t`'s month. */
    lemma EmptyMonthSkipped(r: Option<Instant>, skipped: Instant, t: Instant)
      requires ValidInstant(t) && t.year in yearList
      requires HasBelow(monthList, t.month)
      requires skipped.year == t.year && skipped.month == MaxBelow(monthList, t.month)
      requires Days(skipped.year, skipped.month) == []
      requires IsLatestMatch(r, Month, skipped)
      ensures IsLatestMatch(r, Month, t)
    {
      forall m | Matches(m) && EarlierAt(Month, m, t)
        ensures EarlierAt(Month, m, skipped)
      {
        if m.year == t.year {
          assert m.month != skipped.month;
        }
      }
    }

    /** The last instant of the latest listed month before `t`'s month, when
        that month has a valid day, is the latest match before `t`'s month. */
    lemma LastOfMonthIsLatest(t: Instant)
      requires ValidInstant(t) && t.year in yearList
      requires HasBelow(monthList, t.month) && Days(t.year, MaxBelow(monthList, t.month)) != []
      ensures IsLatestMatch(Some(Instant(t.year, MaxBelow(monthList, t.month),
                                         LastOf(Days(t.year, MaxBelow(monthList, t.month))),
                                         LastOf(hourList), LastOf(minuteList), LastOf(secondList))), Month, t)
    {
      var month := MaxBelow(monthList, t.month);
      var days := Days(t.year, month);
      DaysAreDayList(t.year, month);
      var p := Instant(t.year, month, LastOf(days), LastOf(hourList), LastOf(minuteList), LastOf(secondList));
      assert Matches(p);
      forall m | Matches(m) && EarlierAt(Month, m, t)
        ensures !Before(p, m)
      {
        if m.year == t.year && m.month == month {
          assert m.day <= p.day;
        }
      }
    }

    /** prevDayOfMonth: the last match on the latest valid day before `t`'s
        day in `t`'s month, carrying into prevMonth when there is none. */
    method PrevDayOfMonth(t: Instant) returns (r: Option<Instant>)
      requires ValidInstant(t) && Aligned(Day, t)
      requires actualDaysOfMonthList == Days(t.year, t.month) && |actualDaysOfMonthList| > 0
      modifies this`actualDaysOfMonthList
      ensures IsLatestMatch(r, Day, t)
      ensures HasBelow(old(actualDaysOfMonthList), t.day) ==>
        r == Some(t.(day := MaxBelow(old(actualDaysOfMonthList), t.day),
                     hour := LastOf(hourList), minute := LastOf(minuteList), second := LastOf(secondList)))
        && actualDaysOfMonthList == old(actualDaysOfMonthList)
      ensures r.Some? ==> actualDaysOfMonthList == Days(r.value.year, r.value.month)
      ensures r.None? ==> actualDaysOfMonthList == old(actualDaysOfMonthList) || actualDaysOfMonthList == []
      decreases YearSpan(t), t.month, 2
    {
      FindBelowCases(actualDaysOfMonthList, t.day);
      var i := FindTargetOrLower(actualDaysOfMonthList, t.day - 1);
      if i == -1 {
        r := PrevMonth(t);
        return;
      }
      r := Some(Instant(t.year, t.month, actualDaysOfMonthList[i],
                        LastOf(hourList), LastOf(minuteList), LastOf(secondList)));
    }

    /** prevHour: the last match in the latest listed hour before `t`'s hour
        on `t`'s day, carrying into prevDayOfMonth when there is none. */
    method PrevHour(t: Instant) returns (r: Option<Instant>)
      requires ValidInstant(t) && Aligned(Hour, t)
      requires actualDaysOfMonthList == Days(t.year, t.month)
      modifies this`actualDaysOfMonthList
      ensures IsLatestMatch(r, Hour, t)
      ensures HasBelow(hourList, t.hour) ==>
        r == Some(t.(hour := MaxBelow(hourList, t.hour), minute := LastOf(minuteList), second := LastOf(secondList)))
        && actualDaysOfMonthList == old(actualDaysOfMonthList)
      ensures r.Some? ==> actualDaysOfMonthList == Days(r.value.year, r.value.month)
      ensures r.None? ==> actualDaysOfMonthList == old(actualDaysOfMonthList) || actualDaysOfMonthList == []
      decreases YearSpan(t), t.month, 3
    {
      FindBelowCases(hourList, t.hour);
      var i := FindTargetOrLower(hourList, t.hour - 1);
      if i == -1 {
        r := PrevDayOfMonth(t);
        return;
      }
      r := Some(Instant(t.year, t.month, t.day, hourList[i], LastOf(minuteList), LastOf(secondList)));
    }

    /** prevMinute: the last match in the latest listed minute before `t`'s
        minute in `t`'s hour, carrying into prevHour when there is none. */
    method PrevMinute(t: Instant) returns (r: Option<Instant>)
      requires ValidInstant(t) && Aligned(Minute, t)
      requires actualDaysOfMonthList == Days(t.year, t.month)
      modifies this`actualDaysOfMonthList
      ensures IsLatestMatch(r, Minute, t)
      ensures HasBelow(minuteList, t.minute) ==>
        r == Some(t.(minute := MaxBelow(minuteList, t.minute), second := LastOf(secondList)))
        && actualDaysOfMonthList == old(actualDaysOfMonthList)
      ensures r.Some? ==> actualDaysOfMonthList == Days(r.value.year, r.value.month)
      ensures r.None? ==> actualDaysOfMonthList == old(actualDaysOfMonthList) || actualDaysOfMonthList == []
      decreases YearSpan(t), t.month, 4
    {
      FindBelowCases(minuteList, t.minute);
      var i := FindTargetOrLower(minuteList, t.minute - 1);
      if i == -1 {
        r := PrevHour(t);
        return;
      }
      r := Some(Instant(t.year, t.month, t.day, t.hour, minuteList[i], LastOf(secondList)));
    }

    /** prevSecond: the latest listed second before `t`'s second in `t`'s
        minute, carrying into prevMinute when there is none. */
    method PrevSecond(t: Instant) returns (r: Option<Instant>)
      requires ValidInstant(t) && Aligned(Second, t)
      requires actualDaysOfMonthList == Days(t.year, t.month)
      modifies this`actualDaysOfMonthList
      ensures IsLatestMatch(r, Second, t)
      ensures HasBelow(secondList, t.second) ==>
        r == Some(t.(second := MaxBelow(secondList, t.second)))
        && actualDaysOfMonthList == old(actualDaysOfMonthList)
      ensures r.Some? ==> actualDaysOfMonthList == Days(r.value.year, r.value.month)
      ensures r.None? ==> actualDaysOfMonthList == old(actualDaysOfMonthList) || actualDaysOfMonthList == []
      decreases YearSpan(t), t.month, 5
    {
      FindBelowCases(secondList, t.second);
      var i := FindTargetOrLower(secondList, t.second - 1);
      if i == -1 {
        r := PrevMinute(t);
        return;
      }
      r := Some(t.(second := secondList[i]));
    }
  
    /** Prev: the latest instant before `fromTime` that the expression
        matches. Each level of `fromTime` is checked from year down to
        second; the first level that does not match selects the carry that
        answers: the next-coarser level's when every listed value is above
        `fromTime`'s, the level's own otherwise, and prevSecond when every
        level matches. */
    method Prev(fromTime: Option<Instant>) returns (r: Option<Instant>)
      requires fromTime.Some? ==> ValidInstant(fromTime.value)
      modifies this`actualDaysOfMonthList
      ensures fromTime.None? ==> r.None? && actualDaysOfMonthList == old(actualDaysOfMonthList)
      ensures fromTime.Some? ==> IsLatestMatch(r, Second, fromTime.value)
      ensures r.Some? ==> actualDaysOfMonthList == Days(r.value.year, r.value.month)
      ensures fromTime.Some? && r.None? ==>
        actualDaysOfMonthList in {old(actualDaysOfMonthList), [], Days(fromTime.value.year, fromTime.value.month)}
    {
      if fromTime.None? {
        return None;
      }
      var t := fromTime.value;
      var carry: Level;
      // year
      var check := CheckPrev(yearList, t.year);
      if check == AllAbove {
        // earlier than the earliest listed year
        return None;
      }
      if check == Unlisted {
        carry := Year;
        UnlistedLevel(Year, t);
      } else {
        // month
        check := CheckPrev(monthList, t.month);
        if check == AllAbove {
          carry := Year;
          BelowLevel(Month, t);
        } else if check == Unlisted {
          carry := Month;
          UnlistedLevel(Month, t);
        } else {
          actualDaysOfMonthList := Days(t.year, t.month);
          if |actualDaysOfMonthList| == 0 {
            // no valid day in this month
            carry := Month;
            BelowLevel(Day, t);
          } else {
            // day of month
            DaysAreDayList(t.year, t.month);
            check := CheckPrev(actualDaysOfMonthList, t.day);
            if check == AllAbove {
              carry := Month;
              BelowLevel(Day, t);
            } else if check == Unlisted {
              carry := Day;
              UnlistedLevel(Day, t);
            } else {
              // hour
              check := CheckPrev(hourList, t.hour);
              if check == AllAbove {
                carry := Day;
                BelowLevel(Hour, t);
              } else if check == Unlisted {
                carry := Hour;
                UnlistedLevel(Hour, t);
              } else {
                // minute
                check := CheckPrev(minuteList, t.minute);
                if check == AllAbove {
                  carry := Hour;
                  BelowLevel(Minute, t);
                } else if check == Unlisted {
                  carry := Minute;
                  UnlistedLevel(Minute, t);
                } else {
                  // second
                  check := CheckPrev(secondList, t.second);
                  if check == AllAbove {
                    carry := Minute;
                    BelowLevel(Second, t);
                  } else {
                    // nothing better to do than to move to the previous second
                    carry := Second;
                  }
                }
              }
            }
          }
        }
      }
      r := PrevAt(carry, t);
      Delegated(r, carry, t);
    }

    /** The backward carry of level `lv`: prevYear ... prevSecond. */
    method PrevAt(lv: Level, t: Instant) returns (r: Option<Instant>)
      requires ValidInstant(t) && Aligned(lv, t)
      requires Rank(lv) >= 2 ==> actualDaysOfMonthList == Days(t.year, t.month) && |actualDaysOfMonthList| > 0
      modifies this`actualDaysOfMonthList
      ensures IsLatestMatch(r, lv, t)
      ensures r.Some? ==> actualDaysOfMonthList == Days(r.value.year, r.value.month)
      ensures r.None? ==> actualDaysOfMonthList == old(actualDaysOfMonthList) || actualDaysOfMonthList == []
    {
      match lv
      case Year => r := PrevYear(t);
      case Month => r := PrevMonth(t);
      case Day => r := PrevDayOfMonth(t);
      case Hour => r := PrevHour(t);
      case Minute => r := PrevMinute(t);
      case Second => r := PrevSecond(t);
    }

    /** No match lies between `t` truncated to level `lv` and `t` itself. */
    ghost predicate NoMatchSinceStartOf(lv: Level, t: Instant) {
      forall m :: Matches(m) && Before(m, t) ==> EarlierAt(lv, m, t)
    }

    /** The carry at level `lv` answers for Prev when no match lies between
        `t` truncated to `lv` and `t` itself. */
    lemma Delegated(r: Option<Instant>, lv: Level, t: Instant)
      requires IsLatestMatch(r, lv, t) && NoMatchSinceStartOf(lv, t)
      ensures IsLatestMatch(r, Second, t)
    {
      if r.Some? {
        EarlierAtRefines(lv, Second, r.value, t);
      }
    }

    /** The value of `m` at level `lv`. */
    static function FieldAt(lv: Level, m: Instant): int {
      match lv
      case Year => m.year
      case Month => m.month
      case Day => m.day
      case Hour => m.hour
      case Minute => m.minute
      case Second => m.second
    }

    /** The listed values at level `lv` for instants sharing `m`'s coarser
        levels: for the day, the day list of `m`'s own (year, month). */
    function ListedAt(lv: Level, m: Instant): seq<int> {
      match lv
      case Year => yearList
      case Month => monthList
      case Day => Days(m.year, m.month)
      case Hour => hourList
      case Minute => minuteList
      case Second => secondList
    }

    /** The next-coarser level. */
    static function Parent(lv: Level): (p: Level)
      requires lv != Year
      ensures Rank(p) + 1 == Rank(lv)
    {
      match lv
      case Month => Year
      case Day => Month
      case Hour => Day
      case Minute => Hour
      case Second => Minute
    }

    /** A level of `t` whose value is not listed (its coarser levels being
        listed): every match before `t` is earlier at that level. */
    lemma UnlistedLevel(lv: Level, t: Instant)
      requires Aligned(lv, t) && FieldAt(lv, t) !in ListedAt(lv, t)
      ensures NoMatchSinceStartOf(lv, t)
    {
    }

    /** A level of `t` whose value is below every listed value (its coarser
        levels being listed): every match before `t` is earlier at the
        next-coarser level. */
    lemma BelowLevel(lv: Level, t: Instant)
      requires lv != Year && Aligned(lv, t)
      requires forall x :: x in ListedAt(lv, t) ==> x > FieldAt(lv, t)
      ensures NoMatchSinceStartOf(Parent(lv), t)
    {
      forall m | Matches(m) && Before(m, t)
        ensures EarlierAt(Parent(lv), m, t)
      {
        if !EarlierAt(Parent(lv), m, t) {
          SameParentPrefix(lv, m, t);
        }
      }
    }

    /** An instant `a` before `b` but not earlier at `lv`'s parent level
        shares `b`'s levels above `lv` and is not above `b` at `lv`. */
    lemma SameParentPrefix(lv: Level, a: Instant, b: Instant)
      requires lv != Year && Before(a, b) && !EarlierAt(Parent(lv), a, b)
      ensures FieldAt(lv, a) <= FieldAt(lv, b)
      ensures ListedAt(lv, a) == ListedAt(lv, b)
    {
    }

    /** Next: the earliest instant after `fromTime` that the expression
        matches. Each level of `fromTime` is checked from year down to
        second; the first level that does not match selects the forward
        carry that answers: the next-coarser level's when every listed value
        is below `fromTime`'s, the level's own otherwise, and nextSecond when
        every level matches. The forward carries are the parameter `next`. */
    method Next(fromTime: Option<Instant>, next: NextCarry) returns (r: Option<Instant>)
      requires IsNextCarry(next)
      requires fromTime.Some? ==> ValidInstant(fromTime.value)
      modifies this`actualDaysOfMonthList
      ensures fromTime.None? ==> r.None?
      ensures fromTime.Some? ==> IsEarliestMatch(r, Second, fromTime.value)
      ensures r.Some? ==> actualDaysOfMonthList == Days(r.value.year, r.value.month)
      ensures fromTime.None? ==> actualDaysOfMonthList == old(actualDaysOfMonthList)
      ensures fromTime.Some? && (forall y :: y in yearList ==> y < fromTime.value.year) ==>
        r.None? && actualDaysOfMonthList == old(actualDaysOfMonthList)
    {
      if fromTime.None? {
        return None;
      }
      var t := fromTime.value;
      var carry: Level;
      // year
      var check := CheckNext(yearList, t.year);
      if check == AllBelow {
        // later than the latest listed year
        return None;
      }
      if check == Unlisted {
        carry := Year;
        UnlistedLevelForward(Year, t);
      } else {
        // month
        check := CheckNext(monthList, t.month);
        if check == AllBelow {
          carry := Year;
          AboveLevel(Month, t);
        } else if check == Unlisted {
          carry := Month;
          UnlistedLevelForward(Month, t);
        } else {
          actualDaysOfMonthList := Days(t.year, t.month);
          if |actualDaysOfMonthList| == 0 {
            // no valid day in this month
            carry := Month;
            AboveLevel(Day, t);
          } else {
            // day of month
            DaysAreDayList(t.year, t.month);
            check := CheckNext(actualDaysOfMonthList, t.day);
            if check == AllBelow {
              carry := Month;
              AboveLevel(Day, t);
            } else if check == Unlisted {
              carry := Day;
              UnlistedLevelForward(Day, t);
            } else {
              // hour
              check := CheckNext(hourList, t.hour);
              if check == AllBelow {
                carry := Day;
                AboveLevel(Hour, t);
              } else if check == Unlisted {
                carry := Hour;
                UnlistedLevelForward(Hour, t);
              } else {
                // minute
                check := CheckNext(minuteList, t.minute);
                if check == AllBelow {
                  carry := Hour;
                  AboveLevel(Minute, t);
                } else if check == Unlisted {
                  carry := Minute;
                  UnlistedLevelForward(Minute, t);
                } else {
                  // second
                  check := CheckNext(secondList, t.second);
                  if check == AllBelow {
                    carry := Minute;
                    AboveLevel(Second, t);
                  } else {
                    // nothing better to do than to move to the next second
                    carry := Second;
                  }
                }
              }
            }
          }
        }
      }
      r := NextAt(carry, t, next);
      DelegatedForward(r, carry, t);
    }

    /** The forward carry of level `lv` (nextYear ... nextSecond), handed
        the day cache and storing the cache it leaves behind. */
    method NextAt(lv: Level, t: Instant, next: NextCarry) returns (r: Option<Instant>)
      requires IsNextCarry(next)
      requires ValidInstant(t) && Aligned(lv, t)
      requires Rank(lv) >= 2 ==> actualDaysOfMonthList == Days(t.year, t.month) && |actualDaysOfMonthList| > 0
      modifies this`actualDaysOfMonthList
      ensures IsEarliestMatch(r, lv, t)
      ensures r.Some? ==> actualDaysOfMonthList == Days(r.value.year, r.value.month)
    {
      var carried := next(lv, t, actualDaysOfMonthList);
      r, actualDaysOfMonthList := carried.found, carried.days;
    }

    /** No match lies between `t` and the end of `t`'s period at level `lv`. */
    ghost predicate NoMatchUntilEndOf(lv: Level, t: Instant) {
      forall m :: Matches(m) && Before(t, m) ==> EarlierAt(lv, t, m)
    }

    /** The forward carry at level `lv` answers for Next when no match lies
        between `t` and the end of `t`'s period at `lv`. */
    lemma DelegatedForward(r: Option<Instant>, lv: Level, t: Instant)
      requires IsEarliestMatch(r, lv, t) && NoMatchUntilEndOf(lv, t)
      ensures IsEarliestMatch(r, Second, t)
    {
      if r.Some? {
        EarlierAtRefines(lv, Second, t, r.value);
      }
    }

    /** A level of `t` whose value is not listed (its coarser levels being
        listed): every match after `t` is later at that level. */
    lemma UnlistedLevelForward(lv: Level, t: Instant)
      requires Aligned(lv, t) && FieldAt(lv, t) !in ListedAt(lv, t)
      ensures NoMatchUntilEndOf(lv, t)
    {
    }

    /** A level of `t` whose value is above every listed value (its coarser
        levels being listed): every match after `t` is later at the
        next-coarser level. */
    lemma AboveLevel(lv: Level, t: Instant)
      requires lv != Year && Aligned(lv, t)
      requires forall x :: x in ListedAt(lv, t) ==> x < FieldAt(lv, t)
      ensures NoMatchUntilEndOf(Parent(lv), t)
    {
      forall m | Matches(m) && Before(t, m)
        ensures EarlierAt(Parent(lv), t, m)
      {
        if !EarlierAt(Parent(lv), t, m) {
          SameParentPrefix(lv, t, m);
        }
      }
    }

    /** The last instant of `ts`, or `t` when `ts` is empty. */
    static function LastOr(ts: seq<Instant>, t: Instant): Instant {
      if |ts| == 0 then t else ts[|ts| - 1]
    }

    /** `ts` is a run of successive matches after `t`: each element is the
        earliest match after its predecessor, the first after `t`. */
    ghost predicate IsMatchRun(ts: seq<Instant>, t: Instant)
      decreases |ts|
    {
      |ts| == 0 ||
      (IsMatchRun(ts[..|ts| - 1], t)
       && IsEarliestMatch(Some(ts[|ts| - 1]), Second, LastOr(ts[..|ts| - 1], t)))
    }

    /** NextN: up to `n` successive matches after `fromTime`, found by Next
        and then by nextSecond from each match found; the search stops early
        only when it finds nothing. */
    method NextN(fromTime: Option<Instant>, n: nat, next: NextCarry) returns (times: seq<Instant>)
      requires IsNextCarry(next)
      requires fromTime.Some? ==> ValidInstant(fromTime.value)
      modifies this`actualDaysOfMonthList
      ensures |times| <= n
      ensures n == 0 || fromTime.None? ==> times == []
      ensures fromTime.Some? ==> IsMatchRun(times, fromTime.value)
      ensures fromTime.Some? && |times| < n ==> IsEarliestMatch(None, Second, LastOr(times, fromTime.value))
      ensures n == 0 || fromTime.None? ==> actualDaysOfMonthList == old(actualDaysOfMonthList)
      ensures 0 < n == |times| ==> actualDaysOfMonthList == Days(times[n - 1].year, times[n - 1].month)
    {
      times := [];
      if n > 0 {
        var cur := Next(fromTime, next);
        var left := n;
        while true
          invariant 0 < left && |times| + left == n
          invariant fromTime.None? ==> cur.None? && times == []
          invariant fromTime.Some? ==> IsMatchRun(times, fromTime.value)
          invariant fromTime.Some? ==> IsEarliestMatch(cur, Second, LastOr(times, fromTime.value))
          invariant cur.Some? ==> actualDaysOfMonthList == Days(cur.value.year, cur.value.month)
          invariant fromTime.None? ==> actualDaysOfMonthList == old(actualDaysOfMonthList)
          decreases left
        {
          if cur.None? {
            break;
          }
          assert (times + [cur.value])[..|times|] == times;
          times := times + [cur.value];
          left := left - 1;
          if left == 0 {
            break;
          }
          cur := NextAt(Second, cur.value, next);
        }
      }
    }

    /** A run of successive matches is strictly ascending and lies after
        its starting instant. */
    lemma {:induction false} MatchRunAscending(ts: seq<Instant>, t: Instant)
      requires IsMatchRun(ts, t)
      ensures forall k :: 0 <= k < |ts| ==> Matches(ts[k]) && Before(t, ts[k])
      ensures forall i, j :: 0 <= i < j < |ts| ==> Before(ts[i], ts[j])
      decreases |ts|
    {
      if |ts| > 0 {
        var init, last := ts[..|ts| - 1], ts[|ts| - 1];
        MatchRunAscending(init, t);
        assert Matches(last) && Before(LastOr(init, t), last);
        if |init| > 0 {
          BeforeIsStrictTotalOrder(t, init[|init| - 1], last);
        }
        forall k | 0 <= k < |ts|
          ensures Matches(ts[k]) && Before(t, ts[k])
        {
          if k < |init| {
            assert ts[k] == init[k];
          }
        }
        forall i, j | 0 <= i < j < |ts|
          ensures Before(ts[i], ts[j])
        {
          if j < |init| {
            assert ts[i] == init[i] && ts[j] == init[j];
          } else if i < |init| - 1 {
            assert ts[i] == init[i];
            BeforeIsStrictTotalOrder(init[i], init[|init| - 1], last);
          }
        }
      }
    }

    /** A run of successive matches skips no match: every match after `t`
        and not after the run's last instant is in the run. */
    lemma {:induction false} MatchRunComplete(ts: seq<Instant>, t: Instant, m: Instant)
      requires IsMatchRun(ts, t)
      requires Matches(m) && Before(t, m) && !Before(LastOr(ts, t), m)
      ensures m in ts
      decreases |ts|
    {
      if |ts| == 0 {
        BeforeIsStrictTotalOrder(t, m, t);
      } else {
        var init := ts[..|ts| - 1];
        var last := ts[|ts| - 1];
        var prior := LastOr(init, t);
        if Before(prior, m) {
          BeforeIsStrictTotalOrder(m, last, m);
        } else {
          MatchRunComplete(init, t, m);
          assert ts == init + [last];
        }
      }
    }

    /** The latest match before an instant is unique: Prev's specification
        determines its result. */
    lemma LatestMatchUnique(r1: Option<Instant>, r2: Option<Instant>, lv: Level, t: Instant)
      requires IsLatestMatch(r1, lv, t) && IsLatestMatch(r2, lv, t)
      ensures r1 == r2
    {
      if r1.Some? && r2.Some? {
        BeforeIsStrictTotalOrder(r1.value, r2.value, r1.value);
      }
    }

    /** The earliest match after an instant is unique: Next's specification
        determines its result. */
    lemma EarliestMatchUnique(r1: Option<Instant>, r2: Option<Instant>, lv: Level, t: Instant)
      requires IsEarliestMatch(r1, lv, t) && IsEarliestMatch(r2, lv, t)
      ensures r1 == r2
    {
      if r1.Some? && r2.Some? {
        BeforeIsStrictTotalOrder(r1.value, r2.value, r1.value);
      }
    }

    /** Stepping back from the next match after `t` lands on `t` when `t`
        matches, and never after `t`. */
    lemma NextThenPrev(t: Instant, p: Instant, q: Option<Instant>)
      requires IsEarliestMatch(Some(p), Second, t) && IsLatestMatch(q, Second, p)
      ensures Matches(t) ==> q == Some(t)
      ensures q.Some? ==> !Before(t, q.value)
    {
      if q.Some? {
        var b := q.value;
        if Before(t, b) {
          BeforeIsStrictTotalOrder(t, b, p);
        }
        if Matches(t) {
          BeforeIsStrictTotalOrder(b, t, b);
        }
      }
    }

    /** Stepping forward from the previous match before `t` lands on `t`
        when `t` matches, and never before `t`. */
    lemma PrevThenNext(t: Instant, p: Instant, q: Option<Instant>)
      requires IsLatestMatch(Some(p), Second, t) && IsEarliestMatch(q, Second, p)
      ensures Matches(t) ==> q == Some(t)
      ensures q.Some? ==> !Before(q.value, t)
    {
      if q.Some? {
        var b := q.value;
        if Before(b, t) {
          BeforeIsStrictTotalOrder(p, b, t);
        }
        if Matches(t) {
          BeforeIsStrictTotalOrder(b, t, b);
        }
      }
    }

    /** Next, then Prev, then Next again returns the first Next's result:
        the previous match before a match `p` has `p` as its next match. */
    lemma NextPrevNext(t: Instant, p: Instant, q: Instant, p2: Option<Instant>)
      requires IsEarliestMatch(Some(p), Second, t)
      requires IsLatestMatch(Some(q), Second, p)
      requires IsEarliestMatch(p2, Second, q)
      ensures p2 == Some(p)
    {
      assert IsEarliestMatch(Some(p), Second, q);
      EarliestMatchUnique(p2, Some(p), Second, q);
    }

    /** Prev, then Next, then Prev again returns the first Prev's result:
        the next match after a match `p` has `p` as its previous match. */
    lemma PrevNextPrev(t: Instant, p: Instant, q: Instant, p2: Option<Instant>)
      requires IsLatestMatch(Some(p), Second, t)
      requires IsEarliestMatch(Some(q), Second, p)
      requires IsLatestMatch(p2, Second, q)
      ensures p2 == Some(p)
    {
      assert IsLatestMatch(Some(p), Second, q);
      LatestMatchUnique(p2, Some(p), Second, q);
    }
  }
}
