# cronexpr: the carry-chain search, in Dafny

This project models the core of the Go package `cronexpr`:

- the compiled cron `Expression`;
- `Parse`, as far as it lays the split fields of a cron line over the
  second, minute, hour, day-of-month, month, day-of-week and year fields;
- the backward search `Prev` with its carries `prevYear` … `prevSecond`
  and the helpers `lastOf`, `lastDayOfMonth` and `findTargetOrLower`;
- the forward entry points `Next` and `NextN`.

An instant is a civil date and time (`Calendar.Instant`). Go's zero
`time.Time`, which the search takes and returns as "no instant", is
`Wrappers.None`.

The central specification is `Expression.IsLatestMatch(r, lv, t)`. It says
that `r` is the latest instant the expression matches that is earlier than
`t` once both are truncated to level `lv`, or `None` if there is none.
`Expression.IsEarliestMatch` is the forward mirror of it. Both are
specifications of the results, not of the code.

- Each backward carry `PrevX` is proved against level X.
- `Prev` is proved against the level of seconds.
- Each carry also states the instant it lands on when it does not carry
  further up: the largest listed value below at its own level, the last
  listed value at every finer level, and the coarser levels unchanged.
- Each carry states the day cache it leaves behind.

The forward carries `nextYear` … `nextSecond` are not modelled. They are a
function parameter of `Next` and `NextN` whose assumed contract is
`IsNextCarry`. `Next`'s own pre-check and dispatch are modelled and proved
to yield the earliest match after its input.

`calculateActualDaysOfMonth` is modelled the same way, as a function value
bound to the expression whose type assumes its contract. So are the field
handlers `Parse` calls.

Files:

- `wrappers.dfy`: `Option` and `Result`.
- `calendar.dfy`: instants, the calendar levels, the Gregorian month
  length, and the order of instants at each level.
- `sorted_lists.dfy`: `sort.SearchInts`, `findTargetOrLower`, `lastOf`,
  and the level tests of the entry points.
- `expression.dfy`: the `Expression` class, the backward carries, `Prev`,
  `Next`, `NextN`, and the lemmas relating them.
- `parse.dfy`: the field layout of `Parse`.

## Model

| member | source | states |
|---|---|---|
| Calendar.LastDayOfMonth | cronexpr_prev.go:17-21 | the last day of a month is 28 to 31: 31 for January, March, May, July, August, October and December, 30 for April, June, September and November, and for February 29 exactly in Gregorian leap years |
| SortedLists.SearchInts | cronexpr_prev.go:25 | `sort.SearchInts` on an ascending list: the index splitting it into the elements below `v` and those not below `v` |
| SortedLists.FindTargetOrLower | cronexpr_prev.go:23-33 | -1 exactly when every element is above `v`; otherwise an index whose element is at most `v`, every later element being above `v`, so the element is the largest one not above `v` |
| SortedLists.LastOf | cronexpr_prev.go:13-15 | the last element is in the list and, for an ascending list, is its largest element |
| SortedLists.MaxBelow | cronexpr_prev.go:37 | `findTargetOrLower(s, v-1)` as the carries use it: the largest listed value strictly below `v` |
| SortedLists.FindBelowCases | cronexpr_prev.go:37-40 | `findTargetOrLower(s, v-1)` misses exactly when nothing listed is below `v`, and otherwise lands on `MaxBelow(s, v)` |
| SortedLists.CheckPrev | cronexpr.go:155-161 | Prev's test of one level has three outcomes: every listed value is above the instant's value; the value is unlisted but something is listed below it; or the value is listed |
| SortedLists.CheckNext | cronexpr.go:247-254 | Next's test of one level has three outcomes: every listed value is below the instant's value; the value is unlisted but something is listed above it; or the value is listed |
| CronExpression.Expression.constructor | cronexpr.go:27-45 | an expression holds the compiled field lists and day specs, and starts with an empty day cache |
| CronExpression.Expression.DaysAreDayList | cronexpr.go:173 | the days `calculateActualDaysOfMonth` returns for a month are strictly ascending and within that month |
| CronExpression.Expression.PrevYear | cronexpr_prev.go:35-64 | prevYear returns the latest match in a year before `t`'s. It returns None with the cache unchanged when no listed year is below `t`'s. Otherwise it returns the last day, hour, minute and second of the last listed month of the largest listed year below, and when that month has no valid day it carries into prevMonth. The cache ends as the day list of the result's month |
| CronExpression.Expression.EmptyYearEndSkipped | cronexpr_prev.go:44-54 | skipping the last month of that year when it has no valid day loses no match |
| CronExpression.Expression.LastOfYearIsLatest | cronexpr_prev.go:55-63 | the landing instant of prevYear is the latest match in a year before `t`'s |
| CronExpression.Expression.PrevMonth | cronexpr_prev.go:68-99 | prevMonth returns the latest match in an earlier month of `t`'s year, else in an earlier year. It lands on the last valid day, hour, minute and second of the largest listed month below, skipping months without a valid day and carrying into prevYear when nothing is listed below |
| CronExpression.Expression.EmptyMonthSkipped | cronexpr_prev.go:78-88 | skipping a month without a valid day loses no match |
| CronExpression.Expression.LastOfMonthIsLatest | cronexpr_prev.go:90-98 | the landing instant of prevMonth is the latest match in an earlier month |
| CronExpression.Expression.PrevDayOfMonth | cronexpr_prev.go:103-120 | prevDayOfMonth returns the latest match on an earlier day. It lands on the largest cached valid day below `t`'s with the last hour, minute and second, keeping the cache, or carries into prevMonth |
| CronExpression.Expression.PrevHour | cronexpr_prev.go:124-141 | prevHour returns the latest match in an earlier hour. It lands on the largest listed hour below `t`'s with the last minute and second, or carries into prevDayOfMonth |
| CronExpression.Expression.PrevMinute | cronexpr_prev.go:145-162 | prevMinute returns the latest match in an earlier minute. It lands on the largest listed minute below `t`'s with the last second, or carries into prevHour |
| CronExpression.Expression.PrevSecond | cronexpr_prev.go:166-183 | prevSecond returns the latest match strictly before `t`. It lands on the largest listed second below `t`'s, or carries into prevMinute |
| CronExpression.Expression.Prev | cronexpr.go:148-217 | Prev returns None for the zero time, and otherwise the latest match strictly before `fromTime`, which is None before the first listed year. On a match, the cache is the day list of the match's month. The input is a whole second |
| CronExpression.Expression.PrevAt | cronexpr.go:157-216 | the carry Prev hands over to, selected by level, answers for that level |
| CronExpression.Expression.Delegated | cronexpr.go:157-216 | a carry's answer is Prev's answer when no match lies between `fromTime` and the start of the carry's period |
| CronExpression.Expression.UnlistedLevel | cronexpr.go:155-205 | when a level's value is unlisted and the coarser levels are listed, the carry at that level answers for Prev |
| CronExpression.Expression.BelowLevel | cronexpr.go:163-212 | when a level's value is below every listed value and the coarser levels are listed, the carry at the next-coarser level answers for Prev |
| CronExpression.Expression.Next | cronexpr.go:230-308 | Next returns None for the zero time, and otherwise the earliest match strictly after `fromTime`, which is None, with the cache unchanged, past the last listed year. The day cache handed to the forward carry is `fromTime`'s month's day list at the day level and finer. On a match, the cache is the day list of the match's month |
| CronExpression.Expression.NextAt | cronexpr.go:251-307 | the forward carry Next and NextN hand over to, selected by level, answers for that level given the day list of the instant's month at the day level and finer, and leaves the found match's month's day list in the cache |
| CronExpression.Expression.DelegatedForward | cronexpr.go:247-308 | a forward carry's answer is Next's answer when no match lies between `fromTime` and the end of the carry's period |
| CronExpression.Expression.UnlistedLevelForward | cronexpr.go:247-296 | when a level's value is unlisted and the coarser levels are listed, the forward carry at that level answers for Next |
| CronExpression.Expression.AboveLevel | cronexpr.go:255-303 | when a level's value is above every listed value and the coarser levels are listed, the forward carry at the next-coarser level answers for Next |
| CronExpression.Expression.NextN | cronexpr.go:322-339 | NextN returns at most `n` instants, none for `n` = 0 or the zero time. Each is the earliest match after the one before it, the first after `fromTime`. Fewer than `n` come back only when no match follows the last. Each `nextSecond` call is handed the day list of the previous match's month. The day cache is left unchanged for `n` = 0 or the zero time, and holds the last instant's month's day list when all `n` are found |
| CronExpression.Expression.MatchRunAscending | cronexpr.go:314 | the instants NextN returns are matches, all after `fromTime`, in strictly ascending order |
| CronExpression.Expression.MatchRunComplete | cronexpr.go:311-321 | NextN skips no match between `fromTime` and the last instant it returns |
| CronExpression.Expression.LatestMatchUnique | cronexpr.go:148-217 | Prev's specification determines its result |
| CronExpression.Expression.EarliestMatchUnique | cronexpr.go:220-230 | Next's specification determines its result |
| CronExpression.Expression.NextThenPrev | cronexpr.go:148-308 | stepping back from the next match lands on `t` when `t` matches, and never after `t` |
| CronExpression.Expression.PrevThenNext | cronexpr.go:148-308 | stepping forward from the previous match lands on `t` when `t` matches, and never before `t` |
| CronExpression.Expression.NextPrevNext | cronexpr.go:148-308 | next(prev(next(t))) is next(t) whenever prev(next(t)) exists |
| CronExpression.Expression.PrevNextPrev | cronexpr.go:148-308 | prev(next(prev(t))) is prev(t) whenever next(prev(t)) exists |
| CronParse.FieldCount | cronexpr.go:79-82 | fields beyond the seventh are ignored |
| CronParse.FieldPosition | cronexpr.go:84-143 | the seconds field exists only in a seven-field line, the year field only when a field is left after the day-of-week field and then as the last one, and every other field is always present |
| CronParse.FieldLayout | cronexpr.go:84-143 | the field layout is one-to-one, keeps the field order, and uses every field up to the seventh |
| CronParse.FirstRejected | cronexpr.go:88-136 | the error Parse reports is that of the first present field, in field order, that its handler rejects, and there is one exactly when some present field is rejected |
| CronParse.Parse | cronexpr.go:69-145 | fewer than five fields give the error "missing field(s)". Otherwise Parse fails exactly when a present field is rejected, with the first rejection's error. On success the new expression holds each handler's output for its field, the seconds list [0] without a seconds field, and the default year list without a year field |

## Left out

- Alias replacement (`cronNormalizer`) and splitting the line into fields (`fieldFinder`) are regular-expression work, not part of this model: `Parse` takes the split fields.
- The field handlers, `yearDescriptor.defaultList` and `calculateActualDaysOfMonth` are parameters, since their bodies are not part of this model. What is assumed of their results is carried by the list types. Second, minute, hour and month lists are non-empty, strictly ascending and within their range. Year lists are non-empty and strictly ascending, with no range. Day lists are strictly ascending within the month.
- `nextYear` … `nextSecond` are a parameter of `Next` and `NextN`, since their bodies are not part of this model. Each is handed the current day cache and yields the instant it finds together with the cache it leaves behind. `IsNextCarry` states what is assumed of them. It applies only when, for the day level and finer, the cache handed over is the non-empty day list of the instant's month. The carry then yields the earliest match later at its level, and on a match it leaves that match's month's day list in the cache.
- `MustParse` is left out: it only turns `Parse`'s error into a panic.
- `time.Location` and nanoseconds are left out. The zone is carried through unchanged. Every instant, `fromTime` included, is a whole second.
- Daylight-saving transitions are left out. Instants are civil (wall-clock) times in their chronological order. What `Prev` and `Next` promise holds for a zone without such transitions. In a zone with one, Go's `time.Date` moves a wall time that falls in the gap to another wall time, so a Go carry can return an instant whose hour is not listed.
- CronExpression.Expression.Prev: proved for whole-second inputs only. Given a `fromTime` with a non-zero nanosecond part whose own second matches, Go's `Prev` does not return that second's instant. That instant is strictly before `fromTime`, but every level is listed, so `prevSecond` carries back past it. `Next` is not affected.
- `time.Date` normalisation is not modelled. The carries only build instants within the month they name.
- The `expression` string field of the Go struct is left out; `Parse` never sets it.
- The Go struct stores the day-of-month and day-of-week specs as separate fields. Here they are two records, `DomSpec` and `DowSpec`. They are only read by the day resolver.
- `Parse` builds the expression from the handlers' results at the end. The Go code fills a zero `Expression` field by field, which is unobservable, since on error it returns no expression.
- The Go zero time, 00:00:00 UTC on 1 January of year 1, is `None`. An instant equal to it is not distinguished from "no instant".
- The sharing of the day cache between concurrent searches (a data race in the Go code) is left out: each search runs alone on its expression.
- CronExpression.Expression.Prev: the Go code returns from the dispatch branch that names the carry. The model records which carry the branch selects and makes one call after the dispatch. The branches and the carry they choose are the same.
- CronExpression.Expression.Prev: when no match exists, the final day cache is stated only as one of the values it can take: unchanged, empty, or the day list of `fromTime`'s month.
