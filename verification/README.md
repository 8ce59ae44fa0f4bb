# GrandFatherSon retention model

GrandFatherSon works out which backups to keep and which to delete under a
grandfather-father-son rotation scheme. A backup is identified by its
timestamp. The caller asks for a number of yearly, monthly, weekly, daily,
hourly, minutely and secondly backups counted back from a reference instant
`now`.

Each granularity is a *filter* with two parts:

- a **mask**, which truncates a timestamp to the first instant of its bucket
  (its second, minute, hour, day, week, month or year);
- a **start**, the first instant of the bucket `number - 1` buckets before
  the bucket of `now`.

A filter keeps two kinds of timestamps:

- every timestamp after `now`;
- the oldest timestamp of each bucket inside the inclusive window
  `[start, now]`.

The filter's documentation promises "the first datetime for any unit". The
deduplication loop at grandfatherson/filters.py:63 calls the mask without the
filter's options, though. So the week filter measures its window in weeks
starting on `firstweekday`, but groups that window by weeks starting on the
default Saturday. The model keeps both versions:
- `Filters.FilterAsWritten` is the filter as the source runs it.
- `Filters.Filter` is the corrected filter, which groups by the same weeks
  as its window.

The two differ only for weeks that do not start on Saturday. The
consequences are under "## Findings".

`to_keep` is the union of the seven filters, and `to_delete` is everything
else. The date variants (`dates_to_keep`, `dates_to_delete`) run the same
computation on dates placed at midnight.

The Dafny project consists of these modules:

- `Results`: the success-or-error outcome that models a raised `ValueError`.
- `Calendar`: the proleptic Gregorian calendar of Python's `datetime`, with
  `toordinal`, `weekday`, the leap-year rule, and walking back a number of days.
- `DateTimes`: timestamps with microseconds, their chronological order, and
  subtraction of a whole number of seconds (`dt - timedelta(...)`).
- `Filters`: masks, window starts and the filter itself, for all seven
  granularities. This is `grandfatherson/filters.py`. It holds both the
  corrected `Filter` and the source's `FilterAsWritten`, whose dedup mask is
  that of `DedupGranularity` (Saturday weeks for the week filter).
- `Buckets`: bucket numbers on the integer line. Sharing a mask means sharing
  a bucket number, and the window is a range of bucket numbers. These are the
  facts the counting and monotonicity proofs rest on.
- `FilterProps`: properties of one filter, proved for every granularity:
  - the bound on how many past timestamps it keeps;
  - monotonicity in `number`;
  - stability when the input shrinks;
  - the week mask lands on `firstweekday`;
  - the two filters agree whenever the week filter starts its weeks on
    Saturday. The bound and monotonicity then carry over to the source's
    filter.
- `Dedup`: the source's `sorted(...)` / `setdefault` loop, written as loops,
  with the dedup mask the source passes (Saturday weeks for the week filter).
  It is proved to give exactly `Filters.FilterAsWritten`.
- `GrandFatherSon`: `to_keep`, `to_delete`, `dates_to_keep` and
  `dates_to_delete`, from `grandfatherson/__init__.py`, with their partition,
  idempotence and bound properties. `ToKeepAsWritten`, `ToDeleteAsWritten`,
  `DatesToKeepAsWritten` and `DatesToDeleteAsWritten` run the source's week
  filter instead of the corrected one.
- `WeekFindings`: where the source's week filter differs from the corrected
  one. Weeks start on Sunday and the inputs are a Saturday, the Sunday after
  it and the next Saturday. The lemmas are stated for every such layout and
  then for 1, 2 and 8 January 2000.
- `Examples`: the test suite's concrete masks, weekdays, window starts and a
  full filter run, as lemmas.

The source is Python 2 code. `Months.start` divides a negative month by 12
with Python 2 integer division, which rounds down. Dafny's `/` agrees with it
for a positive divisor, so `Filters.MonthsStart` follows the source's borrow
steps literally, and its contract shows that the borrow is exact month
arithmetic.

The `Filters` and `GrandFatherSon` operations are ghost functions over sets:
- The oldest element of a bucket is picked with a choice operator.
- The `Dedup` methods are the executable counterpart.
- They are proved equal to `Filters.FilterAsWritten`.

## Model

| member | source | states |
|---|---|---|
| Calendar.DaysInMonth | grandfatherson/filters.py:133 | calendar helper: a month has 28 to 31 days, and 29 exactly for February of a leap year. These lengths bound the day field of every valid date, including the one `dt - timedelta(days=correction)` lands on |
| Calendar.Weekday | grandfatherson/filters.py:132 | `dt.weekday()` is always a day number in 0..6 |
| Calendar.LastDayOfPreviousMonth | grandfatherson/filters.py:133 | stepping back to the last day of the previous month is a valid date exactly `day` ordinals earlier |
| Calendar.SubDays | grandfatherson/filters.py:121 | going back `k` days gives a valid date whose ordinal is exactly `k` less |
| Calendar.OrdinalOrder | grandfatherson/filters.py:57 | a date is before another exactly when its ordinal is smaller |
| Calendar.OrdinalInjective | grandfatherson/filters.py:133 | two valid dates with equal ordinals are the same date |
| Calendar.DaysBeforeYearGrowth | grandfatherson/filters.py:57 | calendar helper: all the days of the years in between separate the first days of two years. It is the step that makes date order ordinal order, which the window comparison `start <= dt <= now` relies on |
| DateTimes.AtMidnight | grandfatherson/__init__.py:201 | `datetime.combine(d, time())` is a valid midnight on date `d` |
| DateTimes.AtEndOfDay | grandfatherson/filters.py:45-47 | the date-to-datetime conversion of `now` is valid and not before any timestamp on that date |
| DateTimes.Minus | grandfatherson/filters.py:25-26 | subtracting `k` seconds gives a valid timestamp exactly `k` seconds earlier on the absolute scale, with microseconds unchanged |
| DateTimes.LessEqTotal | grandfatherson/filters.py:62 | any two timestamps are comparable, so `sorted` is well defined |
| DateTimes.OrderByOrdinal | grandfatherson/filters.py:57 | timestamp order is (day ordinal, time of day) order |
| DateTimes.SecondsOfMonotone | grandfatherson/filters.py:57 | timestamp order never goes against the absolute count of seconds |
| DateTimes.Decompose | grandfatherson/filters.py:132-134 | arithmetic helper: a value split as `x * c + r` with `0 <= r < c` has a unique split. It recovers the day and the time of day from absolute seconds, as the week mask needs after `dt - timedelta(days=correction)` |
| Filters.WeekCorrection | grandfatherson/filters.py:132 | the number of days back to the week start is always in 0..6 |
| Filters.WeekMask | grandfatherson/filters.py:124-134 | the week mask is a valid midnight exactly `WeekCorrection` days before `dt`, never after `dt` |
| Filters.Mask | grandfatherson/filters.py:68-182 | every granularity's mask is a valid timestamp not after the input |
| Filters.MonthsStart | grandfatherson/filters.py:140-155 | the borrow steps land on a valid first-of-month midnight whose month index (`year * 12 + month - 1`) is exactly `number - 1` below `now`'s |
| Filters.Start | grandfatherson/filters.py:20-26 | each granularity's start is a valid timestamp, for `number >= 1` |
| Filters.KeptByMask | grandfatherson/filters.py:59-63 | the `kept` dictionary has the masks of the window as keys, and maps each to a window member with that mask that is not after any other |
| Filters.KeptValues | grandfatherson/filters.py:65 | a timestamp is a value of `kept` exactly when it is in the window and the oldest of its bucket there |
| Filters.KeptValuesComplete | grandfatherson/filters.py:59-65 | every window member that is the oldest of its bucket ends up among the values of `kept` |
| Filters.Filter | grandfatherson/filters.py:28-65 | the corrected filter (see "## Findings"). It fails with the number exactly when `number < 0` and keeps every future timestamp. With `number == 0` it keeps exactly the future ones. Otherwise it keeps exactly the future ones plus the oldest of each bucket of `g` inside `[start, now]`, and nothing outside the input |
| Filters.FilterAsWritten | grandfatherson/filters.py:28-65 | the filter as the source runs it, with the same error, future and `number == 0` clauses as `Filter`. Otherwise it keeps exactly the future ones plus, among the members of `[start, now]`, the oldest of each bucket of the dedup mask `cls.mask(dt)`, which for weeks is the Saturday default (filters.py:63, 124) |
| Buckets.SameMaskSameBucket | grandfatherson/filters.py:59-63 | two timestamps have equal masks exactly when their bucket numbers are equal, for every granularity |
| Buckets.BucketMonotone | grandfatherson/filters.py:62 | bucket numbers never decrease along chronological order |
| Buckets.MaskIdempotent | grandfatherson/filters.py:68-182 | masking a mask changes nothing, and a mask stays in its timestamp's bucket |
| Buckets.StartBucket | grandfatherson/filters.py:20-26 | the start is on a bucket boundary exactly `number - 1` buckets before `now`'s bucket, for every granularity including the month borrow and the year replace |
| Buckets.StartBucketWeeks | grandfatherson/filters.py:112-121 | the week start is a midnight exactly `7 * (number - 1)` days before the week mask of `now`, and is its own week mask |
| Buckets.WindowByBucket | grandfatherson/filters.py:55-57 | a timestamp is in `[start, now]` exactly when it is not after `now` and fewer than `number` buckets behind it |
| Buckets.WeekMaskDay | grandfatherson/filters.py:132-134 | the week mask of bucket `b` falls on ordinal `7b + firstweekday - 6` |
| FilterProps.FilterBound | grandfatherson/filters.py:28-39 | the corrected filter keeps at most `number` timestamps that are not after `now` |
| FilterProps.KeptBucketRange | grandfatherson/filters.py:55-57 | a timestamp kept from the window is in one of the `number` buckets ending at `now`'s |
| FilterProps.KeptBucketsDistinct | grandfatherson/filters.py:59-65 | no two timestamps the corrected filter keeps at or before `now` share a bucket |
| FilterProps.OldestUnique | grandfatherson/filters.py:59-63 | a bucket has only one oldest member inside the window |
| FilterProps.FilterCountMonotone | grandfatherson/filters.py:28-65 | for the corrected filter, asking for one more unit never drops a timestamp that was kept |
| FilterProps.OldestInWiderWindow | grandfatherson/filters.py:55-63 | with the buckets of the window's own mask, the oldest of a bucket in a window stays the oldest of its bucket in the window one unit wider |
| FilterProps.FilterSubsetStable | grandfatherson/filters.py:28-65 | a timestamp a filter keeps is still kept when the input shrinks to a subset containing it |
| FilterProps.FilterEmpty | grandfatherson/filters.py:28-65 | an empty input gives an empty result for any non-negative number |
| FilterProps.WeekMaskIsWeekStart | grandfatherson/filters.py:124-134 | the week mask is a midnight on weekday `firstweekday mod 7`, zero to six days before `dt` |
| FilterProps.WeekMaskOnFirstWeekday | grandfatherson/filters.py:124-134 | with `firstweekday` equal to the timestamp's own weekday, the week mask is the day mask |
| FilterProps.DistinctKeysBound | grandfatherson/filters.py:59-63 | elements with pairwise distinct integer keys in a range of length `n` number at most `n` |
| FilterProps.WeekMaskWithoutCorrection | grandfatherson/filters.py:132-134 | with a correction of zero days the week mask is the midnight of the timestamp's own day |
| Filters.DedupGranularity | grandfatherson/filters.py:63 | the dedup loop masks by Saturday weeks for the week filter, the default of `Weeks.mask` at filters.py:124, and by the filter's own mask otherwise |
| FilterProps.DedupMaskAgrees | grandfatherson/filters.py:63 | the mask the dedup loop applies equals the filter's own mask for every non-week filter, and for weeks whose `firstweekday` is Saturday modulo 7 |
| FilterProps.FilterAsWrittenAgrees | grandfatherson/filters.py:55-65 | under the same condition, the source's filter returns exactly what the corrected filter returns |
| FilterProps.OldestAsWrittenAgrees | grandfatherson/filters.py:59-63 | under the same condition, or for an empty window, being the oldest of a dedup bucket is being the oldest of a bucket |
| FilterProps.FilterBoundAsWritten | grandfatherson/filters.py:28-39 | the source's filter keeps at most `number` past timestamps when its dedup mask is its own mask. For Sunday weeks this fails: see `WeekFindings.JanuaryOneWeek` |
| FilterProps.FilterCountMonotoneAsWritten | grandfatherson/filters.py:28-65 | under the same condition, a larger count never drops a timestamp the source's filter kept. For Sunday weeks this fails: see `WeekFindings.JanuaryWiderWindow` |
| FilterProps.FilterSubsetStableAsWritten | grandfatherson/filters.py:28-65 | for every granularity and `firstweekday`, a timestamp the source's filter keeps is still kept when the input shrinks to a subset containing it |
| Dedup.KeepFirstPerMask | grandfatherson/filters.py:59-63 | the `setdefault` loop over an ascending sequence builds exactly the oldest-per-mask map |
| Dedup.Window | grandfatherson/filters.py:55-57 | the scan keeps exactly the inputs inside `[start, now]`, in ascending order |
| Dedup.FirstPerMaskIsOldest | grandfatherson/filters.py:61-63 | any map holding, for each mask, a member of that mask not after the others is the oldest-per-mask map |
| Dedup.FilterAscending | grandfatherson/filters.py:40-65 | the step-by-step filter over an ascending sequence, with the `setdefault` loop under the source's dedup mask, returns exactly `FilterAsWritten`, error case included |
| GrandFatherSon.ToKeep | grandfatherson/__init__.py:148-173 | with the corrected week filter: succeeds exactly when all counts are non-negative, and on failure reports the first negative count in filter order. It keeps every future timestamp, and keeps exactly the timestamps some granularity keeps |
| GrandFatherSon.ToDelete | grandfatherson/__init__.py:176-190 | delete-set and keep-set partition the input, never delete a future timestamp, and fail exactly as `to_keep` does |
| GrandFatherSon.DefaultCountsKeepFuture | grandfatherson/__init__.py:148-190 | with all counts at their default 0, only future timestamps are kept and all others are deleted |
| GrandFatherSon.ToKeepIdempotent | grandfatherson/__init__.py:148-173 | running `to_keep` again on its own result keeps all of it |
| GrandFatherSon.FirstWeekdayOnlyAffectsWeeks | grandfatherson/__init__.py:158-169 | with no weeks asked for, `firstweekday` does not change the result |
| GrandFatherSon.EmptyInput | grandfatherson/__init__.py:165-190 | no backups means nothing to keep and nothing to delete |
| GrandFatherSon.ToKeepBound | grandfatherson/__init__.py:155-173 | with the corrected week filter, at most the sum of the counts of past-or-present timestamps is kept |
| GrandFatherSon.UnionNotAfter | grandfatherson/__init__.py:166-173 | the past part of a union is at most the sum of the past parts |
| GrandFatherSon.Midnights | grandfatherson/__init__.py:201 | combining valid dates with midnight gives valid timestamps |
| GrandFatherSon.DatesToKeep | grandfatherson/__init__.py:193-205 | with the corrected week filter: succeeds exactly when the four counts are non-negative, and on failure reports the first negative count as `to_keep` does; keeps a subset of the dates; keeps a date exactly when the corrected `to_keep` keeps its midnight |
| GrandFatherSon.DatesToDelete | grandfatherson/__init__.py:208-220 | with the corrected week filter: dates to delete and dates to keep partition the input dates, and it fails exactly as `to_keep` does |
| GrandFatherSon.DatesToKeepAsWritten | grandfatherson/__init__.py:193-205 | `dates_to_keep` as the source computes it: the same error clauses as `DatesToKeep`, a subset of the dates, and a date is kept exactly when the source's `to_keep` keeps its midnight |
| GrandFatherSon.DatesToDeleteAsWritten | grandfatherson/__init__.py:208-220 | `dates_to_delete` as the source computes it: partitions the input dates against `DatesToKeepAsWritten` and fails exactly as `to_keep` does |
| GrandFatherSon.DatesAsWrittenAgree | grandfatherson/__init__.py:193-220 | with no weeks asked for, or with weeks starting on Saturday, the source's date variants equal the corrected ones |
| GrandFatherSon.ToKeepAsWritten | grandfatherson/__init__.py:148-173 | `to_keep` as the source computes it. Errors and future timestamps are as in `ToKeep`, and it keeps exactly the timestamps that some granularity keeps, with the week filter deduplicating by Saturday weeks |
| GrandFatherSon.ToDeleteAsWritten | grandfatherson/__init__.py:176-190 | the source's delete-set and keep-set partition the input, nothing future is deleted, and it fails exactly as `to_keep` does |
| GrandFatherSon.ToKeepAsWrittenAgrees | grandfatherson/__init__.py:158-173 | with no weeks asked for, or with weeks starting on Saturday, the source's `to_keep` equals the corrected one |
| GrandFatherSon.ToKeepBoundAsWritten | grandfatherson/__init__.py:155-173 | under the same condition, the source's `to_keep` keeps at most the sum of the counts of past timestamps. For Sunday weeks this fails: see `WeekFindings.JanuaryToKeep` |
| GrandFatherSon.ToKeepAsWrittenIdempotent | grandfatherson/__init__.py:148-173 | for every `firstweekday`, running the source's `to_keep` again on its own result keeps all of it |
| GrandFatherSon.DatesDefaultKeepsLaterDays | grandfatherson/filters.py:45-53 | with a plain date as `now` and no counts, exactly the strictly later dates are kept; the day of `now` is not future |
| Examples.CalendarMasks | test/test_filters.py:21-25 | the last microsecond of 1999 masks to its second, minute, hour, day, month and year |
| Examples.MillenniumWeekdays | test/test_filters.py:386-401 | 1999-12-31 is a Friday and 2000-01-01 a Saturday |
| Examples.WeekMasks | test/test_filters.py:398-416 | Saturday weeks mask 1999-12-31 to 1999-12-25, Sunday weeks to 1999-12-26, and Friday weeks to the day itself |
| Examples.WeekMaskAt | grandfatherson/filters.py:132-134 | the week mask is the midnight of the date `WeekCorrection` days before the timestamp's date |
| Examples.LeapYears | test/test_filters.py:342-366 | 2004 and 2000 are leap years and 1900 is not |
| Examples.DayStartsAcrossFebruary | test/test_filters.py:342-383 | two days back from 1 March is 29 February in 2004 and 28 February in 1900 |
| Examples.DayBefore | grandfatherson/filters.py:20-26 | the two-day window starts at the midnight of the previous day |
| Examples.MonthStartsAcrossYears | test/test_filters.py:556-597 | month windows ending January 2000 start in February 1999 (12), January 1999 (13), December 1998 (14) and February 1997 (36) |
| Examples.WeekStart | test/test_filters.py:454-460 | four Saturday weeks ending on 2000-01-01 start on 1999-12-11 |
| Examples.WeekStartAt | grandfatherson/filters.py:119-121 | the week window starts at the midnight `WeekCorrection + 7 * (number - 1)` days before `now`'s date |
| Examples.YearStart | test/test_filters.py:653-659 | four years ending in 2000 start on 1997-01-01 |
| Examples.LeapDayFilter | test/test_filters.py:342-358 | two days of the 2004 series ending on 1 March keep 29 February and 1 March only |
| Examples.OutsideDayWindow | grandfatherson/filters.py:55-57 | a timestamp `number` or more days before `now` is outside the day window |
| Examples.AloneInDay | grandfatherson/filters.py:55-63 | a timestamp inside the day window with no other input on its day is the oldest of its bucket |
| Examples.FilterIs | grandfatherson/filters.py:28-65 | deciding, for each input timestamp, whether it is future or oldest of its bucket in the window fixes the filter's result |
| WeekFindings.LayoutMasks | grandfatherson/filters.py:124-134 | a Saturday shares its Saturday week with the following Sunday and not with the next Saturday, while that Sunday shares its Sunday week with the next Saturday and not with the Saturday before |
| WeekFindings.LayoutWindows | grandfatherson/filters.py:55-57 | one Sunday week ending on the next Saturday holds the Sunday and that Saturday but not the Saturday before; two Sunday weeks also hold the Saturday before |
| WeekFindings.FilterAsWrittenIs | grandfatherson/filters.py:28-65 | deciding, for each input, whether it is future or the oldest of its dedup bucket in the window fixes the source filter's result |
| WeekFindings.PairKeptAsWritten | grandfatherson/filters.py:59-63 | of two inputs, the source keeps one in the window when the other is outside the window, has another dedup mask, or is not older |
| WeekFindings.PairDroppedAsWritten | grandfatherson/filters.py:59-63 | of two inputs, the source drops one when the other is older, in the window and of the same dedup mask |
| WeekFindings.BothKeptAsWritten | grandfatherson/filters.py:55-65 | two past inputs in the window with different dedup masks are both kept by the source, even when they share a bucket of the filter's own mask |
| WeekFindings.OlderKeptAsWritten | grandfatherson/filters.py:55-65 | of two past inputs in the window with one dedup mask, the source keeps only the older |
| WeekFindings.LaterKeptAsWritten | grandfatherson/filters.py:55-65 | of two past inputs, the source keeps only the later when the older is outside the window |
| WeekFindings.BothKept | grandfatherson/filters.py:55-65 | two past inputs in the window with different masks are both kept by the corrected filter |
| WeekFindings.OlderKept | grandfatherson/filters.py:55-65 | of two past inputs in the window with one mask, the corrected filter keeps only the older |
| WeekFindings.KeepsTwoInOneWeek | grandfatherson/filters.py:55-65 | with one Sunday week, the source keeps the Sunday and the next Saturday of that week, two past timestamps for a count of 1 |
| WeekFindings.KeepsOneInOneWeek | grandfatherson/filters.py:55-65 | on the same input, the corrected filter keeps only the Sunday |
| WeekFindings.DropsOnWiderWindow | grandfatherson/filters.py:55-65 | for a Saturday and the Sunday after it, the source keeps the Sunday with one Sunday week and drops it with two |
| WeekFindings.KeepsBothInTwoWeeks | grandfatherson/filters.py:55-65 | on the same input, the corrected filter with two Sunday weeks keeps both days |
| WeekFindings.OnlyWeeksKeep | grandfatherson/__init__.py:165-173 | with only a week count of 1, the source's `to_keep` is its week filter |
| WeekFindings.JanuaryLayout | grandfatherson/filters.py:124-134 | 1 January 2000 is a Saturday, and with 2 and 8 January and noon on the 8th it forms the layout the findings use |
| WeekFindings.JanuaryOneWeek | grandfatherson/filters.py:55-65 | `Weeks.filter([2000-01-02, 2000-01-08], 1, firstweekday=SUNDAY)` at noon on the 8th keeps both days in the source and only the 2nd in the corrected filter |
| WeekFindings.JanuaryWiderWindow | grandfatherson/filters.py:55-65 | `Weeks.filter([2000-01-01, 2000-01-02], n, firstweekday=SUNDAY)` at noon on the 8th keeps the 2nd for `n = 1` and only the 1st for `n = 2` in the source; the corrected filter keeps both for `n = 2` |
| WeekFindings.JanuaryToKeep | grandfatherson/__init__.py:148-173 | `to_keep([2000-01-02, 2000-01-08], weeks=1, firstweekday=SUNDAY)` at noon on the 8th keeps two past timestamps although the counts sum to 1 |
| WeekFindings.OnlyWeeksKeepCorrected | grandfatherson/__init__.py:165-173 | with only a week count of 1, the corrected `to_keep` is the corrected week filter |
| WeekFindings.DatesFromKeptAsWritten | grandfatherson/__init__.py:201-205 | the source's `dates_to_keep` returns the dates of what its `to_keep` keeps of the midnights |
| WeekFindings.DatesFromKept | grandfatherson/__init__.py:201-205 | the corrected `dates_to_keep` returns the dates of what the corrected `to_keep` keeps of the midnights |
| WeekFindings.MidnightDates | grandfatherson/__init__.py:201-205 | reading back the dates of midnights gives the dates again |
| WeekFindings.LayoutMidnights | grandfatherson/__init__.py:201 | the midnights of the layout's dates are the layout's own timestamps |
| WeekFindings.MidnightsKeepTwoInOneWeek | grandfatherson/__init__.py:201-204 | with only a week count of 1 and Sunday weeks, the source's `to_keep` keeps both midnights of one Sunday week |
| WeekFindings.MidnightsKeepOneInOneWeek | grandfatherson/__init__.py:201-204 | in the same case the corrected `to_keep` keeps only the Sunday's midnight |
| WeekFindings.DatesKeepBothAsWritten | grandfatherson/__init__.py:193-205 | when the source's `to_keep` keeps both midnights of two dates, its `dates_to_keep` keeps both dates |
| WeekFindings.DatesKeepFirst | grandfatherson/__init__.py:193-205 | when the corrected `to_keep` keeps only the first midnight, the corrected `dates_to_keep` keeps only the first date |
| WeekFindings.DatesKeepTwoInOneWeek | grandfatherson/__init__.py:193-205 | the source's `dates_to_keep` keeps two dates of one Sunday week for a week count of 1 |
| WeekFindings.DatesKeepOneInOneWeek | grandfatherson/__init__.py:193-205 | the corrected variant keeps only the Sunday |
| WeekFindings.JanuaryDates | grandfatherson/__init__.py:193-205 | `dates_to_keep([2000-01-02, 2000-01-08], weeks=1, firstweekday=SUNDAY)` at noon on the 8th keeps both dates; the corrected variant keeps only 2000-01-02 |

## Findings

| source | as written | input that shows it | evidently intended | confidence | as-written member | corrected member |
|---|---|---|---|---|---|---|
| grandfatherson/filters.py:63 | `kept.setdefault(cls.mask(dt), dt)` drops the filter's options, so the week filter groups its `firstweekday` window by Saturday weeks and can keep two timestamps of one week | `Weeks.filter([2000-01-02, 2000-01-08], 1, now=2000-01-08 12:00, firstweekday=SUNDAY)` returns both dates, two past timestamps for `number = 1` | dedup by `cls.mask(dt, **options)`, so at most one timestamp per `firstweekday` week and at most `number` past timestamps | high; not executed | WeekFindings.JanuaryOneWeek | FilterProps.FilterBound |
| grandfatherson/filters.py:63 | for the same reason, widening the week window can bring in an older timestamp of the same Saturday week that evicts one kept before | `Weeks.filter([2000-01-01, 2000-01-02], n, now=2000-01-08 12:00, firstweekday=SUNDAY)` keeps 2000-01-02 for `n = 1` and drops it for `n = 2` | a larger count never drops a timestamp a smaller count kept | high; not executed | WeekFindings.JanuaryWiderWindow | FilterProps.FilterCountMonotone |
| grandfatherson/__init__.py:168-169 | `to_keep` hands `firstweekday` to `Weeks.filter`, which uses it only for the window start | `to_keep([2000-01-02, 2000-01-08], weeks=1, firstweekday=SUNDAY, now=2000-01-08 12:00)` keeps both dates although the counts sum to 1 | keep at most one backup per `firstweekday` week (the docstring at lines 155-159) and at most the sum of the counts | high; not executed | WeekFindings.JanuaryToKeep | GrandFatherSon.ToKeepBound |

## Left out

- GrandFatherSon.ToKeep: it uses the corrected week filter. The source's `to_keep` is `GrandFatherSon.ToKeepAsWritten`, and `GrandFatherSon.ToKeepAsWrittenAgrees` proves the two equal when no weeks are asked for or when weeks start on Saturday (taken modulo 7). The source's result for other `firstweekday` values is stated only by `ToKeepAsWritten`.
- GrandFatherSon.ToDelete: for the same reason, it is the corrected `to_delete`. The source's is `GrandFatherSon.ToDeleteAsWritten`.
- GrandFatherSon.DatesToKeep and GrandFatherSon.DatesToDelete are built on the corrected `ToKeep`, so for weeks not starting on Saturday they describe the corrected date variants. The source's are `GrandFatherSon.DatesToKeepAsWritten` and `GrandFatherSon.DatesToDeleteAsWritten`, and `GrandFatherSon.DatesAsWrittenAgree` proves the two pairs equal under the same condition as for `to_keep`.
- GrandFatherSon.ToKeepBound, FilterProps.FilterBound, FilterProps.KeptBucketsDistinct, FilterProps.FilterCountMonotone and FilterProps.OldestInWiderWindow: these are proved of the corrected filter. The source's filter satisfies the bound and monotonicity only when weeks start on Saturday (the `AsWritten` lemmas), and `WeekFindings` shows both failing for Sunday weeks.

- `now=None`, which reads the clock with `datetime.now()`. It is left out because the clock is I/O. The model always takes `now` as an explicit timestamp or date.
- The `ValueError` for a non-integer `number` (a float or a string). The model's counts are integers, so only the negative case exists.
- Python's `MINYEAR`/`MAXYEAR` limits and the errors for going past them; years are unbounded here. In the source, a start that subtracts a `timedelta` (the generic `Filter.start` at filters.py:25-26 and `Weeks.start` at filters.py:119-121) raises `OverflowError` when it would land before year 1. `Months.start` (filters.py:155) and `Years.start` (filters.py:173) reach out of range through `replace(year=...)` instead, which raises `ValueError`: the same exception class as the negative-count error at filters.py:40-41, so a caller cannot tell the two apart. `Weeks.mask` (filters.py:132-133) can also raise `OverflowError` by itself, for timestamps in the first days of year 1 whose week began in year 0; this happens both for the window's mask of `now` and for the dedup loop's mask of each timestamp.
- Repeated inputs, which are modelled as sets. `to_keep` turns its input into a set first. A one-shot iterator passed straight to `Filter.filter` would be consumed twice, and that is not modelled.
- `Filters.Start` requires `number >= 1`. The filter only calls `start` with a positive number; `number == 0` returns before the start is computed.
- Dedup.KeepFirstPerMask and Dedup.FilterAscending take their input already in ascending order, with no repeats. The call to the `sorted` builtin is a precondition here rather than a sorting routine.
- Going back a number of days walks back month by month (`Calendar.SubDays`) instead of converting an ordinal back to a date. The two agree on every valid date by the ordinal equation `SubDays` ensures.
- The module docstring's doctests, `setup.py` and the unit-test runner. The concrete values of the unit tests appear as lemmas in `Examples`; the doctest over a year of daily backups is not restated.
- The comment at test/test_filters.py:365 gives the wrong reason for 1900 not being a leap year; it is not a leap year because it is a century *not* divisible by 400. The model uses the correct rule, and `Examples.LeapYears` states it.
- Filters.Start: its own contract states only that the start is a valid timestamp. That the start is exactly `number - 1` buckets before `now`'s bucket, on a bucket boundary, is stated by `Buckets.StartBucket`.
- Filters.Mask: its own contract states only that the mask is valid and not after the input. That it is the first instant of the input's bucket is stated by `Buckets.MaskIdempotent` and `Buckets.SameMaskSameBucket`.
- Calendar.Weekday: its own contract states only the range 0..6. That it names the right day is fixed by its definition from the ordinal (0001-01-01 is a Monday), and is shown on dates by `Examples.MillenniumWeekdays` and for week masks by `FilterProps.WeekMaskIsWeekStart`.
