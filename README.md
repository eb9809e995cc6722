# timer-rpg-gui study scheduler and alarm helpers, in Dafny

This project models the computational core of timer-rpg-gui, a personal
study-planning tool, and proves properties of that model.

- **Interval estimator** (`supermemo2`). A review history of grades 0..5
  becomes the number of days until the next review. The model covers:
  - validation of the history;
  - the streak fold, which counts the trailing run of grades of 3 or more;
  - the short cut to `"1"` for a streak of 0 or 1;
  - otherwise, `a * pow(max(1.3, 2.5 + historySum), theta * streak) * 3 / 4`,
    printed with `toFixed(2)`.
- **Date shifter** (`addDays`). It parses a `yyyy-MM-dd` day, moves it by a
  number of days and renders it again.
- **Topic schedule builder** (`supermemoScheduleThree`). It estimates five
  intervals from fixed all-3 histories. Starting at the topic's date, it
  chains `addDays(last, parseInt(interval))`, which gives six review dates.
  Each date gets one success badge carrying the topic title.
- **Calendar aggregator** (`getListData`). Topic `i` of a table of contents
  starts `i` days after the initial date. The per-topic maps are merged date
  by date, and their badges are concatenated in topic order.
- **Alarms table helpers**:
  - the tag colour hash `stringToColour`;
  - the `HH:mm` comparator `dateStringSorter`;
  - the shortened Id cell;
  - the weekday filter predicate.

Modules:

- `Outcomes` holds the `Option` and `Result` types. The thrown errors become
  `InvalidHistory`, `InvalidScore` and `InvalidDate`.
- `Numerals` holds digits, zero-padded and shortest decimal numerals, and
  JavaScript `parseInt`.
- `Calendar` holds the proleptic Gregorian calendar: `Shift`, a day number
  and the `yyyy-MM-dd` format.
- `Supermemo` holds the estimator and the schedule builder.
- `Scheduler` holds the aggregator. Its merge is an imperative loop that
  updates a map, proved equal to a date-by-date definition of the merged
  calendar.
- `Alarms` holds the alarms helpers. `stringToColour` is a method with the
  source's two loops, proved against the polynomial hash and a hex rendering.

Five choices in the model:

- **`Math.pow` is a parameter.** `pow` is the same in every call. The bounds
  that depend on it assume only that `pow(x, y) >= 1` for `x >= 1` and
  `y >= 0` (`PowAtLeastOne`).
- **Callbacks are parameters.** The callback of the `toc.map` in
  `getListData` (`TopicsFrom`) and the step of the `reduce` in
  `supermemoScheduleThree` (`ChainFold`) are taken as parameters. They are
  instantiated with `TopicAt` and `NextReview`.
- **An interval that does not parse moves no days.** date-fns `add` treats
  a `NaN` number of days as none, so a step whose interval `parseInt` cannot
  read repeats the last date (`IntervalDays`, `NextReview`).
- **`ReviewSpan(pow)` is the length of a topic's review chain**: the total of
  its five canned intervals, at least 17 days. A topic's map exists exactly
  when its start date parses and the day `ReviewSpan(pow)` days later is
  still in the years 1 to 9999. The calendar-level result is stated for any
  span the per-topic maps keep to.
- **A missing date gives `None`.** When `toc` is non-empty and no topic
  reaches the queried date, `getListData` returns `undefined`. The model
  gives `None`. The calendar cell renders that as an empty list through
  `?? []` (`CellEntries`). With an empty `toc` the function returns `[]`
  directly.

The comment in the self-check block at
`src/app/Services/supermemo2.ts:91-92` says `[0, 0, 0, 0, 0, 0]` "should
return more than 1". The code returns `"1"` for it, because the streak is 0.
The model follows the code (`Supermemo.Supermemo2Examples`).

## Model

| member | source | states |
|---|---|---|
| Numerals.Padded | src/app/Services/supermemo2.ts:24-25 | the fixed-width numeral has exactly the requested width and only digits |
| Numerals.ValueOfPadded | src/app/Services/supermemo2.ts:24-25 | a zero-padded numeral reads back as the number when the number fits the width |
| Numerals.PaddedValueOf | src/app/Services/supermemo2.ts:24-25 | a digit string re-rendered at its own width is the same string, so padded numerals are canonical |
| Numerals.Decimal | src/app/Services/supermemo2.ts:20 | the shortest numeral is non-empty and made of digits |
| Numerals.ValueOfDecimal | src/app/Services/supermemo2.ts:20 | the shortest numeral reads back as its number |
| Numerals.LeadingDigits | src/app/Services/supermemo2.ts:48 | parseInt's digit run is a digit-only prefix that stops at the first non-digit |
| Numerals.LeadingDigitsAppend | src/app/Services/supermemo2.ts:48 | the digit run of digits followed by more text starts with those digits |
| Numerals.ParseIntDecimal | src/app/Services/supermemo2.ts:48 | parseInt of a numeral followed by a non-digit is the number |
| Numerals.ParseIntNegativeDecimal | src/app/Services/supermemo2.ts:48 | parseInt of `-` followed by a numeral and a non-digit is the negated number |
| Calendar.DaysInMonth | src/app/Services/supermemo2.ts:24-25 | months have 28 to 31 days, and February has 29 exactly in Gregorian leap years |
| Calendar.BeforeTransitive | src/app/Services/supermemo2.ts:24-25 | chronological order is transitive |
| Calendar.NextDay | src/app/Services/supermemo2.ts:24-25 | the day after a valid day is a valid day |
| Calendar.PrevDay | src/app/Services/supermemo2.ts:24-25 | the day before a valid day is a valid day |
| Calendar.NextPrev | src/app/Services/supermemo2.ts:24-25 | next day and previous day undo each other |
| Calendar.Shift | src/app/Services/supermemo2.ts:24-25 | adding any number of days to a valid day gives a valid day |
| Calendar.YearLength | src/app/Services/supermemo2.ts:24-25 | a year has 366 days when it is a leap year and 365 otherwise |
| Calendar.DaysBeforeDecember | src/app/Services/supermemo2.ts:24-25 | January to November hold 334 days, plus one in leap years |
| Calendar.DayNumberNext | src/app/Services/supermemo2.ts:24-25 | the next day has the next day number |
| Calendar.DayNumberShift | src/app/Services/supermemo2.ts:24-25 | shifting by n days adds n to the day number, so Shift agrees with an independent count of days |
| Calendar.ShiftAfterNext | src/app/Services/supermemo2.ts:24-25 | shifting the next day by n is shifting by n + 1 |
| Calendar.ShiftAfterPrev | src/app/Services/supermemo2.ts:24-25 | shifting the previous day by n is shifting by n - 1 |
| Calendar.ShiftShift | src/app/Services/supermemo2.ts:24-25 | shifting by a and then by b is shifting by a + b |
| Calendar.ShiftLater | src/app/Services/supermemo2.ts:24-25 | a positive shift gives a strictly later day |
| Calendar.ShiftYears | src/app/Services/supermemo2.ts:24-25 | moving n days forward never reaches an earlier year and moves on at most n years |
| Calendar.InRangeBetween | src/app/Services/supermemo2.ts:24-25 | every day between two days of the four-digit years is itself in range |
| Calendar.ShiftPastRange | src/app/Services/supermemo2.ts:24-25 | once a forward shift has left the four-digit years, shifting further never returns to them |
| Calendar.Format | src/app/Services/supermemo2.ts:25 | the `yyyy-MM-dd` rendering has ten characters with dashes at positions 4 and 7 |
| Calendar.Parse | src/app/Services/supermemo2.ts:25 | whatever parses is a real day with a four-digit year |
| Calendar.ParseFormat | src/app/Services/supermemo2.ts:24-25 | parsing a rendered day gives the day back |
| Calendar.FormatParse | src/app/Services/supermemo2.ts:24-25 | rendering a parsed string gives the string back, so the accepted form is canonical |
| Calendar.AddDays | src/app/Services/supermemo2.ts:24-25 | an unparsable date is InvalidDate; otherwise the result is the rendering of the shifted day whenever that day is renderable |
| Calendar.AddDaysZero | src/app/Services/supermemo2.ts:24-25 | adding zero days to a valid date gives the same string |
| Calendar.AddDaysAdd | src/app/Services/supermemo2.ts:24-25 | adding a days and then b days is adding a + b days |
| Calendar.AddDaysLater | src/app/Services/supermemo2.ts:24-25 | adding a positive number of days gives a strictly later date |
| Calendar.AddDaysFormat | src/app/Services/supermemo2.ts:24-25 | addDays of a rendered day is the rendering of the shifted day |
| Calendar.AddDaysPastRange | src/app/Services/supermemo2.ts:24-25 | when addDays of a parsable date fails, every later day is out of range too |
| Calendar.AddDaysThenShift | src/app/Services/supermemo2.ts:24-25 | shifting the day addDays returns by n is shifting the original day by i + n |
| Calendar.AddDaysMonthEnd | src/app/Services/supermemo2.ts:24-25 | 2023-01-31 plus one day is 2023-02-01 |
| Calendar.AddDaysLeapDay | src/app/Services/supermemo2.ts:24-25 | 2024-02-28 plus one day is 2024-02-29 |
| Calendar.AddDaysCommonYearFebruary | src/app/Services/supermemo2.ts:24-25 | 2023-02-28 plus one day is 2023-03-01 |
| Calendar.AddDaysYearEnd | src/app/Services/supermemo2.ts:24-25 | 2023-12-31 plus one day is 2024-01-01 |
| Calendar.AddDaysNoSuchDay | src/app/Services/supermemo2.ts:24-25 | a day the month does not have (2023-02-29) is InvalidDate |
| Supermemo.InRangeFoldAll | src/app/Services/supermemo2.ts:8 | the `&&` fold is true exactly when every grade lies in 0..5 |
| Supermemo.TrailingRun | src/app/Services/supermemo2.ts:11 | the trailing run holds only grades of 3 or more and is preceded by a grade below 3 or by the start |
| Supermemo.StreakFoldExtends | src/app/Services/supermemo2.ts:11 | folding the streak step over more grades extends the trailing run of the longer history |
| Supermemo.Streak | src/app/Services/supermemo2.ts:11 | the reset-on-low-grade fold computes the length of the trailing run of grades >= 3 |
| Supermemo.StreakCharacterized | src/app/Services/supermemo2.ts:11 | k is the streak if and only if the last k grades are >= 3 and the grade before them, if any, is below 3 |
| Supermemo.ParseIntToFixed2 | src/app/Services/supermemo2.ts:20 | parseInt of a `toFixed(2)` rendering is the rounded magnitude's whole part, with the sign |
| Supermemo.ToFixed2 | src/app/Services/supermemo2.ts:20 | the `toFixed(2)` rendering ends in a point and two digits, and starts with a minus sign exactly for negative values |
| Supermemo.ToFixed2NotOne | src/app/Services/supermemo2.ts:20 | a `toFixed(2)` rendering is never the string "1", so the two return paths are told apart |
| Supermemo.Base | src/app/Services/supermemo2.ts:18 | the base of the power is at least 1.3 |
| Supermemo.HistorySumBounds | src/app/Services/supermemo2.ts:16 | with the default coefficients each grade of 0..5 moves the sum by between -0.8 and 1.1 |
| Supermemo.Supermemo2 | src/app/Services/supermemo2.ts:4-22 | the estimate succeeds exactly when the history is non-empty and every grade lies in 0..5; an empty history is InvalidHistory; a grade outside 0..5 is InvalidScore, in both directions; a valid history gives "1" exactly when the streak is at most 1 |
| Supermemo.ScaledIntervalBound | src/app/Services/supermemo2.ts:18-20 | with a >= 6 and a power of at least 1, three quarters of the days are at least 4.5, that is 450 hundredths |
| Supermemo.IntervalAtLeast | src/app/Services/supermemo2.ts:16-20 | the interval before rounding is at least 4.5 days |
| Supermemo.LongStreakInterval | src/app/Services/supermemo2.ts:16-20 | that result parses as an integer of at least 4 |
| Supermemo.Supermemo2Examples | src/app/Services/supermemo2.ts:78-98 | the self-check cases: [] and out-of-range grades fail, and short, broken or absent streaks give "1" |
| Supermemo.Supermemo2LongStreakExample | src/app/Services/supermemo2.ts:89-90 | [3,1,0,1,4,5] gives more than one day |
| Supermemo.AllQualifyingStreak | src/app/Services/supermemo2.ts:29-35 | a history of grades all >= 3 has its whole length as streak |
| Supermemo.EstimateAll | src/app/Services/supermemo2.ts:29-35 | the list of estimates has one entry per history, each the estimate of its history, and succeeds when every estimate does |
| Supermemo.CannedEstimates | src/app/Services/supermemo2.ts:29-35 | the five canned estimates succeed; the first is "1" and the others parse as at least 4 |
| Supermemo.CannedIntervalsPositive | src/app/Services/supermemo2.ts:29-35 | the canned intervals start with "1" and all parse as integers >= 1 |
| Supermemo.ChainFold | src/app/Services/supermemo2.ts:45-50 | the reduce appends exactly one date per interval and keeps the dates it started with |
| Supermemo.ChainFoldStep | src/app/Services/supermemo2.ts:45-50 | each appended date is the step applied to the previous date and its interval |
| Supermemo.StepsIncreasing | src/app/Services/supermemo2.ts:45-50 | dates increasing step by step increase throughout |
| Supermemo.IncreasingDistinct | src/app/Services/supermemo2.ts:53-59 | strictly increasing dates are pairwise distinct and all parse |
| Supermemo.NextReviewLater | src/app/Services/supermemo2.ts:47-49 | a positive interval moves the last date strictly forward |
| Supermemo.NextReviewAdvances | src/app/Services/supermemo2.ts:47-49 | the reduce step advances the date for every positive interval |
| Supermemo.ChainStart | src/app/Services/supermemo2.ts:45-50 | the chain starts at the given date and its second date is one day later |
| Supermemo.ChainSteps | src/app/Services/supermemo2.ts:45-50 | a chain built with an advancing step and positive intervals increases step by step |
| Supermemo.ChainShape | src/app/Services/supermemo2.ts:45-50 | with intervals "1", ..., all >= 1, the chain has one more date than intervals, starts at the date and is strictly increasing |
| Supermemo.NextReview | src/app/Services/supermemo2.ts:47-49 | a last date that does not parse fails with InvalidDate; a step that succeeds gives a date that parses |
| Supermemo.NextReviewUnreadable | src/app/Services/supermemo2.ts:47-49 | an interval parseInt cannot read repeats the last date, as date-fns `add` does with a NaN number of days |
| Supermemo.ReviewDates | src/app/Services/supermemo2.ts:45-50 | a chain that succeeds has six dates, the first the topic's start date |
| Supermemo.NextReviewShifts | src/app/Services/supermemo2.ts:47-49 | from a parsable date the step succeeds exactly when the day parseInt(interval) days on (none for NaN, as date-fns `add` treats it) is in range, and then gives that day |
| Supermemo.IntervalSum | src/app/Services/supermemo2.ts:45-50 | intervals of at least one day each add up to at least their number |
| Supermemo.ChainFoldSucceeds | src/app/Services/supermemo2.ts:45-50 | with such a step and intervals of at least a day, the reduce succeeds exactly when the day the intervals add up to is in range, and then ends on that day |
| Supermemo.ReviewSpanAtLeast | src/app/Services/supermemo2.ts:29-50 | the five canned intervals add up to at least 17 days |
| Supermemo.ReviewDatesSucceed | src/app/Services/supermemo2.ts:27-50 | from a parsable date the chain succeeds exactly when the day ReviewSpan days on is in range; it then has six dates, the last on that day |
| Supermemo.ReviewDatesShape | src/app/Services/supermemo2.ts:27-50 | a topic's review chain is six strictly increasing dates starting at its date, the second one day later |
| Supermemo.ReviewDatesInvalidStart | src/app/Services/supermemo2.ts:45-50 | an unparsable start date makes the chain fail with InvalidDate |
| Supermemo.ScheduleObject | src/app/Services/supermemo2.ts:53-59 | the object spread adds every date as a key whose value is the single success badge, and keeps other keys |
| Supermemo.DistinctCardinality | src/app/Services/supermemo2.ts:53-59 | distinct dates give as many keys as dates |
| Supermemo.ScheduleThreeShape | src/app/Services/supermemo2.ts:27-62 | the topic map has exactly six parsable dates, including the start, each holding the single badge of the title |
| Supermemo.ScheduleThreeSucceeds | src/app/Services/supermemo2.ts:27-62 | from a parsable date a topic's map exists exactly when its last review, ReviewSpan days on, is in range |
| Supermemo.ScheduleThreeWithin | src/app/Services/supermemo2.ts:27-62 | the same for every start date and title at once |
| Supermemo.UnitPowerSpan | src/app/Services/supermemo2.ts:29-50 | with an exponentiation that always gives 1 the intervals are "1" and four times "4.50", seventeen days in all |
| Supermemo.ScheduleThreeInvalidStart | src/app/Services/supermemo2.ts:27-62 | an unparsable start date fails with InvalidDate |
| Supermemo.ScheduleThreeEntries | src/app/Services/supermemo2.ts:53-59 | every date of the topic map holds exactly `[{type: 'success', content: title}]` |
| Scheduler.EntriesAtOutside | src/app/IndexSchedulerPage.tsx:125-130 | a date no topic holds has no badges |
| Scheduler.MergedSnoc | src/app/IndexSchedulerPage.tsx:125-130 | one more reduce step merges the next topic's map into the merged calendar of the earlier topics |
| Scheduler.MergeOne | src/app/IndexSchedulerPage.tsx:126-128 | the forEach over the keys of a topic's map appends each list to the accumulator's list for that date |
| Scheduler.MergeSchedules | src/app/IndexSchedulerPage.tsx:125-130 | the reduce ends with the merged calendar: every date some topic holds, mapped to the concatenation of their badges in topic order |
| Scheduler.TopicsFrom | src/app/IndexSchedulerPage.tsx:120-124 | the map yields one topic map per title |
| Scheduler.TopicsFromElement | src/app/IndexSchedulerPage.tsx:120-124 | element j of the map is the callback's result for index j and title j |
| Scheduler.TopicAt | src/app/IndexSchedulerPage.tsx:121-123 | with an initial date that does not parse every topic fails with InvalidDate |
| Scheduler.TopicSchedules | src/app/IndexSchedulerPage.tsx:120-124 | a calendar that can be built has one map per title |
| Scheduler.TopicsFromSucceeds | src/app/IndexSchedulerPage.tsx:120-124 | the map succeeds exactly when the callback succeeds on every index and title |
| Scheduler.TopicsFromWithin | src/app/IndexSchedulerPage.tsx:120-124 | for a callback whose topic i succeeds exactly when day i + span is in range, the map succeeds exactly when the toc is empty or the last topic's day is in range |
| Scheduler.TopicAtWithin | src/app/IndexSchedulerPage.tsx:121-124 | topic i starts i days after the initial date, so its map exists exactly when day i + span is in range |
| Scheduler.TopicSchedulesWithin | src/app/IndexSchedulerPage.tsx:120-124 | from a parsable initial date the calendar can be built exactly when the toc is empty or the last review of its last topic, len(toc) - 1 + span days on, is in range |
| Scheduler.TwoTopicsExample | src/app/IndexSchedulerPage.tsx:116-133 | two topics from 2023-01-01 give a calendar with twelve badges |
| Scheduler.TopicAtFacts | src/app/IndexSchedulerPage.tsx:121-124 | topic i is the schedule of its title starting at the initial date plus i days; its dates hold its title's badge, and there are six of them |
| Scheduler.TopicWellFormed | src/app/IndexSchedulerPage.tsx:121-124 | every topic map holds single badges of its title, requires its start date to render, and has six dates |
| Scheduler.TopicStartRenders | src/app/IndexSchedulerPage.tsx:122 | when all topics succeed, every topic's start date renders |
| Scheduler.GetListData | src/app/IndexSchedulerPage.tsx:116-133 | an empty toc gives []; an error of any topic is returned; otherwise a date some topic holds gives the concatenation of its badges in topic order, and any other date gives undefined |
| Scheduler.TopicStartsStaggered | src/app/IndexSchedulerPage.tsx:121-123 | topic i starts i days after the initial date, and topic i + 1 one day after topic i |
| Scheduler.InvalidInitialDate | src/app/IndexSchedulerPage.tsx:120-124 | a non-empty toc with an unparsable initial date fails with InvalidDate |
| Scheduler.AllKeysMember | src/app/IndexSchedulerPage.tsx:125-130 | a date is in the merged calendar if and only if some topic's map holds it |
| Scheduler.EntriesAtSplit | src/app/IndexSchedulerPage.tsx:125-130 | the badges of a date are those of the first topics followed by those of the rest, so topic order is kept |
| Scheduler.EntriesAtFrom | src/app/IndexSchedulerPage.tsx:125-130 | every merged badge comes from some topic's map at that date |
| Scheduler.TotalMergeInto | src/app/IndexSchedulerPage.tsx:126-128 | one merge step keeps the badge count: the merged count is the sum of the two |
| Scheduler.MergedTotal | src/app/IndexSchedulerPage.tsx:125-130 | the merged calendar holds as many badges as all topic maps together |
| Scheduler.AggregateLossless | src/app/IndexSchedulerPage.tsx:116-133 | every date of every topic appears in the merged calendar, and the calendar holds exactly 6 badges per topic |
| Scheduler.BadgesFromTitles | src/app/IndexSchedulerPage.tsx:120-130 | each merged badge is a success badge whose content is one of the titles |
| Scheduler.AggregateEntries | src/app/IndexSchedulerPage.tsx:116-133 | every badge the calendar shows is a success badge for a title of the toc |
| Scheduler.UnscheduledDayIsEmpty | src/app/IndexSchedulerPage.tsx:85 | a day no topic reaches is absent and its cell lists nothing |
| Alarms.ToInt32 | src/app/AlarmsPage.tsx:30 | ToInt32 gives a signed 32-bit value congruent to its argument modulo 2^32 |
| Alarms.ShiftLeft5 | src/app/AlarmsPage.tsx:30 | `x << 5` is a signed 32-bit value congruent to 32x modulo 2^32 |
| Alarms.HashStep | src/app/AlarmsPage.tsx:30 | one round of the loop is `31 * hash + code` modulo 2^32 |
| Alarms.LowByte | src/app/AlarmsPage.tsx:34 | `& 0xFF` gives a value below 256 |
| Alarms.JsHashAgrees | src/app/AlarmsPage.tsx:28-31 | modulo 2^32 the loop's hash is the polynomial hash h <- c + 31h |
| Alarms.JsHashBound | src/app/AlarmsPage.tsx:28-31 | the unreduced hash moves by less than 2^32 per character |
| Alarms.JsHashExact | src/app/AlarmsPage.tsx:28-31 | for strings of up to 2^21 characters the hash stays within 2^53, where JavaScript numbers are exact |
| Alarms.HexDigit | src/app/AlarmsPage.tsx:35 | `toString(16)` digits are lowercase hexadecimal |
| Alarms.HexValue | src/app/AlarmsPage.tsx:35 | reading a hexadecimal digit is the inverse of writing it |
| Alarms.ToHex | src/app/AlarmsPage.tsx:35 | `toString(16)` gives a non-empty lowercase hexadecimal string |
| Alarms.PaddedHex | src/app/AlarmsPage.tsx:35 | `('00' + value.toString(16)).substr(-2)` is the byte as exactly two digits, high nibble first |
| Alarms.LastTwo | src/app/AlarmsPage.tsx:35 | `substr(-2)` keeps exactly two characters |
| Alarms.ColourOf | src/app/AlarmsPage.tsx:32-37 | a colour is `#` followed by six lowercase hexadecimal digits |
| Alarms.ColourRoundTrip | src/app/AlarmsPage.tsx:32-37 | reading the six digits back as three bytes, lowest first, gives the low 24 bits of the hash |
| Alarms.ColourInjective | src/app/AlarmsPage.tsx:32-37 | two hashes get the same colour if and only if their low 24 bits agree |
| Alarms.ShiftedByte | src/app/AlarmsPage.tsx:34 | `(hash >> (j * 8)) & 0xFF` is byte j of the hash's low 24 bits, least significant first |
| Alarms.StringToColour | src/app/AlarmsPage.tsx:27-38 | the colour is the rendering of the low 24 bits of the polynomial hash of the character codes, as `#` and six lowercase hex digits |
| Alarms.EmptyStringColour | src/app/AlarmsPage.tsx:28-37 | the empty string is drawn `#000000` |
| Alarms.ParseClock | src/app/AlarmsPage.tsx:16-21 | an `HH:mm` time parses to minutes after midnight, below 1440 |
| Alarms.FormatClock | src/app/AlarmsPage.tsx:16 | the `HH:mm` rendering has five characters with a colon in the middle |
| Alarms.ParseFormatClock | src/app/AlarmsPage.tsx:16-21 | parsing a rendered time gives the minutes back |
| Alarms.FormatParseClock | src/app/AlarmsPage.tsx:16-21 | rendering a parsed time gives the string back |
| Alarms.DateStringSorter | src/app/AlarmsPage.tsx:19-25 | the comparator returns -1, 0 or 1; 0 exactly when both times parse and are equal, 1 exactly when both parse and a is later |
| Alarms.SorterOrdersByTime | src/app/AlarmsPage.tsx:19-25 | on valid times the comparator is the sign of the difference in minutes |
| Alarms.SorterReflexive | src/app/AlarmsPage.tsx:22 | a valid time compares equal to itself |
| Alarms.SorterAntisymmetric | src/app/AlarmsPage.tsx:22-24 | swapping two valid times flips the sign |
| Alarms.SorterTransitive | src/app/AlarmsPage.tsx:19-25 | on valid times "not later than" is transitive |
| Alarms.SorterInvalid | src/app/AlarmsPage.tsx:20-24 | a time that does not parse compares as -1 in both argument orders |
| Alarms.IdLabel | src/app/AlarmsPage.tsx:45 | the Id cell ends in "..." |
| Alarms.IdLabelPrefix | src/app/AlarmsPage.tsx:45 | the Id cell is the first five characters of the id, or the whole shorter id, then "..."; two ids share a cell if and only if they share that prefix |
| Alarms.WeekdayFilterSetOnly | src/app/AlarmsPage.tsx:103 | the filter depends only on which days a record lists, not on their order or repetitions |
| Alarms.NoWeekdaysIsEveryDay | src/app/AlarmsPage.tsx:93-103 | for each of the seven filter values, a record with no weekdays is filtered as one that lists all seven days |
| Alarms.WeekdayFilterShows | src/app/AlarmsPage.tsx:93-103 | a record whose days are all among the seven values passes the filter for some value, and one that lists days passes only for them |

## Left out

- `Math.pow` with a real exponent is not modelled. The estimator takes `pow` as a parameter, so the regression value "6.93" for `[3, 3]` and any other exact interval are not proved.
- Supermemo.IntervalAtLeast, Supermemo.LongStreakInterval, Supermemo.Supermemo2LongStreakExample, Supermemo.CannedEstimates, Supermemo.CannedIntervalsPositive, Supermemo.ReviewDatesShape, Supermemo.ScheduleThreeShape, Supermemo.ReviewSpanAtLeast, Supermemo.ReviewDatesSucceed, Supermemo.ScheduleThreeSucceeds and Supermemo.ScheduleThreeWithin assume `pow(x, y) >= 1` for `x >= 1` and `y >= 0`, the one property of `pow` they rely on.
- Scheduler.AggregateLossless and Scheduler.TopicAtFacts assume the same of `pow` for the count of six dates per topic.
- Floating-point arithmetic is not modelled. The formula is computed on exact reals, and `toFixed(2)` rounds the exact value half up. JavaScript rounds the nearest double, which can differ on a tie. Magnitudes of `1e21` and above, which `toFixed` renders in exponent notation, are not modelled.
- Grades are integers. A fractional grade such as 2.5 passes the source's range check but is outside the model.
- `parseInt` is modelled without leading white space, without the `0x` prefix and without a radix argument, none of which the estimator's output contains.
- Date parsing accepts only the zero-padded `yyyy-MM-dd` form with years 1 to 9999. date-fns also reads one-digit months and days and shorter years, and accepts trailing white space after the day; the model rejects all of these with InvalidDate.
- Calendar.AddDays returns InvalidDate when the shifted day leaves years 1 to 9999, where date-fns would still render a date.
- The reference date `new Date()` passed to date-fns `parse`, time zones and daylight-saving transitions are left out. Days are calendar days and times of day are minutes after midnight.
- Alarms.ParseClock reads exactly two-digit hours and minutes. date-fns also accepts one-digit fields and trailing white space.
- The comparator is modelled for the `HH:mm` format, the only format it is used with (`src/app/AlarmsPage.tsx:80`). The unused `yyyy-MM-DD` format is left out.
- The moment object a calendar cell passes to `getListData` is not modelled. Its `format('yyyy-MM-DD')` key is taken as a string parameter.
- The curried closure of `getListData` is not modelled; Scheduler.GetListData takes the table of contents, initial date and key at once.
- Alarms.StringToColour reads each character as one code unit. `charCodeAt` reads UTF-16 code units, which differ for characters outside the Basic Multilingual Plane.
- Alarms.StringToColour computes the hash on exact integers, which equals the JavaScript number computation only while the hash stays within 2^53. Alarms.JsHashExact shows that this holds for strings of up to 2^21 characters.
- The xstate machines, NeDB persistence (`src/types/Repository.ts`), React and antd rendering, the weekday `join(",")` render and the clipboard writes are user interface and I/O, outside the core.
