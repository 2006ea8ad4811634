# foliot time-tracking ledger, modelled in Dafny

foliot keeps one time-tracking ledger per namespace. A namespace has two files:
- the entry file, a list of entries, each with a start, an end and an optional comment;
- the clock-in file, which holds the start of the clock that is running.

This project models the part of `src/main.rs` that holds the logic:
- the `HumanDuration` arithmetic and its text form;
- the overlap test and the overlap-checked append (`clock`, `clock_duration`);
- the clock-in / clock-out / abort state machine;
- the rule that turns a time of day given alone into a start time;
- `days_in_month`;
- the sorted, filtered and tail-sliced listing of `show`;
- the monthly aggregation of `summarize`.

How the model represents the source:
- **Instants** are whole minutes of local wall-clock time counted from 0001-01-01 00:00, in the proleptic Gregorian calendar that chrono's `NaiveDate` uses.
  - The calendar date of an instant comes from its day number, the floor of the instant divided by 1440.
  - `Calendar.CivilFromDays` turns a day number into a date; it is proved to be the inverse of `Calendar.DayNumber`.
  - The time of day is the remainder.
- **Files** become fields of `LedgerState.Ledger`: `entries` (the entry file) and `clockin` (the clock-in file). A missing file is `None`.
- **Errors** are the `Store.Error` values `AlreadyRunning`, `NotRunning`, `Overlap` and `NotFound`.
- **Integer division:** Rust's `/` and `%` on integers truncate toward zero. They are written out as `Durations.TruncDiv60` and `Durations.TruncRem60`, because Dafny's operators are Euclidean.

Module layout:
- `wrappers.dfy`: `Option`, `Result`, `Outcome`.
- `durations.dfy`: `HumanDuration`, `Add`, the span conversion, and the algebraic laws.
- `duration_display.dfy`: the `{:02}:{:02}h` text form and its read-back.
- `calendar.dfy`: dates, day numbers, `days_in_month`, the rounding in `now()`, and the time-only start rule.
- `entries.dfy`: `Entry`, `entries_overlap`, the derived order, the sort specification, and the in-place sort.
- `store.dfy`: the overlap-checked append as a function, the comment filter, the tail slice, and the rows of `show`.
- `summary.dfy`: grouping by month, `dedup`, the per-month row, and the sorted table.
- `ledger.dfy`: the `Ledger` class, whose methods are the commands.

Three behaviours of the code differ from what a reader might expect, and the model follows the code:
- **Duplicate entries.** One might expect a second copy of an existing entry to be refused. The code accepts it: every comparison in `entries_overlap` is strict, so two entries with the same start and end do not overlap (`Entries.EntriesOverlap`). A ledger without overlaps therefore accepts a copy of one of its entries (`Store.ClockedAcceptsCopy`).
- **Rounding of `now()`.** `duration_round(Duration::minutes(1))` rounds to the nearest minute, with a tie going up, rather than down to the minute (`Calendar.RoundToMinute`).
- **Minutes after addition.** With Rust's truncating `%`, the minutes of a sum end up in [0, 60) whenever the operands' minutes add up to zero or more. Operands with non-negative minutes always do (`DurationLaws.AddNormalized`), and `(0, -10) + (0, 50)` does too. A negative sum of minutes gives minutes in (-60, 0], which are 0 only when that sum is a multiple of 60: `(0, -30) + (0, -30)` is `(-1, 0)` (`DurationLaws.AddMinutesRange`). In general the minutes lie in (-60, 60) (`Durations.Add`).

## Model

| member | source | states |
|---|---|---|
| Durations.TruncRem60 | src/main.rs:311-314 | Rust's `% 60`: dividend = 60 * truncated quotient + remainder, the remainder in [0, 60) for a non-negative dividend and in (-60, 0] for a negative one |
| Durations.TruncDiv60 | src/main.rs:312 | Rust's `/ 60`: the quotient truncated toward zero, so 60 times it lies within 60 below a non-negative dividend and within 60 above a negative one |
| Durations.Zero | src/main.rs:215-220 | `zero()` is the normalized duration with no hours and no minutes |
| Durations.Add | src/main.rs:306-316 | the minutes of a sum always lie strictly between -60 and 60 |
| Durations.FromSpan | src/main.rs:318-325 | the converted duration has exactly the span's length; a non-negative span of m minutes gives (m / 60, m % 60), normalized with non-negative hours; a negative span gives non-positive hours and minutes in (-60, 0] |
| DurationLaws.AddTotal | src/main.rs:306-316 | addition carries overflow into the hours, so the length of the sum is the sum of the lengths |
| DurationLaws.AddMinutesRange | src/main.rs:310-314 | the minutes of a sum lie in [0, 60) whenever the operands' minutes add up to zero or more, and otherwise in (-60, 0], being 0 exactly when that negative sum is a multiple of 60 |
| DurationLaws.AddNormalized | src/main.rs:306-316 | operands with non-negative minutes give a sum whose minutes lie in [0, 60), and the sum's hours are non-negative when both operands' are |
| DurationLaws.AddCommutative | src/main.rs:306-316 | `a + b == b + a` |
| DurationLaws.AddAssociative | src/main.rs:306-316 | on normalized durations `a + (b + c) == (a + b) + c` |
| DurationLaws.ZeroIdentity | src/main.rs:215-220 | `zero()` is a left and right identity of `+` for minutes in (-60, 60) |
| DurationDisplay.Pad2 | src/main.rs:245 | `{:02}` prints a non-negative number as at least two digits that read back as the number, exactly two below 60, and a negative one with a leading minus |
| DurationDisplay.Format | src/main.rs:243-247 | a duration with non-negative hours and minutes in [0, 60) is printed in the shape `^\d{2,}:\d{2}h$`; one with negative hours starts with a minus and misses that shape |
| DurationDisplay.FormatRoundTrip | src/main.rs:243-247 | the text of a duration with non-negative hours and minutes in [0, 60) reads back as that duration |
| DurationDisplay.SpanDisplay | src/main.rs:238-247 | the duration of an entry that does not end before it starts prints in the shape `^\d{2,}:\d{2}h$` |
| DurationDisplay.NegativeSpanDisplay | src/main.rs:243-247 | a span of an hour or more backwards prints with a leading minus and misses that shape |
| Calendar.MonthLength | src/main.rs:450 | the length of a month is between 28 and 31 days, and 29 exactly for February of a leap year |
| Calendar.CivilFromDays | src/main.rs:342 | every day number has a valid calendar date whose day number it is |
| Calendar.CivilFromDayNumber | src/main.rs:342 | the date of a valid date's day number is that date: dates and day numbers correspond one to one |
| Calendar.DayNumberInjective | src/main.rs:342 | two valid dates with the same day number are the same date |
| Calendar.AddOneMonth | src/main.rs:450 | `checked_add_months(1)`: a valid date in the next month, and in the next year after December; the same day, or that month's last day when the day does not exist there |
| Calendar.DaysInMonth | src/main.rs:449-452 | `days_in_month` is between 28 and 31; it is the month's length when the next month holds the same day, and otherwise the count up to the next month's last day |
| Calendar.SameDateSameDay | src/main.rs:342-343 | two instants have the same date exactly when they have the same day number |
| Calendar.DayNumberMonotone | src/main.rs:342-343 | a later instant never has an earlier day |
| Calendar.At | src/main.rs:551 | `NaiveDateTime::new(date, time)` has that date and that time of day |
| Calendar.RoundToMinute | src/main.rs:522-524 | the rounded clock reading is the nearest minute, with a tie going up: within [-30, 30) seconds of the reading |
| Calendar.TimeOnlyStart | src/main.rs:543-551 | the start has the given time of day, lies strictly before now and at most a day before it, and falls on today's date exactly when the current time of day is strictly later than the given time |
| Calendar.TimeOnlyStartIsLatest | src/main.rs:543-551 | no earlier-than-now instant with that time of day is later than the chosen start |
| Entries.Duration | src/main.rs:238-240 | an entry's duration is as long as end minus start, and normalized with non-negative hours when the entry does not end before it starts |
| Entries.EntriesOverlap | src/main.rs:486-491 | overlapping entries that do not run backwards share some time; entries with the same start and end never overlap |
| Entries.OverlapSymmetric | src/main.rs:486-491 | `entries_overlap(a, b) == entries_overlap(b, a)` |
| Entries.TouchingDoNotOverlap | src/main.rs:486-491 | an entry that ends exactly when another starts does not overlap it |
| Entries.OverlapCharacterized | src/main.rs:486-491 | for entries of positive length: overlap iff the spans intersect and are not the same span |
| Entries.EntryLeTotal | src/main.rs:134-144 | the derived order on entries (start, end, comment; `None` first) is total |
| Entries.EntryLeAntisymmetric | src/main.rs:134-144 | entries that are each at most the other are equal |
| Entries.EntryLeTransitive | src/main.rs:134-144 | the derived order is transitive |
| Entries.SortEntries | src/main.rs:384 | the sorted entries are in the derived order and are a permutation of the input |
| Entries.SortedUnique | src/main.rs:384 | two sorted permutations of the same entries are equal, so any correct sort gives the same result |
| Entries.SortEntriesCanonical | src/main.rs:384 | sorting ignores the input's order and leaves sorted input as it is |
| Entries.SortInPlace | src/main.rs:384 | `entries.sort()` in place leaves the array equal to `SortEntries` of its old contents |
| Store.NoOverlapsByPosition | src/main.rs:388-391 | "no two stored entries overlap" read by membership is the same as read by distinct positions |
| Store.Clocked | src/main.rs:383-402 | `clock` fails, with `Overlap`, exactly when the new entry overlaps a stored one; on success the ledger is one entry longer and ends with the new entry |
| Store.ClockedContents | src/main.rs:383-402 | a successful clock keeps every stored entry and adds the new one once, with the old entries in sorted order |
| Store.ClockedKeepsNoOverlaps | src/main.rs:388-402 | a ledger without overlaps keeps that property through a successful clock |
| Store.ClockedAcceptsCopy | src/main.rs:388-391 | a ledger without overlaps accepts a copy of an entry it already holds, which then occurs once more |
| Store.ClockedBackToBack | src/main.rs:388-402 | an entry starting exactly when the stored one ends is accepted after it |
| Store.ClockedRejectsStaggered | src/main.rs:388-391 | an entry starting inside the stored one and ending after it is refused with `Overlap` |
| Store.Kept | src/main.rs:613 | the filter predicate of `show` and `summarize` (also src/main.rs:669) drops only an entry with a comment, and only when there is a pattern |
| Store.Filter | src/main.rs:612-615 | an entry survives the filter iff it is in the input and has no comment, or there is no pattern, or its comment matches; nothing is added |
| Store.FilterCounts | src/main.rs:612-615 | every kept entry survives as many times as it occurs, copies included, and every other entry not at all |
| Store.FilterWithoutPattern | src/main.rs:666-671 | without a pattern nothing is dropped |
| Store.FilterKeepsSorted | src/main.rs:612-615 | filtering keeps the relative order, so sorted entries stay sorted |
| Store.TailSlice | src/main.rs:617-623 | tail 0 keeps everything; otherwise the result is the suffix of length min(tail, length) |
| Store.TailSliceMonotone | src/main.rs:692-698 | a shorter tail gives a suffix of the slice a longer tail gives |
| Store.ToTableEntry | src/main.rs:327-337 | a `show` row has the start's date and the start's time of day, which together give back the start; the end's time of day; the entry's duration; and the comment's text, or the empty text when there is none |
| Store.ShownRows | src/main.rs:598-623 | `show` lists at most `tail` rows when tail > 0, and never more rows than stored entries |
| Store.ShownRowsFromKeptEntries | src/main.rs:611-623 | every row `show` lists is the row of a stored entry that the filter keeps |
| Summary.MonthOf | src/main.rs:677 | the month key of an entry names one of the twelve months |
| Summary.MonthOfContainsStart | src/main.rs:677 | the month key of an entry is a valid month that contains the entry's start day |
| Summary.InMonthMembers | src/main.rs:675-685 | a month's group holds exactly the entries that start in that month |
| Summary.InMonthSorted | src/main.rs:675-685 | a month's group keeps the entries' sorted relative order |
| Summary.GroupByMonth | src/main.rs:673-685 | the grouping loop makes a group for exactly the months with an entry, and each group is that month's entries in order |
| Summary.Dedup | src/main.rs:343 | `dedup` never lengthens a vector and keeps its last element |
| Summary.DedupMembers | src/main.rs:343 | `dedup` loses no value |
| Summary.DedupInPlace | src/main.rs:342-343 | the in-place `dedup` leaves the kept prefix equal to `Dedup` of the old contents |
| Summary.DedupCountsDistinct | src/main.rs:341-345 | on sorted day numbers `dedup` leaves exactly one copy of each, and at least one when the input is not empty |
| Summary.TotalDurationSums | src/main.rs:345-346 | the fold of `+` from zero is as long as the summed entry lengths, and normalized with non-negative hours when no entry ends before it starts |
| Summary.RowOf | src/main.rs:339-358 | the row of a month carries that month, counts every entry, is as long as all of them, and has between 1 and `nitems` days when there are entries |
| Summary.SummarizeGroup | src/main.rs:339-358 | the row of a month is its total from the fold, its number of deduplicated start days and its number of entries |
| Summary.RowDays | src/main.rs:341-347 | for a sorted non-empty month, `days` is the number of distinct start dates, between 1 and `nitems` |
| Summary.SortRows | src/main.rs:690 | sorting the rows keeps exactly the same rows and their number |
| Summary.SortRowsStrict | src/main.rs:687-690 | rows with distinct months come out of the sort in strictly increasing month order |
| Summary.CollectRows | src/main.rs:687-689 | draining the map yields one row per group, the row of that group, with no month twice |
| Summary.MonthlySummary | src/main.rs:673-690 | the table has one row per month with an entry and no other, in strictly increasing month order, each the row of that month's entries |
| Summary.SummaryMonths | src/main.rs:673-690 | the months of the table are exactly the months in which some entry starts |
| Summary.MonthlySummaryUnique | src/main.rs:673-690 | the table is determined by the entries, whatever order the map is drained in |
| Summary.EntryInOneRow | src/main.rs:675-685 | every entry is counted in exactly one row, the row of its month |
| Summary.SummaryCountsAddUp | src/main.rs:339-358 | the entry counts of the rows add up to the number of entries summarized |
| Summary.SummaryRowsCounted | src/main.rs:339-358 | over sorted entries each row has 1 <= days <= nitems, days equal to its distinct start dates, and a total as long as its entries |
| LedgerState.DurationSpan | src/main.rs:405-420 | the entry of `clock_duration` spans exactly the requested minutes, starting at the given start or ending at now |
| LedgerState.AnyOverlap | src/main.rs:388-391 | the scan of `clock` answers true exactly when the new entry overlaps some entry of the array |
| LedgerState.Ledger.Clock | src/main.rs:374-403 | the new entry file is the result of `Store.Clocked` on the old one (a missing file reads as empty), and it is unchanged on failure; the clock-in file is untouched; a ledger without overlaps stays without overlaps |
| LedgerState.Ledger.ClockDuration | src/main.rs:405-420 | clocks the entry spanning the requested minutes, with the same outcome and state as `Clock` |
| LedgerState.Ledger.ClockIn | src/main.rs:423-437 | with a clock running it fails with `AlreadyRunning` and leaves the marker; otherwise it stores the given start, or now; entries untouched |
| LedgerState.Ledger.ClockOut | src/main.rs:440-447 | without a marker it fails with `NotRunning` and changes nothing; otherwise it clocks marker..now, removing the marker only on success and keeping it and the entries on an overlap |
| LedgerState.Ledger.Abort | src/main.rs:363-372 | without a marker it fails with `NotRunning`; otherwise it removes the marker; entries untouched |
| LedgerState.Ledger.Show | src/main.rs:598-635 | a namespace without an entry file fails with `NotFound`; otherwise the result is the rows of the sorted, filtered entries, cut to the tail |
| LedgerState.Ledger.Summarize | src/main.rs:653-710 | a namespace without an entry file fails with `NotFound`; otherwise the result is the tail of the monthly table of the sorted, filtered entries |

## Left out

- `hours_per_week` (src/main.rs:348-350, 355) is `f32` arithmetic formatted with `{:.2}`. It is not modelled, and summary rows carry no such field. `days_in_month`, its only input from the calendar, is modelled.
- The `f64` hours-to-minutes cast in `clock_duration` is not modelled. The span is taken as a whole number of minutes.
- Parsing of start times with `strftime` formats is not modelled. The parsed time of day and the explicit start arrive as integers.
- `Local` timezone conversion is not modelled: `from_local_datetime(..).unwrap()`, daylight-saving gaps and offsets. Instants are local wall-clock minutes.
- Seconds of an explicit `%S` start are not kept.
- The system clock is not read. `now` is a parameter of the commands, already rounded.
- Calendar.RoundToMinute works on whole seconds. Sub-second nanoseconds, and the `None` that `duration_round` returns out of range, are not modelled.
- Reading, writing and deleting files (xdg, `fs`, `serde_yaml`) become updates of the two fields. The errors of those steps are not modelled: unreadable or corrupt files, a failed write or removal, and the panic of `data_file_exists(..).unwrap()`.
- Store.Filter takes the regular expression as a given `matches` function on the comment. `Regex::new` and its compile error are not modelled.
- Table rendering (`tabled`, `wrap`, colours), `println!` output and `status` are not modelled. They only print.
- The editor, git and `print_path` subprocesses and paths are not modelled.
- clap argument parsing and the `Display` of `Command` are not modelled.
- 64-bit overflow of `i64` hours, minutes and timestamps is not modelled. Integers are unbounded.
- The `None` of chrono's `checked_add_months` and `checked_sub_days` at the ends of chrono's date range is not modelled. Years are unbounded.
- Summary.MonthOf: the month label `%Y/%m %B` is kept as the pair (year, month). Its text order equals the pair order only for years 0 to 9999, where `%Y` has four digits.
- Summary.SortRows: `table_items.sort()` compares whole `SummaryTableItem`s. SortRows compares only months, and its contract promises strict month order only for rows with distinct months. Those are the only rows `summarize` sorts, and there the month decides alone.
- Summary.SummarizeGroup: `dates.dedup()` compares `NaiveDate`s. The model dedups day numbers, which correspond one to one to dates (`Calendar.SameDateSameDay`, `Calendar.CivilFromDayNumber`).
- Entries.SortInPlace: `Vec::sort` is a stable merge sort, and the model sorts by insertion. Under the derived total order every correct sort gives the same result (Entries.SortedUnique).
- Summary.CollectRows: `HashMap::drain` yields the groups in an unspecified order. The model takes them in any order, and the sorted table does not depend on it (Summary.MonthlySummaryUnique).
- The addition `a + (b + c) == (a + b) + c` is proved only for normalized operands. With negative minutes the result can differ in representation, though not in length (DurationLaws.AddTotal).
