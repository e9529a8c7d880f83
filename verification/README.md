# Habit tracker: registry, completion log and statistics

A Dafny model of the data layer of a desktop habit tracker. The application keeps a
registry of habits (a name and a monthly goal each) and a completion log, the file
`habits_data.csv`. Each row of the log is one (habit, goal, date, completed) record.
On top of these it draws a monthly grid (one checkbox per day, a completion count, a
percentage and its colour) and three charts (monthly progress, the last three days,
momentum). `concept.py` and `main.py` are two front ends with the same logic. The model
covers that logic once, and the table below cites whichever file shows each piece best.
The tooltip exists only in `main.py`.

The modules follow the program's concepts:

- `Wrappers`: `Option`, standing for a Python call that raises or finds nothing.
- `Calendar`: proleptic Gregorian dates (years 1..9999, as in Python's `datetime`) and
  Python's `toordinal` day numbers. It also holds "one day earlier", days in a month
  computed from the first day of the next month, and `weekday()` with the `M T W T F S S`
  header.
- `Text`: `str.strip()`, `int()` and `str()` for goals, the slice `s[:k]`, and `wrap_text`.
- `DateText`: the `YYYY-MM-DD` text that `strftime` writes and `strptime` reads.
- `Habits`: the registry and the log, `load_habits`, `add_habit` and `mark_habit`.
- `Stats`: the completion key set, the grid row of each habit (count of checked days,
  truncated percentage, colour band, wrapped name and tooltip) and the whole grid.
- `Charts`: the counting loop of `update_graphs` (`monthly_progress`, `last_3_days`,
  `momentum`) and the values the three charts are drawn from.

The log is a `seq<Row>` in file order, and each row's date is a valid calendar date. The
program compares a row's date column as text (`row['date'] == date_str`). The model
does the same through `FormatDate`, and proves that this text comparison is exactly a
comparison of dates. The wall clock becomes a `today` parameter, and the displayed month
becomes parameters `y, m`.

## Model

| member | source | states |
|---|---|---|
| `Calendar.DayBefore` | concept.py:192-194 | `d - timedelta(days=1)`: a valid date whose day number is exactly one less, and which comes before `d` in calendar order |
| `Calendar.FirstOfNextMonth` | concept.py:191-194 | the first day of the following month; December rolls over to January of the next year. Its day number is one more than that of the month's last day |
| `Calendar.MonthDay` | concept.py:225 | `datetime(y, m, day)` for a day of the month is the valid date with those fields, lying `DaysInMonth - day + 1` day numbers before the first day of the next month |
| `Calendar.DaysInMonth` | concept.py:189-196 | the day of "first of next month minus one day" equals the Gregorian length of the month |
| `Calendar.DaysInMonthFacts` | main.py:189-196 | days in a month lie in 28..31, February has 29 exactly in leap years, and the last day is followed by the first day of the next month |
| `Calendar.OrdinalOrder` | concept.py:319 | comparing day numbers is comparing dates: earlier means a smaller number, and equal numbers mean equal dates |
| `Calendar.DayBeforeUnique` | concept.py:194 | the day before is the only valid date one day number earlier |
| `Calendar.WeekdayAdvances` | concept.py:224-226 | from one day to the next the weekday index advances by one, modulo 7 |
| `Calendar.WeekdayLabel` | concept.py:224-226 | `weekdays[date.weekday()]`: `M` exactly on Mondays, `T` exactly on Tuesdays and Thursdays, `W` on Wednesdays, `F` on Fridays, `S` exactly on weekends |
| `Calendar.WeekdayHeader` | concept.py:223-226 | the header has one weekday letter per day of the month, each the letter of that day's weekday |
| `Calendar.Weekday` | concept.py:226 | `date.weekday()` is an index 0..6 into the seven header letters |
| `Calendar.WeekdayAnchor` | concept.py:224-226 | index 0 is Monday: 1 January 2024, a Monday, has weekday 0 |
| `Calendar.WeekLater` | concept.py:226 | a date seven days later falls on the same weekday |
| `Calendar.WeekdayHeaderPeriodic` | main.py:221-224 | header letters repeat every seven days |
| `Text.Strip` | concept.py:135-136 | `strip()` cuts whitespace off both ends only: the result is an infix with whitespace on either side, has no whitespace at its ends, and is empty exactly when the text is all whitespace |
| `Text.ParseInt` | concept.py:142-147 | `int()` on a stripped entry succeeds exactly for an optional sign followed by digits; the magnitude of the result is the decimal value of the digits after the sign (so `+5` and `007` give 5 and 7); a leading minus gives a non-positive value, otherwise the value is non-negative |
| `Text.IntToString` | concept.py:174 | `str(goal)` as the log stores it: an integer text without a plus sign, a minus exactly for a negative goal, digits without leading zeros whose value is the goal's magnitude |
| `Text.ParseIntRoundTrip` | concept.py:67 | a goal written with `str()` is read back by `int()` as the same goal, negative goals included |
| `Text.PrefixUpTo` | concept.py:182 | Python's `s[:k]`: a prefix, clamped to the length, with a negative `k` counting from the end |
| `Text.WrapText` | concept.py:178-182 | returns the text when it fits; otherwise the result ends in `..`, and for a limit of at least 2 it has exactly that length and keeps the first limit-2 characters; for a limit of at least 1, unchanged exactly when it fits |
| `DateText.FormatDate` | concept.py:158 | `strftime("%Y-%m-%d")` writes ten characters with dashes at positions 4 and 7, and the three digit fields read as the date's year, month and day |
| `DateText.ParseDate` | concept.py:314 | `strptime` succeeds only on ten characters with dashes at positions 4 and 7 |
| `DateText.ParseFormatRoundTrip` | main.py:157 | the date text written to the log parses back to the same date |
| `DateText.FormatParseRoundTrip` | main.py:332 | any text that parses is exactly the text written for the parsed date |
| `DateText.FormatDateInjective` | concept.py:166-168 | two dates have equal text exactly when they are equal |
| `Habits.LoadHabits` | concept.py:59-68 | the rebuilt registry has non-empty, pairwise distinct names and no more habits than the log has rows |
| `Habits.LoadHabitsNames` | concept.py:64-67 | a name is registered exactly when it is non-empty and some row mentions it |
| `Habits.LoadHabitsGoals` | main.py:57-60 | each registered habit carries the goal of the first row with its name |
| `Habits.LoadHabitsOrder` | concept.py:64-67 | registry order is the order of the names' first rows |
| `Habits.LoadHabitsAppend` | main.py:52-61 | one more row extends the registry by one habit, at the end, exactly when it names a new non-empty habit |
| `Habits.AddHabit` | concept.py:134-155 | each error case holds exactly when the source rejects: a blank name or goal, a goal that is not an integer, a registered name. Every error leaves the state unchanged. Success appends exactly one habit at the end, leaves the earlier habits and the log untouched, and keeps names distinct and non-empty |
| `Habits.AddFreshHabit` | main.py:133-151 | a new non-blank name with an integer goal is accepted, and then exactly one registry entry has that name, with that goal |
| `Habits.IsMarked` | concept.py:165-168 | the scan finds a row only for a date text that `strptime` accepts, and then some row of the habit has the date that text names |
| `Habits.IsMarkedOnDate` | concept.py:166-168 | the text check of `mark_habit` finds a row exactly when some row has that habit and that date |
| `Habits.GoalOf` | concept.py:173 | `next(...)` finds the goal of the first registry entry with the name |
| `Habits.GoalOfUnique` | main.py:173 | in a registry with distinct names, that goal belongs to the only entry with the name |
| `Habits.MarkHabit` | concept.py:157-176 | the registry is unchanged. A day already marked leaves the log unchanged; otherwise exactly one row (name, registered goal, date, 1) is appended. Afterwards the day is marked, and exactly the earlier marks plus this one are marked |
| `Habits.MarkIdempotent` | main.py:156-176 | marking a day twice leaves the same state as marking it once |
| `Habits.MarkKeepsKeysUnique` | concept.py:161-174 | marking never creates a second row for the same habit and date |
| `Habits.ReloadAfterMark` | concept.py:170-174 | after a mark, a reload gains the habit, at the end and with its registered goal, exactly when the log did not mention it before |
| `Habits.AddedHabitPersistsOnlyOnceMarked` | concept.py:150-152 | a newly added habit is absent from a reload until its first mark; once marked, a reload gives back the in-memory registry exactly |
| `Stats.CompletionKeys` | concept.py:199-205 | a (habit, date text) pair is a key exactly when the habit is non-empty and some row records that pair |
| `Stats.IsChecked` | concept.py:265-267 | a day's box is checked exactly when some key of the habit holds a date text that `strptime` reads as that day |
| `Stats.CountCheckedDays` | concept.py:263-269 | after days 1..n the running count is the number of checked days among them, so it is at most n |
| `Stats.DayBoxes` | concept.py:264-288 | one box per day of the month, box i checked exactly when the key of day i + 1 is present |
| `Stats.GridCompleted` | main.py:261-268 | a habit's count is the number of distinct checked days of the month, at most the days in the month |
| `Stats.Progress` | concept.py:291 | 0 for a goal that is not positive; otherwise the whole part `p` of 100·completed/goal, so `p·goal <= 100·completed < (p+1)·goal`, and at most 100 while completed <= goal |
| `Stats.ProgressBand` | concept.py:292 | the colour of a percentage: danger exactly below 30, success exactly from 70, warning exactly in between |
| `Stats.BandOfCounts` | concept.py:291-292 | the band is the danger colour exactly below 30 % of the goal (always for a goal that is not positive), and the success colour exactly from 70 % |
| `Stats.BandMonotone` | main.py:291 | a higher percentage never has a worse band |
| `Stats.HabitRow` | main.py:244-291 | one habit's grid row: the name wrapped at 18 characters (when longer than 18: its first 16 characters followed by `..`), with a tooltip exactly when the name is longer than 18, which is exactly when wrapping changed it. Also one box per day, checked exactly when that day's key is present; the count of checked days; the percentage and band of that count |
| `Stats.Grid` | concept.py:244-292 | one grid row per registered habit, in registry order |
| `Stats.DuplicateRowCollapses` | concept.py:203-205 | a row repeating a recorded (habit, date) pair adds no completion key |
| `Stats.CheckedDaysOfKeys` | main.py:200-206 | a day of a non-empty habit is checked exactly when some log row records the habit on that day |
| `Stats.MarkKeys` | main.py:169-174 | marking adds exactly the (habit, date text) pair of the mark to the completion keys |
| `Stats.MarkGridEffect` | concept.py:263-269 | marking a new day of the displayed month raises that habit's grid count by one. A day already marked, or a day in another month, leaves it unchanged. No other habit's count changes |
| `Charts.Bump` | concept.py:317 | `d[h] = d.get(h, 0) + 1`: the count of `h` grows by one and no other count changes |
| `Charts.CountRows` | concept.py:309-324 | after the loop, `last_3_days` and `momentum` are the same map, neither map holds a zero count, and no empty habit name is a key |
| `Charts.CountRowsCounts` | concept.py:312-321 | a habit's monthly count is the number of its rows dated in the selected month, duplicates included; its last-three-days count is the number of its rows at most three days old |
| `Charts.CountRowsKeys` | main.py:330-342 | a habit is a key of `last_3_days` (and `momentum`) exactly when it is non-empty and has a row at most three days old. It is a key of `monthly_progress` exactly when it has a row in the selected month |
| `Charts.DaysAgo` | concept.py:319 | `(datetime.now() - date).days` is zero exactly on today, positive exactly for earlier dates and negative exactly for later ones |
| `Charts.IsRecent` | concept.py:319-320 | `days_ago <= 3` holds exactly when the row's day number plus 3 reaches today's; every row dated today or later passes |
| `Charts.InMonth` | concept.py:316 | a row dated in the selected month has a day of that month, and its date is exactly the grid's date for that day |
| `Charts.FutureRowsCounted` | concept.py:319-321 | a row dated after today has a negative age and counts as recent |
| `Charts.RecentWindow` | main.py:337-338 | a row is recent exactly when its date is not before the day three days before today |
| `Charts.DuplicateRowCounted` | main.py:333-335 | a repeated (habit, date) row adds one to the monthly count while the grid count stays the same |
| `Charts.MonthlyMatchesGrid` | concept.py:316-317 | when no (habit, date) pair occurs twice, which marking keeps, a habit's monthly count equals its grid count |
| `Charts.ChartBand` | concept.py:336-339 | the bar colour: danger below 30 % of the goal or for a goal that is not positive, success from 70 %, warning between |
| `Charts.ChartBandMatchesGrid` | main.py:354-357 | a bar has the same colour as the grid's truncated percentage for the same count and goal |
| `Charts.EmptyCounts` | concept.py:331 | `monthly_progress` is empty exactly when no row of a non-empty habit is in the month; `last_3_days` is empty exactly when no such row is recent |
| `Charts.DrawCharts` | concept.py:329-388 | the monthly and last-three-days charts are drawn exactly when there are habits and some counted row. They have one value per registered habit, in registry order: its row count for the month, or for the last three days. The momentum pie is drawn exactly when some row is recent, with one positive wedge per habit that has a recent row |

## Left out

- Widgets, layout, theming, scrolling, tooltip windows and chart styling are not modelled. They are UI with no invariants. The model keeps only the values they show.
- File I/O, `init_csv` and the `csv` module's quoting are not modelled. The log is a sequence of rows, and a missing file is the empty log.
- Malformed rows are not modelled: a row's goal is an `int` and its date a valid date, because the program itself only ever writes such rows. The program tolerates two kinds of odd rows that the model cannot express. A row with an empty date is skipped by the grid and the charts (concept.py:203, 312), yet `load_habits` still registers its habit (concept.py:65-66). A bad goal on a row that is not its habit's first row is never read, since `int(row['goal'])` runs only for the first row of each name. A bad goal on a first row, or a non-empty date that `strptime` rejects, makes the program raise.
- `datetime.now()` is a `today` parameter, and the selected month is a pair of parameters. The program calls `datetime.now()` again for every row (concept.py:319, main.py:337), so a pass that crosses midnight compares rows against two different days. The model uses one `today` for the whole pass.
- The `days` of `datetime.now() - date` is the difference of day numbers. The row date is at midnight, and the time of day of "now" is less than one day.
- Stats.Progress: the model uses integer `(100 * completed) / goal`. Python computes `int((completed / goal) * 100)` in floating point, which can come out one lower (completed 29, goal 100 gives 28).
- Charts.ChartBand: the model uses the exact percentage. The charts compare the floating-point `pct` with 30 and 70, which can differ from the exact comparison only at those two boundaries, through rounding. Bar lengths (the float `pct` itself) are not modelled.
- Text.ParseInt: the model accepts only ASCII digits with an optional sign. Python's `int()` also accepts underscores between digits and non-ASCII decimal digits. Zero and negative goals are accepted, as in the program.
- DateText.ParseDate: the model accepts only the fixed-width form that `strftime("%Y-%m-%d")` writes. `strptime` also accepts one-digit months and days. Rows the program wrote always have the fixed-width form.
- DateText.FormatDate: the year is written as four digits with leading zeros. For years below 1000, what `%Y` writes depends on the platform.
- Calendar.DaysInMonth: requires a month other than December 9999. For that month the program raises `ValueError` when it builds 1 January 10000.
- The pie's wedge order (the insertion order of `momentum`) and its colours are not modelled. `DrawCharts` models the wedges as a map.
- `main.py`'s wrapped chart labels are not modelled: it wraps them with `wrap_text` at 12 characters (bars) and 10 characters (pie wedges). `concept.py`'s labels, the habit names as they are, are the `name` of each `Bar` in `DrawCharts`.
- Clearing the entry fields and the `refresh_data` / `update_graphs` calls after `add_habit` and `mark_habit` are not modelled. They redraw the UI from the state the model computes.
